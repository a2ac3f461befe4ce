/** Wire arithmetic (src-api/rfc5444/rfc5444.c): sequence numbers that wrap
    around, and the lossy codes for times (section 5 of RFC 5497) and metrics
    (section 6.2 of RFC 7181). */
module Rfc5444 {
  // ----- sequence numbers

  const SEQNOS: int := 0x1_0000
  type Seqno = n: int | 0 <= n < 0x1_0000

  /** The signed distance from `b` to `a`, the short way round. */
  function SeqnoDifference(a: Seqno, b: Seqno): int {
    var diff := a - b;
    if diff > 0x8000 then diff - SEQNOS
    else if diff < -0x8000 then diff + SEQNOS
    else diff
  }

  /** Any number close enough to a known one is found again from its low bits. */
  lemma DifferenceUnwraps(n: int, known: int)
    requires -0x8000 < n - known < 0x8000
    ensures known + SeqnoDifference(n % SEQNOS, known % SEQNOS) == n
  {
  }

  lemma DifferenceWraps(a: Seqno, known: int)
    ensures (known + SeqnoDifference(a, known % SEQNOS)) % SEQNOS == a
    ensures -0x8000 <= SeqnoDifference(a, known % SEQNOS) <= 0x8000
    ensures SeqnoDifference(a, known % SEQNOS) == 0 <==> a == known % SEQNOS
  {
  }

  // ----- powers of two

  function Pow2(n: nat): (p: nat)
    ensures p > 0
  {
    if n == 0 then 1 else 2 * Pow2(n - 1)
  }

  lemma {:induction false} Pow2Sum(m: nat, n: nat)
    ensures Pow2(m) * Pow2(n) == Pow2(m + n)
    decreases n
  {
    if n > 0 {
      Pow2Sum(m, n - 1);
      Associate(Pow2(m), 2, Pow2(n - 1));
      Associate(2, Pow2(m), Pow2(n - 1));
    }
  }

  // ----- times

  const TIME_MIN: nat := 1
  const TIME_MAX: nat := 0xdac00000
  const UINT64: nat := 0x1_0000_0000_0000_0000
  type Uint64 = n: int | 0 <= n < 0x1_0000_0000_0000_0000
  type TimeCode = c: int | 0 <= c < 256

  function Mantissa(c: TimeCode): (m: nat)
    ensures 1000 <= m <= 1875
  {
    1000 + 125 * (c % 8)
  }

  /** rfc5444_timetlv_decode, in milliseconds. */
  function TimeDecode(encoded: TimeCode): int {
    if encoded == 0 then 0
    else if encoded == 255 then UINT64 - 1
    else
      var b := encoded / 8;
      if b <= 10 then Mantissa(encoded) / Pow2(10 - b) else Mantissa(encoded) * Pow2(b - 10)
  }

  /** The least code from `c` on that stands for at least the time `t`. */
  function LeastTimeCode(t: Uint64, c: TimeCode): TimeCode
    decreases 255 - c
  {
    if c == 255 || TimeDecode(c) >= t then c else LeastTimeCode(t, c + 1)
  }

  /** mantissa * 2^b / 2^10 is at least t. */
  predicate Reaches(mantissa: nat, b: nat, t: nat) {
    mantissa * Pow2(b) >= t * 1024
  }

  lemma DivisionReaches(m: nat, d: nat, t: nat)
    requires d > 0
    ensures m / d >= t <==> m >= t * d
  {
    var q := m / d;
    assert m == q * d + m % d;
    if q >= t {
      ScaleReaches(q, t, d);
    } else {
      ScaleReaches(t, q + 1, d);
      assert (q + 1) * d == q * d + d;
    }
  }

  lemma Pow2Ten()
    ensures Pow2(10) == 1024
  {
    assert Pow2(5) == 32;
    Pow2Sum(5, 5);
  }

  lemma ScaleReaches(x: nat, y: nat, k: nat)
    requires k > 0
    ensures x >= y <==> x * k >= y * k
  {
  }

  /** A code stands for at least a time exactly if its mantissa reaches it. */
  lemma DecodeReaches(c: TimeCode, t: nat)
    requires 0 < c < 255
    ensures TimeDecode(c) >= t <==> Reaches(Mantissa(c), c / 8, t)
  {
    if c / 8 <= 10 {
      FractionReaches(Mantissa(c), c / 8, t);
    } else {
      MultipleReaches(Mantissa(c), c / 8, t);
    }
  }

  lemma FractionReaches(m: nat, b: nat, t: nat)
    requires b <= 10
    ensures m / Pow2(10 - b) >= t <==> Reaches(m, b, t)
  {
    var d, p := Pow2(10 - b), Pow2(b);
    Pow2Ten();
    Pow2Sum(10 - b, b);
    DivisionReaches(m, d, t);
    ScaleReaches(m, t * d, p);
    Associate(t, d, p);
  }

  lemma MultipleReaches(m: nat, b: nat, t: nat)
    requires b > 10
    ensures m * Pow2(b - 10) >= t <==> Reaches(m, b, t)
  {
    var d := Pow2(b - 10);
    Pow2Ten();
    Pow2Sum(b - 10, 10);
    ScaleReaches(m * d, t, 1024);
    Associate(m, d, 1024);
  }

  lemma Associate(x: nat, y: nat, z: nat)
    ensures (x * y) * z == x * (y * z)
  {
  }

  /** Mantissas grow from code to code. */
  lemma MantissaStep(c: TimeCode)
    requires c < 255
    ensures Mantissa(c) * Pow2(c / 8) <= Mantissa(c + 1) * Pow2((c + 1) / 8)
  {
    if (c + 1) % 8 == 0 {
      assert (c + 1) / 8 == c / 8 + 1;
      ScaleReaches(2000, 1875, Pow2(c / 8));
    } else {
      assert (c + 1) / 8 == c / 8 && Mantissa(c + 1) == Mantissa(c) + 125;
      ScaleReaches(Mantissa(c + 1), Mantissa(c), Pow2(c / 8));
    }
  }

  lemma DecodeNotNegative(c: TimeCode)
    ensures TimeDecode(c) >= 0
  {
    if 0 < c < 255 {
      DecodeReaches(c, 0);
    }
  }

  /** Decoding is monotone. */
  lemma {:induction false} TimeMonotone(c: TimeCode, d: TimeCode)
    requires c <= d
    ensures TimeDecode(c) <= TimeDecode(d)
    decreases d
  {
    DecodeNotNegative(c);
    DecodeNotNegative(d);
    if c < d == 255 {
      TimeMonotone(c, 254);
      EndlessTime();
    } else if 0 < c < d {
      TimeMonotone(c, d - 1);
      DecodeReaches(d - 1, TimeDecode(c));
      MantissaStep(d - 1);
      DecodeReaches(d, TimeDecode(c));
    }
  }

  /** Code 255 stands for more than the code before it. */
  lemma EndlessTime()
    ensures TimeDecode(254) < TimeDecode(255)
  {
    Pow2Ten();
    Pow2Sum(10, 10);
    assert TimeDecode(254) == 1750 * Pow2(21) && Pow2(21) == 2 * Pow2(20);
  }

  /** And no time of 64 bits is longer. */
  lemma LongestTime(t: Uint64)
    ensures t <= TimeDecode(255)
  {
  }

  /** Below the code 80 a time is half of the time eight codes further, rounded down. */
  lemma TimeHalves(c: TimeCode)
    requires 0 < c < 80
    ensures TimeDecode(c) == TimeDecode(c + 8) / 2
  {
    var m, b := Mantissa(c), c / 8;
    assert (c + 8) / 8 == b + 1 && (c + 8) % 8 == c % 8;
    PowersTo10();
    hide Mantissa, Pow2;
    assert b in {0, 1, 2, 3, 4, 5, 6, 7, 8, 9};
  }

  lemma PowersTo10()
    ensures Pow2(0) == 1 && Pow2(1) == 2 && Pow2(2) == 4 && Pow2(3) == 8 && Pow2(4) == 16 && Pow2(5) == 32
    ensures Pow2(6) == 64 && Pow2(7) == 128 && Pow2(8) == 256 && Pow2(9) == 512 && Pow2(10) == 1024
  {
    assert Pow2(3) == 8;
    assert Pow2(6) == 64;
    assert Pow2(9) == 512;
  }

  /** The codes 80 to 87 stand for 1000 milliseconds and for each eighth more, eight
      codes further is twice as long, and eight codes before half as long. */
  lemma TimeScale(c: TimeCode)
    ensures 80 <= c < 88 ==> TimeDecode(c) == 1000 + 125 * (c - 80)
    ensures 80 <= c < 247 ==> TimeDecode(c + 8) == 2 * TimeDecode(c)
    ensures 0 < c < 80 ==> TimeDecode(c) == TimeDecode(c + 8) / 2
    ensures TimeDecode(0) == 0
  {
    if 0 < c < 80 {
      TimeHalves(c);
    } else if 80 <= c < 88 {
      assert c / 8 == 10 && c % 8 == c - 80;
      assert (c + 8) / 8 == 11 && (c + 8) % 8 == c % 8;
    } else if 88 <= c < 247 {
      var m, p := Mantissa(c), Pow2(c / 8 - 10);
      assert (c + 8) / 8 == c / 8 + 1 && (c + 8) % 8 == c % 8;
      assert TimeDecode(c + 8) == m * (2 * p);
      Associate(m, 2, p);
      Associate(2, m, p);
    }
  }

  lemma {:induction false} LeastTimeCodeIs(t: Uint64, from: TimeCode, c: TimeCode)
    requires from <= c && (c == 255 || TimeDecode(c) >= t)
    requires forall d :: from <= d < c ==> TimeDecode(d) < t
    ensures LeastTimeCode(t, from) == c
    decreases c - from
  {
    if from < c {
      LeastTimeCodeIs(t, from + 1, c);
    }
  }

  /** A code is the least one if the code before it falls short. */
  lemma LeastByNeighbour(t: Uint64, c: TimeCode)
    requires 0 < c <= 255 && (c < 255 ==> TimeDecode(c) >= t) && TimeDecode(c - 1) < t
    ensures LeastTimeCode(t, 0) == c
  {
    forall d | 0 <= d < c ensures TimeDecode(d) < t {
      TimeMonotone(d, c - 1);
    }
    LeastTimeCodeIs(t, 0, c);
  }

  /** `d` is the least mantissa that reaches `t` with exponent `b`. */
  ghost predicate IsLeastMantissa(d: int, b: nat, t: nat) {
    forall x: nat {:trigger Reaches(x, b, t)} :: Reaches(x, b, t) <==> x >= d
  }

  lemma LeastAtTen(t: nat)
    ensures IsLeastMantissa(t, 10, t)
  {
    Pow2Ten();
  }

  /** Halving and rounding up is right for the next exponent. */
  lemma LeastHalved(d: int, b: nat, t: nat)
    requires IsLeastMantissa(d, b, t)
    ensures IsLeastMantissa((d + 1) / 2, b + 1, t)
  {
    var c := b + 1;
    forall x: nat ensures Reaches(x, c, t) <==> x >= (d + 1) / 2 {
      TwiceReaches(x, b, t);
    }
  }

  lemma TwiceReaches(x: nat, b: nat, t: nat)
    ensures Reaches(x, b + 1, t) <==> Reaches(x * 2, b, t)
  {
    assert Pow2(b + 1) == 2 * Pow2(b);
    Associate(x, 2, Pow2(b));
  }

  /** A mantissa that is the time itself, doubled on the way down. */
  lemma LeastExact(d: nat, b: nat, t: nat)
    requires d * Pow2(b) == t * 1024
    ensures IsLeastMantissa(d, b, t)
  {
    forall x: nat ensures Reaches(x, b, t) <==> x >= d {
      ScaleReaches(x, d, Pow2(b));
    }
  }

  /** The largest exponent is large enough for the largest time. */
  lemma ReachesMost(m: nat, t: nat)
    requires t <= TIME_MAX && m >= 1750
    ensures Reaches(m, 31, t)
  {
    assert Pow2(5) == 32;
    Pow2Sum(5, 5);
    Pow2Sum(10, 10);
    Pow2Sum(20, 10);
    assert Pow2(31) == 2 * Pow2(30);
    assert Pow2(31) == 0x8000_0000;
    ScaleReaches(m, 1750, 0x8000_0000);
  }

  /** Rounding the mantissa up to the next code finds the least code. */
  lemma CodeFound(t: Uint64, d: int, b: nat)
    requires TIME_MIN <= t <= TIME_MAX && d < 2000 && b <= 31 && IsLeastMantissa(d, b, t)
    requires d > 1875 ==> b < 10
    requires d <= 1000 ==> b > 0 && !Reaches(1875, b - 1, t)
    ensures var a := if d <= 1000 then 0 else (d - 1000 + 124) / 125;
      a + 8 * b < 255 && LeastTimeCode(t, 0) == a + 8 * b
  {
    var a := if d <= 1000 then 0 else (d - 1000 + 124) / 125;
    var c := a + 8 * b;
    if b == 31 {
      ReachesMost(1750, t);
    }
    assert Reaches(1000 + 125 * a, b, t);
    CodeReaches(c, a, b, t);
    if a > 0 {
      assert !Reaches(1000 + 125 * (a - 1), b, t);
      CodeReaches(c - 1, a - 1, b, t);
    } else {
      CodeReaches(c - 1, 7, b - 1, t);
    }
    LeastByNeighbour(t, c);
  }

  /** A mantissa of eight eighths carries over into the exponent. */
  lemma CodeReaches(c: int, a: nat, b: nat, t: nat)
    requires a <= 8 && c == a + 8 * b && c < 255 && t > 0
    ensures c > 0 ==> (TimeDecode(c) >= t <==> Reaches(1000 + 125 * a, b, t))
    ensures c == 0 ==> TimeDecode(c) < t
  {
    if c > 0 {
      DecodeReaches(c, t);
      if a == 8 {
        assert Pow2(b + 1) == 2 * Pow2(b);
        Associate(1000, 2, Pow2(b));
      }
    }
  }

  /** Arithmetic on 64 bits without a sign. */
  function Wrapped(n: int): Uint64 {
    n % UINT64
  }

  /** The difference wraps around for mantissas that halving has brought below
      1000, and adding 124 undoes that. */
  lemma RoundedUp(d: Uint64)
    requires 876 <= d < 2000
    ensures Wrapped(Wrapped(d - 1000) + 124) / 125 == if d <= 1000 then 0 else (d - 1000 + 124) / 125
  {
    assert Wrapped(Wrapped(d - 1000) + 124) == d - 876;
  }

  /** rfc5444_timetlv_encode: the least code that stands for at least the time. */
  method TimeEncode(time: Uint64) returns (code: TimeCode)
    ensures code == LeastTimeCode(time, 0)
  {
    if time < TIME_MIN {
      return 0;
    }
    if time > TIME_MAX {
      MostIsLast(time);
      return 255;
    }
    var b: nat := 10;
    var decoded: Uint64 := time;
    if decoded >= 1000 {
      b, decoded := HalveDown(time);
    } else {
      b, decoded := DoubleUp(time);
    }
    CodeFound(time, decoded, b);
    RoundedUp(decoded);
    var a := Wrapped(Wrapped(decoded - 1000) + 124) / 125;
    code := a + 8 * b;
  }

  lemma MostIsLast(t: Uint64)
    requires t > TIME_MAX
    ensures LeastTimeCode(t, 0) == 255
  {
    LargestTime();
    LeastByNeighbour(t, 255);
  }

  lemma LargestTime()
    ensures TimeDecode(254) == TIME_MAX
  {
    Pow2Ten();
    Pow2Sum(10, 10);
    assert Pow2(21) == 2 * Pow2(20);
  }

  lemma SecondCode()
    ensures TimeDecode(80) == 1000
  {
    assert Pow2(0) == 1;
  }

  /** Divide by two and round up until the mantissa is in range. */
  method HalveDown(time: Uint64) returns (b: nat, decoded: Uint64)
    requires 1000 <= time <= TIME_MAX
    ensures 10 <= b <= 31 && decoded <= 1875 && decoded + 124 >= 1000 && IsLeastMantissa(decoded, b, time)
    ensures decoded <= 1000 ==> !Reaches(1875, b - 1, time)
  {
    b, decoded := 10, time;
    LeastAtTen(time);
    while decoded > 1875
      invariant 10 <= b <= 31 && decoded >= 938 && IsLeastMantissa(decoded, b, time)
      invariant b == 10 ==> decoded == time
      invariant b > 10 ==> !Reaches(1875, b - 1, time)
      decreases decoded
    {
      LeastHalved(decoded, b, time);
      if b == 31 {
        ReachesMost(1875, time);
      }
      assert !Reaches(1875, b, time);
      b := b + 1;
      decoded := decoded + 1;
      decoded := decoded / 2;
    }
    if b == 10 && decoded == 1000 {
      assert Pow2(9) == 512 by {
        Pow2Ten();
      }
    }
  }

  /** Double until the mantissa is in range. */
  method DoubleUp(time: Uint64) returns (b: nat, decoded: Uint64)
    requires TIME_MIN <= time < 1000
    ensures b < 10 && 1000 <= decoded < 2000 && IsLeastMantissa(decoded, b, time)
    ensures decoded <= 1000 ==> b > 0 && !Reaches(1875, b - 1, time)
  {
    b, decoded := 10, time;
    Pow2Ten();
    while decoded < 1000
      invariant b <= 10 && 0 < decoded < 2000 && decoded * Pow2(b) == time * 1024
      invariant b == 10 ==> decoded < 1000
      decreases b
    {
      assert b > 0;
      Associate(decoded, 2, Pow2(b - 1));
      b := b - 1;
      decoded := decoded * 2;
    }
    LeastExact(decoded, b, time);
    if decoded == 1000 {
      assert b > 0;
      ScaleReaches(1999, 1875, Pow2(b - 1));
      Associate(1000, 2, Pow2(b - 1));
    }
  }

  /** rfc5444_timetlv_get_from_vector: a vector holds values and the largest hop
      counts they are for in turn, and ends with the value for all larger ones. */
  method TimeFromVector(vector: seq<TimeCode>, hopcount: TimeCode) returns (code: TimeCode)
    ensures |vector| % 2 == 0 ==> code == 255
    ensures |vector| % 2 == 1 ==> exists k {:trigger vector[k]} ::
      && 0 <= k < |vector| && k % 2 == 0 && code == vector[k] && (k + 1 < |vector| ==> hopcount <= vector[k + 1])
      && forall j :: 0 <= j < k && j % 2 == 1 ==> hopcount > vector[j]
  {
    if |vector| % 2 == 0 {
      return 255;
    }
    var i := 1;
    while i < |vector|
      invariant 1 <= i <= |vector| && i % 2 == 1
      invariant forall j :: 0 <= j < i && j % 2 == 1 ==> hopcount > vector[j]
    {
      if hopcount <= vector[i] {
        return vector[i - 1];
      }
      i := i + 2;
    }
    code := vector[i - 1];
  }

  // ----- what follows for times

  /** Decoding an encoded time gives it back if it is the time of a code. */
  lemma TimeRoundTrip(c: TimeCode)
    ensures 0 <= TimeDecode(c) < UINT64
    ensures TimeDecode(LeastTimeCode(TimeDecode(c), 0)) == TimeDecode(c)
  {
    TimeRange(c);
    var e := LeastTimeCode(TimeDecode(c), 0);
    LeastReaches(TimeDecode(c), 0);
    if e > c {
      NoneBefore(TimeDecode(c), 0, c);
    }
    if c < 255 {
      TimeMonotone(e, c);
    } else {
      MostIsLast(UINT64 - 1);
    }
  }

  lemma TimeRange(c: TimeCode)
    ensures 0 <= TimeDecode(c) < UINT64 && (c < 255 ==> TimeDecode(c) <= TIME_MAX)
  {
    DecodeNotNegative(c);
    if c < 255 {
      TimeMonotone(c, 254);
      LargestTime();
    }
  }

  lemma {:induction false} LeastReaches(t: Uint64, from: TimeCode)
    ensures LeastTimeCode(t, from) >= from && TimeDecode(LeastTimeCode(t, from)) >= t
    decreases 255 - from
  {
    if from < 255 && TimeDecode(from) < t {
      LeastReaches(t, from + 1);
    }
  }

  lemma {:induction false} NoneBefore(t: Uint64, from: TimeCode, c: TimeCode)
    requires from <= c < LeastTimeCode(t, from)
    ensures TimeDecode(c) < t
    decreases c - from
  {
    if from < c {
      NoneBefore(t, from + 1, c);
    }
  }

  /** From a second on a decoded time is less than an eighth too long. */
  lemma TimeOvershoot(t: Uint64)
    requires 1000 <= t <= TIME_MAX
    ensures 8 * (TimeDecode(LeastTimeCode(t, 0)) - t) < t
  {
    var c := LeastTimeCode(t, 0);
    if c == 255 {
      NoneBefore(t, 0, 254);
      LargestTime();
    } else if c <= 80 {
      TimeMonotone(c, 80);
      SecondCode();
    } else {
      NoneBefore(t, 0, c - 1);
      TimeGap(c - 1);
    }
  }

  /** Codes from a second on are an eighth apart, or less. */
  lemma TimeGap(c: TimeCode)
    requires 80 <= c < 254
    ensures 8 * (TimeDecode(c + 1) - TimeDecode(c)) <= TimeDecode(c)
  {
    var p, m := Pow2(c / 8 - 10), Mantissa(c);
    assert TimeDecode(c) == m * p by {
      if c / 8 == 10 {
        assert Pow2(0) == 1;
      }
    }
    assert TimeDecode(c + 1) == (m + 125) * p by {
      NextTime(c, p);
    }
    EighthApart(m, p);
  }

  lemma NextTime(c: TimeCode, p: nat)
    requires 80 <= c < 254 && p == Pow2(c / 8 - 10)
    ensures TimeDecode(c + 1) == (Mantissa(c) + 125) * p
  {
    if c % 8 == 7 {
      assert (c + 1) / 8 == c / 8 + 1 && (c + 1) % 8 == 0;
      assert Pow2((c + 1) / 8 - 10) == 2 * p;
      Associate(1000, 2, p);
    } else {
      assert (c + 1) / 8 == c / 8 && Mantissa(c + 1) == Mantissa(c) + 125;
      if c / 8 == 10 {
        assert Pow2(0) == 1;
      }
    }
  }

  lemma EighthApart(m: nat, p: nat)
    requires m >= 1000
    ensures 8 * ((m + 125) * p - m * p) <= m * p
  {
    assert (m + 125) * p == m * p + 125 * p;
    assert m * p >= 1000 * p;
  }

  // ----- metrics

  const METRIC_MIN: nat := 1
  const METRIC_MAX: nat := 0xffff00
  const METRIC_INFINITE: nat := 0xffffff
  type Uint32 = n: int | 0 <= n < 0x1_0000_0000
  type MetricCode = c: int | 0 <= c < 4096

  /** rfc5444_metric_decode */
  function MetricDecode(encoded: MetricCode): int {
    (257 + encoded % 256) * Pow2(encoded / 256) - 256
  }

  /** The least code from `c` on that stands for at least the metric `v`. */
  function LeastMetricCode(v: int, c: MetricCode): MetricCode
    decreases 4095 - c
  {
    if c == 4095 || MetricDecode(c) >= v then c else LeastMetricCode(v, c + 1)
  }

  /** The first 256 codes stand for the metrics from 1 on, and 256 codes further it
      is twice as much, counted from -256. */
  lemma MetricScale(c: MetricCode)
    ensures c < 256 ==> MetricDecode(c) == c + 1
    ensures c < 3840 ==> MetricDecode(c + 256) + 256 == 2 * (MetricDecode(c) + 256)
  {
    if c < 3840 {
      var m, p := 257 + c % 256, Pow2(c / 256);
      assert (c + 256) / 256 == c / 256 + 1 && (c + 256) % 256 == c % 256;
      assert MetricDecode(c + 256) == m * (2 * p) - 256;
      Associate(m, 2, p);
      Associate(2, m, p);
    }
  }

  /** Decoding is strictly increasing, in steps that grow with the exponent. */
  lemma MetricStep(c: MetricCode)
    requires c < 4095
    ensures MetricDecode(c) < MetricDecode(c + 1)
    ensures MetricDecode(c + 1) - MetricDecode(c) == Pow2((c + 1) / 256)
    ensures 256 * Pow2((c + 1) / 256) <= MetricDecode(c) + 256
  {
    var p := Pow2(c / 256);
    if c % 256 == 255 {
      assert (c + 1) / 256 == c / 256 + 1 && (c + 1) % 256 == 0;
      assert Pow2((c + 1) / 256) == 2 * p;
      Associate(257, 2, p);
    } else {
      assert (c + 1) / 256 == c / 256 && (c + 1) % 256 == c % 256 + 1;
      ScaleReaches(257 + c % 256, 256, p);
    }
  }

  lemma {:induction false} MetricIncreasing(c: MetricCode, d: MetricCode)
    requires c < d
    ensures MetricDecode(c) < MetricDecode(d)
    decreases d
  {
    MetricStep(d - 1);
    if c < d - 1 {
      MetricIncreasing(c, d - 1);
    }
  }

  lemma {:induction false} LeastMetricCodeIs(v: int, from: MetricCode, c: MetricCode)
    requires from <= c && MetricDecode(c) >= v
    requires forall d :: from <= d < c ==> MetricDecode(d) < v
    ensures LeastMetricCode(v, from) == c
    decreases c - from
  {
    if from < c {
      LeastMetricCodeIs(v, from + 1, c);
    }
  }

  lemma LeastMetricByNeighbour(v: int, c: MetricCode)
    requires MetricDecode(c) >= v && (c > 0 ==> MetricDecode(c - 1) < v)
    ensures LeastMetricCode(v, 0) == c
  {
    forall d: MetricCode | 0 <= d < c ensures MetricDecode(d) < v {
      if d < c - 1 {
        MetricIncreasing(d, c - 1);
      }
    }
    LeastMetricCodeIs(v, 0, c);
  }

  /** Encoding a decoded metric gives back its code. */
  lemma MetricRoundTrip(c: MetricCode)
    ensures LeastMetricCode(MetricDecode(c), 0) == c
  {
    if c > 0 {
      MetricStep(c - 1);
    }
    LeastMetricByNeighbour(MetricDecode(c), c);
  }

  /** `d` is the least mantissa that stands for at least `v` with exponent `a`. */
  ghost predicate IsLeastMetric(d: int, a: nat, v: int) {
    forall x: nat {:trigger Covers(x, a, v)} :: Covers(x, a, v) <==> x >= d
  }

  predicate Covers(x: nat, a: nat, v: int) {
    x * Pow2(a) - 256 >= v
  }

  lemma LeastMetricHalved(d: int, a: nat, v: int)
    requires IsLeastMetric(d, a, v)
    ensures IsLeastMetric((d + 1) / 2, a + 1, v)
  {
    var b := a + 1;
    forall x: nat ensures Covers(x, b, v) <==> x >= (d + 1) / 2 {
      TwiceCovers(x, a, v);
    }
  }

  lemma TwiceCovers(x: nat, a: nat, v: int)
    ensures Covers(x, a + 1, v) <==> Covers(x * 2, a, v)
  {
    assert Pow2(a + 1) == 2 * Pow2(a);
    Associate(x, 2, Pow2(a));
  }

  lemma CoversMost(x: nat, v: int)
    requires x >= 512 && v <= METRIC_MAX
    ensures Covers(x, 15, v)
  {
    Pow2Ten();
    Pow2Sum(10, 5);
    assert Pow2(5) == 32;
    ScaleReaches(x, 512, 0x8000);
  }

  /** rfc5444_metric_encode: the least code that stands for at least the metric;
      metrics out of range are special. */
  method MetricEncode(metric: Uint32) returns (code: MetricCode)
    ensures METRIC_MIN <= metric <= METRIC_MAX ==> code == LeastMetricCode(metric, 0)
    ensures METRIC_MAX < metric < METRIC_INFINITE ==> code == 0xfff
    ensures metric == 0 || metric >= METRIC_INFINITE ==> code == 0
  {
    if metric < METRIC_MIN || metric >= METRIC_INFINITE {
      return 0;
    }
    if metric > METRIC_MAX {
      return 0x0fff;
    }
    var decoded: Uint32 := metric + 256;
    var a: nat := 0;
    assert Pow2(0) == 1;
    while decoded > 512
      invariant a <= 15 && decoded >= 257 && IsLeastMetric(decoded, a, metric)
      invariant a > 0 ==> !Covers(512, a - 1, metric)
      invariant a == 0 ==> decoded == metric + 256
      decreases decoded
    {
      LeastMetricHalved(decoded, a, metric);
      if a == 15 {
        CoversMost(512, metric);
      }
      assert !Covers(512, a, metric);
      a := a + 1;
      decoded := decoded + 1;
      decoded := decoded / 2;
    }
    var b := decoded - 257;
    MetricFound(metric, decoded, a);
    code := a * 256 + b;
  }

  lemma MetricFound(v: int, d: int, a: nat)
    requires 257 <= d <= 512 && a <= 15 && IsLeastMetric(d, a, v)
    requires a > 0 ==> !Covers(512, a - 1, v)
    ensures LeastMetricCode(v, 0) == a * 256 + (d - 257)
  {
    var c := a * 256 + (d - 257);
    assert c / 256 == a && c % 256 == d - 257;
    assert Covers(d, a, v);
    if d > 257 {
      assert (c - 1) / 256 == a && (c - 1) % 256 == d - 258;
      assert !Covers(d - 1, a, v);
    } else if a > 0 {
      assert (c - 1) / 256 == a - 1 && (c - 1) % 256 == 255;
    }
    LeastMetricByNeighbour(v, c);
  }

  /** An encoded metric is less than one part in 256 too large, counted from -256. */
  lemma MetricOvershoot(v: int)
    requires METRIC_MIN <= v <= METRIC_MAX
    ensures 0 <= MetricDecode(LeastMetricCode(v, 0)) - v
    ensures 256 * (MetricDecode(LeastMetricCode(v, 0)) - v) < v + 256
  {
    var c := LeastMetricCode(v, 0);
    LeastMetricReaches(v, 0);
    if c > 0 {
      NoMetricBefore(v, 0, c - 1);
      MetricStep(c - 1);
    }
  }

  lemma {:induction false} LeastMetricReaches(v: int, from: MetricCode)
    requires v <= METRIC_MAX
    ensures MetricDecode(LeastMetricCode(v, from)) >= v
    decreases 4095 - from
  {
    if from < 4095 {
      LeastMetricReaches(v, from + 1);
    } else {
      CoversMost(512, v);
    }
  }

  lemma {:induction false} NoMetricBefore(v: int, from: MetricCode, c: MetricCode)
    requires from <= c < LeastMetricCode(v, from)
    ensures MetricDecode(c) < v
    decreases c - from
  {
    if from < c {
      NoMetricBefore(v, from + 1, c);
    }
  }
}
