/** Octets, the flag bits and result codes of RFC 5444, and a buffer that is
    read or written through an advancing pointer. */
module Octets {
  type Octet = x: int | 0 <= x < 256
  type Word = x: int | 0 <= x < 0x1_0000

  // ----- result codes (src-api/rfc5444/rfc5444_context.h)

  const DROP_PACKET: int := 5
  const DROP_MESSAGE: int := 4
  const DROP_MSG_BUT_FORWARD: int := 3
  const DROP_ADDRESS: int := 2
  const DROP_TLV: int := 1
  const OKAY: int := 0
  const UNSUPPORTED_VERSION: int := -1
  const END_OF_BUFFER: int := -2
  const BAD_TLV_IDXFLAGS: int := -3
  const BAD_TLV_VALUEFLAGS: int := -4
  const BAD_TLV_LENGTH: int := -5
  const EMPTY_ADDRBLOCK: int := -7
  const BAD_MSG_TAILFLAGS: int := -8
  const BAD_MSG_PREFIXFLAGS: int := -9
  const MTU_TOO_SMALL: int := -12
  /** Not a code of the source: what it does then is undefined. */
  const UNDEFINED: int := -99

  // ----- flag bits

  predicate Has(flags: Octet, bit: Octet)
    requires bit > 0
  {
    flags / bit % 2 == 1
  }

  /** `flags |= bit`. */
  function With(flags: Octet, bit: Octet): Octet
    requires bit > 0
  {
    if Has(flags, bit) || flags + bit > 255 then flags else flags + bit
  }

  function If(b: bool, weight: nat): nat {
    if b then weight else 0
  }

  /** An octet with the given flag bits, highest first. */
  function Flags(b7: bool, b6: bool, b5: bool, b4: bool, b3: bool, b2: bool): Octet {
    If(b7, 128) + If(b6, 64) + If(b5, 32) + If(b4, 16) + If(b3, 8) + If(b2, 4)
  }

  lemma FlagsHave(b7: bool, b6: bool, b5: bool, b4: bool, b3: bool, b2: bool)
    ensures var f := Flags(b7, b6, b5, b4, b3, b2);
      && Has(f, 128) == b7 && Has(f, 64) == b6 && Has(f, 32) == b5
      && Has(f, 16) == b4 && Has(f, 8) == b3 && Has(f, 4) == b2
  {
  }

  /** Setting a flag bit that was clear. */
  lemma WithFirst(b6: bool, b5: bool, b4: bool, b3: bool, b2: bool)
    ensures With(Flags(false, b6, b5, b4, b3, b2), 128) == Flags(true, b6, b5, b4, b3, b2)
  {
  }

  lemma WithSecond(b7: bool, b5: bool, b4: bool, b3: bool, b2: bool)
    ensures With(Flags(b7, false, b5, b4, b3, b2), 64) == Flags(b7, true, b5, b4, b3, b2)
  {
  }

  lemma WithThird(b7: bool, b6: bool, b4: bool, b3: bool, b2: bool)
    ensures With(Flags(b7, b6, false, b4, b3, b2), 32) == Flags(b7, b6, true, b4, b3, b2)
  {
  }

  lemma WithFourth(b7: bool, b6: bool, b5: bool, b3: bool, b2: bool)
    ensures With(Flags(b7, b6, b5, false, b3, b2), 16) == Flags(b7, b6, b5, true, b3, b2)
  {
  }

  lemma WithFifth(b7: bool, b6: bool, b5: bool, b4: bool, b2: bool)
    ensures With(Flags(b7, b6, b5, b4, false, b2), 8) == Flags(b7, b6, b5, b4, true, b2)
  {
  }

  lemma WithSixth(b7: bool, b6: bool, b5: bool, b4: bool, b3: bool)
    ensures With(Flags(b7, b6, b5, b4, b3, false), 4) == Flags(b7, b6, b5, b4, b3, true)
  {
  }

  // ----- numbers of two octets, the high one first

  function High(n: nat): Octet { n / 256 % 256 }
  function Low(n: nat): Octet { n % 256 }
  function Both(n: nat): seq<Octet> { [High(n), Low(n)] }

  // ----- products and shares

  function Times(a: nat, b: nat): nat {
    if a == 0 then 0 else Times(a - 1, b) + b
  }

  lemma {:induction false} TimesIsProduct(a: nat, b: nat)
    ensures Times(a, b) == a * b
  {
    if a > 0 {
      TimesIsProduct(a - 1, b);
      assert (a - 1) * b + b == a * b;
    }
  }

  lemma {:induction false} TimesRises(a: nat, a': nat, b: nat)
    requires a < a'
    ensures Times(a, b) + b <= Times(a', b)
  {
    if a + 1 < a' {
      TimesRises(a, a' - 1, b);
    }
  }

  lemma {:induction false} ShareOf(count: nat, n: nat)
    requires count > 0
    ensures Times(count, n) % count == 0 && Times(count, n) / count == n
  {
    TimesIsProduct(count, n);
    Divides(count, n);
  }

  /** `p` octets are shared out evenly among `count` addresses. */
  predicate Even(p: nat, count: nat) {
    p == 0 || (0 < count <= p && Even(p - count, count))
  }

  lemma {:induction false} EvenDivides(p: nat, count: nat)
    requires count > 0 && Even(p, count)
    ensures p % count == 0
  {
    if p > 0 {
      EvenDivides(p - count, count);
      assert (p - count) % count == 0 ==> p % count == 0 by {
        Divides(count, (p - count) / count + 1);
      }
    }
  }

  lemma {:induction false} EvenTimes(count: nat, n: nat)
    requires n > 0
    ensures Even(Times(n, count), count) || count == 0
  {
    if n > 1 {
      EvenTimes(count, n - 1);
    }
  }

  lemma TimesSwap(a: nat, b: nat)
    ensures Times(a, b) == Times(b, a)
  {
    TimesIsProduct(a, b);
    TimesIsProduct(b, a);
  }

  lemma Divides(count: nat, n: nat)
    requires count > 0
    ensures count * n % count == 0 && count * n / count == n
  {
    var p := count * n;
    var q := p / count;
    assert count * (n - q) == p % count;
    if n > q {
      AtLeast(count, n - q);
    }
  }

  lemma AtLeast(c: nat, d: nat)
    requires d >= 1
    ensures c * d >= c
  {
  }

  /** A number that a count divides is that many shares. */
  lemma Shares(p: nat, count: nat)
    requires count > 0 && p % count == 0
    ensures Times(count, p / count) == p
  {
    TimesIsProduct(count, p / count);
  }

  // ----- places in a buffer

  lemma Regroup<T>(a: seq<T>, b: seq<T>, c: seq<T>)
    ensures a + b + c == a + (b + c)
  {
  }

  /** `s` is what stands in `data` from `at` on. */
  predicate Holds(data: seq<Octet>, at: nat, s: seq<Octet>) {
    at + |s| <= |data| && data[at..at + |s|] == s
  }

  lemma HoldsParts(data: seq<Octet>, at: nat, a: seq<Octet>, b: seq<Octet>)
    ensures Holds(data, at, a + b) <==> Holds(data, at, a) && Holds(data, at + |a|, b)
  {
    if Holds(data, at, a + b) {
      assert data[at..at + |a|] == (a + b)[..|a|] == a;
      assert data[at + |a|..at + |a| + |b|] == (a + b)[|a|..] == b;
    }
    if Holds(data, at, a) && Holds(data, at + |a|, b) {
      assert data[at..at + |a + b|] == data[at..at + |a|] + data[at + |a|..at + |a| + |b|];
    }
  }

  /** memcpy into a buffer. */
  function Overwrite(buffer: seq<Octet>, at: nat, s: seq<Octet>): seq<Octet>
    requires at + |s| <= |buffer|
  {
    buffer[..at] + s + buffer[at + |s|..]
  }

  lemma OverwriteParts(buffer: seq<Octet>, at: nat, s: seq<Octet>, i: nat, j: nat)
    requires at + |s| <= |buffer| && i <= j <= |buffer|
    ensures Overwrite(buffer, at, s)[at..at + |s|] == s
    ensures j <= at || at + |s| <= i ==> Overwrite(buffer, at, s)[i..j] == buffer[i..j]
  {
  }

  /** What has been written is there, and what is beside it stays. */
  lemma HoldsWritten(data: seq<Octet>, at: nat, s: seq<Octet>, i: nat, x: seq<Octet>)
    requires at + |s| <= |data|
    ensures Holds(Overwrite(data, at, s), at, s)
    ensures Holds(data, i, x) && (i + |x| <= at || at + |s| <= i) ==> Holds(Overwrite(data, at, s), i, x)
  {
    OverwriteParts(data, at, s, at, at);
    if Holds(data, i, x) && (i + |x| <= at || at + |s| <= i) {
      OverwriteParts(data, at, s, i, i + |x|);
    }
  }

  // ----- reading

  /** How far reading has come, and the first error on the way. */
  datatype Place = Place(at: nat, code: int)

  function U8(data: seq<Octet>, eob: nat, p: Place): (r: (Octet, Place))
    requires eob <= |data|
    ensures p.at <= r.1.at && (r.1.code == OKAY ==> r.1.at == p.at + 1)
    ensures r.1.at <= eob || r.1.at == p.at
  {
    if p.code != OKAY then (0, p)
    else if p.at >= eob then (0, Place(p.at, END_OF_BUFFER))
    else (data[p.at], Place(p.at + 1, OKAY))
  }

  function U16(data: seq<Octet>, eob: nat, p: Place): (r: (Word, Place))
    requires eob <= |data|
    ensures p.at <= r.1.at && (r.1.code == OKAY ==> r.1.at == p.at + 2)
    ensures r.1.at <= eob || r.1.at == p.at
    ensures p.code == OKAY != r.1.code ==> r.1.at >= eob
  {
    var (high, q) := U8(data, eob, p);
    var (low, r) := U8(data, eob, q);
    (high * 256 + low, r)
  }

  lemma ReadsOctet(data: seq<Octet>, eob: nat, at: nat, b: Octet)
    requires eob <= |data| && Holds(data, at, [b]) && at + 1 <= eob
    ensures U8(data, eob, Place(at, OKAY)) == (b, Place(at + 1, OKAY))
  {
    assert data[at] == data[at..at + 1][0];
  }

  /** A number is read back from its two octets. */
  lemma ReadsWord(data: seq<Octet>, eob: nat, at: nat, n: Word)
    requires eob <= |data| && Holds(data, at, Both(n)) && at + 2 <= eob
    ensures U16(data, eob, Place(at, OKAY)) == (n, Place(at + 2, OKAY))
  {
    assert data[at] == data[at..at + 2][0] && data[at + 1] == data[at..at + 2][1];
  }

  /** The pointer into a data stream that the parsers share. */
  class Stream {
    const data: seq<Octet>
    var ptr: nat

    constructor (data: seq<Octet>)
      ensures this.data == data && ptr == 0
    {
      this.data, ptr := data, 0;
    }

    method GetU8(eob: nat, code: int) returns (b: Octet, error: int)
      requires eob <= |data|
      modifies this
      ensures (b, Place(ptr, error)) == U8(data, eob, Place(old(ptr), code))
    {
      if code != OKAY {
        return 0, code;
      }
      if ptr >= eob {
        return 0, END_OF_BUFFER;
      }
      b := data[ptr];
      ptr := ptr + 1;
      error := OKAY;
    }

    method GetU16(eob: nat, code: int) returns (n: Word, error: int)
      requires eob <= |data|
      modifies this
      ensures (n, Place(ptr, error)) == U16(data, eob, Place(old(ptr), code))
    {
      var high, e := GetU8(eob, code);
      n := high;
      n := n * 256;
      var low, f := GetU8(eob, e);
      n := n + low;
      error := f;
    }
  }

  // ----- writing

  /** An entry in the making behind `base`: its second octet holds the flags,
      to which bits are still added. */
  datatype Draft = Draft(base: seq<Octet>, typ: Octet, flags: Octet, rest: seq<Octet>)

  function Text(d: Draft): seq<Octet> {
    d.base + [d.typ, d.flags] + d.rest
  }

  function Flagged(d: Draft, bit: Octet): Draft
    requires bit > 0
  {
    d.(flags := With(d.flags, bit))
  }

  function Longer(d: Draft, s: seq<Octet>): Draft {
    d.(rest := d.rest + s)
  }

  lemma LongerTwice(d: Draft, s: seq<Octet>, t: seq<Octet>)
    ensures Longer(Longer(d, s), t) == Longer(d, s + t)
  {
  }

  lemma LongerText(d: Draft, s: seq<Octet>)
    ensures Text(Longer(d, s)) == Text(d) + s
  {
  }

  /** A pointer that advances through a buffer as it is written. */
  class Pen {
    const buffer: array<Octet>
    var ptr: nat

    constructor (buffer: array<Octet>, ptr: nat)
      requires ptr <= buffer.Length
      ensures this.buffer == buffer && this.ptr == ptr
    {
      this.buffer, this.ptr := buffer, ptr;
    }

    /** Everything before the pointer. */
    function Ink(): (s: seq<Octet>)
      requires ptr <= buffer.Length
      reads this, buffer
      ensures |s| == ptr
    {
      buffer[..ptr]
    }

    method Put(b: Octet)
      requires ptr < buffer.Length
      modifies this, buffer
      ensures ptr == old(ptr) + 1 && Ink() == old(Ink()) + [b]
      ensures forall k :: ptr <= k < buffer.Length ==> buffer[k] == old(buffer[k])
    {
      buffer[ptr] := b;
      ptr := ptr + 1;
    }

    /** memcpy to the pointer. */
    method Copy(s: seq<Octet>)
      requires ptr + |s| <= buffer.Length
      modifies this, buffer
      ensures ptr == old(ptr) + |s| && Ink() == old(Ink()) + s
      ensures forall k :: ptr <= k < buffer.Length ==> buffer[k] == old(buffer[k])
    {
      forall k | 0 <= k < |s| {
        buffer[ptr + k] := s[k];
      }
      ptr := ptr + |s|;
    }

    /** `buffer[at] |= bit`, where `at` is the place of the draft's flags. */
    method Flag(at: nat, bit: Octet, ghost d: Draft)
      requires ptr <= buffer.Length && bit > 0 && Ink() == Text(d) && at == |d.base| + 1
      modifies buffer
      ensures Ink() == Text(Flagged(d, bit))
      ensures forall k :: ptr <= k < buffer.Length ==> buffer[k] == old(buffer[k])
    {
      assert buffer[at] == Text(d)[at];
      buffer[at] := With(buffer[at], bit);
    }

    method Set(at: nat, b: Octet)
      requires at < ptr <= buffer.Length
      modifies buffer
      ensures Ink() == old(Ink())[at := b]
      ensures forall k :: ptr <= k < buffer.Length ==> buffer[k] == old(buffer[k])
    {
      buffer[at] := b;
    }
  }
}
