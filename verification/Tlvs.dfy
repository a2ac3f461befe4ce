/** Type-length-value entries on the wire (section 5.4 of RFC 5444), and how
    src-api/rfc5444/rfc5444_reader.c parses one and a block of them. */
module Tlvs {
  import opened Octets

  const TLV_TYPEEXT: Octet := 128
  const TLV_SINGLE_IDX: Octet := 64
  const TLV_MULTI_IDX: Octet := 32
  const TLV_VALUE: Octet := 16
  const TLV_EXTVALUE: Octet := 8
  const TLV_MULTIVALUE: Octet := 4

  // ----- what a TLV says

  /** The addresses a TLV is for: all of its block, one, or some in a row. */
  datatype Span = All | One(index: Octet) | Row(first: Octet, last: Octet)

  /** `value` is everything behind the length; with `multi` it holds a value
      of its own for each address. */
  datatype Tlv = Tlv(typ: Octet, ext: Octet, span: Span, multi: bool, value: seq<Octet>)

  function TlvFlags(t: Tlv): Octet {
    Flags(t.ext != 0, t.span.One?, t.span.Row?, |t.value| > 0, |t.value| > 255, t.multi)
  }

  function ExtOctets(t: Tlv): seq<Octet> {
    if t.ext != 0 then [t.ext] else []
  }

  function SpanOctets(span: Span): seq<Octet> {
    match span
    case All => []
    case One(i) => [i]
    case Row(i, j) => [i, j]
  }

  function LengthOctets(n: nat): seq<Octet> {
    if n > 255 then Both(n) else if n > 0 then [Low(n)] else []
  }

  /** The octets of a TLV. */
  function Encode(t: Tlv): seq<Octet> {
    [t.typ, TlvFlags(t)] + ExtOctets(t) + SpanOctets(t.span) + LengthOctets(|t.value|) + t.value
  }

  function EncodeAll(ts: seq<Tlv>): seq<Octet> {
    if ts == [] then [] else Encode(ts[0]) + EncodeAll(ts[1..])
  }

  // ----- one TLV as the reader sees it

  datatype Entry = Entry(typ: Octet, ext: Octet, index1: Octet, index2: Octet,
                         multi: bool, length: nat, value: seq<Octet>)

  /** How TLVs are sorted: by type, then by extension. */
  function Order(e: Entry): Word {
    e.typ * 256 + e.ext
  }

  /** Subtraction of octets. */
  function Minus(a: Octet, b: int): Octet
    requires -1 <= b <= 255
  {
    if a < b then a - b + 256 else if a - b > 255 then a - b - 256 else a - b
  }

  datatype Reading<T> = Read(item: T, at: nat) | Failed(code: int, at: nat)

  function Indices(data: seq<Octet>, eob: nat, p: Place, flags: Octet, count: Octet): (r: (Octet, Octet, Place))
    requires eob <= |data|
    ensures p.at <= r.2.at && (r.2.at <= eob || r.2.at == p.at)
  {
    if !Has(flags, TLV_SINGLE_IDX) && !Has(flags, TLV_MULTI_IDX) then (0, Minus(count, 1), p)
    else if !Has(flags, TLV_MULTI_IDX) then
      var (i, q) := U8(data, eob, p);
      (i, i, q)
    else if !Has(flags, TLV_SINGLE_IDX) then
      var (i, q) := U8(data, eob, p);
      var (j, r) := U8(data, eob, q);
      (i, j, r)
    else (0, 0, Place(p.at, BAD_TLV_IDXFLAGS))
  }

  function Length(data: seq<Octet>, eob: nat, p: Place, flags: Octet): (r: (Word, Place))
    requires eob <= |data|
    ensures p.at <= r.1.at && (r.1.at <= eob || r.1.at == p.at)
  {
    if !Has(flags, TLV_VALUE) && !Has(flags, TLV_EXTVALUE) then (0, p)
    else if !Has(flags, TLV_EXTVALUE) then U8(data, eob, p)
    else if Has(flags, TLV_VALUE) then U16(data, eob, p)
    else (0, Place(p.at, BAD_TLV_VALUEFLAGS))
  }

  /** The last part of _parse_tlv: the value, and its share per address. */
  function Valued(typ: Octet, ext: Octet, i: Octet, j: Octet, multi: bool, value: seq<Octet>, at: nat): (r: Reading<Entry>)
    ensures r.at == at
    ensures r.Read? ==> (r.item.typ, r.item.ext) == (typ, ext)
  {
    var count := Minus(j, i - 1);
    if |value| == 0 || !multi || count == 1 then
      Read(Entry(typ, ext, i, j, multi && (|value| == 0 || count != 1), |value|, value), at)
    else if count == 0 then Failed(UNDEFINED, at)
    else if |value| % count != 0 then Failed(BAD_TLV_LENGTH, at)
    else Read(Entry(typ, ext, i, j, true, |value| / count, value), at)
  }

  /** Type, flags and type extension. */
  function Head(data: seq<Octet>, eob: nat, at: nat): (r: (Octet, Octet, Octet, Place))
    requires at <= eob <= |data|
    ensures at <= r.3.at <= eob && (r.3.code == OKAY ==> at < r.3.at)
  {
    var (typ, p) := U8(data, eob, Place(at, OKAY));
    var (flags, q) := U8(data, eob, p);
    if Has(flags, TLV_TYPEEXT) then
      var (ext, r) := U8(data, eob, q);
      (typ, flags, ext, r)
    else (typ, flags, 0, q)
  }

  /** What _parse_tlv makes of the octets at `at`. */
  function ReadTlv(data: seq<Octet>, eob: nat, at: nat, count: Octet): (r: Reading<Entry>)
    requires at <= eob <= |data|
    ensures r.at <= eob && (r.Read? ==> at < r.at)
  {
    var (typ, flags, ext, p) := Head(data, eob, at);
    var (i, j, q) := Indices(data, eob, p, flags, count);
    var (length, r) := Length(data, eob, q, flags);
    if r.at + length > eob then Failed(END_OF_BUFFER, eob)
    else if r.code != OKAY then Failed(r.code, eob)
    else Valued(typ, ext, i, j, Has(flags, TLV_MULTIVALUE), data[r.at..r.at + length], r.at + length)
  }

  // ----- reading back a written TLV

  function First(span: Span): Octet {
    match span
    case All => 0
    case One(i) => i
    case Row(i, _) => i
  }

  function Last(span: Span, count: Octet): Octet {
    match span
    case All => Minus(count, 1)
    case One(i) => i
    case Row(_, j) => j
  }

  /** A span inside a block of `count` addresses; 0 stands for no addresses. */
  predicate Fits(t: Tlv, count: Octet) {
    && |t.value| < 0x1_0000
    && (t.multi ==> Shared(t, count))
  }

  predicate Shared(t: Tlv, count: Octet) {
    && First(t.span) < Last(t.span, count) < count
    && |t.value| > 0
    && Even(|t.value|, Last(t.span, count) - First(t.span) + 1)
  }

  /** How many octets of the value are for one address. */
  function Share(t: Tlv, count: Octet): nat {
    var i: int, j: int := First(t.span), Last(t.span, count);
    if t.multi && i <= j then var n: nat := j - i + 1; |t.value| / n else |t.value|
  }

  function EntryOf(t: Tlv, count: Octet): Entry {
    Entry(t.typ, t.ext, First(t.span), Last(t.span, count), t.multi, Share(t, count), t.value)
  }

  lemma IndicesRead(data: seq<Octet>, eob: nat, at: nat, t: Tlv, count: Octet)
    requires Holds(data, at, SpanOctets(t.span)) && at + |SpanOctets(t.span)| <= eob <= |data|
    ensures Indices(data, eob, Place(at, OKAY), TlvFlags(t), count)
         == (First(t.span), Last(t.span, count), Place(at + |SpanOctets(t.span)|, OKAY))
  {
    FlagsHave(t.ext != 0, t.span.One?, t.span.Row?, |t.value| > 0, |t.value| > 255, t.multi);
    match t.span
    case All =>
    case One(i) => ReadsOctet(data, eob, at, i);
    case Row(i, j) =>
      assert [i, j] == [i] + [j];
      HoldsParts(data, at, [i], [j]);
      ReadsOctet(data, eob, at, i);
      ReadsOctet(data, eob, at + 1, j);
  }

  lemma LengthRead(data: seq<Octet>, eob: nat, at: nat, t: Tlv)
    requires |t.value| < 0x1_0000
    requires Holds(data, at, LengthOctets(|t.value|)) && at + |LengthOctets(|t.value|)| <= eob <= |data|
    ensures Length(data, eob, Place(at, OKAY), TlvFlags(t))
         == (|t.value|, Place(at + |LengthOctets(|t.value|)|, OKAY))
  {
    FlagsHave(t.ext != 0, t.span.One?, t.span.Row?, |t.value| > 0, |t.value| > 255, t.multi);
    if |t.value| > 255 {
      ReadsWord(data, eob, at, |t.value|);
    } else if |t.value| > 0 {
      ReadsOctet(data, eob, at, Low(|t.value|));
    }
  }

  lemma HeadRead(data: seq<Octet>, eob: nat, at: nat, t: Tlv)
    requires Holds(data, at, [t.typ, TlvFlags(t)] + ExtOctets(t)) && at + 2 + |ExtOctets(t)| <= eob <= |data|
    ensures Head(data, eob, at) == (t.typ, TlvFlags(t), t.ext, Place(at + 2 + |ExtOctets(t)|, OKAY))
    ensures Has(TlvFlags(t), TLV_MULTIVALUE) == t.multi
  {
    FlagsHave(t.ext != 0, t.span.One?, t.span.Row?, |t.value| > 0, |t.value| > 255, t.multi);
    HoldsParts(data, at, [t.typ, TlvFlags(t)], ExtOctets(t));
    assert [t.typ, TlvFlags(t)] == [t.typ] + [TlvFlags(t)];
    HoldsParts(data, at, [t.typ], [TlvFlags(t)]);
    ReadsOctet(data, eob, at, t.typ);
    ReadsOctet(data, eob, at + 1, TlvFlags(t));
    if t.ext != 0 {
      ReadsOctet(data, eob, at + 2, t.ext);
    }
  }

  lemma ValuedOnce(t: Tlv, count: Octet, at: nat)
    requires Fits(t, count)
    ensures Valued(t.typ, t.ext, First(t.span), Last(t.span, count), t.multi, t.value, at)
         == Read(EntryOf(t, count), at)
  {
    if t.multi {
      assert Minus(Last(t.span, count), First(t.span) - 1) == Last(t.span, count) - First(t.span) + 1;
      EvenDivides(|t.value|, Last(t.span, count) - First(t.span) + 1);
    }
  }

  lemma PartsRead(data: seq<Octet>, eob: nat, at: nat, t: Tlv, count: Octet, p: nat, q: nat, r: nat)
    requires |t.value| < 0x1_0000 && at <= p <= q <= r && r + |t.value| <= eob <= |data|
    requires Head(data, eob, at) == (t.typ, TlvFlags(t), t.ext, Place(p, OKAY))
    requires Indices(data, eob, Place(p, OKAY), TlvFlags(t), count) == (First(t.span), Last(t.span, count), Place(q, OKAY))
    requires Length(data, eob, Place(q, OKAY), TlvFlags(t)) == (|t.value|, Place(r, OKAY))
    requires Has(TlvFlags(t), TLV_MULTIVALUE) == t.multi
    requires data[r..r + |t.value|] == t.value
    ensures ReadTlv(data, eob, at, count)
         == Valued(t.typ, t.ext, First(t.span), Last(t.span, count), t.multi, t.value, r + |t.value|)
  {
  }

  lemma PartsHeld(data: seq<Octet>, at: nat, t: Tlv) returns (p: nat, q: nat, r: nat)
    requires Holds(data, at, Encode(t))
    ensures p == at + 2 + |ExtOctets(t)| && Holds(data, at, [t.typ, TlvFlags(t)] + ExtOctets(t))
    ensures q == p + |SpanOctets(t.span)| && Holds(data, p, SpanOctets(t.span))
    ensures r == q + |LengthOctets(|t.value|)| && Holds(data, q, LengthOctets(|t.value|))
    ensures r + |t.value| == at + |Encode(t)| && Holds(data, r, t.value)
  {
    var head := [t.typ, TlvFlags(t)] + ExtOctets(t);
    var length := LengthOctets(|t.value|);
    p := at + |head|;
    q := p + |SpanOctets(t.span)|;
    r := q + |length|;
    HoldsParts(data, at, head + SpanOctets(t.span) + length, t.value);
    HoldsParts(data, at, head + SpanOctets(t.span), length);
    HoldsParts(data, at, head, SpanOctets(t.span));
  }

  /** The octets of a TLV are read back as that TLV. */
  lemma TlvRead(data: seq<Octet>, eob: nat, at: nat, t: Tlv, count: Octet)
    requires Fits(t, count)
    requires Holds(data, at, Encode(t)) && at + |Encode(t)| <= eob <= |data|
    ensures ReadTlv(data, eob, at, count) == Read(EntryOf(t, count), at + |Encode(t)|)
  {
    hide Head, Indices, Length, Valued, ReadTlv, EntryOf, TlvFlags, Shared;
    var p, q, r := PartsHeld(data, at, t);
    HeadRead(data, eob, at, t);
    IndicesRead(data, eob, p, t, count);
    LengthRead(data, eob, q, t);
    PartsRead(data, eob, at, t, count, p, q, r);
    ValuedOnce(t, count, r + |t.value|);
  }

  // ----- blocks of TLVs

  /** avl_insert into a tree that allows duplicates: behind every entry that
      is not greater. */
  function Placed(list: seq<Entry>, e: Entry): (r: seq<Entry>) {
    if list == [] || Order(list[|list| - 1]) <= Order(e) then list + [e]
    else Placed(list[..|list| - 1], e) + [list[|list| - 1]]
  }

  function PlacedAll(list: seq<Entry>, es: seq<Entry>): seq<Entry>
    decreases |es|
  {
    if es == [] then list else PlacedAll(Placed(list, es[0]), es[1..])
  }

  function ReadTlvs(data: seq<Octet>, eob: nat, at: nat, end: nat, count: Octet, list: seq<Entry>): (r: Reading<seq<Entry>>)
    requires at <= eob <= |data|
    ensures r.at <= eob && (r.Read? ==> at <= r.at)
    decreases eob - at
  {
    if at >= end then Read(list, at)
    else match ReadTlv(data, eob, at, count)
      case Failed(code, _) => Failed(code, eob)
      case Read(e, next) => ReadTlvs(data, eob, next, end, count, Placed(list, e))
  }

  /** What _parse_tlvblock makes of the octets at `at`. */
  function ReadTlvBlock(data: seq<Octet>, eob: nat, at: nat, count: Octet): (r: Reading<seq<Entry>>)
    requires at <= eob <= |data|
    ensures r.at <= eob && (r.Read? ==> at < r.at)
  {
    var (length, p) := U16(data, eob, Place(at, OKAY));
    if p.at + length > eob then Failed(END_OF_BUFFER, eob)
    else if p.code != OKAY then Failed(p.code, eob)
    else ReadTlvs(data, eob, p.at, p.at + length, count, [])
  }

  /** How many TLVs do not fit a block of `count` addresses. */
  function Misfits(ts: seq<Tlv>, count: Octet): nat {
    if ts == [] then 0 else (if Fits(ts[0], count) then 0 else 1) + Misfits(ts[1..], count)
  }

  predicate AllFit(ts: seq<Tlv>, count: Octet) {
    Misfits(ts, count) == 0
  }

  function Entries(ts: seq<Tlv>, count: Octet): seq<Entry> {
    if ts == [] then [] else [EntryOf(ts[0], count)] + Entries(ts[1..], count)
  }

  function TlvBlock(ts: seq<Tlv>): seq<Octet> {
    Both(|EncodeAll(ts)|) + EncodeAll(ts)
  }

  lemma EntriesFirst(t: Tlv, rest: seq<Tlv>, count: Octet)
    ensures Entries([t] + rest, count) == [EntryOf(t, count)] + Entries(rest, count)
  {
    assert ([t] + rest)[1..] == rest;
  }

  lemma EncodeFirst(t: Tlv, rest: seq<Tlv>)
    ensures EncodeAll([t] + rest) == Encode(t) + EncodeAll(rest)
  {
    assert ([t] + rest)[1..] == rest;
  }

  lemma FitFirst(all: seq<Tlv>, t: Tlv, rest: seq<Tlv>, count: Octet)
    requires all == [t] + rest && Fits(t, count) && AllFit(rest, count)
    ensures AllFit(all, count)
  {
    assert all[1..] == rest;
  }

  lemma EncodeSmaller(all: seq<Tlv>, t: Tlv, rest: seq<Tlv>)
    requires all == [t] + rest
    ensures |t.value| <= |EncodeAll(all)| && |EncodeAll(rest)| <= |EncodeAll(all)|
  {
    EncodeFirst(t, rest);
  }

  lemma TlvsStep(data: seq<Octet>, eob: nat, at: nat, end: nat, count: Octet, list: seq<Entry>, e: Entry, next: nat)
    requires at <= eob <= |data| && at < end && ReadTlv(data, eob, at, count) == Read(e, next)
    ensures next <= eob && ReadTlvs(data, eob, at, end, count, list)
         == ReadTlvs(data, eob, next, end, count, Placed(list, e))
  {
  }

  lemma EntriesStep(ts: seq<Tlv>, count: Octet, list: seq<Entry>)
    requires AllFit(ts, count) && ts != []
    ensures AllFit(ts[1..], count)
    ensures PlacedAll(list, Entries(ts, count))
         == PlacedAll(Placed(list, EntryOf(ts[0], count)), Entries(ts[1..], count))
  {
    assert Entries(ts, count)[1..] == Entries(ts[1..], count);
  }

  lemma EncodeStep(data: seq<Octet>, at: nat, ts: seq<Tlv>)
    requires ts != [] && Holds(data, at, EncodeAll(ts))
    ensures Holds(data, at, Encode(ts[0])) && Holds(data, at + |Encode(ts[0])|, EncodeAll(ts[1..]))
    ensures |EncodeAll(ts)| == |Encode(ts[0])| + |EncodeAll(ts[1..])| && |Encode(ts[0])| > 0
  {
    HoldsParts(data, at, Encode(ts[0]), EncodeAll(ts[1..]));
  }

  lemma FirstRead(data: seq<Octet>, eob: nat, at: nat, ts: seq<Tlv>, count: Octet, e: Entry, next: nat)
    requires AllFit(ts, count) && ts != []
    requires Holds(data, at, EncodeAll(ts)) && at + |EncodeAll(ts)| <= eob <= |data|
    requires e == EntryOf(ts[0], count) && next == at + |Encode(ts[0])|
    ensures next <= eob && ReadTlv(data, eob, at, count) == Read(e, next)
  {
    EncodeStep(data, at, ts);
    TlvRead(data, eob, at, ts[0], count);
  }

  lemma {:induction false} TlvsRead(data: seq<Octet>, eob: nat, at: nat, end: nat, ts: seq<Tlv>, count: Octet, list: seq<Entry>)
    requires AllFit(ts, count)
    requires Holds(data, at, EncodeAll(ts)) && end == at + |EncodeAll(ts)| <= eob <= |data|
    ensures ReadTlvs(data, eob, at, end, count, list) == Read(PlacedAll(list, Entries(ts, count)), end)
    decreases |ts|
  {
    hide ReadTlv, Encode, EntryOf, Placed;
    if ts != [] {
      var e, next := EntryOf(ts[0], count), at + |Encode(ts[0])|;
      FirstRead(data, eob, at, ts, count, e, next);
      EncodeStep(data, at, ts);
      EntriesStep(ts, count, list);
      TlvsStep(data, eob, at, end, count, list, e, next);
      TlvsRead(data, eob, next, end, ts[1..], count, Placed(list, e));
    }
  }

  lemma BlockStep(data: seq<Octet>, eob: nat, at: nat, count: Octet, length: Word, end: nat, r: Reading<seq<Entry>>)
    requires end == at + 2 + length <= eob <= |data|
    requires U16(data, eob, Place(at, OKAY)) == (length, Place(at + 2, OKAY))
    requires ReadTlvs(data, eob, at + 2, end, count, []) == r
    ensures ReadTlvBlock(data, eob, at, count) == r
  {
  }

  /** A block of TLVs is read back as its TLVs, sorted by type. */
  lemma TlvBlockRead(data: seq<Octet>, eob: nat, at: nat, ts: seq<Tlv>, count: Octet)
    requires AllFit(ts, count) && |EncodeAll(ts)| < 0x1_0000
    requires Holds(data, at, TlvBlock(ts)) && at + |TlvBlock(ts)| <= eob <= |data|
    ensures ReadTlvBlock(data, eob, at, count) == Read(PlacedAll([], Entries(ts, count)), at + |TlvBlock(ts)|)
  {
    var length := |EncodeAll(ts)|;
    var end := at + 2 + length;
    var r := Read(PlacedAll([], Entries(ts, count)), end);
    assert Holds(data, at, Both(length)) && Holds(data, at + 2, EncodeAll(ts)) by {
      HoldsParts(data, at, Both(length), EncodeAll(ts));
    }
    ReadsWord(data, eob, at, length);
    assert ReadTlvs(data, eob, at + 2, end, count, []) == r by {
      TlvsRead(data, eob, at + 2, end, ts, count, []);
    }
    BlockStep(data, eob, at, count, length, end, r);
  }

  lemma {:induction false} EntriesAppend(a: seq<Tlv>, b: seq<Tlv>, count: Octet)
    ensures Entries(a + b, count) == Entries(a, count) + Entries(b, count)
  {
    if a == [] {
      assert a + b == b;
    } else {
      EntriesAppend(a[1..], b, count);
      assert (a + b)[0] == a[0] && (a + b)[1..] == a[1..] + b;
      Regroup([EntryOf(a[0], count)], Entries(a[1..], count), Entries(b, count));
    }
  }

  lemma {:induction false} EncodeAppend(a: seq<Tlv>, b: seq<Tlv>)
    ensures EncodeAll(a + b) == EncodeAll(a) + EncodeAll(b)
  {
    hide Encode;
    if a == [] {
      assert a + b == b;
    } else {
      EncodeAppend(a[1..], b);
      assert (a + b)[0] == a[0] && (a + b)[1..] == a[1..] + b;
      Regroup(Encode(a[0]), EncodeAll(a[1..]), EncodeAll(b));
    }
  }

  lemma {:induction false} FitAppend(a: seq<Tlv>, b: seq<Tlv>, count: Octet)
    ensures Misfits(a + b, count) == Misfits(a, count) + Misfits(b, count)
  {
    if a == [] {
      assert a + b == b;
    } else {
      FitAppend(a[1..], b, count);
      assert (a + b)[0] == a[0] && (a + b)[1..] == a[1..] + b;
    }
  }

  lemma SplitSizes(a: seq<Tlv>, b: seq<Tlv>, count: Octet)
    requires |EncodeAll(a + b)| < 0x1_0000
    ensures |EncodeAll(a)| < 0x1_0000 && |EncodeAll(b)| < 0x1_0000
    ensures AllFit(a, count) && AllFit(b, count) ==> AllFit(a + b, count)
  {
    EncodeAppend(a, b);
    FitAppend(a, b, count);
  }

  // ----- sorting is stable

  function OfOrder(list: seq<Entry>, order: int): seq<Entry> {
    if list == [] then []
    else OfOrder(list[..|list| - 1], order) + if Order(list[|list| - 1]) == order then [list[|list| - 1]] else []
  }

  ghost predicate Sorted(list: seq<Entry>) {
    forall i, j :: 0 <= i < j < |list| ==> Order(list[i]) <= Order(list[j])
  }

  lemma {:induction false} PlacedSorted(list: seq<Entry>, e: Entry)
    requires Sorted(list)
    ensures Sorted(Placed(list, e))
    ensures forall x :: x in Placed(list, e) <==> x in list || x == e
  {
    if list != [] && Order(list[|list| - 1]) > Order(e) {
      var start, last := list[..|list| - 1], list[|list| - 1];
      PlacedSorted(start, e);
      assert list == start + [last];
      forall x | x in Placed(start, e) ensures Order(x) <= Order(last) {
      }
    }
  }

  lemma {:induction false} NoneOfOrder(list: seq<Entry>, order: int)
    requires forall x :: x in list ==> Order(x) > order
    ensures OfOrder(list, order) == []
  {
    if list != [] {
      NoneOfOrder(list[..|list| - 1], order);
    }
  }

  lemma OfOrderStep(list: seq<Entry>, e: Entry, order: int)
    ensures OfOrder(list + [e], order) == OfOrder(list, order) + if Order(e) == order then [e] else []
  {
    assert (list + [e])[..|list|] == list;
  }

  lemma SortedFront(list: seq<Entry>)
    requires Sorted(list) && list != []
    ensures Sorted(list[..|list| - 1])
  {
  }

  /** Among entries of one type an entry comes last when it is added. */
  lemma {:induction false} PlacedLast(list: seq<Entry>, e: Entry, order: int)
    requires Sorted(list)
    ensures OfOrder(Placed(list, e), order) == OfOrder(list, order) + if Order(e) == order then [e] else []
  {
    hide Order, Sorted, OfOrder;
    if list == [] || Order(list[|list| - 1]) <= Order(e) {
      OfOrderStep(list, e, order);
    } else {
      var start, last := list[..|list| - 1], list[|list| - 1];
      SortedFront(list);
      PlacedLast(start, e, order);
      OfOrderStep(start, last, order);
      OfOrderStep(Placed(start, e), last, order);
      assert list == start + [last];
    }
  }

  lemma {:induction false} OfOrderFront(e: Entry, rest: seq<Entry>, order: int)
    ensures OfOrder([e] + rest, order) == (if Order(e) == order then [e] else []) + OfOrder(rest, order)
  {
    if rest == [] {
      assert [e] + rest == [e];
      assert [e][..0] == [];
    } else {
      OfOrderFront(e, rest[..|rest| - 1], order);
      assert ([e] + rest)[..|rest|] == [e] + rest[..|rest| - 1];
    }
  }

  lemma NothingOfOrder(order: int)
    ensures OfOrder([], order) == []
  {
  }

  /** The entries of one type keep the order in which they stand on the wire. */
  lemma {:induction false} SortingStable(list: seq<Entry>, es: seq<Entry>, order: int)
    requires Sorted(list)
    ensures Sorted(PlacedAll(list, es))
    ensures OfOrder(PlacedAll(list, es), order) == OfOrder(list, order) + OfOrder(es, order)
    decreases |es|
  {
    hide Sorted, Placed, OfOrder, Order;
    if es == [] {
      NothingOfOrder(order);
    } else {
      PlacedSorted(list, es[0]);
      PlacedLast(list, es[0], order);
      SortingStable(Placed(list, es[0]), es[1..], order);
      OfOrderFront(es[0], es[1..], order);
      assert [es[0]] + es[1..] == es;
    }
  }

  // ----- the value for one address

  predicate Covers(e: Entry, i: nat) {
    e.index1 <= i <= e.index2
  }

  /** Where the value for address `i` starts. */
  function Offset(e: Entry, i: nat): nat
    requires Covers(e, i)
  {
    if e.multi then Times(i - e.index1, e.length) else 0
  }

  function ValueFor(e: Entry, i: nat): seq<Octet>
    requires Covers(e, i)
  {
    var from := Offset(e, i);
    if from + e.length <= |e.value| then e.value[from..from + e.length] else []
  }

  /** A parsed TLV holds a whole value for each address it covers, whatever
      the octets were. */
  lemma ValueInside(data: seq<Octet>, eob: nat, at: nat, count: Octet, i: nat)
    requires at <= eob <= |data| && ReadTlv(data, eob, at, count).Read?
    requires Covers(ReadTlv(data, eob, at, count).item, i)
    ensures var e := ReadTlv(data, eob, at, count).item;
      Offset(e, i) + e.length <= |e.value| && |ValueFor(e, i)| == e.length
  {
    var (typ, flags, ext, p) := Head(data, eob, at);
    var (i1, i2, q) := Indices(data, eob, p, flags, count);
    var (length, r) := Length(data, eob, q, flags);
    ValuedInside(typ, ext, i1, i2, Has(flags, TLV_MULTIVALUE), data[r.at..r.at + length], r.at + length, i);
  }

  lemma ValuedInside(typ: Octet, ext: Octet, i1: Octet, i2: Octet, multi: bool, value: seq<Octet>, at: nat, i: nat)
    requires i1 <= i <= i2 && Valued(typ, ext, i1, i2, multi, value, at).Read?
    ensures var e := Valued(typ, ext, i1, i2, multi, value, at).item;
      Offset(e, i) + e.length <= |e.value|
  {
    var e := Valued(typ, ext, i1, i2, multi, value, at).item;
    if e.multi && |value| > 0 {
      var count := i2 - i1 + 1;
      assert Minus(i2, i1 - 1) == count;
      assert |value| % count == 0 && e.length == |value| / count;
      Shares(|value|, count);
      TimesRises(i - i1, count, e.length);
    } else {
      TimesIsProduct(i - i1, 0);
    }
  }

  /** A TLV with a value for each address has them in the order of the addresses;
      any other has one value for all. */
  lemma ValueExactly(e: Entry, i: nat)
    requires Covers(e, i)
    ensures var from := if e.multi then (i - e.index1) * e.length else 0;
      from + e.length <= |e.value| ==> ValueFor(e, i) == e.value[from..from + e.length]
  {
    TimesIsProduct(i - e.index1, e.length);
  }

  /** The values that a consumer of the type `order` gets for address `i`. */
  function Seen(list: seq<Entry>, order: int, i: nat): seq<seq<Octet>> {
    if list == [] then [] else
      var e := list[|list| - 1];
      Seen(list[..|list| - 1], order, i)
        + if Order(e) == order && Covers(e, i) then [ValueFor(e, i)] else []
  }

  lemma SeenOne(e: Entry, order: int, i: nat)
    ensures Seen([e], order, i) == if Order(e) == order && Covers(e, i) then [ValueFor(e, i)] else []
  {
    assert [e][..0] == [];
  }

  lemma {:induction false} SeenAppend(a: seq<Entry>, b: seq<Entry>, order: int, i: nat)
    ensures Seen(a + b, order, i) == Seen(a, order, i) + Seen(b, order, i)
  {
    if b == [] {
      assert a + b == a;
    } else {
      assert (a + b)[..|a + b| - 1] == a + b[..|b| - 1];
      SeenAppend(a, b[..|b| - 1], order, i);
    }
  }

  lemma SeenSplit(all: seq<Tlv>, t: Tlv, rest: seq<Tlv>, count: Octet, order: int, i: nat, a: seq<seq<Octet>>, b: seq<seq<Octet>>)
    requires all == [t] + rest
    requires Seen([EntryOf(t, count)], order, i) == a && Seen(Entries(rest, count), order, i) == b
    ensures Seen(Entries(all, count), order, i) == a + b
  {
    EntriesFirst(t, rest, count);
    SeenAppend([EntryOf(t, count)], Entries(rest, count), order, i);
  }

  lemma SeenJoin(a: seq<Tlv>, b: seq<Tlv>, count: Octet, order: int, i: nat)
    ensures Seen(Entries(a + b, count), order, i) == Seen(Entries(a, count), order, i) + Seen(Entries(b, count), order, i)
  {
    EntriesAppend(a, b, count);
    SeenAppend(Entries(a, count), Entries(b, count), order, i);
  }

  lemma {:induction false} SeenOfOrder(list: seq<Entry>, order: int, i: nat)
    ensures Seen(list, order, i) == Seen(OfOrder(list, order), order, i)
  {
    if list != [] {
      var start, e := list[..|list| - 1], list[|list| - 1];
      SeenOfOrder(start, order, i);
      if Order(e) == order {
        assert (OfOrder(start, order) + [e])[..|OfOrder(start, order)|] == OfOrder(start, order);
      } else {
        assert OfOrder(list, order) == OfOrder(start, order);
        assert Seen(list, order, i) == Seen(start, order, i);
      }
    }
  }

  /** Sorting a block does not change what its consumers get. */
  lemma SeenSorted(es: seq<Entry>, order: int, i: nat)
    ensures Seen(PlacedAll([], es), order, i) == Seen(es, order, i)
  {
    SortingStable([], es, order);
    assert OfOrder(PlacedAll([], es), order) == OfOrder(es, order);
    SeenOfOrder(es, order, i);
    SeenOfOrder(PlacedAll([], es), order, i);
  }

  // ----- the parsers

  method ParseIndices(s: Stream, eob: nat, flags: Octet, count: Octet, error: int)
    returns (index1: Octet, index2: Octet, code: int)
    requires eob <= |s.data|
    modifies s
    ensures (index1, index2, Place(s.ptr, code)) == Indices(s.data, eob, Place(old(s.ptr), error), flags, count)
  {
    index1, index2, code := 0, 0, error;
    if !Has(flags, TLV_SINGLE_IDX) && !Has(flags, TLV_MULTI_IDX) {
      index2 := Minus(count, 1);
    } else if !Has(flags, TLV_MULTI_IDX) {
      index1, code := s.GetU8(eob, code);
      index2 := index1;
    } else if !Has(flags, TLV_SINGLE_IDX) {
      index1, code := s.GetU8(eob, code);
      index2, code := s.GetU8(eob, code);
    } else {
      code := BAD_TLV_IDXFLAGS;
    }
  }

  method ParseLength(s: Stream, eob: nat, flags: Octet, error: int) returns (length: Word, code: int)
    requires eob <= |s.data|
    modifies s
    ensures (length, Place(s.ptr, code)) == Length(s.data, eob, Place(old(s.ptr), error), flags)
  {
    length, code := 0, error;
    if Has(flags, TLV_VALUE) && !Has(flags, TLV_EXTVALUE) {
      length, code := s.GetU8(eob, code);
    } else if Has(flags, TLV_VALUE) {
      length, code := s.GetU16(eob, code);
    } else if Has(flags, TLV_EXTVALUE) {
      code := BAD_TLV_VALUEFLAGS;
    }
  }

  method ParseHead(s: Stream, eob: nat) returns (typ: Octet, flags: Octet, ext: Octet, code: int)
    requires s.ptr <= eob <= |s.data|
    modifies s
    ensures (typ, flags, ext, Place(s.ptr, code)) == Head(s.data, eob, old(s.ptr))
  {
    typ, code := s.GetU8(eob, OKAY);
    flags, code := s.GetU8(eob, code);
    ext := 0;
    if Has(flags, TLV_TYPEEXT) {
      ext, code := s.GetU8(eob, code);
    }
  }

  ghost predicate Agrees<T>(r: Reading<T>, code: int, item: T, at: nat) {
    match r
    case Read(x, next) => code == OKAY && item == x && at == next
    case Failed(error, next) => code == error && code != OKAY && at == next
  }

  /** _parse_tlv */
  method ParseTlv(s: Stream, eob: nat, count: Octet) returns (code: int, entry: Entry)
    requires s.ptr <= eob <= |s.data|
    modifies s
    ensures Agrees(ReadTlv(s.data, eob, old(s.ptr), count), code, entry, s.ptr)
  {
    entry := Entry(0, 0, 0, 0, false, 0, []);
    var typ, flags, ext, index1, index2, length;
    typ, flags, ext, code := ParseHead(s, eob);
    index1, index2, code := ParseIndices(s, eob, flags, count, code);
    length, code := ParseLength(s, eob, flags, code);
    if s.ptr + length > eob {
      code := END_OF_BUFFER;
    }
    if code != OKAY {
      s.ptr := eob;
      return;
    }
    var value := s.data[s.ptr..s.ptr + length];
    s.ptr := s.ptr + length;
    code, entry := ShareOut(typ, ext, index1, index2, Has(flags, TLV_MULTIVALUE), value, s.ptr);
  }

  /** The end of _parse_tlv. */
  method ShareOut(typ: Octet, ext: Octet, index1: Octet, index2: Octet, multivalue: bool, value: seq<Octet>, ghost at: nat)
    returns (code: int, entry: Entry)
    ensures Agrees(Valued(typ, ext, index1, index2, multivalue, value, at), code, entry, at)
  {
    code := OKAY;
    var multi, length := multivalue, |value|;
    entry := Entry(typ, ext, index1, index2, multi, length, value);
    if length == 0 {
      return;
    }
    var count := Minus(index2, index1 - 1);
    if count == 1 {
      multi := false;
      entry := entry.(multi := false);
    }
    if !multi {
      return;
    }
    if count == 0 {
      return UNDEFINED, entry;
    }
    if length % count != 0 {
      return BAD_TLV_LENGTH, entry;
    }
    entry := entry.(length := length / count);
  }

  method ParseTlvBlock(s: Stream, eob: nat, count: Octet) returns (code: int, list: seq<Entry>)
    requires s.ptr <= eob <= |s.data|
    modifies s
    ensures Agrees(ReadTlvBlock(s.data, eob, old(s.ptr), count), code, list, s.ptr)
  {
    hide ReadTlv, Placed;
    list := [];
    ghost var start := s.ptr;
    var length;
    length, code := s.GetU16(eob, OKAY);
    var end := s.ptr + length;
    ghost var r := ReadTlvBlock(s.data, eob, start, count);
    if end > eob {
      s.ptr := eob;
      return END_OF_BUFFER, [];
    }
    while s.ptr < end
      invariant s.ptr <= eob
      invariant s.ptr < end ==> code == OKAY
      invariant if code == OKAY then r == ReadTlvs(s.data, eob, s.ptr, end, count, list) else r == Failed(code, eob)
      decreases eob - s.ptr
    {
      var entry;
      code, entry := ParseTlv(s, eob, count);
      if code != OKAY {
        s.ptr := eob;
        return code, [];
      }
      list := Placed(list, entry);
    }
    if code != OKAY {
      s.ptr := eob;
    }
  }
}
