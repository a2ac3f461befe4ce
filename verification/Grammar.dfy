/** The format of RFC 5444 said about the octets themselves, with the flag bits as
    numbers: which octets are a TLV, a TLV block, an address block, a message and
    a packet, and what they say. The readers accept exactly these. */
module Grammar {
  import opened AddressBlocks
  import opened Addresses
  import opened Messages
  import opened Octets
  import opened Packets
  import opened Tlvs
  import opened Wrappers

  /** Two octets, the high one first. */
  function WordAt(data: seq<Octet>, p: nat): Word
    requires p + 1 < |data|
  {
    (data[p] as int) * 256 + data[p + 1]
  }

  // ----- a TLV

  /** Bits 64 and 32 exclude each other, and bit 8 needs bit 16. */
  predicate TlvFlagsLegal(f: Octet) {
    !(f / 64 % 2 == 1 && f / 32 % 2 == 1) && (f / 8 % 2 == 1 ==> f / 16 % 2 == 1)
  }

  /** Behind the type and its extension. */
  function TlvIndexAt(at: nat, f: Octet): nat {
    if f / 128 % 2 == 1 then at + 3 else at + 2
  }

  /** Behind the indices. */
  function TlvLengthAt(at: nat, f: Octet): nat {
    TlvIndexAt(at, f) + if f / 64 % 2 == 1 then 1 else if f / 32 % 2 == 1 then 2 else 0
  }

  /** Behind the length. */
  function TlvValueAt(at: nat, f: Octet): nat {
    TlvLengthAt(at, f) + if f / 8 % 2 == 1 then 2 else if f / 16 % 2 == 1 then 1 else 0
  }

  /** The octets from `at` to `next` have the form of a TLV. */
  predicate TlvFrame(data: seq<Octet>, eob: nat, at: nat, next: nat)
    requires eob <= |data|
  {
    && at + 2 <= eob
    && var f := data[at + 1];
      && TlvFlagsLegal(f) && TlvValueAt(at, f) <= next <= eob
      && next - TlvValueAt(at, f) ==
        if f / 8 % 2 == 1 then WordAt(data, TlvLengthAt(at, f))
        else if f / 16 % 2 == 1 then data[TlvLengthAt(at, f)]
        else 0
  }

  function TlvExt(data: seq<Octet>, at: nat): Octet
    requires at + 2 < |data| || (at + 1 < |data| && data[at + 1] / 128 % 2 == 0)
  {
    if data[at + 1] / 128 % 2 == 1 then data[at + 2] else 0
  }

  function TlvIndex1(data: seq<Octet>, p: nat, f: Octet): Octet
    requires p < |data| || (f / 64 % 2 == 0 && f / 32 % 2 == 0)
  {
    if f / 64 % 2 == 1 || f / 32 % 2 == 1 then data[p] else 0
  }

  function TlvIndex2(data: seq<Octet>, p: nat, f: Octet, count: Octet): Octet
    requires (f / 64 % 2 == 1 ==> p < |data|) && (f / 32 % 2 == 1 ==> p + 1 < |data|)
  {
    if f / 64 % 2 == 1 then data[p] else if f / 32 % 2 == 1 then data[p + 1] else (count + 255) % 256
  }

  /** What the octets of a TLV say. */
  predicate TlvSays(data: seq<Octet>, at: nat, next: nat, count: Octet, e: Entry)
    requires TlvFrame(data, |data|, at, next)
  {
    var f, p := data[at + 1], TlvIndexAt(at, data[at + 1]);
    && e.typ == data[at] && e.ext == TlvExt(data, at)
    && e.index1 == TlvIndex1(data, p, f) && e.index2 == TlvIndex2(data, p, f, count)
    && e.value == data[TlvValueAt(at, f)..next]
  }

  /** How many addresses the indices name, in eight bits. */
  function Named(e: Entry): nat {
    (e.index2 - e.index1 + 257) % 256
  }

  /** The value is shared out among the addresses if bit 4 says so and there are
      several of them. */
  predicate Divided(e: Entry, f: Octet) {
    if f / 4 % 2 == 1 && |e.value| > 0 && Named(e) != 1
    then Named(e) > 0 && e.multi && e.length * Named(e) == |e.value|
    else e.length == |e.value| && e.multi == (f / 4 % 2 == 1 && |e.value| == 0)
  }

  /** The octets from `at` to `next` are a TLV for a block of `count` addresses, which
      reads as `e`. */
  predicate IsTlv(data: seq<Octet>, eob: nat, at: nat, next: nat, count: Octet, e: Entry)
    requires eob <= |data|
  {
    TlvFrame(data, eob, at, next) && TlvSays(data, at, next, count, e) && Divided(e, data[at + 1])
  }

  lemma U8Exactly(data: seq<Octet>, eob: nat, p: Place)
    requires eob <= |data|
    ensures U8(data, eob, p).1.code == 0 <==> p.code == 0 && p.at < eob
    ensures p.code == 0 && p.at < eob ==> U8(data, eob, p) == (data[p.at], Place(p.at + 1, 0))
    ensures U8(data, eob, p).1.code == 0 || U8(data, eob, p).0 == 0
    ensures p.code != 0 ==> U8(data, eob, p) == (0, p)
    ensures p.code == 0 && p.at >= eob ==> U8(data, eob, p) == (0, Place(p.at, -2))
  {
  }

  lemma U16Exactly(data: seq<Octet>, eob: nat, p: Place)
    requires eob <= |data|
    ensures U16(data, eob, p).1.code == 0 <==> p.code == 0 && p.at + 1 < eob
    ensures p.code == 0 && p.at + 1 < eob ==> U16(data, eob, p) == (WordAt(data, p.at), Place(p.at + 2, 0))
    ensures p.code != 0 ==> U16(data, eob, p) == (0, p)
    ensures p.code == 0 && p.at + 1 >= eob ==> U16(data, eob, p).1.code == -2
  {
  }

  /** What the parts in front of the value come to. */
  lemma FrontExactly(data: seq<Octet>, eob: nat, at: nat, count: Octet)
    requires at + 2 <= eob <= |data|
    ensures var f := data[at + 1];
      var (typ, flags, ext, p) := Head(data, eob, at);
      && typ == data[at] && flags == f
      && (p.code == 0 <==> TlvIndexAt(at, f) <= eob)
      && (p.code == 0 ==> p.at == TlvIndexAt(at, f) && ext == if f / 128 % 2 == 1 then data[at + 2] else 0)
      && (p.code != 0 ==> p.code == -2)
  {
    U8Exactly(data, eob, Place(at, 0));
    U8Exactly(data, eob, Place(at + 1, 0));
    U8Exactly(data, eob, Place(at + 2, 0));
    hide U8;
  }

  lemma IndicesExactly(data: seq<Octet>, eob: nat, p: Place, f: Octet, count: Octet)
    requires eob <= |data| && (p.code == 0 || p.code == -2)
    ensures var (i, j, q) := Indices(data, eob, p, f, count);
      var n := if f / 64 % 2 == 1 then 1 else if f / 32 % 2 == 1 then 2 else 0;
      var both := f / 64 % 2 == 1 && f / 32 % 2 == 1;
      && (q.code == 0 <==> p.code == 0 && !both && (n > 0 ==> p.at + n <= eob))
      && (q.code == 0 ==> q.at == p.at + n && i == if n > 0 then data[p.at] else 0)
      && (q.code == 0 ==> j == if n == 1 then data[p.at] else if n == 2 then data[p.at + 1] else (count + 255) % 256)
      && (q.code == -3 <==> both) && (q.code == 0 || q.code == -2 || q.code == -3)
  {
    U8Exactly(data, eob, p);
    U8Exactly(data, eob, Place(p.at + 1, 0));
    U8Exactly(data, eob, U8(data, eob, p).1);
    hide U8;
  }

  lemma LengthExactly(data: seq<Octet>, eob: nat, p: Place, f: Octet)
    requires eob <= |data| && (p.code == 0 || p.code == -2 || p.code == -3)
    ensures var (length, r) := Length(data, eob, p, f);
      var n := if f / 8 % 2 == 1 then 2 else if f / 16 % 2 == 1 then 1 else 0;
      var bad := f / 8 % 2 == 1 && f / 16 % 2 == 0;
      && (r.code == 0 <==> p.code == 0 && !bad && (n > 0 ==> p.at + n <= eob))
      && (r.code == 0 ==> r.at == p.at + n && length == if n == 2 then WordAt(data, p.at) else if n == 1 then data[p.at] else 0)
      && (r.code == -4 <==> bad) && (r.code == -3 <==> !bad && p.code == -3)
      && (r.code == 0 || r.code == -2 || r.code == -3 || r.code == -4)
      && (p.code != 0 || bad ==> length == 0 && r.at == p.at)
  {
    U8Exactly(data, eob, p);
    U16Exactly(data, eob, p);
    hide U8, U16;
  }

  /** The value and its length. */
  lemma ValuedExactly(typ: Octet, ext: Octet, i: Octet, j: Octet, multi: bool, value: seq<Octet>, at: nat, e: Entry)
    ensures Valued(typ, ext, i, j, multi, value, at) == Read(e, at) <==>
      && (e.typ, e.ext, e.index1, e.index2, e.value) == (typ, ext, i, j, value)
      && (if multi && |value| > 0 && Named(e) != 1
          then Named(e) > 0 && e.multi && e.length * Named(e) == |value|
          else e.length == |value| && e.multi == (multi && |value| == 0))
    ensures var v := Valued(typ, ext, i, j, multi, value, at);
      v.Failed? ==> v.code == -99 || (v.code == -5 && multi && |value| > 0 && (j - i + 257) % 256 > 0 && |value| % ((j - i + 257) % 256) != 0)
    ensures multi && |value| > 0 && (j - i + 257) % 256 > 0 && |value| % ((j - i + 257) % 256) != 0 ==>
      Valued(typ, ext, i, j, multi, value, at) == Failed(-5, at)
  {
    var count := Minus(j, i - 1);
    assert count == (j - i + 257) % 256;
    if multi && |value| > 0 && count > 1 {
      Quotient(e.length, count, |value|);
    }
  }

  lemma Quotient(q: nat, n: nat, whole: nat)
    requires n > 0
    ensures q * n == whole <==> whole % n == 0 && q == whole / n
  {
    if q * n == whole {
      Divides(n, q);
    }
    assert whole == n * (whole / n) + whole % n;
  }

  lemma HeadShort(data: seq<Octet>, eob: nat, at: nat, count: Octet)
    requires at <= eob <= |data| && at + 2 > eob
    ensures ReadTlv(data, eob, at, count) == Failed(-2, eob)
  {
  }

  /** Octets in the form of a TLV are taken apart as they should be. */
  lemma FrameRead(data: seq<Octet>, eob: nat, at: nat, count: Octet, next: nat)
    requires at <= eob <= |data| && TlvFrame(data, eob, at, next)
    ensures var f, p := data[at + 1], TlvIndexAt(at, data[at + 1]);
      ReadTlv(data, eob, at, count) ==
        Valued(data[at], TlvExt(data, at), TlvIndex1(data, p, f), TlvIndex2(data, p, f, count), f / 4 % 2 == 1, data[TlvValueAt(at, f)..next], next)
  {
    hide Head, Indices, Length, Valued;
    FrontExactly(data, eob, at, count);
    var (typ, flags, ext, p) := Head(data, eob, at);
    IndicesExactly(data, eob, p, flags, count);
    var (i, j, q) := Indices(data, eob, p, flags, count);
    LengthExactly(data, eob, q, flags);
  }

  /** What is read has the form of a TLV. */
  lemma ReadFrame(data: seq<Octet>, eob: nat, at: nat, count: Octet)
    requires at <= eob <= |data| && ReadTlv(data, eob, at, count).Read?
    ensures TlvFrame(data, eob, at, ReadTlv(data, eob, at, count).at)
  {
    hide Head, Indices, Length, Valued;
    if at + 2 > eob {
      HeadShort(data, eob, at, count);
    } else {
      FrontExactly(data, eob, at, count);
      var (typ, flags, ext, p) := Head(data, eob, at);
      IndicesExactly(data, eob, p, flags, count);
      var (i, j, q) := Indices(data, eob, p, flags, count);
      LengthExactly(data, eob, q, flags);
    }
  }

  /** _parse_tlv accepts the TLVs and nothing else, and finds out what they say. */
  lemma TlvExactly(data: seq<Octet>, eob: nat, at: nat, count: Octet, next: nat, e: Entry)
    requires at <= eob <= |data|
    ensures ReadTlv(data, eob, at, count) == Read(e, next) <==> IsTlv(data, eob, at, next, count, e)
  {
    hide ReadTlv, Valued;
    if ReadTlv(data, eob, at, count) == Read(e, next) {
      ReadFrame(data, eob, at, count);
    }
    if TlvFrame(data, eob, at, next) {
      FrameRead(data, eob, at, count, next);
      var f, p := data[at + 1], TlvIndexAt(at, data[at + 1]);
      ValuedExactly(data[at], TlvExt(data, at), TlvIndex1(data, p, f), TlvIndex2(data, p, f, count), f / 4 % 2 == 1,
        data[TlvValueAt(at, f)..next], next, e);
    }
  }

  /** The octets are refused with these codes: for both index flags, for a long
      length without a value, and for a value that cannot be divided. */
  lemma TlvRefused(data: seq<Octet>, eob: nat, at: nat, count: Octet)
    requires at <= eob <= |data|
    ensures var r := ReadTlv(data, eob, at, count);
      && (r.Failed? && r.code == -4 <==> at + 2 <= eob && data[at + 1] / 8 % 2 == 1 && data[at + 1] / 16 % 2 == 0)
      && (r.Failed? && r.code == -3 <==>
            at + 2 <= eob && data[at + 1] / 64 % 2 == 1 && data[at + 1] / 32 % 2 == 1 && (data[at + 1] / 8 % 2 == 1 ==> data[at + 1] / 16 % 2 == 1))
      && (r.Failed? ==> r.code in {-2, -3, -4, -5, -99})
      && (r.Failed? && r.code in {-5, -99} ==> exists next :: TlvFrame(data, eob, at, next))
  {
    var (typ, flags, ext, p) := Head(data, eob, at);
    if at + 2 > eob {
      HeadShort(data, eob, at, count);
    } else {
      FrontExactly(data, eob, at, count);
      IndicesExactly(data, eob, p, flags, count);
      var (i, j, q) := Indices(data, eob, p, flags, count);
      LengthExactly(data, eob, q, flags);
      var (length, r) := Length(data, eob, q, flags);
      if r.code == 0 && r.at + length <= eob {
        var value := data[r.at..r.at + length];
        ValuedExactly(typ, ext, i, j, Has(flags, TLV_MULTIVALUE), value, r.at + length, Entry(0, 0, 0, 0, false, 0, []));
        assert TlvFrame(data, eob, at, r.at + length);
      }
      hide Head, Indices, Length, Valued;
    }
  }

  // ----- a block of TLVs

  /** TLVs one behind the other, each of which begins before `end`; the last one
      may reach behind it. */
  ghost predicate AreTlvs(data: seq<Octet>, eob: nat, at: nat, end: nat, next: nat, count: Octet, es: seq<Entry>)
    requires eob <= |data|
    decreases |es|
  {
    if es == [] then at >= end && next == at
    else at < end && exists mid :: IsTlv(data, eob, at, mid, count, es[0]) && AreTlvs(data, eob, mid, end, next, count, es[1..])
  }

  lemma {:induction false} TlvsAccepted(data: seq<Octet>, eob: nat, at: nat, end: nat, next: nat, count: Octet, list: seq<Entry>, es: seq<Entry>)
    requires at <= eob <= |data| && AreTlvs(data, eob, at, end, next, count, es)
    ensures ReadTlvs(data, eob, at, end, count, list) == Read(PlacedAll(list, es), next)
    decreases |es|
  {
    hide ReadTlv, IsTlv, Placed;
    if es != [] {
      var mid :| IsTlv(data, eob, at, mid, count, es[0]) && AreTlvs(data, eob, mid, end, next, count, es[1..]);
      TlvExactly(data, eob, at, count, mid, es[0]);
      TlvsAccepted(data, eob, mid, end, next, count, Placed(list, es[0]), es[1..]);
    }
  }

  lemma {:induction false} TlvsFound(data: seq<Octet>, eob: nat, at: nat, end: nat, count: Octet, list: seq<Entry>) returns (es: seq<Entry>)
    requires at <= eob <= |data| && ReadTlvs(data, eob, at, end, count, list).Read?
    ensures AreTlvs(data, eob, at, end, ReadTlvs(data, eob, at, end, count, list).at, count, es)
    decreases eob - at
  {
    hide ReadTlv, IsTlv, Placed;
    es := [];
    if at < end {
      var r := ReadTlv(data, eob, at, count);
      TlvExactly(data, eob, at, count, r.at, r.item);
      var rest := TlvsFound(data, eob, r.at, end, count, Placed(list, r.item));
      es := [r.item] + rest;
      assert es[1..] == rest;
    }
  }

  /** The octets are a block of the TLVs `es`: their length in two octets, and then
      the TLVs. */
  ghost predicate IsTlvBlock(data: seq<Octet>, eob: nat, at: nat, next: nat, count: Octet, es: seq<Entry>)
    requires eob <= |data|
  {
    at + 2 <= eob && at + 2 + WordAt(data, at) <= eob && AreTlvs(data, eob, at + 2, at + 2 + WordAt(data, at), next, count, es)
  }

  /** _parse_tlvblock accepts the TLV blocks and nothing else, and sorts the TLVs. */
  lemma TlvBlockExactly(data: seq<Octet>, eob: nat, at: nat, count: Octet, next: nat, list: seq<Entry>)
    requires at <= eob <= |data|
    ensures ReadTlvBlock(data, eob, at, count) == Read(list, next)
       <==> exists es :: IsTlvBlock(data, eob, at, next, count, es) && list == PlacedAll([], es)
  {
    hide ReadTlvs, U16, U8, PlacedAll, AreTlvs;
    U16Exactly(data, eob, Place(at, 0));
    if ReadTlvBlock(data, eob, at, count) == Read(list, next) {
      var es := TlvsFound(data, eob, at + 2, at + 2 + WordAt(data, at), count, []);
      TlvsAccepted(data, eob, at + 2, at + 2 + WordAt(data, at), next, count, [], es);
      assert IsTlvBlock(data, eob, at, next, count, es);
    }
    if es :| IsTlvBlock(data, eob, at, next, count, es) && list == PlacedAll([], es) {
      TlvsAccepted(data, eob, at + 2, at + 2 + WordAt(data, at), next, count, [], es);
    }
  }

  /** A TLV may reach behind the end of its block: a block of length 1 that takes
      two octets. */
  lemma BlockOverrun()
    ensures IsTlvBlock([0, 1, 7, 0], 4, 0, 4, 0, [Entry(7, 0, 0, 255, false, 0, [])])
  {
    var data: seq<Octet> := [0, 1, 7, 0];
    var e := Entry(7, 0, 0, 255, false, 0, []);
    assert IsTlv(data, 4, 2, 4, 0, e);
    assert [e][1..] == [];
    assert AreTlvs(data, 4, 4, 3, 4, 0, []);
  }

  // ----- an address block

  /** The lengths of head and tail, and where the parts of an address block are. */
  datatype Frame = Frame(head: Octet, tailAt: nat, tail: Octet, midsAt: nat, mid: nat, prefixAt: nat, next: nat)

  /** The octets from `at` on have the form of an address block, with its parts
      where `w` says. */
  predicate BlockFrame(data: seq<Octet>, eob: nat, at: nat, len: AddrLen, w: Frame)
    requires eob <= |data|
  {
    && at + 2 <= eob && data[at] > 0
    && var f := data[at + 1];
      && !(f / 64 % 2 == 1 && f / 32 % 2 == 1) && !(f / 16 % 2 == 1 && f / 8 % 2 == 1)
      && HeadFrame(data, eob, at, f, w) && TailFrame(data, eob, f, len, w)
      && w.mid == (len - w.head - w.tail) % 256
      && w.prefixAt == w.midsAt + (data[at] as int) * w.mid
      && w.next == w.prefixAt + (if f / 16 % 2 == 1 then 1 else if f / 8 % 2 == 1 then data[at] else 0)
      && w.next <= eob
  }

  /** The head is there if bit 128 says so. */
  predicate HeadFrame(data: seq<Octet>, eob: nat, at: nat, f: Octet, w: Frame)
    requires eob <= |data| && at + 2 <= eob
  {
    if f / 128 % 2 == 1
    then at + 3 <= eob && w.head == data[at + 2] && w.head <= 16 && w.tailAt == at + 3 + w.head <= eob
    else w.head == 0 && w.tailAt == at + 2
  }

  /** The tail is there if bit 64 says so; with bit 32 it is all zeros, and only
      its length is there. */
  predicate TailFrame(data: seq<Octet>, eob: nat, f: Octet, len: AddrLen, w: Frame)
    requires eob <= |data|
  {
    if f / 64 % 2 == 1 then
      w.tailAt < eob && w.tail == data[w.tailAt] && w.tail <= len && w.midsAt == w.tailAt + 1 + w.tail <= eob
    else if f / 32 % 2 == 1 then w.tailAt < eob && w.tail == data[w.tailAt] && w.midsAt == w.tailAt + 1
    else w.tail == 0 && w.midsAt == w.tailAt
  }

  function BufferAt(data: seq<Octet>, at: nat, len: AddrLen, w: Frame, k: nat): Octet
    requires BlockFrame(data, |data|, at, len, w)
  {
    if data[at + 1] / 64 % 2 == 1 && len - w.tail <= k < len then data[w.tailAt + 1 + (k - (len - w.tail))]
    else if k < w.head then data[at + 3 + k]
    else 0
  }

  /** The buffer for an address: head, zeros, and tail. */
  ghost predicate Buffer(data: seq<Octet>, at: nat, len: AddrLen, w: Frame, addr: seq<Octet>)
    requires BlockFrame(data, |data|, at, len, w)
  {
    |addr| == 16 && forall k :: 0 <= k < 16 ==> addr[k] == BufferAt(data, at, len, w, k)
  }

  ghost predicate BlockSays(data: seq<Octet>, at: nat, len: AddrLen, w: Frame, e: BlockEntry)
    requires BlockFrame(data, |data|, at, len, w)
  {
    var f := data[at + 1];
    && e.count == data[at] && e.midStart == w.head && e.midLen == w.mid
    && Buffer(data, at, len, w, e.addr) && e.mids == data[w.midsAt..w.prefixAt]
    && (if f / 8 % 2 == 1 then e.prefixes == Some(data[w.prefixAt..w.next]) && e.prefix == 0
        else e.prefixes == None && e.prefix == if f / 16 % 2 == 1 then data[w.prefixAt] else 8 * len)
  }

  /** The octets from `at` to `next` are an address block that reads as `e`. */
  ghost predicate IsAddrBlock(data: seq<Octet>, eob: nat, at: nat, next: nat, len: AddrLen, e: BlockEntry)
    requires eob <= |data|
  {
    exists w :: BlockFrame(data, eob, at, len, w) && w.next == next && BlockSays(data, at, len, w, e)
  }

  /** The head is accepted if it has its form, and then it is put into the buffer. */
  lemma HeadAccepted(data: seq<Octet>, eob: nat, at: nat, f: Octet, w: Frame)
    requires at + 2 <= eob <= |data| && HeadFrame(data, eob, at, f, w)
    ensures var r := ReadHead(data, eob, Place(at + 2, 0), f);
      && r.Going? && r.place == Place(w.tailAt, 0) && r.item.0 == w.head && |r.item.1| == 16
      && forall k :: 0 <= k < 16 ==> r.item.1[k] == if k < w.head then data[at + 3 + k] else 0
  {
    U8Exactly(data, eob, Place(at + 2, 0));
    hide U8;
  }

  lemma HeadFound(data: seq<Octet>, eob: nat, at: nat, f: Octet, w: Frame)
    requires at + 2 <= eob <= |data|
    requires var r := ReadHead(data, eob, Place(at + 2, 0), f);
      r.Going? && r.place.code == 0 && w.head == r.item.0 && w.tailAt == r.place.at
    ensures HeadFrame(data, eob, at, f, w)
  {
    U8Exactly(data, eob, Place(at + 2, 0));
    hide U8;
  }

  lemma TailAccepted(data: seq<Octet>, eob: nat, f: Octet, len: AddrLen, addr: seq<Octet>, w: Frame)
    requires w.tailAt <= eob <= |data| && |addr| == 16 && TailFrame(data, eob, f, len, w) && !(f / 64 % 2 == 1 && f / 32 % 2 == 1)
    ensures var r := ReadTail(data, eob, Place(w.tailAt, 0), f, len, addr);
      && r.Going? && r.place == Place(w.midsAt, 0) && r.item.0 == w.tail && |r.item.1| == 16
      && forall k :: 0 <= k < 16 ==>
           r.item.1[k] == if f / 64 % 2 == 1 && len - w.tail <= k < len then data[w.tailAt + 1 + (k - (len - w.tail))] else addr[k]
  {
    U8Exactly(data, eob, Place(w.tailAt, 0));
    hide U8;
  }

  lemma TailFound(data: seq<Octet>, eob: nat, f: Octet, len: AddrLen, addr: seq<Octet>, w: Frame)
    requires w.tailAt <= eob <= |data| && |addr| == 16
    requires var r := ReadTail(data, eob, Place(w.tailAt, 0), f, len, addr);
      r.Going? && r.place.code == 0 && w.tail == r.item.0 && w.midsAt == r.place.at
    ensures TailFrame(data, eob, f, len, w) && !(f / 64 % 2 == 1 && f / 32 % 2 == 1)
  {
    U8Exactly(data, eob, Place(w.tailAt, 0));
    hide U8;
  }

  /** An error that has been noted stays. */
  lemma HeadError(data: seq<Octet>, eob: nat, p: Place, f: Octet)
    requires p.at <= eob <= |data| && p.code != 0
    ensures var r := ReadHead(data, eob, p, f); r.Going? ==> r.place.code != 0
  {
  }

  lemma TailError(data: seq<Octet>, eob: nat, p: Place, f: Octet, len: AddrLen, addr: seq<Octet>)
    requires p.at <= eob <= |data| && p.code != 0 && |addr| == 16
    ensures var r := ReadTail(data, eob, p, f, len, addr); r.Going? ==> r.place.code != 0
  {
  }

  lemma RestError(data: seq<Octet>, eob: nat, p: Place, f: Octet, len: AddrLen, count: Octet, head: Octet, mid: Octet, addr: seq<Octet>)
    requires p.at <= eob <= |data| && p.code != 0
    ensures ReadRest(data, eob, p, f, len, count, head, mid, addr).Failed?
  {
  }

  /** Middle parts and prefix lengths. */
  lemma RestExactly(data: seq<Octet>, eob: nat, p: Place, f: Octet, len: AddrLen, count: Octet, head: Octet, mid: Octet,
      addr: seq<Octet>, next: nat, e: BlockEntry)
    requires p.at <= eob <= |data| && p.code == 0
    ensures var q := p.at + (count as int) * mid;
      ReadRest(data, eob, p, f, len, count, head, mid, addr) == Read(e, next) <==>
        && !(f / 16 % 2 == 1 && f / 8 % 2 == 1)
        && next == q + (if f / 16 % 2 == 1 then 1 else if f / 8 % 2 == 1 then count else 0) && next <= eob
        && (e.count, e.midStart, e.midLen, e.addr, e.mids) == (count, head, mid, addr, data[p.at..q])
        && (if f / 8 % 2 == 1 then e.prefixes == Some(data[q..next]) && e.prefix == 0
            else e.prefixes == None && e.prefix == if f / 16 % 2 == 1 then data[q] else 8 * len)
  {
    TimesIsProduct(count, mid);
    hide Times;
  }

  lemma MidLength(len: AddrLen, head: Octet, tail: Octet)
    ensures Minus(Minus(len, head), tail) == (len - head - tail) % 256
  {
  }

  /** The steps of _parse_addrblock, where none of them stops. */
  lemma BlockSteps(data: seq<Octet>, eob: nat, at: nat, len: AddrLen, r: Step<(Octet, seq<Octet>)>, t: Step<(Octet, seq<Octet>)>)
    requires at + 2 <= eob <= |data| && data[at] > 0
    requires r == ReadHead(data, eob, Place(at + 2, 0), data[at + 1]) && r.Going?
    requires t == ReadTail(data, eob, r.place, data[at + 1], len, r.item.1) && t.Going?
    ensures ReadAddrBlock(data, eob, at, len)
         == ReadRest(data, eob, t.place, data[at + 1], len, data[at], r.item.0, Minus(Minus(len, r.item.0), t.item.0), t.item.1)
  {
    hide U8, ReadHead, ReadTail, ReadRest, Minus;
    U8Exactly(data, eob, Place(at, 0));
    U8Exactly(data, eob, Place(at + 1, 0));
  }

  /** What is read has gone through all the steps. */
  lemma BlockGoes(data: seq<Octet>, eob: nat, at: nat, len: AddrLen)
    requires at <= eob <= |data| && ReadAddrBlock(data, eob, at, len).Read?
    ensures at + 2 <= eob && data[at] > 0
    ensures var r := ReadHead(data, eob, Place(at + 2, 0), data[at + 1]);
      && r.Going? && r.place.code == 0
      && var t := ReadTail(data, eob, r.place, data[at + 1], len, r.item.1); t.Going? && t.place.code == 0
  {
    var (count, p) := U8(data, eob, Place(at, 0));
    var (f, q) := U8(data, eob, p);
    U8Exactly(data, eob, Place(at, 0));
    U8Exactly(data, eob, p);
    HeadError(data, eob, q.(code := if q.code == 0 then -1 else q.code), f);
    var r := ReadHead(data, eob, q, f);
    if r.Going? {
      TailError(data, eob, r.place.(code := if r.place.code == 0 then -1 else r.place.code), f, len, r.item.1);
      var t := ReadTail(data, eob, r.place, f, len, r.item.1);
      if t.Going? {
        RestError(data, eob, t.place.(code := if t.place.code == 0 then -1 else t.place.code), f, len, count, r.item.0,
          Minus(Minus(len, r.item.0), t.item.0), t.item.1);
      }
    }
    hide U8, ReadHead, ReadTail, ReadRest, Minus;
  }

  lemma BufferFilled(data: seq<Octet>, at: nat, len: AddrLen, w: Frame, addr: seq<Octet>, head: seq<Octet>, tail: seq<Octet>)
    requires BlockFrame(data, |data|, at, len, w) && Buffer(data, at, len, w, addr) && |head| == |tail| == 16
    requires forall k :: 0 <= k < 16 ==> head[k] == if k < w.head then data[at + 3 + k] else 0
    requires forall k :: 0 <= k < 16 ==>
      tail[k] == if data[at + 1] / 64 % 2 == 1 && len - w.tail <= k < len then data[w.tailAt + 1 + (k - (len - w.tail))] else head[k]
    ensures tail == addr
  {
    assert forall k :: 0 <= k < 16 ==> tail[k] == addr[k];
  }

  lemma FrameParts(data: seq<Octet>, eob: nat, at: nat, len: AddrLen, w: Frame)
    requires eob <= |data| && BlockFrame(data, eob, at, len, w)
    ensures at + 2 <= eob && data[at] > 0 && HeadFrame(data, eob, at, data[at + 1], w) && TailFrame(data, eob, data[at + 1], len, w)
    ensures !(data[at + 1] / 64 % 2 == 1 && data[at + 1] / 32 % 2 == 1) && BlockFrame(data, |data|, at, len, w)
    ensures w.tailAt <= w.midsAt <= w.prefixAt <= w.next <= eob && w.mid < 256
    ensures data[at + 1] / 16 % 2 == 1 ==> w.prefixAt < eob
    ensures w.prefixAt == w.midsAt + (data[at] as int) * w.mid && !(data[at + 1] / 16 % 2 == 1 && data[at + 1] / 8 % 2 == 1)
    ensures w.next == w.prefixAt + (if data[at + 1] / 16 % 2 == 1 then 1 else if data[at + 1] / 8 % 2 == 1 then data[at] else 0)
    ensures w.mid == (len - w.head - w.tail) % 256
  {
    assert (data[at] as int) * w.mid >= 0;
  }

  lemma FrameWhole(data: seq<Octet>, eob: nat, at: nat, len: AddrLen, w: Frame)
    requires at + 2 <= eob <= |data| && data[at] > 0 && HeadFrame(data, eob, at, data[at + 1], w) && TailFrame(data, eob, data[at + 1], len, w)
    requires !(data[at + 1] / 64 % 2 == 1 && data[at + 1] / 32 % 2 == 1) && !(data[at + 1] / 16 % 2 == 1 && data[at + 1] / 8 % 2 == 1)
    requires w.mid == (len - w.head - w.tail) % 256 && w.prefixAt == w.midsAt + (data[at] as int) * w.mid
    requires w.next == w.prefixAt + (if data[at + 1] / 16 % 2 == 1 then 1 else if data[at + 1] / 8 % 2 == 1 then data[at] else 0) && w.next <= eob
    ensures BlockFrame(data, eob, at, len, w)
  {
    hide HeadFrame, TailFrame;
  }

  lemma BlockSaysParts(data: seq<Octet>, at: nat, len: AddrLen, w: Frame, e: BlockEntry)
    requires BlockFrame(data, |data|, at, len, w) && BlockSays(data, at, len, w, e)
    ensures |data| >= at + 2 && w.midsAt <= w.prefixAt <= w.next <= |data|
    ensures Buffer(data, at, len, w, e.addr)
    ensures var f := data[at + 1];
      && (e.count, e.midStart, e.midLen, e.mids) == (data[at], w.head, w.mid, data[w.midsAt..w.prefixAt])
      && (f / 16 % 2 == 1 ==> w.prefixAt < |data|)
      && (if f / 8 % 2 == 1 then e.prefixes == Some(data[w.prefixAt..w.next]) && e.prefix == 0
          else e.prefixes == None && e.prefix == if f / 16 % 2 == 1 then data[w.prefixAt] else 8 * len)
  {
    FrameParts(data, |data|, at, len, w);
    hide BlockFrame, HeadFrame, TailFrame, Buffer;
  }

  /** Head and tail of an address block are read. */
  lemma EdgesRead(data: seq<Octet>, eob: nat, at: nat, len: AddrLen, w: Frame, addr: seq<Octet>)
    requires at <= eob <= |data| && BlockFrame(data, eob, at, len, w) && BlockFrame(data, |data|, at, len, w)
    requires Buffer(data, at, len, w, addr)
    ensures ReadAddrBlock(data, eob, at, len)
         == ReadRest(data, eob, Place(w.midsAt, 0), data[at + 1], len, data[at], w.head, w.mid, addr)
  {
    hide *;
    FrameParts(data, eob, at, len, w);
    var f := data[at + 1];
    HeadAccepted(data, eob, at, f, w);
    var head := ReadHead(data, eob, Place(at + 2, 0), f);
    TailAccepted(data, eob, f, len, head.item.1, w);
    var tail := ReadTail(data, eob, head.place, f, len, head.item.1);
    BufferFilled(data, at, len, w, addr, head.item.1, tail.item.1);
    MidLength(len, w.head, w.tail);
    BlockSteps(data, eob, at, len, head, tail);
  }

  /** An address block is accepted. */
  lemma AddrBlockAccepted(data: seq<Octet>, eob: nat, at: nat, len: AddrLen, w: Frame, e: BlockEntry)
    requires at <= eob <= |data| && BlockFrame(data, eob, at, len, w) && BlockFrame(data, |data|, at, len, w)
    requires BlockSays(data, at, len, w, e)
    ensures ReadAddrBlock(data, eob, at, len) == Read(e, w.next)
  {
    hide *;
    FrameParts(data, eob, at, len, w);
    BlockSaysParts(data, at, len, w, e);
    EdgesRead(data, eob, at, len, w, e.addr);
    RestExactly(data, eob, Place(w.midsAt, 0), data[at + 1], len, data[at], w.head, w.mid, e.addr, w.next, e);
  }

  /** Where the parts of what is read are. */
  lemma AddrBlockFound(data: seq<Octet>, eob: nat, at: nat, len: AddrLen, next: nat, e: BlockEntry) returns (w: Frame)
    requires at <= eob <= |data| && ReadAddrBlock(data, eob, at, len) == Read(e, next)
    ensures BlockFrame(data, eob, at, len, w) && w.next == next
  {
    hide U8, ReadHead, ReadTail, ReadRest, Minus, ReadAddrBlock, HeadFrame, TailFrame, BlockFrame;
    BlockGoes(data, eob, at, len);
    var f := data[at + 1];
    var head := ReadHead(data, eob, Place(at + 2, 0), f);
    var tail := ReadTail(data, eob, head.place, f, len, head.item.1);
    BlockSteps(data, eob, at, len, head, tail);
    MidLength(len, head.item.0, tail.item.0);
    var mid := Minus(Minus(len, head.item.0), tail.item.0);
    w := Frame(head.item.0, head.place.at, tail.item.0, tail.place.at, mid, tail.place.at + (data[at] as int) * mid, next);
    HeadFound(data, eob, at, f, w);
    TailFound(data, eob, f, len, head.item.1, w);
    RestExactly(data, eob, tail.place, f, len, data[at], w.head, mid, tail.item.1, next, e);
    FrameWhole(data, eob, at, len, w);
  }

  /** What an address block says. */
  lemma BlockWords(data: seq<Octet>, at: nat, len: AddrLen, w: Frame) returns (e: BlockEntry)
    requires BlockFrame(data, |data|, at, len, w)
    ensures BlockSays(data, at, len, w, e)
  {
    FrameParts(data, |data|, at, len, w);
    var f := data[at + 1];
    var addr := seq(16, k requires 0 <= k < 16 => BufferAt(data, at, len, w, k));
    hide BlockFrame, HeadFrame, TailFrame, BufferAt;
    e := BlockEntry(data[at], w.head, w.mid, addr, data[w.midsAt..w.prefixAt],
      if f / 8 % 2 == 1 then Some(data[w.prefixAt..w.next]) else None,
      if f / 8 % 2 == 1 then 0 else if f / 16 % 2 == 1 then data[w.prefixAt] else 8 * len);
  }

  /** The same octets do not say two things. */
  lemma AddrBlockSays(data: seq<Octet>, eob: nat, at: nat, len: AddrLen, w: Frame, e: BlockEntry)
    requires at <= eob <= |data| && BlockFrame(data, eob, at, len, w) && BlockFrame(data, |data|, at, len, w)
    requires ReadAddrBlock(data, eob, at, len) == Read(e, w.next)
    ensures BlockSays(data, at, len, w, e)
  {
    hide BlockFrame, BlockSays, ReadAddrBlock;
    var d := BlockWords(data, at, len, w);
    AddrBlockAccepted(data, eob, at, len, w, d);
  }

  lemma AddrBlockIs(data: seq<Octet>, eob: nat, at: nat, len: AddrLen, next: nat, e: BlockEntry)
    requires at <= eob <= |data| && IsAddrBlock(data, eob, at, next, len, e)
    ensures ReadAddrBlock(data, eob, at, len) == Read(e, next)
  {
    hide ReadAddrBlock, BlockSays;
    var w :| BlockFrame(data, eob, at, len, w) && w.next == next && BlockSays(data, at, len, w, e);
    FrameParts(data, eob, at, len, w);
    AddrBlockAccepted(data, eob, at, len, w, e);
  }

  /** _parse_addrblock accepts the address blocks and nothing else. */
  lemma AddrBlockExactly(data: seq<Octet>, eob: nat, at: nat, len: AddrLen, next: nat, e: BlockEntry)
    requires at <= eob <= |data|
    ensures ReadAddrBlock(data, eob, at, len) == Read(e, next) <==> IsAddrBlock(data, eob, at, next, len, e)
  {
    hide ReadAddrBlock, BlockFrame, BlockSays;
    if ReadAddrBlock(data, eob, at, len) == Read(e, next) {
      var w := AddrBlockFound(data, eob, at, len, next, e);
      FrameParts(data, eob, at, len, w);
      AddrBlockSays(data, eob, at, len, w, e);
    }
    if IsAddrBlock(data, eob, at, next, len, e) {
      AddrBlockIs(data, eob, at, len, next, e);
    }
  }

  // ----- address blocks with their TLVs

  /** A TLV block, with its TLVs sorted. */
  ghost predicate IsSortedTlvBlock(data: seq<Octet>, eob: nat, at: nat, next: nat, count: Octet, list: seq<Entry>)
    requires eob <= |data|
  {
    exists es :: IsTlvBlock(data, eob, at, next, count, es) && list == PlacedAll([], es)
  }

  /** An address block and the TLVs of its addresses. */
  ghost predicate IsPair(data: seq<Octet>, end: nat, at: nat, next: nat, len: AddrLen, b: ParsedBlock)
    requires end <= |data|
  {
    exists mid :: at <= mid <= end && IsAddrBlock(data, end, at, mid, len, b.entry) && IsSortedTlvBlock(data, end, mid, next, b.entry.count, b.tlvs)
  }

  /** Such pairs up to `end`. */
  ghost predicate ArePairs(data: seq<Octet>, end: nat, at: nat, len: AddrLen, list: seq<ParsedBlock>)
    requires end <= |data|
    decreases |list|
  {
    if list == [] then at == end
    else exists mid :: at < mid <= end && IsPair(data, end, at, mid, len, list[0]) && ArePairs(data, end, mid, len, list[1..])
  }

  lemma TlvBlockInside(data: seq<Octet>, eob: nat, at: nat, next: nat, count: Octet, list: seq<Entry>)
    requires at <= eob <= |data|
    ensures IsSortedTlvBlock(data, eob, at, next, count, list) <==> ReadTlvBlock(data, eob, at, count) == Read(list, next)
    ensures IsSortedTlvBlock(data, eob, at, next, count, list) ==> at < next <= eob
  {
    hide *;
    TlvBlockExactly(data, eob, at, count, next, list);
    SortedMeans(data, eob, at, next, count, list);
  }

  lemma SortedMeans(data: seq<Octet>, eob: nat, at: nat, next: nat, count: Octet, list: seq<Entry>)
    requires eob <= |data|
    ensures IsSortedTlvBlock(data, eob, at, next, count, list)
       <==> exists es :: IsTlvBlock(data, eob, at, next, count, es) && list == PlacedAll([], es)
  {
  }

  lemma {:induction false} PairsAccepted(data: seq<Octet>, end: nat, at: nat, len: AddrLen, list: seq<ParsedBlock>)
    requires at <= end <= |data| && ArePairs(data, end, at, len, list)
    ensures ReadBlocks(data, end, at, len) == Read(list, end)
    decreases |list|
  {
    hide IsAddrBlock, IsSortedTlvBlock, ReadAddrBlock, ReadTlvBlock;
    if list != [] {
      var b := list[0];
      var next :| at < next <= end && IsPair(data, end, at, next, len, b) && ArePairs(data, end, next, len, list[1..]);
      var mid :| at <= mid <= end && IsAddrBlock(data, end, at, mid, len, b.entry) && IsSortedTlvBlock(data, end, mid, next, b.entry.count, b.tlvs);
      AddrBlockExactly(data, end, at, len, mid, b.entry);
      TlvBlockInside(data, end, mid, next, b.entry.count, b.tlvs);
      PairsAccepted(data, end, next, len, list[1..]);
      assert list == [ParsedBlock(b.entry, b.tlvs)] + list[1..];
    }
  }

  lemma {:induction false} PairsFound(data: seq<Octet>, end: nat, at: nat, len: AddrLen)
    requires at <= end <= |data| && ReadBlocks(data, end, at, len).Read?
    ensures ArePairs(data, end, at, len, ReadBlocks(data, end, at, len).item) && ReadBlocks(data, end, at, len).at == end
    decreases end - at
  {
    hide IsAddrBlock, IsSortedTlvBlock, ReadAddrBlock, ReadTlvBlock;
    if at < end {
      var r := ReadAddrBlock(data, end, at, len);
      var t := ReadTlvBlock(data, end, r.at, r.item.count);
      AddrBlockExactly(data, end, at, len, r.at, r.item);
      TlvBlockInside(data, end, r.at, t.at, r.item.count, t.item);
      PairsFound(data, end, t.at, len);
      var rest := ReadBlocks(data, end, t.at, len).item;
      var list := [ParsedBlock(r.item, t.item)] + rest;
      assert list[1..] == rest;
      assert IsPair(data, end, at, t.at, len, list[0]);
    }
  }

  // ----- a message

  /** Behind the originator, the hop limit, the hop count and the sequence number. */
  function LimitAt(at: nat, f: Octet): nat {
    at + 4 + if f / 128 % 2 == 1 then f % 16 + 1 else 0
  }

  function CountAt(at: nat, f: Octet): nat {
    LimitAt(at, f) + if f / 64 % 2 == 1 then 1 else 0
  }

  function SeqnoAt(at: nat, f: Octet): nat {
    CountAt(at, f) + if f / 32 % 2 == 1 then 1 else 0
  }

  function HeaderEnd(at: nat, f: Octet): nat {
    SeqnoAt(at, f) + if f / 16 % 2 == 1 then 2 else 0
  }

  /** The octets from `at` to `next` are the header of a message of `size` octets. */
  predicate IsHeader(data: seq<Octet>, eob: nat, at: nat, next: nat, h: Header, size: Word)
    requires eob <= |data|
  {
    && at + 4 <= eob && HeaderEnd(at, data[at + 1]) == next <= eob && at + size <= eob
    && var f := data[at + 1];
      && h.typ == data[at] && size == WordAt(data, at + 2) && h.addrLen == f % 16 + 1
      && h.orig == (if f / 128 % 2 == 1 then Some(data[at + 4..LimitAt(at, f)]) else None)
      && h.hopLimit == (if f / 64 % 2 == 1 then Some(data[LimitAt(at, f)]) else None)
      && h.hopCount == (if f / 32 % 2 == 1 then Some(data[CountAt(at, f)]) else None)
      && h.seqno == (if f / 16 % 2 == 1 then Some(WordAt(data, SeqnoAt(at, f))) else None)
  }

  lemma OptionExactly(data: seq<Octet>, eob: nat, p: Place, present: bool)
    requires eob <= |data|
    ensures var (x, q) := ReadOption(data, eob, p, present);
      && (q.code == 0 <==> p.code == 0 && (present ==> p.at < eob))
      && (q.code == 0 ==> q.at == p.at + (if present then 1 else 0) && x == if present then Some(data[p.at]) else None)
  {
    hide U8;
    U8Exactly(data, eob, p);
  }

  lemma SeqnoExactly(data: seq<Octet>, eob: nat, p: Place, present: bool)
    requires eob <= |data|
    ensures var (x, q) := ReadSeqno(data, eob, p, present);
      && (q.code == 0 <==> p.code == 0 && (present ==> p.at + 1 < eob))
      && (q.code == 0 ==> q.at == p.at + (if present then 2 else 0) && x == if present then Some(WordAt(data, p.at)) else None)
  {
    hide U16;
    U16Exactly(data, eob, p);
  }

  lemma OptionsExactly(data: seq<Octet>, eob: nat, at: nat, f: Octet, p: Place)
    requires eob <= |data| && p.at == LimitAt(at, f) <= eob
    ensures var (limit, count, seqno, q) := ReadOptions(data, eob, p, f);
      && (q.code == 0 <==> p.code == 0 && HeaderEnd(at, f) <= eob)
      && (q.code == 0 ==>
            && q.at == HeaderEnd(at, f)
            && limit == (if f / 64 % 2 == 1 then Some(data[LimitAt(at, f)]) else None)
            && count == (if f / 32 % 2 == 1 then Some(data[CountAt(at, f)]) else None)
            && seqno == (if f / 16 % 2 == 1 then Some(WordAt(data, SeqnoAt(at, f))) else None))
  {
    hide ReadOption, ReadSeqno, WordAt;
    var (limit, q) := ReadOption(data, eob, p, f / 64 % 2 == 1);
    var (count, r) := ReadOption(data, eob, q, f / 32 % 2 == 1);
    OptionExactly(data, eob, p, f / 64 % 2 == 1);
    OptionExactly(data, eob, q, f / 32 % 2 == 1);
    SeqnoExactly(data, eob, r, f / 16 % 2 == 1);
  }

  lemma OptionsError(data: seq<Octet>, eob: nat, p: Place, f: Octet)
    requires eob <= |data| && p.code != 0
    ensures ReadOptions(data, eob, p, f).3.code != 0
  {
  }

  lemma HeaderExactly(data: seq<Octet>, eob: nat, at: nat, next: nat, h: Header, size: Word)
    requires at <= eob <= |data|
    ensures ReadHeader(data, eob, at) == Read((h, size), next) <==> IsHeader(data, eob, at, next, h, size)
  {
    hide U8, U16, ReadOptions, WordAt;
    var (typ, p) := U8(data, eob, Place(at, 0));
    var (flags, q) := U8(data, eob, p);
    var (s, r) := U16(data, eob, q);
    U8Exactly(data, eob, Place(at, 0));
    U8Exactly(data, eob, p);
    U16Exactly(data, eob, q);
    if r.code == 0 {
      if LimitAt(at, flags) <= eob {
        OptionsExactly(data, eob, at, flags, Place(LimitAt(at, flags), 0));
      }
    } else {
      OptionsError(data, eob, r, flags);
      OptionsError(data, eob, Place(r.at + (flags % 16 + 1), r.code), flags);
    }
  }

  /** The octets from `at` to `next` are a message: a header that says how many
      they are, TLVs, and address blocks with their TLVs up to the end. */
  ghost predicate IsMessage(data: seq<Octet>, eob: nat, at: nat, next: nat, m: Message)
    requires eob <= |data|
  {
    exists p: nat, q: nat, size: Word ::
      && IsHeader(data, eob, at, p, m.header, size) && p < q <= next == at + size <= eob
      && IsSortedTlvBlock(data, next, p, q, 0, m.tlvs) && ArePairs(data, next, q, m.header.addrLen, m.blocks)
  }

  lemma MessageAccepted(data: seq<Octet>, eob: nat, at: nat, next: nat, m: Message)
    requires at <= eob <= |data| && IsMessage(data, eob, at, next, m)
    ensures ReadMessage(data, eob, at) == Read(m, next)
  {
    hide IsHeader, IsSortedTlvBlock, ArePairs, ReadHeader, ReadTlvBlock, ReadBlocks;
    var p: nat, q: nat, size: Word :| IsHeader(data, eob, at, p, m.header, size) && p < q <= next == at + size <= eob
      && IsSortedTlvBlock(data, next, p, q, 0, m.tlvs) && ArePairs(data, next, q, m.header.addrLen, m.blocks);
    HeaderExactly(data, eob, at, p, m.header, size);
    TlvBlockInside(data, next, p, q, 0, m.tlvs);
    PairsAccepted(data, next, q, m.header.addrLen, m.blocks);
  }

  lemma MessageFound(data: seq<Octet>, eob: nat, at: nat, next: nat, m: Message)
    requires at <= eob <= |data| && ReadMessage(data, eob, at) == Read(m, next)
    ensures IsMessage(data, eob, at, next, m)
  {
    hide IsHeader, IsSortedTlvBlock, ArePairs, ReadHeader, ReadTlvBlock, ReadBlocks;
    var r := ReadHeader(data, eob, at);
    HeaderExactly(data, eob, at, r.at, r.item.0, r.item.1);
    var t := ReadTlvBlock(data, next, r.at, 0);
    TlvBlockInside(data, next, r.at, t.at, 0, t.item);
    PairsFound(data, next, t.at, m.header.addrLen);
  }

  /** _handle_message accepts the messages and nothing else. */
  lemma MessageExactly(data: seq<Octet>, eob: nat, at: nat, next: nat, m: Message)
    requires at <= eob <= |data|
    ensures ReadMessage(data, eob, at) == Read(m, next) <==> IsMessage(data, eob, at, next, m)
  {
    hide *;
    if ReadMessage(data, eob, at) == Read(m, next) {
      MessageFound(data, eob, at, next, m);
    }
    if IsMessage(data, eob, at, next, m) {
      MessageAccepted(data, eob, at, next, m);
    }
  }

  // ----- a packet

  /** The octets up to `at` are the front of a packet: version 0 in the high half of
      the first octet, a sequence number if bit 8 is set, TLVs if bit 4 is. */
  ghost predicate IsFront(data: seq<Octet>, at: nat, seqno: Option<Word>, tlvs: seq<Entry>) {
    && 1 <= |data| && data[0] < 16
    && var p := if data[0] / 8 % 2 == 1 then 3 else 1;
      && p <= |data|
      && seqno == (if data[0] / 8 % 2 == 1 then Some(WordAt(data, 1)) else None)
      && if data[0] / 4 % 2 == 1 then IsSortedTlvBlock(data, |data|, p, at, 0, tlvs) else at == p && tlvs == []
  }

  /** Messages one behind the other. */
  ghost predicate AreMessages(data: seq<Octet>, at: nat, end: nat, ms: seq<Message>)
    decreases |ms|
  {
    if ms == [] then at == end
    else exists mid :: at < mid <= |data| && IsMessage(data, |data|, at, mid, ms[0]) && AreMessages(data, mid, end, ms[1..])
  }

  ghost predicate NoMessage(data: seq<Octet>, at: nat) {
    forall next, m :: !IsMessage(data, |data|, at, next, m)
  }

  /** No failure has the code OKAY, nor that of an unknown version. */
  predicate FailsProperly<T>(r: Reading<T>) {
    r.Failed? ==> r.code != 0 && r.code != -1
  }

  lemma TlvFails(data: seq<Octet>, eob: nat, at: nat, count: Octet)
    requires at <= eob <= |data|
    ensures FailsProperly(ReadTlv(data, eob, at, count))
  {
    hide ReadTlv;
    TlvRefused(data, eob, at, count);
  }

  lemma {:induction false} TlvsFail(data: seq<Octet>, eob: nat, at: nat, end: nat, count: Octet, list: seq<Entry>)
    requires at <= eob <= |data|
    ensures FailsProperly(ReadTlvs(data, eob, at, end, count, list))
    decreases eob - at
  {
    hide ReadTlv, Placed;
    if at < end {
      TlvFails(data, eob, at, count);
      var r := ReadTlv(data, eob, at, count);
      if r.Read? {
        TlvsFail(data, eob, r.at, end, count, Placed(list, r.item));
      }
    }
  }

  lemma TlvBlockFails(data: seq<Octet>, eob: nat, at: nat, count: Octet)
    requires at <= eob <= |data|
    ensures FailsProperly(ReadTlvBlock(data, eob, at, count))
  {
    hide ReadTlvs, U16;
    U16Exactly(data, eob, Place(at, 0));
    var (length, p) := U16(data, eob, Place(at, 0));
    if p.code == 0 && p.at + length <= eob {
      TlvsFail(data, eob, p.at, p.at + length, count, []);
    }
  }

  lemma AddrBlockFails(data: seq<Octet>, eob: nat, at: nat, len: AddrLen)
    requires at <= eob <= |data|
    ensures ReadAddrBlock(data, eob, at, len).Failed? ==> ReadAddrBlock(data, eob, at, len).code != 0
  {
    hide U8, Overwrite, Times;
  }

  lemma {:induction false} BlocksFail(data: seq<Octet>, end: nat, at: nat, len: AddrLen)
    requires at <= end <= |data|
    ensures ReadBlocks(data, end, at, len).Failed? ==> ReadBlocks(data, end, at, len).code != 0
    decreases end - at
  {
    hide ReadAddrBlock, ReadTlvBlock;
    if at < end {
      AddrBlockFails(data, end, at, len);
      var r := ReadAddrBlock(data, end, at, len);
      if r.Read? {
        TlvBlockFails(data, end, r.at, r.item.count);
        var t := ReadTlvBlock(data, end, r.at, r.item.count);
        if t.Read? {
          BlocksFail(data, end, t.at, len);
        }
      }
    }
  }

  lemma MessageFails(data: seq<Octet>, eob: nat, at: nat)
    requires at <= eob <= |data|
    ensures ReadMessage(data, eob, at).Failed? ==> ReadMessage(data, eob, at).code != 0
  {
    hide ReadTlvBlock, ReadBlocks, U8, U16, ReadOptions;
    var r := ReadHeader(data, eob, at);
    if r.Read? && r.at <= at + r.item.1 {
      var end := at + r.item.1;
      TlvBlockFails(data, end, r.at, 0);
      var t := ReadTlvBlock(data, end, r.at, 0);
      if t.Read? {
        BlocksFail(data, end, t.at, r.item.0.addrLen);
      }
    }
  }

  /** The messages of a packet up to the end, or to octets that are none. */
  lemma {:induction false} MessagesExactly(data: seq<Octet>, at: nat, list: seq<Message>) returns (end: nat, ms: seq<Message>)
    requires at <= |data|
    ensures at <= end <= |data| && AreMessages(data, at, end, ms) && ReadMessages(data, at, list).0 == list + ms
    ensures ReadMessages(data, at, list).1 == 0 <==> end == |data|
    ensures end < |data| ==> NoMessage(data, end)
    decreases |data| - at
  {
    hide ReadMessage, IsMessage;
    end, ms := at, [];
    if at == |data| {
      assert list + [] == list;
    } else {
      var r := ReadMessage(data, |data|, at);
      match r
      case Failed(_, _) =>
        MessageFails(data, |data|, at);
        forall next, m ensures !IsMessage(data, |data|, at, next, m) {
          MessageExactly(data, |data|, at, next, m);
        }
        assert list + [] == list;
      case Read(m, next) =>
        MessageExactly(data, |data|, at, next, m);
        var rest;
        end, rest := MessagesExactly(data, next, list + [m]);
        ms := [m] + rest;
        assert ms[1..] == rest;
        assert list + [m] + rest == list + ms;
    }
  }

  /** A packet is read exactly if there is the front of one, and refused for its
      version exactly if its first octet is 16 or more. */
  lemma PacketRefused(data: seq<Octet>)
    ensures var (packet, code) := ReadPacket(data);
      && (packet.Some? <==> exists at, seqno, tlvs :: IsFront(data, at, seqno, tlvs))
      && (packet == None ==> code != 0 && (code == -1 <==> |data| > 0 && data[0] >= 16))
  {
    hide U8, U16, ReadTlvBlock, IsSortedTlvBlock, ReadMessages, WordAt;
    U8Exactly(data, |data|, Place(0, 0));
    var (first, p) := U8(data, |data|, Place(0, 0));
    SeqnoExactly(data, |data|, p, first % 16 / 8 % 2 == 1);
    var (seqno, q) := ReadSeqno(data, |data|, p, first % 16 / 8 % 2 == 1);
    SeqnoCode(data, |data|, p, first % 16 / 8 % 2 == 1);
    if q.code == 0 {
      if first < 16 {
        FlagsOfFirst(first);
      }
      if first % 16 / 4 % 2 == 1 {
        TlvBlockFails(data, |data|, q.at, 0);
        var r := ReadTlvBlock(data, |data|, q.at, 0);
        if r.Read? {
          TlvBlockInside(data, |data|, q.at, r.at, 0, r.item);
        }
        forall at, tlvs ensures IsSortedTlvBlock(data, |data|, q.at, at, 0, tlvs) ==> r == Read(tlvs, at) {
          TlvBlockInside(data, |data|, q.at, at, 0, tlvs);
        }
        if first < 16 && r.Read? {
          assert IsFront(data, r.at, seqno, r.item);
        }
      } else if first < 16 {
        assert IsFront(data, q.at, seqno, []);
      }
    }
  }

  lemma FlagsOfFirst(first: Octet)
    requires first < 16
    ensures first % 16 / 8 % 2 == first / 8 % 2 && first % 16 / 4 % 2 == first / 4 % 2 && first / 16 == 0
  {
  }

  lemma SeqnoCode(data: seq<Octet>, eob: nat, p: Place, present: bool)
    requires eob <= |data| && (p.code == 0 || p.code == -2)
    ensures var (x, q) := ReadSeqno(data, eob, p, present); q.code == 0 || q.code == -2
  {
  }

  /** The front and the messages of a packet that is read. */
  ghost predicate ConsistsOf(data: seq<Octet>, packet: Packet, at: nat, end: nat) {
    at <= end <= |data| && IsFront(data, at, packet.seqno, packet.tlvs) && AreMessages(data, at, end, packet.messages)
  }

  lemma FrontIs(data: seq<Octet>) returns (at: nat)
    requires ReadPacket(data).0.Some?
    ensures at <= |data| && IsFront(data, at, ReadPacket(data).0.value.seqno, ReadPacket(data).0.value.tlvs)
    ensures (ReadPacket(data).0.value.messages, ReadPacket(data).1) == ReadMessages(data, at, [])
  {
    hide U8, U16, ReadTlvBlock, IsSortedTlvBlock, ReadMessages, WordAt;
    U8Exactly(data, |data|, Place(0, 0));
    var (first, p) := U8(data, |data|, Place(0, 0));
    FlagsOfFirst(first);
    SeqnoExactly(data, |data|, p, first / 8 % 2 == 1);
    var (seqno, q) := ReadSeqno(data, |data|, p, first / 8 % 2 == 1);
    at := q.at;
    if first / 4 % 2 == 1 {
      var r := ReadTlvBlock(data, |data|, q.at, 0);
      TlvBlockInside(data, |data|, q.at, r.at, 0, r.item);
      at := r.at;
    }
  }

  /** rfc5444_reader_handle_packet on any octets: what is read is the front of the
      packet and the messages behind it, one behind the other, up to octets that
      are no message; the result is OKAY exactly if they end with the packet. */
  lemma PacketExactly(data: seq<Octet>) returns (at: nat, end: nat)
    requires ReadPacket(data).0.Some?
    ensures ConsistsOf(data, ReadPacket(data).0.value, at, end)
    ensures ReadPacket(data).1 == 0 <==> end == |data|
    ensures end < |data| ==> NoMessage(data, end)
  {
    hide *;
    at := FrontIs(data);
    var ms;
    end, ms := MessagesExactly(data, at, []);
    assert [] + ms == ms;
    Consists(data, ReadPacket(data).0.value, at, end);
  }

  lemma Consists(data: seq<Octet>, packet: Packet, at: nat, end: nat)
    requires at <= end <= |data| && IsFront(data, at, packet.seqno, packet.tlvs) && AreMessages(data, at, end, packet.messages)
    ensures ConsistsOf(data, packet, at, end)
  {
  }
}
