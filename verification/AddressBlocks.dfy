/** Address blocks (section 5.3 of RFC 5444): addresses that share their first
    and last octets, as src-api/rfc5444/rfc5444_msg_generator.c writes them and
    src-api/rfc5444/rfc5444_reader.c parses them. */
module AddressBlocks {
  import opened Octets
  import opened Tlvs
  import opened Wrappers

  const ADDR_HEAD: Octet := 128
  const ADDR_FULLTAIL: Octet := 64
  const ADDR_ZEROTAIL: Octet := 32
  const ADDR_SINGLEPLEN: Octet := 16
  const ADDR_MULTIPLEN: Octet := 8
  const MAX_ADDRLEN: nat := 16

  /** A network address with the length of its prefix in bits. */
  datatype Address = Address(octets: seq<Octet>, prefix: Octet)

  type AddrLen = n: int | 1 <= n <= 16 witness 4

  // ----- how a block is laid out

  /** How many octets at the start and at the end are shared, and which of
      the short forms for tail and prefix lengths are taken. */
  datatype Layout = Layout(head: nat, tail: nat, zero: bool, single: bool, multi: bool)

  ghost predicate AllLong(block: seq<Address>, len: AddrLen) {
    forall i :: 0 <= i < |block| ==> |block[i].octets| == len
  }

  /** The short forms say nothing wrong about the block. */
  ghost predicate Apt(block: seq<Address>, len: AddrLen, lay: Layout) {
    && 0 < |block| < 256 && AllLong(block, len)
    && lay.head + lay.tail < len
    && (forall i :: 0 <= i < |block| ==> block[i].octets[..lay.head] == block[0].octets[..lay.head])
    && (forall i :: 0 <= i < |block| ==> block[i].octets[len - lay.tail..] == block[0].octets[len - lay.tail..])
    && (lay.zero ==> lay.tail > 0 && block[0].octets[len - lay.tail..] == Zeros(lay.tail))
    && !(lay.single && lay.multi)
    && (!lay.multi ==> forall i :: 0 <= i < |block| ==> block[i].prefix == if lay.single then block[0].prefix else 8 * len)
  }

  function Zeros(n: nat): (z: seq<Octet>)
    ensures |z| == n
  {
    seq(n, i => 0)
  }

  function LayoutFlags(lay: Layout): Octet {
    Flags(lay.head > 0, lay.tail > 0 && !lay.zero, lay.tail > 0 && lay.zero, lay.single, lay.multi, false)
  }

  function HeadOctets(a: Address, lay: Layout): seq<Octet>
    requires lay.head <= |a.octets| < 256
  {
    if lay.head > 0 then [lay.head as Octet] + a.octets[..lay.head] else []
  }

  function TailOctets(a: Address, lay: Layout): seq<Octet>
    requires lay.tail <= |a.octets| < 256
  {
    if lay.tail == 0 then [] else if lay.zero then [lay.tail as Octet]
    else [lay.tail as Octet] + a.octets[|a.octets| - lay.tail..]
  }

  /** What the addresses do not share. */
  function Mids(block: seq<Address>, lay: Layout): seq<Octet> {
    if block == [] then [] else
      var a := block[|block| - 1].octets;
      Mids(block[..|block| - 1], lay) + if lay.head + lay.tail <= |a| then a[lay.head..|a| - lay.tail] else []
  }

  function Prefixes(block: seq<Address>): (s: seq<Octet>)
    ensures |s| == |block|
  {
    seq(|block|, i requires 0 <= i < |block| => block[i].prefix)
  }

  function PrefixOctets(block: seq<Address>, lay: Layout): seq<Octet>
    requires block != []
  {
    if lay.multi then Prefixes(block) else if lay.single then [block[0].prefix] else []
  }

  /** An address block up to its TLVs. */
  function BlockOctets(block: seq<Address>, len: AddrLen, lay: Layout): seq<Octet>
    requires 0 < |block| < 256 && |block[0].octets| == len && lay.head + lay.tail < len
  {
    [|block| as Octet, LayoutFlags(lay)] + HeadOctets(block[0], lay) + TailOctets(block[0], lay)
      + Mids(block, lay) + PrefixOctets(block, lay)
  }

  // ----- a block as the reader sees it

  datatype BlockEntry = BlockEntry(count: Octet, midStart: Octet, midLen: Octet, addr: seq<Octet>,
                                   mids: seq<Octet>, prefixes: Option<seq<Octet>>, prefix: Octet)

  /** A step of _parse_addrblock: it goes on, perhaps with an error noted, or stops. */
  datatype Step<T> = Going(item: T, place: Place) | Stopped(code: int, at: nat)

  /** The head: its length and the buffer that it is put into. */
  function ReadHead(data: seq<Octet>, eob: nat, p: Place, flags: Octet): (r: Step<(Octet, seq<Octet>)>)
    requires p.at <= eob <= |data|
    ensures r.Going? ==> r.place.at <= eob && |r.item.1| == MAX_ADDRLEN
    ensures r.Stopped? ==> r.at <= eob && r.code != OKAY
  {
    if !Has(flags, ADDR_HEAD) then Going((0, Zeros(MAX_ADDRLEN)), p) else
      var (head, q) := U8(data, eob, p);
      if q.at + head > eob then Stopped(END_OF_BUFFER, q.at)
      else if head > MAX_ADDRLEN then Stopped(UNDEFINED, q.at)
      else Going((head, Overwrite(Zeros(MAX_ADDRLEN), 0, data[q.at..q.at + head])), Place(q.at + head, q.code))
  }

  function ReadTail(data: seq<Octet>, eob: nat, p: Place, flags: Octet, len: AddrLen, addr: seq<Octet>): (r: Step<(Octet, seq<Octet>)>)
    requires p.at <= eob <= |data| && |addr| == MAX_ADDRLEN
    ensures r.Going? ==> r.place.at <= eob && |r.item.1| == MAX_ADDRLEN
    ensures r.Stopped? ==> r.at <= eob && r.code != OKAY
  {
    if !Has(flags, ADDR_FULLTAIL) && !Has(flags, ADDR_ZEROTAIL) then Going((0, addr), p)
    else if !Has(flags, ADDR_FULLTAIL) then
      var (tail, q) := U8(data, eob, p);
      Going((tail, addr), q)
    else if !Has(flags, ADDR_ZEROTAIL) then
      var (tail, q) := U8(data, eob, p);
      if q.at + tail > eob then Stopped(END_OF_BUFFER, q.at)
      else if tail > len then Stopped(UNDEFINED, q.at)
      else Going((tail, Overwrite(addr, len - tail, data[q.at..q.at + tail])), Place(q.at + tail, q.code))
    else Stopped(BAD_MSG_TAILFLAGS, p.at)
  }

  function ReadPrefixes(data: seq<Octet>, eob: nat, p: Place, flags: Octet, len: AddrLen, count: Octet): (r: Step<(Option<seq<Octet>>, Octet)>)
    requires p.at <= eob <= |data|
    ensures r.Going? ==> r.place.at <= eob
    ensures r.Stopped? ==> r.code != OKAY
  {
    if !Has(flags, ADDR_SINGLEPLEN) && !Has(flags, ADDR_MULTIPLEN) then Going((None, 8 * len), p)
    else if !Has(flags, ADDR_MULTIPLEN) then
      if p.at + 1 > eob then Stopped(END_OF_BUFFER, p.at + 1) else Going((None, data[p.at]), p.(at := p.at + 1))
    else if !Has(flags, ADDR_SINGLEPLEN) then
      if p.at + count > eob then Stopped(END_OF_BUFFER, p.at + count)
      else Going((Some(data[p.at..p.at + count]), 0), p.(at := p.at + count))
    else Stopped(BAD_MSG_PREFIXFLAGS, p.at)
  }

  /** Middle parts and prefix lengths. */
  function ReadRest(data: seq<Octet>, eob: nat, p: Place, flags: Octet, len: AddrLen, count: Octet,
                    head: Octet, midLen: Octet, addr: seq<Octet>): (r: Reading<BlockEntry>)
    requires p.at <= eob <= |data|
    ensures r.Read? ==> p.at <= r.at <= eob
  {
    var after := p.at + Times(count, midLen);
    if after > eob then Failed(END_OF_BUFFER, after) else
      match ReadPrefixes(data, eob, Place(after, p.code), flags, len, count)
      case Stopped(code, at) => Failed(code, at)
      case Going(plen, q) =>
        if q.code != OKAY then Failed(q.code, q.at)
        else Read(BlockEntry(count, head, midLen, addr, data[p.at..after], plen.0, plen.1), q.at)
  }

  /** What _parse_addrblock makes of the octets at `at`. */
  function ReadAddrBlock(data: seq<Octet>, eob: nat, at: nat, len: AddrLen): (r: Reading<BlockEntry>)
    requires at <= eob <= |data|
    ensures r.Read? ==> at < r.at <= eob
  {
    var (count, p) := U8(data, eob, Place(at, OKAY));
    if count == 0 then Failed(EMPTY_ADDRBLOCK, p.at) else
      var (flags, q) := U8(data, eob, p);
      match ReadHead(data, eob, q, flags)
      case Stopped(code, at') => Failed(code, at')
      case Going(head, r) =>
        match ReadTail(data, eob, r, flags, len, head.1)
        case Stopped(code, at') => Failed(code, at')
        case Going(tail, s) =>
          ReadRest(data, eob, s, flags, len, count, head.0, Minus(Minus(len, head.0), tail.0), tail.1)
  }

  // ----- the addresses of a block

  predicate Whole(e: BlockEntry, len: AddrLen) {
    && |e.addr| == MAX_ADDRLEN && e.midStart + e.midLen <= len
    && |e.mids| == Times(e.count, e.midLen)
    && (e.prefixes.Some? ==> |e.prefixes.value| == e.count)
  }

  /** Address `i` as it is put together for the consumers. */
  function AddressAt(e: BlockEntry, len: AddrLen, i: nat): seq<Octet>
    requires Whole(e, len) && i < e.count
  {
    var from := Times(i, e.midLen);
    assert from + e.midLen <= |e.mids| by { TimesRises(i, e.count, e.midLen); }
    Overwrite(e.addr, e.midStart, e.mids[from..from + e.midLen])[..len]
  }

  /** Its prefix length; 255 stands for the whole address. */
  function PrefixAt(e: BlockEntry, len: AddrLen, i: nat): Octet
    requires Whole(e, len) && i < e.count
  {
    var p := if e.prefixes.Some? then e.prefixes.value[i] else e.prefix;
    if p == 255 then 8 * len else p
  }

  /** An address octet by octet: the middle part is its own, the rest is shared. */
  lemma AddressExactly(e: BlockEntry, len: AddrLen, i: nat, k: nat)
    requires Whole(e, len) && i < e.count && k < len
    ensures |AddressAt(e, len, i)| == len
    ensures var j := (i as int) * e.midLen + (k - e.midStart);
      if e.midStart <= k < e.midStart + e.midLen then 0 <= j < |e.mids| && AddressAt(e, len, i)[k] == e.mids[j]
      else AddressAt(e, len, i)[k] == e.addr[k]
  {
    TimesRises(i, e.count, e.midLen);
    TimesIsProduct(i, e.midLen);
  }

  /** The prefix length is the address's own, or that of the block; 255 stands for
      the whole address. */
  lemma PrefixExactly(e: BlockEntry, len: AddrLen, i: nat)
    requires Whole(e, len) && i < e.count
    ensures var p := if e.prefixes.Some? then e.prefixes.value[i] else e.prefix;
      (p == 255 ==> PrefixAt(e, len, i) == 8 * len) && (p != 255 ==> PrefixAt(e, len, i) == p)
  {
  }

  // ----- reading back a written block

  /** The buffer with the shared octets of a block. */
  function SharedOctets(a: Address, len: AddrLen, lay: Layout): (r: seq<Octet>)
    requires |a.octets| == len && lay.head + lay.tail < len
    ensures |r| == MAX_ADDRLEN
  {
    var addr := Overwrite(Zeros(MAX_ADDRLEN), 0, a.octets[..lay.head]);
    if lay.zero then addr else Overwrite(addr, len - lay.tail, a.octets[len - lay.tail..])
  }

  /** The list of prefix lengths, or the one that all addresses have. */
  function PrefixParts(block: seq<Address>, len: AddrLen, lay: Layout): (Option<seq<Octet>>, Octet)
    requires block != []
  {
    if lay.multi then (Some(Prefixes(block)), 0) else (None, if lay.single then block[0].prefix else 8 * len)
  }

  function EntryFor(block: seq<Address>, len: AddrLen, lay: Layout): BlockEntry
    requires 0 < |block| < 256 && |block[0].octets| == len && lay.head + lay.tail < len
  {
    BlockEntry(|block|, lay.head, len - lay.head - lay.tail, SharedOctets(block[0], len, lay), Mids(block, lay),
               PrefixParts(block, len, lay).0, PrefixParts(block, len, lay).1)
  }

  lemma {:induction false} MidsLength(block: seq<Address>, len: AddrLen, lay: Layout)
    requires AllLong(block, len) && lay.head + lay.tail < len
    ensures |Mids(block, lay)| == Times(|block|, len - lay.head - lay.tail)
  {
    if block != [] {
      MidsLength(block[..|block| - 1], len, lay);
    }
  }

  lemma {:induction false} MidOf(block: seq<Address>, len: AddrLen, lay: Layout, i: nat, from: nat)
    requires AllLong(block, len) && lay.head + lay.tail < len && i < |block|
    requires from == Times(i, len - lay.head - lay.tail)
    ensures var n := len - lay.head - lay.tail;
      from + n <= |Mids(block, lay)| && Mids(block, lay)[from..from + n] == block[i].octets[lay.head..len - lay.tail]
  {
    var start := block[..|block| - 1];
    MidsLength(start, len, lay);
    if i < |start| {
      MidOf(start, len, lay, i, from);
    }
  }

  lemma SharedBack(a: Address, len: AddrLen, lay: Layout)
    requires |a.octets| == len && lay.head + lay.tail < len
    requires lay.zero ==> lay.tail > 0 && a.octets[len - lay.tail..] == Zeros(lay.tail)
    ensures SharedOctets(a, len, lay)[..lay.head] == a.octets[..lay.head]
    ensures SharedOctets(a, len, lay)[len - lay.tail..len] == a.octets[len - lay.tail..]
  {
    var zeros := Zeros(MAX_ADDRLEN);
    var addr := Overwrite(zeros, 0, a.octets[..lay.head]);
    OverwriteParts(zeros, 0, a.octets[..lay.head], len - lay.tail, len);
    assert zeros[len - lay.tail..len] == Zeros(lay.tail);
    if !lay.zero {
      OverwriteParts(addr, len - lay.tail, a.octets[len - lay.tail..], 0, lay.head);
    }
  }

  lemma PutTogether(e: BlockEntry, len: AddrLen, i: nat, from: nat, a: seq<Octet>)
    requires Whole(e, len) && i < e.count && from == Times(i, e.midLen) && from + e.midLen <= |e.mids|
    requires |a| == len && e.addr[..e.midStart] == a[..e.midStart]
    requires e.mids[from..from + e.midLen] == a[e.midStart..e.midStart + e.midLen]
    requires e.addr[e.midStart + e.midLen..len] == a[e.midStart + e.midLen..]
    ensures AddressAt(e, len, i) == a
  {
    assert a == a[..e.midStart] + a[e.midStart..e.midStart + e.midLen] + a[e.midStart + e.midLen..];
  }

  lemma EntryWhole(block: seq<Address>, len: AddrLen, lay: Layout)
    requires Apt(block, len, lay)
    ensures Whole(EntryFor(block, len, lay), len)
  {
    MidsLength(block, len, lay);
  }

  lemma PrefixBack(block: seq<Address>, len: AddrLen, lay: Layout, i: nat)
    requires Apt(block, len, lay) && i < |block| && Whole(EntryFor(block, len, lay), len) && block[i].prefix != 255
    ensures PrefixAt(EntryFor(block, len, lay), len, i) == block[i].prefix
  {
  }

  /** Each address of a block is put together again from its parts. */
  lemma AddressBack(block: seq<Address>, len: AddrLen, lay: Layout, i: nat)
    requires Apt(block, len, lay) && i < |block| && Whole(EntryFor(block, len, lay), len)
    ensures AddressAt(EntryFor(block, len, lay), len, i) == block[i].octets
  {
    var e := EntryFor(block, len, lay);
    var from := Times(i, e.midLen);
    MidOf(block, len, lay, i, from);
    SharedBack(block[0], len, lay);
    PutTogether(e, len, i, from, block[i].octets);
  }

  lemma HeadRead(data: seq<Octet>, eob: nat, at: nat, a: Address, lay: Layout)
    requires |a.octets| <= MAX_ADDRLEN && lay.head <= |a.octets|
    requires Holds(data, at, HeadOctets(a, lay)) && at + |HeadOctets(a, lay)| <= eob <= |data|
    ensures ReadHead(data, eob, Place(at, OKAY), LayoutFlags(lay))
         == Going((lay.head, Overwrite(Zeros(MAX_ADDRLEN), 0, a.octets[..lay.head])), Place(at + |HeadOctets(a, lay)|, OKAY))
  {
    FlagsHave(lay.head > 0, lay.tail > 0 && !lay.zero, lay.tail > 0 && lay.zero, lay.single, lay.multi, false);
    if lay.head > 0 {
      HoldsParts(data, at, [lay.head as Octet], a.octets[..lay.head]);
      ReadsOctet(data, eob, at, lay.head);
    } else {
      assert Overwrite(Zeros(MAX_ADDRLEN), 0, a.octets[..0]) == Zeros(MAX_ADDRLEN);
    }
  }

  /** The buffer after the tail has been put into it. */
  function Tailed(addr: seq<Octet>, a: Address, lay: Layout): (r: seq<Octet>)
    requires |addr| == MAX_ADDRLEN && lay.tail <= |a.octets| <= MAX_ADDRLEN
    ensures |r| == MAX_ADDRLEN
  {
    if lay.zero then addr else Overwrite(addr, |a.octets| - lay.tail, a.octets[|a.octets| - lay.tail..])
  }

  lemma TailRead(data: seq<Octet>, eob: nat, at: nat, a: Address, len: AddrLen, lay: Layout, addr: seq<Octet>)
    requires |a.octets| == len && lay.tail <= len && |addr| == MAX_ADDRLEN && (lay.zero ==> lay.tail > 0)
    requires Holds(data, at, TailOctets(a, lay)) && at + |TailOctets(a, lay)| <= eob <= |data|
    ensures ReadTail(data, eob, Place(at, OKAY), LayoutFlags(lay), len, addr)
         == Going((lay.tail, Tailed(addr, a, lay)), Place(at + |TailOctets(a, lay)|, OKAY))
  {
    FlagsHave(lay.head > 0, lay.tail > 0 && !lay.zero, lay.tail > 0 && lay.zero, lay.single, lay.multi, false);
    if lay.tail == 0 {
      assert Tailed(addr, a, lay) == addr;
    } else if lay.zero {
      ReadsOctet(data, eob, at, lay.tail);
    } else {
      HoldsParts(data, at, [lay.tail as Octet], a.octets[len - lay.tail..]);
      ReadsOctet(data, eob, at, lay.tail);
    }
  }

  lemma PrefixesRead(data: seq<Octet>, eob: nat, at: nat, block: seq<Address>, len: AddrLen, lay: Layout)
    requires 0 < |block| < 256 && !(lay.single && lay.multi)
    requires Holds(data, at, PrefixOctets(block, lay)) && at + |PrefixOctets(block, lay)| <= eob <= |data|
    ensures ReadPrefixes(data, eob, Place(at, OKAY), LayoutFlags(lay), len, |block|)
         == Going(PrefixParts(block, len, lay), Place(at + |PrefixOctets(block, lay)|, OKAY))
  {
    FlagsHave(lay.head > 0, lay.tail > 0 && !lay.zero, lay.tail > 0 && lay.zero, lay.single, lay.multi, false);
    if lay.single {
      assert data[at] == data[at..at + 1][0];
    }
  }

  lemma RestSteps(data: seq<Octet>, eob: nat, at: nat, flags: Octet, len: AddrLen, count: Octet, head: Octet, mid: Octet,
      addr: seq<Octet>, after: nat, parts: (Option<seq<Octet>>, Octet), end: nat)
    requires after == at + Times(count, mid) && end <= eob <= |data| && after <= eob
    requires ReadPrefixes(data, eob, Place(after, OKAY), flags, len, count) == Going(parts, Place(end, OKAY))
    ensures ReadRest(data, eob, Place(at, OKAY), flags, len, count, head, mid, addr)
         == Read(BlockEntry(count, head, mid, addr, data[at..after], parts.0, parts.1), end)
  {
  }

  lemma RestRead(data: seq<Octet>, eob: nat, at: nat, block: seq<Address>, len: AddrLen, lay: Layout,
      count: Octet, flags: Octet, head: Octet, mid: Octet, addr: seq<Octet>, after: nat, end: nat)
    requires Apt(block, len, lay) && after == at + |Mids(block, lay)|
    requires Holds(data, at, Mids(block, lay)) && Holds(data, after, PrefixOctets(block, lay))
    requires after + |PrefixOctets(block, lay)| == end <= eob <= |data|
    requires count == |block| && flags == LayoutFlags(lay) && head == lay.head && mid == len - lay.head - lay.tail
    requires addr == SharedOctets(block[0], len, lay)
    ensures ReadRest(data, eob, Place(at, OKAY), flags, len, count, head, mid, addr) == Read(EntryFor(block, len, lay), end)
  {
    hide Mids, PrefixOctets, ReadPrefixes, SharedOctets, LayoutFlags, PrefixParts, ReadRest;
    MidsLength(block, len, lay);
    PrefixesRead(data, eob, after, block, len, lay);
    RestSteps(data, eob, at, flags, len, count, head, mid, addr, after, PrefixParts(block, len, lay), end);
  }

  lemma BlockParts(data: seq<Octet>, at: nat, block: seq<Address>, len: AddrLen, lay: Layout, n: Octet)
    returns (p: nat, q: nat, r: nat)
    requires Apt(block, len, lay) && n == |block| && Holds(data, at, BlockOctets(block, len, lay))
    ensures Holds(data, at, [n]) && Holds(data, at + 1, [LayoutFlags(lay)])
    ensures p == at + 2 + |HeadOctets(block[0], lay)| && Holds(data, at + 2, HeadOctets(block[0], lay))
    ensures q == p + |TailOctets(block[0], lay)| && Holds(data, p, TailOctets(block[0], lay))
    ensures r == q + |Mids(block, lay)| && Holds(data, q, Mids(block, lay))
    ensures Holds(data, r, PrefixOctets(block, lay))
    ensures r + |PrefixOctets(block, lay)| == at + |BlockOctets(block, len, lay)|
  {
    hide HeadOctets, TailOctets, Mids, PrefixOctets, LayoutFlags;
    var start, head, tail := [n, LayoutFlags(lay)], HeadOctets(block[0], lay), TailOctets(block[0], lay);
    var mids, prefixes := Mids(block, lay), PrefixOctets(block, lay);
    p, q := at + 2 + |head|, at + 2 + |head| + |tail|;
    r := q + |mids|;
    HoldsParts(data, at, start + head + tail + mids, prefixes);
    HoldsParts(data, at, start + head + tail, mids);
    HoldsParts(data, at, start + head, tail);
    HoldsParts(data, at, start, head);
    HoldsParts(data, at, [n], [LayoutFlags(lay)]);
    assert start == [n] + [LayoutFlags(lay)];
  }

  lemma HeadTailRead(data: seq<Octet>, eob: nat, at: nat, block: seq<Address>, len: AddrLen, lay: Layout, p: nat, q: nat,
      head: (Octet, seq<Octet>), tail: (Octet, seq<Octet>))
    requires Apt(block, len, lay)
    requires p == at + |HeadOctets(block[0], lay)| && Holds(data, at, HeadOctets(block[0], lay))
    requires q == p + |TailOctets(block[0], lay)| && Holds(data, p, TailOctets(block[0], lay))
    requires q <= eob <= |data|
    requires head == (lay.head as Octet, Overwrite(Zeros(MAX_ADDRLEN), 0, block[0].octets[..lay.head]))
    requires tail == (lay.tail as Octet, Tailed(head.1, block[0], lay))
    ensures ReadHead(data, eob, Place(at, OKAY), LayoutFlags(lay)) == Going(head, Place(p, OKAY))
    ensures ReadTail(data, eob, Place(p, OKAY), LayoutFlags(lay), len, head.1) == Going(tail, Place(q, OKAY))
    ensures tail.1 == SharedOctets(block[0], len, lay)
  {
    HeadRead(data, eob, at, block[0], lay);
    TailRead(data, eob, p, block[0], len, lay, head.1);
  }

  lemma BlockSteps(data: seq<Octet>, eob: nat, at: nat, len: AddrLen, count: Octet, flags: Octet,
      head: (Octet, seq<Octet>), tail: (Octet, seq<Octet>), mid: Octet, p: nat, q: nat, r: Reading<BlockEntry>)
    requires at + 2 <= eob <= |data| && count > 0 && p <= eob && q <= eob && |head.1| == MAX_ADDRLEN
    requires U8(data, eob, Place(at, OKAY)) == (count, Place(at + 1, OKAY))
    requires U8(data, eob, Place(at + 1, OKAY)) == (flags, Place(at + 2, OKAY))
    requires ReadHead(data, eob, Place(at + 2, OKAY), flags) == Going(head, Place(p, OKAY))
    requires ReadTail(data, eob, Place(p, OKAY), flags, len, head.1) == Going(tail, Place(q, OKAY))
    requires mid == Minus(Minus(len, head.0), tail.0)
    requires ReadRest(data, eob, Place(q, OKAY), flags, len, count, head.0, mid, tail.1) == r
    ensures ReadAddrBlock(data, eob, at, len) == r
  {
  }

  /** A written address block is read back. */
  lemma BlockRead(data: seq<Octet>, eob: nat, at: nat, block: seq<Address>, len: AddrLen, lay: Layout)
    requires Apt(block, len, lay)
    requires Holds(data, at, BlockOctets(block, len, lay)) && at + |BlockOctets(block, len, lay)| <= eob <= |data|
    ensures ReadAddrBlock(data, eob, at, len) == Read(EntryFor(block, len, lay), at + |BlockOctets(block, len, lay)|)
  {
    hide ReadHead, ReadTail, ReadRest, ReadAddrBlock, BlockOctets, LayoutFlags, HeadOctets, TailOctets, Mids, PrefixOctets, PrefixParts;
    var count: Octet, flags := |block|, LayoutFlags(lay);
    var mid: Octet := len - lay.head - lay.tail;
    var end := at + |BlockOctets(block, len, lay)|;
    var p, q, r := BlockParts(data, at, block, len, lay, count);
    var head := (lay.head as Octet, Overwrite(Zeros(MAX_ADDRLEN), 0, block[0].octets[..lay.head]));
    var tail := (lay.tail as Octet, Tailed(head.1, block[0], lay));
    ReadsOctet(data, eob, at, count);
    ReadsOctet(data, eob, at + 1, flags);
    HeadTailRead(data, eob, at + 2, block, len, lay, p, q, head, tail);
    RestRead(data, eob, q, block, len, lay, count, flags, head.0, mid, tail.1, r, end);
    BlockSteps(data, eob, at, len, count, flags, head, tail, mid, p, q, Read(EntryFor(block, len, lay), end));
  }

  // ----- choosing the layout

  ghost predicate SameTail(block: seq<Address>, len: AddrLen, n: nat)
    requires block != [] && AllLong(block, len) && n <= len
  {
    forall i :: 0 <= i < |block| ==> block[i].octets[len - n..] == block[0].octets[len - n..]
  }

  /** The longest tail of at most `limit` octets that the addresses share. */
  ghost function TailLength(block: seq<Address>, len: AddrLen, limit: nat): (n: nat)
    requires block != [] && AllLong(block, len) && limit <= len
    ensures n <= limit && SameTail(block, len, n)
  {
    if limit == 0 || SameTail(block, len, limit) then limit else TailLength(block, len, limit - 1)
  }

  lemma ShorterTail(block: seq<Address>, len: AddrLen, n: nat, m: nat)
    requires block != [] && AllLong(block, len) && n <= m <= len && SameTail(block, len, m)
    ensures SameTail(block, len, n)
  {
    forall i | 0 <= i < |block| ensures block[i].octets[len - n..] == block[0].octets[len - n..] {
      assert block[i].octets[len - n..] == block[i].octets[len - m..][m - n..];
      assert block[0].octets[len - n..] == block[0].octets[len - m..][m - n..];
    }
  }

  /** No other shared tail is as long. */
  lemma {:induction false} TailLengthIs(block: seq<Address>, len: AddrLen, limit: nat, n: nat)
    requires block != [] && AllLong(block, len) && n <= limit <= len
    requires SameTail(block, len, n) && (n < limit ==> !SameTail(block, len, n + 1))
    ensures TailLength(block, len, limit) == n
  {
    if n < limit {
      if SameTail(block, len, limit) {
        ShorterTail(block, len, n + 1, limit);
      }
      TailLengthIs(block, len, limit - 1, n);
    }
  }

  /** What the writer is told about a block: the length of the shared head,
      and whether each address gets a prefix length of its own. */
  ghost predicate Offered(block: seq<Address>, len: AddrLen, headLen: nat, multi: bool) {
    && 0 < |block| < 256 && AllLong(block, len) && headLen < len
    && (forall i :: 0 <= i < |block| ==> block[i].octets[..headLen] == block[0].octets[..headLen])
    && (!multi ==> forall i :: 0 <= i < |block| ==> block[i].prefix == block[0].prefix)
  }

  ghost function LayoutOf(block: seq<Address>, len: AddrLen, headLen: nat, multi: bool): Layout
    requires Offered(block, len, headLen, multi)
  {
    var head := if |block| > 1 then headLen else 0;
    var tail := if |block| > 1 then TailLength(block, len, len - headLen - 1) else 0;
    var zero := tail > 0 && block[0].octets[len - tail..] == Zeros(tail);
    Layout(head, tail, zero, !multi && block[0].prefix != 8 * len, multi)
  }

  lemma TailLongest(block: seq<Address>, len: AddrLen, limit: nat, n: nat)
    requires block != [] && AllLong(block, len) && limit <= len && TailLength(block, len, limit) < n <= limit
    ensures !SameTail(block, len, n)
    decreases limit
  {
    if n < limit {
      TailLongest(block, len, limit - 1, n);
    }
  }

  /** The layout: addresses share the head only with others, and the longest tail
      that leaves an octet; a tail of zeros is not written; and one prefix length is
      left out if it is that of the whole address. */
  lemma LayoutExactly(block: seq<Address>, len: AddrLen, headLen: nat, multi: bool)
    requires Offered(block, len, headLen, multi)
    ensures var lay := LayoutOf(block, len, headLen, multi);
      && (|block| == 1 ==> lay.head == lay.tail == 0) && (|block| > 1 ==> lay.head == headLen)
      && lay.head + lay.tail < len
      && (forall n :: lay.tail < n < len - headLen && |block| > 1 ==> !SameTail(block, len, n))
      && (lay.zero <==> lay.tail > 0 && forall k :: len - lay.tail <= k < len ==> block[0].octets[k] == 0)
      && (lay.single <==> !multi && block[0].prefix != 8 * len) && lay.multi == multi
  {
    var lay := LayoutOf(block, len, headLen, multi);
    var tail := block[0].octets[len - lay.tail..];
    if |block| > 1 {
      forall n | lay.tail < n < len - headLen ensures !SameTail(block, len, n) {
        TailLongest(block, len, len - headLen - 1, n);
      }
    }
    assert tail == Zeros(lay.tail) <==> forall k :: 0 <= k < lay.tail ==> tail[k] == 0;
    assert forall k :: 0 <= k < lay.tail ==> tail[k] == block[0].octets[len - lay.tail + k];
    assert forall k :: len - lay.tail <= k < len ==> block[0].octets[k] == tail[k - (len - lay.tail)];
  }

  lemma LayoutApt(block: seq<Address>, len: AddrLen, headLen: nat, multi: bool)
    requires Offered(block, len, headLen, multi)
    ensures Apt(block, len, LayoutOf(block, len, headLen, multi))
  {
  }

  // ----- writing a block

  /** How much of the tail `b` shares with `a`. */
  method CutTail(a: seq<Octet>, b: seq<Octet>, tail: nat) returns (cut: nat)
    requires |a| == |b| && tail <= |a|
    ensures cut <= tail && a[|a| - cut..] == b[|a| - cut..]
    ensures cut < tail ==> a[|a| - cut - 1] != b[|a| - cut - 1]
  {
    cut := tail;
    var t := 1;
    while t <= cut
      invariant 1 <= t <= tail + 1 && cut == tail
      invariant a[|a| - (t - 1)..] == b[|a| - (t - 1)..]
    {
      if a[|a| - t] != b[|a| - t] {
        cut := t - 1;
        break;
      }
      assert a[|a| - t..] == [a[|a| - t]] + a[|a| - (t - 1)..];
      assert b[|a| - t..] == [b[|a| - t]] + b[|a| - (t - 1)..];
      t := t + 1;
    }
  }

  /** The shared tail, found by cutting it down at each address. */
  method MeasureTail(block: seq<Address>, len: AddrLen, limit: nat) returns (tail: nat)
    requires block != [] && AllLong(block, len) && limit < len
    ensures tail == TailLength(block, len, limit)
  {
    tail := limit;
    var i := 0;
    while i < |block|
      invariant 0 <= i <= |block| && tail <= limit
      invariant forall k :: 0 <= k < i ==> block[k].octets[len - tail..] == block[0].octets[len - tail..]
      invariant tail < limit ==> !SameTail(block, len, tail + 1)
    {
      if tail == 0 {
        break;
      }
      ghost var before := tail;
      tail := CutTail(block[0].octets, block[i].octets, tail);
      KeepsTail(block, len, i, before, tail);
      if tail < before {
        assert block[0].octets[len - tail - 1..][0] != block[i].octets[len - tail - 1..][0];
      }
      i := i + 1;
    }
    assert SameTail(block, len, tail);
    TailLengthIs(block, len, limit, tail);
  }

  lemma KeepsTail(block: seq<Address>, len: AddrLen, i: nat, n: nat, m: nat)
    requires block != [] && AllLong(block, len) && i <= |block| && m <= n <= len
    requires forall k :: 0 <= k < i ==> block[k].octets[len - n..] == block[0].octets[len - n..]
    ensures forall k :: 0 <= k < i ==> block[k].octets[len - m..] == block[0].octets[len - m..]
  {
    if i > 0 {
      ShorterTail(block[..i], len, m, n);
      forall k | 0 <= k < i ensures block[k].octets[len - m..] == block[0].octets[len - m..] {
        assert block[..i][k] == block[k];
      }
    }
  }

  /** Whether the tail is all zeros. */
  method TestZeros(a: seq<Octet>, tail: nat) returns (zero: bool)
    requires tail <= |a|
    ensures zero <==> tail > 0 && a[|a| - tail..] == Zeros(tail)
  {
    zero := tail > 0;
    var t := 0;
    while zero && t < tail
      invariant 0 <= t <= tail
      invariant zero ==> tail > 0 && a[|a| - t..] == Zeros(t)
      invariant !zero ==> tail > 0 ==> a[|a| - tail..] != Zeros(tail)
    {
      if a[|a| - t - 1] != 0 {
        zero := false;
        assert a[|a| - tail..][tail - t - 1] != Zeros(tail)[tail - t - 1];
      } else {
        assert a[|a| - (t + 1)..] == [0] + a[|a| - t..];
      }
      t := t + 1;
    }
  }

  method WriteHead(pen: Pen, flag: nat, a: Address, lay: Layout, ghost d: Draft) returns (ghost next: Draft)
    requires |a.octets| <= MAX_ADDRLEN && lay.head <= |a.octets|
    requires pen.ptr + |HeadOctets(a, lay)| <= pen.buffer.Length
    requires pen.Ink() == Text(d) && d.flags == 0 && flag == |d.base| + 1
    modifies pen, pen.buffer
    ensures next == Longer(d.(flags := Flags(lay.head > 0, false, false, false, false, false)), HeadOctets(a, lay))
    ensures pen.ptr == old(pen.ptr) + |HeadOctets(a, lay)| && pen.Ink() == Text(next)
  {
    hide Text;
    next := d;
    if lay.head > 0 {
      pen.Flag(flag, ADDR_HEAD, d);
      next := Flagged(d, ADDR_HEAD);
      pen.Put(lay.head);
      LongerText(next, [lay.head]);
      pen.Copy(a.octets[..lay.head]);
      LongerText(Longer(next, [lay.head]), a.octets[..lay.head]);
      LongerTwice(next, [lay.head], a.octets[..lay.head]);
      next := Longer(next, HeadOctets(a, lay));
    }
  }

  /** The length of the tail, the flag for its form, and the octets `s` that follow. */
  method WriteTailForm(pen: Pen, flag: nat, tail: Octet, bit: Octet, s: seq<Octet>, ghost d: Draft)
    requires pen.ptr + 1 + |s| <= pen.buffer.Length && bit > 0
    requires pen.Ink() == Text(d) && flag == |d.base| + 1
    modifies pen, pen.buffer
    ensures pen.ptr == old(pen.ptr) + 1 + |s| && pen.Ink() == Text(Longer(Flagged(d, bit), [tail] + s))
  {
    pen.Put(tail);
    LongerText(d, [tail]);
    pen.Flag(flag, bit, Longer(d, [tail]));
    pen.Copy(s);
    LongerText(Longer(Flagged(d, bit), [tail]), s);
    LongerTwice(Flagged(d, bit), [tail], s);
  }

  method WriteTail(pen: Pen, flag: nat, a: Address, lay: Layout, ghost d: Draft) returns (ghost next: Draft)
    requires |a.octets| <= MAX_ADDRLEN && lay.tail <= |a.octets|
    requires pen.ptr + |TailOctets(a, lay)| <= pen.buffer.Length
    requires pen.Ink() == Text(d) && flag == |d.base| + 1
    requires d.flags == Flags(lay.head > 0, false, false, false, false, false)
    modifies pen, pen.buffer
    ensures next == Longer(d.(flags := Flags(lay.head > 0, lay.tail > 0 && !lay.zero, lay.tail > 0 && lay.zero, false, false, false)),
                           TailOctets(a, lay))
    ensures pen.ptr == old(pen.ptr) + |TailOctets(a, lay)| && pen.Ink() == Text(next)
  {
    WithSecond(lay.head > 0, false, false, false, false);
    WithThird(lay.head > 0, false, false, false, false);
    if lay.tail > 0 {
      if lay.zero {
        WriteTailForm(pen, flag, lay.tail, ADDR_ZEROTAIL, [], d);
      } else {
        WriteTailForm(pen, flag, lay.tail, ADDR_FULLTAIL, a.octets[|a.octets| - lay.tail..], d);
      }
    }
    next := Longer(d.(flags := Flags(lay.head > 0, lay.tail > 0 && !lay.zero, lay.tail > 0 && lay.zero, false, false, false)),
                   TailOctets(a, lay));
  }

  lemma {:induction false} MidsGrow(block: seq<Address>, lay: Layout, i: nat, n: nat)
    requires i < n <= |block|
    ensures var a := block[i].octets;
      Mids(block[..i + 1], lay) == Mids(block[..i], lay) + if lay.head + lay.tail <= |a| then a[lay.head..|a| - lay.tail] else []
    ensures |Mids(block[..i + 1], lay)| <= |Mids(block[..n], lay)|
    decreases n
  {
    assert block[..i + 1][..i] == block[..i];
    if i + 1 < n {
      MidsGrow(block, lay, i, n - 1);
      assert block[..n][..n - 1] == block[..n - 1];
    }
  }

  method WriteMids(pen: Pen, block: seq<Address>, len: AddrLen, lay: Layout, ghost d: Draft) returns (ghost next: Draft)
    requires AllLong(block, len) && lay.head + lay.tail < len
    requires pen.ptr + |Mids(block, lay)| <= pen.buffer.Length && pen.Ink() == Text(d)
    modifies pen, pen.buffer
    ensures next == Longer(d, Mids(block, lay))
    ensures pen.ptr == old(pen.ptr) + |Mids(block, lay)| && pen.Ink() == Text(next)
  {
    ghost var before := pen.Ink();
    assert block[..|block|] == block && Mids(block[..0], lay) == [];
    hide Mids;
    for i := 0 to |block|
      invariant |Mids(block[..i], lay)| <= |Mids(block, lay)|
      invariant pen.ptr == |before| + |Mids(block[..i], lay)| <= pen.buffer.Length
      invariant pen.Ink() == before + Mids(block[..i], lay)
    {
      MidsGrow(block, lay, i, |block|);
      pen.Copy(block[i].octets[lay.head..len - lay.tail]);
    }
    next := Longer(d, Mids(block, lay));
    LongerText(d, Mids(block, lay));
  }

  method WritePrefixes(pen: Pen, flag: nat, block: seq<Address>, lay: Layout, ghost d: Draft, ghost b7: bool, ghost b6: bool, ghost b5: bool)
    returns (ghost next: Draft)
    requires block != [] && !(lay.single && lay.multi)
    requires pen.ptr + |PrefixOctets(block, lay)| <= pen.buffer.Length
    requires pen.Ink() == Text(d) && flag == |d.base| + 1 && d.flags == Flags(b7, b6, b5, false, false, false)
    modifies pen, pen.buffer
    ensures next == Longer(d.(flags := Flags(b7, b6, b5, lay.single, lay.multi, false)), PrefixOctets(block, lay))
    ensures pen.ptr == old(pen.ptr) + |PrefixOctets(block, lay)| && pen.Ink() == Text(next)
  {
    WithFourth(b7, b6, b5, false, false);
    WithFifth(b7, b6, b5, false, false);
    next := d;
    if lay.multi {
      pen.Flag(flag, ADDR_MULTIPLEN, d);
      ghost var marked := pen.Ink();
      for i := 0 to |block|
        invariant pen.ptr == |marked| + i <= pen.buffer.Length
        invariant pen.Ink() == marked + Prefixes(block)[..i]
      {
        pen.Put(block[i].prefix);
      }
    } else if lay.single {
      pen.Flag(flag, ADDR_SINGLEPLEN, d);
      pen.Put(block[0].prefix);
    }
    next := Longer(d.(flags := Flags(b7, b6, b5, lay.single, lay.multi, false)), PrefixOctets(block, lay));
  }

  lemma BlockText(block: seq<Address>, len: AddrLen, lay: Layout, d: Draft)
    requires 0 < |block| < 256 && |block[0].octets| == len && lay.head + lay.tail < len
    requires d.typ == |block| && d.flags == LayoutFlags(lay)
    requires d.rest == [] + HeadOctets(block[0], lay) + TailOctets(block[0], lay) + Mids(block, lay) + PrefixOctets(block, lay)
    ensures Text(d) == d.base + BlockOctets(block, len, lay)
  {
    hide Mids, HeadOctets, TailOctets, PrefixOctets, LayoutFlags;
  }

  lemma BlockSize(block: seq<Address>, len: AddrLen, lay: Layout, head: nat, tail: nat, mids: nat, prefixes: nat)
    requires 0 < |block| < 256 && |block[0].octets| == len && lay.head + lay.tail < len
    requires head == |HeadOctets(block[0], lay)| && tail == |TailOctets(block[0], lay)|
    requires mids == |Mids(block, lay)| && prefixes == |PrefixOctets(block, lay)|
    ensures |BlockOctets(block, len, lay)| == 2 + head + tail + mids + prefixes
  {
  }

  /** The octets of a block whose layout has been chosen. */
  method WriteLaidOut(pen: Pen, block: seq<Address>, len: AddrLen, lay: Layout)
    requires Apt(block, len, lay)
    requires pen.ptr + |BlockOctets(block, len, lay)| <= pen.buffer.Length
    modifies pen, pen.buffer
    ensures pen.ptr <= pen.buffer.Length
    ensures pen.Ink() == old(pen.Ink()) + BlockOctets(block, len, lay)
  {
    BlockSize(block, len, lay, |HeadOctets(block[0], lay)|, |TailOctets(block[0], lay)|, |Mids(block, lay)|, |PrefixOctets(block, lay)|);
    ghost var d := Draft(pen.Ink(), |block|, 0, []);
    pen.Put(|block|);
    var flag := pen.ptr;
    pen.Put(0);
    d := WriteHead(pen, flag, block[0], lay, d);
    d := WriteTail(pen, flag, block[0], lay, d);
    d := WriteMids(pen, block, len, lay, d);
    d := WritePrefixes(pen, flag, block, lay, d, lay.head > 0, lay.tail > 0 && !lay.zero, lay.tail > 0 && lay.zero);
    BlockText(block, len, lay, d);
  }

  /** The first half of the loop body of _write_addresses. */
  method WriteAddrBlock(pen: Pen, block: seq<Address>, len: AddrLen, headLen: nat, multi: bool)
    requires Offered(block, len, headLen, multi)
    requires pen.ptr + |BlockOctets(block, len, LayoutOf(block, len, headLen, multi))| <= pen.buffer.Length
    modifies pen, pen.buffer
    ensures pen.ptr <= pen.buffer.Length
    ensures pen.Ink() == old(pen.Ink()) + BlockOctets(block, len, LayoutOf(block, len, headLen, multi))
  {
    var head, tail, zero := 0, 0, false;
    if |block| > 1 {
      head := headLen;
      tail := MeasureTail(block, len, len - head - 1);
      zero := TestZeros(block[0].octets, tail);
    }
    var lay := Layout(head, tail, zero, !multi && block[0].prefix != 8 * len, multi);
    assert lay == LayoutOf(block, len, headLen, multi);
    LayoutApt(block, len, headLen, multi);
    WriteLaidOut(pen, block, len, lay);
  }

  // ----- parsing a block

  ghost predicate StepAgrees<T>(r: Step<T>, stop: bool, item: T, place: Place) {
    match r
    case Going(x, p) => !stop && item == x && place == p
    case Stopped(code, at) => stop && place == Place(at, code)
  }

  method ParseHead(s: Stream, eob: nat, flags: Octet, error: int)
    returns (head: Octet, addr: seq<Octet>, code: int, stop: bool)
    requires s.ptr <= eob <= |s.data|
    modifies s
    ensures StepAgrees(ReadHead(s.data, eob, Place(old(s.ptr), error), flags), stop, (head, addr), Place(s.ptr, code))
  {
    head, addr, code, stop := 0, Zeros(MAX_ADDRLEN), error, false;
    if Has(flags, ADDR_HEAD) {
      head, code := s.GetU8(eob, code);
      if s.ptr + head > eob {
        return 0, addr, END_OF_BUFFER, true;
      }
      if head > MAX_ADDRLEN {
        return 0, addr, UNDEFINED, true;
      }
      addr := Overwrite(addr, 0, s.data[s.ptr..s.ptr + head]);
      s.ptr := s.ptr + head;
    }
  }

  method ParseTail(s: Stream, eob: nat, flags: Octet, len: AddrLen, before: seq<Octet>, error: int)
    returns (tail: Octet, addr: seq<Octet>, code: int, stop: bool)
    requires s.ptr <= eob <= |s.data| && |before| == MAX_ADDRLEN
    modifies s
    ensures StepAgrees(ReadTail(s.data, eob, Place(old(s.ptr), error), flags, len, before), stop, (tail, addr), Place(s.ptr, code))
  {
    tail, addr, code, stop := 0, before, error, false;
    if Has(flags, ADDR_ZEROTAIL) && !Has(flags, ADDR_FULLTAIL) {
      tail, code := s.GetU8(eob, code);
    } else if Has(flags, ADDR_FULLTAIL) && !Has(flags, ADDR_ZEROTAIL) {
      tail, code := s.GetU8(eob, code);
      if s.ptr + tail > eob {
        return 0, addr, END_OF_BUFFER, true;
      }
      if tail > len {
        return 0, addr, UNDEFINED, true;
      }
      addr := Overwrite(addr, len - tail, s.data[s.ptr..s.ptr + tail]);
      s.ptr := s.ptr + tail;
    } else if Has(flags, ADDR_FULLTAIL) {
      return 0, addr, BAD_MSG_TAILFLAGS, true;
    }
  }

  method ParsePrefixes(s: Stream, eob: nat, flags: Octet, len: AddrLen, count: Octet, error: int)
    returns (prefixes: Option<seq<Octet>>, prefix: Octet, code: int, stop: bool)
    requires s.ptr <= eob <= |s.data|
    modifies s
    ensures StepAgrees(ReadPrefixes(s.data, eob, Place(old(s.ptr), error), flags, len, count), stop, (prefixes, prefix), Place(s.ptr, code))
  {
    prefixes, prefix, code, stop := None, 0, error, false;
    var from := s.ptr;
    if !Has(flags, ADDR_SINGLEPLEN) && !Has(flags, ADDR_MULTIPLEN) {
      prefix := 8 * len;
    } else if !Has(flags, ADDR_MULTIPLEN) {
      prefix := if s.ptr < eob then s.data[s.ptr] else 0;
      s.ptr := s.ptr + 1;
    } else if !Has(flags, ADDR_SINGLEPLEN) {
      s.ptr := s.ptr + count;
    } else {
      return prefixes, prefix, BAD_MSG_PREFIXFLAGS, true;
    }
    if s.ptr > eob {
      return prefixes, prefix, END_OF_BUFFER, true;
    }
    if Has(flags, ADDR_MULTIPLEN) {
      prefixes := Some(s.data[from..s.ptr]);
    }
  }

  method ParseRest(s: Stream, eob: nat, flags: Octet, len: AddrLen, count: Octet, head: Octet, mid: Octet, addr: seq<Octet>, error: int)
    returns (code: int, entry: BlockEntry)
    requires s.ptr <= eob <= |s.data|
    modifies s
    ensures Agrees(ReadRest(s.data, eob, Place(old(s.ptr), error), flags, len, count, head, mid, addr), code, entry, s.ptr)
  {
    entry := BlockEntry(count, head, mid, addr, [], None, 0);
    var from := s.ptr;
    TimesIsProduct(count, mid);
    s.ptr := s.ptr + count * mid;
    if s.ptr > eob {
      return END_OF_BUFFER, entry;
    }
    entry := entry.(mids := s.data[from..s.ptr]);
    var prefixes, prefix, stop;
    prefixes, prefix, code, stop := ParsePrefixes(s, eob, flags, len, count, error);
    if !stop {
      entry := entry.(prefixes := prefixes, prefix := prefix);
    }
  }

  /** _parse_addrblock */
  method ParseAddrBlock(s: Stream, eob: nat, len: AddrLen) returns (code: int, entry: BlockEntry)
    requires s.ptr <= eob <= |s.data|
    modifies s
    ensures Agrees(ReadAddrBlock(s.data, eob, old(s.ptr), len), code, entry, s.ptr)
  {
    var count, flags, head, tail, addr, stop;
    count, code := s.GetU8(eob, OKAY);
    entry := BlockEntry(count, 0, 0, [], [], None, 0);
    if count == 0 {
      return EMPTY_ADDRBLOCK, entry;
    }
    flags, code := s.GetU8(eob, code);
    head, addr, code, stop := ParseHead(s, eob, flags, code);
    if stop {
      return;
    }
    var mid := Minus(len, head);
    tail, addr, code, stop := ParseTail(s, eob, flags, len, addr, code);
    if stop {
      return;
    }
    mid := Minus(mid, tail);
    code, entry := ParseRest(s, eob, flags, len, count, head, mid, addr, code);
  }
}
