/** The address part of a message: blocks of addresses, each followed by the
    TLVs of its addresses. What the writer writes for any partition into
    blocks, the reader turns back into the same addresses with the same TLVs. */
module Addresses {
  import opened AddressBlocks
  import opened AddressTlvs
  import opened Octets
  import opened Tlvs

  /** An address as the writer keeps it. The first address of a block knows
      its last one and how to write the block. */
  datatype WriterAddress = WriterAddress(address: Address, blockEnd: nat, headLen: nat, multi: bool)

  function Block(addrs: seq<WriterAddress>, first: nat, last: nat): (b: seq<Address>)
    requires first <= last < |addrs|
    ensures |b| == last - first + 1
    ensures forall i :: 0 <= i < |b| ==> b[i] == addrs[first + i].address
  {
    seq(last - first + 1, i requires 0 <= i <= last - first => addrs[first + i].address)
  }

  /** 0 if the block that starts at `first` can be written. */
  ghost function Unready(addrs: seq<WriterAddress>, first: nat, len: AddrLen): (n: nat)
    requires first < |addrs|
    ensures n == 0 ==> first <= addrs[first].blockEnd < |addrs| && addrs[first].blockEnd < first + 255
  {
    var e := addrs[first].blockEnd;
    if first <= e < |addrs| && e < first + 255
      && Offered(Block(addrs, first, e), len, addrs[first].headLen, addrs[first].multi) then 0 else 1
  }

  ghost predicate BlockReady(addrs: seq<WriterAddress>, first: nat, len: AddrLen)
    requires first < |addrs|
  {
    Unready(addrs, first, len) == 0
  }

  /** Where the blocks from `first` to `last` start. */
  function Starts(addrs: seq<WriterAddress>, first: nat, last: nat): (r: seq<nat>)
    requires first <= last < |addrs|
    ensures |r| > 0 && r[0] == first
    ensures forall i :: 0 <= i < |r| ==> first <= r[i] <= last
    ensures forall i :: 0 < i < |r| ==> r[i] == addrs[r[i - 1]].blockEnd + 1
    decreases last - first
  {
    var e := addrs[first].blockEnd;
    if first <= e < last then [first] + Starts(addrs, e + 1, last) else [first]
  }

  /** Blocks that can be written cover the addresses from `first` to `last`. */
  ghost predicate Partition(addrs: seq<WriterAddress>, first: nat, last: nat, len: AddrLen) {
    && first <= last < |addrs|
    && var starts := Starts(addrs, first, last);
      && (forall i :: 0 <= i < |starts| ==> BlockReady(addrs, starts[i], len) && addrs[starts[i]].blockEnd <= last)
      && addrs[starts[|starts| - 1]].blockEnd == last
  }

  /** Only the last block ends with the last address. */
  lemma {:induction false} StartsRise(addrs: seq<WriterAddress>, first: nat, last: nat, len: AddrLen, i: nat, j: nat)
    requires Partition(addrs, first, last, len) && i < j < |Starts(addrs, first, last)|
    ensures addrs[Starts(addrs, first, last)[i]].blockEnd < Starts(addrs, first, last)[j]
    decreases j
  {
    var starts := Starts(addrs, first, last);
    assert starts[j] == addrs[starts[j - 1]].blockEnd + 1;
    if i < j - 1 {
      StartsRise(addrs, first, last, len, i, j - 1);
      assert BlockReady(addrs, starts[j - 1], len);
    }
  }

  lemma StartsEnd(addrs: seq<WriterAddress>, first: nat, last: nat, len: AddrLen, i: nat)
    requires Partition(addrs, first, last, len) && i < |Starts(addrs, first, last)|
    ensures addrs[Starts(addrs, first, last)[i]].blockEnd == last <==> i == |Starts(addrs, first, last)| - 1
  {
    if i < |Starts(addrs, first, last)| - 1 {
      StartsRise(addrs, first, last, len, i, |Starts(addrs, first, last)| - 1);
    }
  }

  ghost function BlockLayout(addrs: seq<WriterAddress>, first: nat, len: AddrLen): Layout
    requires first < |addrs| && BlockReady(addrs, first, len)
  {
    LayoutOf(Block(addrs, first, addrs[first].blockEnd), len, addrs[first].headLen, addrs[first].multi)
  }

  /** One address block. */
  ghost function HeadText(addrs: seq<WriterAddress>, first: nat, len: AddrLen): seq<Octet>
    requires first < |addrs| && BlockReady(addrs, first, len)
  {
    BlockOctets(Block(addrs, first, addrs[first].blockEnd), len, BlockLayout(addrs, first, len))
  }

  /** The TLVs of the addresses from `first` to `last`; each type marked correctly up to there. */
  ghost function TlvsText(types: seq<TlvType>, first: nat, last: nat): seq<Octet>
    requires first <= last < first + 255 && AllReady(types, last)
  {
    TlvBlock(AllRuns(types, first, last))
  }

  lemma EarlierReady(types: seq<TlvType>, e: nat, last: nat)
    requires AllReady(types, last) && e <= last
    ensures AllReady(types, e)
  {
    forall i | 0 <= i < |types| ensures Ready(types[i], e) {
      assert Ready(types[i], last);
    }
  }

  /** The block that starts at `first`, with its TLVs. */
  ghost function PairText(addrs: seq<WriterAddress>, types: seq<TlvType>, first: nat, len: AddrLen): seq<Octet>
    requires first < |addrs| && BlockReady(addrs, first, len) && AllReady(types, addrs[first].blockEnd)
  {
    HeadText(addrs, first, len) + TlvsText(types, first, addrs[first].blockEnd)
  }

  // ----- what the reader makes of it

  datatype ParsedBlock = ParsedBlock(entry: BlockEntry, tlvs: seq<Entry>)

  /** The loop of _handle_message over the address blocks. */
  function ReadBlocks(data: seq<Octet>, end: nat, at: nat, len: AddrLen): (r: Reading<seq<ParsedBlock>>)
    requires at <= end <= |data|
    decreases end - at
  {
    if at == end then Read([], at) else
      match ReadAddrBlock(data, end, at, len)
      case Failed(code, at') => Failed(code, at')
      case Read(entry, p) =>
        match ReadTlvBlock(data, end, p, entry.count)
        case Failed(code, at') => Failed(code, at')
        case Read(tlvs, q) =>
          match ReadBlocks(data, end, q, len)
          case Failed(code, at') => Failed(code, at')
          case Read(rest, r) => Read([ParsedBlock(entry, tlvs)] + rest, r)
  }

  /** Blocks behind those in `list`. */
  function Onto(list: seq<ParsedBlock>, r: Reading<seq<ParsedBlock>>): Reading<seq<ParsedBlock>> {
    match r
    case Failed(_, _) => r
    case Read(rest, at) => Read(list + rest, at)
  }

  lemma BlocksStep(data: seq<Octet>, end: nat, at: nat, len: AddrLen, list: seq<ParsedBlock>, b: ParsedBlock, p: nat, q: nat)
    requires at < p <= q <= end <= |data|
    requires ReadAddrBlock(data, end, at, len) == Read(b.entry, p) && ReadTlvBlock(data, end, p, b.entry.count) == Read(b.tlvs, q)
    ensures Onto(list, ReadBlocks(data, end, at, len)) == Onto(list + [b], ReadBlocks(data, end, q, len))
  {
    hide ReadAddrBlock, ReadTlvBlock;
    var r := ReadBlocks(data, end, q, len);
    if r.Read? {
      assert list + ([b] + r.item) == list + [b] + r.item;
    }
  }

  /** The loop over the address blocks of a message. */
  method ParseBlocks(s: Stream, end: nat, len: AddrLen) returns (code: int, list: seq<ParsedBlock>)
    requires s.ptr <= end <= |s.data|
    modifies s
    ensures Agrees(ReadBlocks(s.data, end, old(s.ptr), len), code, list, s.ptr)
  {
    hide ReadAddrBlock, ReadTlvBlock;
    code, list := OKAY, [];
    ghost var r := ReadBlocks(s.data, end, s.ptr, len);
    if r.Read? {
      assert [] + r.item == r.item;
    }
    while s.ptr < end
      invariant s.ptr <= end
      invariant code == OKAY && r == Onto(list, ReadBlocks(s.data, end, s.ptr, len))
      decreases end - s.ptr
    {
      ghost var at := s.ptr;
      var entry, tlvs;
      code, entry := ParseAddrBlock(s, end, len);
      if code != OKAY {
        return;
      }
      ghost var p := s.ptr;
      code, tlvs := ParseTlvBlock(s, end, entry.count);
      if code != OKAY {
        return;
      }
      BlocksStep(s.data, end, at, len, list, ParsedBlock(entry, tlvs), p, s.ptr);
      list := list + [ParsedBlock(entry, tlvs)];
    }
    assert list + [] == list;
  }

  /** What is read of the block that starts at `first`. */
  ghost function EntryBack(addrs: seq<WriterAddress>, first: nat, len: AddrLen): BlockEntry
    requires first < |addrs| && BlockReady(addrs, first, len)
  {
    EntryFor(Block(addrs, first, addrs[first].blockEnd), len, BlockLayout(addrs, first, len))
  }

  /** What is read of the TLVs of a block. */
  ghost function TlvsBack(types: seq<TlvType>, first: nat, last: nat): seq<Entry>
    requires first <= last < first + 255 && AllReady(types, last)
  {
    PlacedAll([], Entries(AllRuns(types, first, last), last - first + 1))
  }

  lemma HeadTextRead(data: seq<Octet>, end: nat, at: nat, addrs: seq<WriterAddress>, first: nat, len: AddrLen, p: nat)
    requires first < |addrs| && BlockReady(addrs, first, len)
    requires Holds(data, at, HeadText(addrs, first, len)) && p == at + |HeadText(addrs, first, len)| <= end <= |data|
    ensures at < p && ReadAddrBlock(data, end, at, len) == Read(EntryBack(addrs, first, len), p)
  {
    var block := Block(addrs, first, addrs[first].blockEnd);
    LayoutApt(block, len, addrs[first].headLen, addrs[first].multi);
    BlockRead(data, end, at, block, len, BlockLayout(addrs, first, len));
  }

  lemma TlvsTextRead(data: seq<Octet>, end: nat, at: nat, types: seq<TlvType>, first: nat, last: nat, count: Octet, q: nat)
    requires first <= last < first + 255 && AllReady(types, last) && count == last - first + 1
    requires Holds(data, at, TlvsText(types, first, last)) && |TlvsText(types, first, last)| < 0x1_0000
    requires q == at + |TlvsText(types, first, last)| <= end <= |data|
    ensures at < q && ReadTlvBlock(data, end, at, count) == Read(TlvsBack(types, first, last), q)
  {
    hide AllRuns, EncodeAll, PlacedAll, Entries, ReadTlvBlock, Ready;
    AllRunsFit(types, first, last, count);
    TlvBlockRead(data, end, at, AllRuns(types, first, last), count);
  }

  /** A block and its TLVs are read back. */
  lemma PairRead(data: seq<Octet>, end: nat, at: nat, addrs: seq<WriterAddress>, types: seq<TlvType>, first: nat, len: AddrLen, p: nat, q: nat)
    requires first < |addrs| && BlockReady(addrs, first, len) && AllReady(types, addrs[first].blockEnd)
    requires Holds(data, at, PairText(addrs, types, first, len)) && |PairText(addrs, types, first, len)| < 0x1_0000
    requires p == at + |HeadText(addrs, first, len)| && q == at + |PairText(addrs, types, first, len)| <= end <= |data|
    ensures at < p < q
    ensures ReadAddrBlock(data, end, at, len) == Read(EntryBack(addrs, first, len), p)
    ensures ReadTlvBlock(data, end, p, EntryBack(addrs, first, len).count) == Read(TlvsBack(types, first, addrs[first].blockEnd), q)
  {
    hide HeadText, TlvsText, TlvsBack, BlockLayout, SharedOctets, Mids, PrefixParts, ReadAddrBlock, ReadTlvBlock, Unready, Ready;
    var e := addrs[first].blockEnd;
    HoldsParts(data, at, HeadText(addrs, first, len), TlvsText(types, first, e));
    HeadTextRead(data, end, at, addrs, first, len, p);
    TlvsTextRead(data, end, p, types, first, e, e - first + 1, q);
  }

  // ----- pieces: a block on the wire, and what is read of it

  datatype Piece = Piece(text: seq<Octet>, block: ParsedBlock)

  ghost predicate ReadsBackAt(data: seq<Octet>, end: nat, at: nat, len: AddrLen, x: Piece) {
    Holds(data, at, x.text) && at + |x.text| <= end <= |data| && |x.text| < 0x1_0000 ==>
      exists p :: ReadsVia(data, end, at, len, x, p)
  }

  ghost predicate ReadsVia(data: seq<Octet>, end: nat, at: nat, len: AddrLen, x: Piece, p: nat) {
    && at < p < at + |x.text| <= end <= |data|
    && ReadAddrBlock(data, end, at, len) == Read(x.block.entry, p)
    && ReadTlvBlock(data, end, p, x.block.entry.count) == Read(x.block.tlvs, at + |x.text|)
  }

  ghost predicate ReadsBack(len: AddrLen, x: Piece) {
    forall data, end, at :: ReadsBackAt(data, end, at, len, x)
  }

  function Texts(pieces: seq<Piece>): seq<Octet> {
    if pieces == [] then [] else pieces[0].text + Texts(pieces[1..])
  }

  function Parsed(pieces: seq<Piece>): seq<ParsedBlock> {
    if pieces == [] then [] else [pieces[0].block] + Parsed(pieces[1..])
  }

  ghost predicate AllReadBack(len: AddrLen, pieces: seq<Piece>) {
    forall i :: 0 <= i < |pieces| ==> ReadsBack(len, pieces[i])
  }

  /** Pieces that are read back one by one are read back together. */
  lemma {:induction false} PiecesRead(data: seq<Octet>, end: nat, at: nat, len: AddrLen, pieces: seq<Piece>)
    requires AllReadBack(len, pieces) && |Texts(pieces)| < 0x1_0000
    requires Holds(data, at, Texts(pieces)) && end == at + |Texts(pieces)| <= |data|
    ensures ReadBlocks(data, end, at, len) == Read(Parsed(pieces), end)
    decreases |pieces|
  {
    if pieces != [] {
      hide ReadAddrBlock, ReadTlvBlock, Holds;
      var x, rest := pieces[0], pieces[1..];
      HoldsParts(data, at, x.text, Texts(rest));
      assert ReadsBack(len, x) && ReadsBackAt(data, end, at, len, x);
      var p :| ReadsVia(data, end, at, len, x, p);
      PiecesRead(data, end, at + |x.text|, len, rest);
    }
  }

  /** The block that starts at `first`. */
  ghost function PieceOf(addrs: seq<WriterAddress>, types: seq<TlvType>, first: nat, len: AddrLen): Piece
    requires first < |addrs| && BlockReady(addrs, first, len) && AllReady(types, addrs[first].blockEnd)
  {
    Piece(PairText(addrs, types, first, len),
          ParsedBlock(EntryBack(addrs, first, len), TlvsBack(types, first, addrs[first].blockEnd)))
  }

  lemma PieceReadsAt(data: seq<Octet>, end: nat, at: nat, addrs: seq<WriterAddress>, types: seq<TlvType>, first: nat, len: AddrLen)
    requires first < |addrs| && BlockReady(addrs, first, len) && AllReady(types, addrs[first].blockEnd)
    ensures ReadsBackAt(data, end, at, len, PieceOf(addrs, types, first, len))
  {
    hide HeadText, TlvsText, EntryBack, TlvsBack, ReadAddrBlock, ReadTlvBlock, Unready, Ready;
    var x := PieceOf(addrs, types, first, len);
    if Holds(data, at, x.text) && at + |x.text| <= end <= |data| && |x.text| < 0x1_0000 {
      var p := at + |HeadText(addrs, first, len)|;
      PairRead(data, end, at, addrs, types, first, len, p, at + |x.text|);
      assert ReadsVia(data, end, at, len, x, p);
    }
  }

  /** All blocks from `first` to `last`. */
  ghost function Pieces(addrs: seq<WriterAddress>, types: seq<TlvType>, first: nat, last: nat, len: AddrLen): seq<Piece>
    requires Partition(addrs, first, last, len) && AllReady(types, last)
  {
    var starts := Starts(addrs, first, last);
    seq(|starts|, i requires 0 <= i < |starts| =>
      EarlierReady(types, addrs[starts[i]].blockEnd, last); PieceOf(addrs, types, starts[i], len))
  }

  lemma PiecesReadBack(addrs: seq<WriterAddress>, types: seq<TlvType>, first: nat, last: nat, len: AddrLen)
    requires Partition(addrs, first, last, len) && AllReady(types, last)
    ensures AllReadBack(len, Pieces(addrs, types, first, last, len))
  {
    var starts, pieces := Starts(addrs, first, last), Pieces(addrs, types, first, last, len);
    forall i | 0 <= i < |pieces| ensures ReadsBack(len, pieces[i]) {
      EarlierReady(types, addrs[starts[i]].blockEnd, last);
      forall data, end: nat, at: nat ensures ReadsBackAt(data, end, at, len, pieces[i]) {
        PieceReadsAt(data, end, at, addrs, types, starts[i], len);
      }
    }
  }

  // ----- writing

  lemma TypesStep(types: seq<TlvType>, i: nat, first: nat, last: nat)
    requires i < |types| && first <= last < first + 255 && AllReady(types, last)
    ensures Ready(types[i], last) && AllReady(types[i..], last) && AllReady(types[i + 1..], last)
    ensures EncodeAll(AllRuns(types[i..], first, last))
         == EncodeAll(Runs(types[i], first, last)) + EncodeAll(AllRuns(types[i + 1..], first, last))
  {
    assert types[i..][1..] == types[i + 1..] && types[i..][0] == types[i];
    EncodeAppend(Runs(types[i], first, last), AllRuns(types[i + 1..], first, last));
  }

  lemma {:induction false} SmallParts(ts: seq<Tlv>)
    requires |EncodeAll(ts)| < 0x1_0000
    ensures AllSmall(ts)
  {
    if ts != [] {
      SmallParts(ts[1..]);
      assert forall i :: 0 < i < |ts| ==> ts[i] == ts[1..][i - 1];
    }
  }

  /** The TLVs of all types for one block. */
  method WriteTypes(pen: Pen, first: nat, last: nat, types: seq<TlvType>)
    requires first <= last < first + 255 && AllReady(types, last)
    requires |EncodeAll(AllRuns(types, first, last))| < 0x1_0000
    requires pen.ptr + |EncodeAll(AllRuns(types, first, last))| <= pen.buffer.Length
    modifies pen, pen.buffer
    ensures pen.ptr <= pen.buffer.Length
    ensures pen.Ink() == old(pen.Ink()) + EncodeAll(AllRuns(types, first, last))
  {
    ghost var whole := pen.Ink() + EncodeAll(AllRuns(types, first, last));
    assert types[0..] == types;
    for i := 0 to |types|
      invariant AllReady(types[i..], last)
      invariant |EncodeAll(AllRuns(types[i..], first, last))| < 0x1_0000
      invariant pen.ptr + |EncodeAll(AllRuns(types[i..], first, last))| <= pen.buffer.Length
      invariant pen.Ink() + EncodeAll(AllRuns(types[i..], first, last)) == whole
    {
      TypesStep(types, i, first, last);
      ghost var runs, rest := EncodeAll(Runs(types[i], first, last)), EncodeAll(AllRuns(types[i + 1..], first, last));
      SmallParts(Runs(types[i], first, last));
      Regroup(pen.Ink(), runs, rest);
      WriteTlvType(pen, first, last, types[i]);
    }
    assert types[|types|..] == [];
  }

  /** Fills in how much has been written behind the two octets at `at`. */
  method PatchLength(pen: Pen, at: nat, ghost base: seq<Octet>, ghost body: seq<Octet>)
    requires pen.ptr <= pen.buffer.Length && at == |base| && |body| < 0x1_0000
    requires pen.Ink() == base + [0, 0] + body
    modifies pen.buffer
    ensures pen.Ink() == base + (Both(|body|) + body)
  {
    var length := pen.ptr - at - 2;
    pen.Set(at, length / 256);
    pen.Set(at + 1, length % 256);
  }

  /** The TLVs of a block behind their total length, which is filled in at the end. */
  method WriteTlvBlock(pen: Pen, first: nat, last: nat, types: seq<TlvType>)
    requires first <= last < first + 255 && AllReady(types, last)
    requires |TlvsText(types, first, last)| < 0x1_0000
    requires pen.ptr + |TlvsText(types, first, last)| <= pen.buffer.Length
    modifies pen, pen.buffer
    ensures pen.ptr <= pen.buffer.Length
    ensures pen.Ink() == old(pen.Ink()) + TlvsText(types, first, last)
  {
    ghost var base, body := pen.Ink(), EncodeAll(AllRuns(types, first, last));
    var at := pen.ptr;
    pen.Put(0);
    pen.Put(0);
    assert pen.Ink() == base + [0, 0];
    WriteTypes(pen, first, last, types);
    PatchLength(pen, at, base, body);
  }

  /** The loop body of _write_addresses. */
  method WriteBlock(pen: Pen, addrs: seq<WriterAddress>, types: seq<TlvType>, first: nat, len: AddrLen)
    requires first < |addrs| && BlockReady(addrs, first, len) && AllReady(types, addrs[first].blockEnd)
    requires |PairText(addrs, types, first, len)| < 0x1_0000
    requires pen.ptr + |PairText(addrs, types, first, len)| <= pen.buffer.Length
    modifies pen, pen.buffer
    ensures pen.ptr <= pen.buffer.Length
    ensures pen.Ink() == old(pen.Ink()) + PairText(addrs, types, first, len)
  {
    var e := addrs[first].blockEnd;
    ghost var base, head, tlvs := pen.Ink(), HeadText(addrs, first, len), TlvsText(types, first, e);
    WriteAddrBlock(pen, Block(addrs, first, e), len, addrs[first].headLen, addrs[first].multi);
    WriteTlvBlock(pen, first, e, types);
    Regroup(base, head, tlvs);
  }

  lemma {:induction false} TextsParts(pieces: seq<Piece>, i: nat)
    requires i < |pieces|
    ensures Texts(pieces[i..]) == pieces[i].text + Texts(pieces[i + 1..])
  {
    assert pieces[i..][1..] == pieces[i + 1..];
  }

  /** _write_addresses */
  method WriteAddresses(pen: Pen, addrs: seq<WriterAddress>, types: seq<TlvType>, first: nat, last: nat, len: AddrLen)
    requires Partition(addrs, first, last, len) && AllReady(types, last)
    requires |Texts(Pieces(addrs, types, first, last, len))| < 0x1_0000
    requires pen.ptr + |Texts(Pieces(addrs, types, first, last, len))| <= pen.buffer.Length
    modifies pen, pen.buffer
    ensures pen.ptr <= pen.buffer.Length
    ensures pen.Ink() == old(pen.Ink()) + Texts(Pieces(addrs, types, first, last, len))
  {
    ghost var starts, pieces := Starts(addrs, first, last), Pieces(addrs, types, first, last, len);
    ghost var whole := pen.Ink() + Texts(pieces);
    ghost var i := 0;
    var start := first;
    assert pieces[0..] == pieces;
    while true
      invariant i < |starts| && start == starts[i]
      invariant |Texts(pieces[i..])| < 0x1_0000
      invariant pen.ptr + |Texts(pieces[i..])| <= pen.buffer.Length
      invariant pen.Ink() + Texts(pieces[i..]) == whole
      decreases |starts| - i
    {
      ghost var rest := Texts(pieces[i + 1..]);
      EarlierReady(types, addrs[start].blockEnd, last);
      assert pieces[i] == PieceOf(addrs, types, start, len);
      TextsParts(pieces, i);
      Regroup(pen.Ink(), PairText(addrs, types, start, len), rest);
      WriteBlock(pen, addrs, types, start, len);
      if addrs[start].blockEnd == last {
        StartsEnd(addrs, first, last, len, i);
        break;
      }
      StartsEnd(addrs, first, last, len, i);
      start := addrs[start].blockEnd + 1;
      i := i + 1;
    }
    assert pieces[|pieces|..] == [];
  }

  // ----- what the consumers get

  /** An address of a block as it is handed out, with the TLVs of the block
      and the place of the address in it. */
  datatype Received = Received(address: Address, tlvs: seq<Entry>, index: nat)

  /** The values of type `order` that come with the address. */
  function ValuesOf(r: Received, order: int): seq<seq<Octet>> {
    Seen(r.tlvs, order, r.index)
  }

  function ReceivedOf(b: ParsedBlock, len: AddrLen): seq<Received> {
    if Whole(b.entry, len) then
      seq(b.entry.count, i requires 0 <= i < b.entry.count =>
        Received(Address(AddressAt(b.entry, len, i), PrefixAt(b.entry, len, i)), b.tlvs, i))
    else []
  }

  /** All addresses, block by block, as schedule_msgaddr_consumer goes through them. */
  function AllReceived(blocks: seq<ParsedBlock>, len: AddrLen): seq<Received> {
    if blocks == [] then [] else ReceivedOf(blocks[0], len) + AllReceived(blocks[1..], len)
  }

  /** `r` is the address with index `a`, with exactly the TLVs it was given. */
  ghost predicate Tells(addrs: seq<WriterAddress>, types: seq<TlvType>, a: nat, r: Received) {
    && a < |addrs| && r.address == addrs[a].address
    && forall order :: ValuesOf(r, order) == ValuesOn(types, a, order)
  }

  lemma AddressTells(addrs: seq<WriterAddress>, first: nat, len: AddrLen, i: nat)
    requires first < |addrs| && BlockReady(addrs, first, len) && i <= addrs[first].blockEnd - first
    requires addrs[first + i].address.prefix != 255
    ensures var e := EntryBack(addrs, first, len);
      && Whole(e, len) && e.count == addrs[first].blockEnd - first + 1
      && Address(AddressAt(e, len, i), PrefixAt(e, len, i)) == addrs[first + i].address
  {
    var block, lay := Block(addrs, first, addrs[first].blockEnd), BlockLayout(addrs, first, len);
    LayoutApt(block, len, addrs[first].headLen, addrs[first].multi);
    EntryWhole(block, len, lay);
    AddressBack(block, len, lay, i);
    PrefixBack(block, len, lay, i);
  }

  lemma ValuesTell(types: seq<TlvType>, first: nat, last: nat, i: nat, a: nat, order: int, tlvs: seq<Entry>)
    requires first <= a <= last < first + 255 && AllReady(types, last) && a == first + i
    requires tlvs == TlvsBack(types, first, last)
    ensures Seen(tlvs, order, i) == ValuesOn(types, a, order)
  {
    hide PlacedAll, Entries, AllRuns, Seen, ValuesOn, Ready;
    var runs, count := AllRuns(types, first, last), last - first + 1;
    SeenSorted(Entries(runs, count), order, i);
    TypesSay(types, first, last, count, a, order, runs);
  }

  /** No prefix length is written as 255, which would be read as the length of the address. */
  ghost predicate PlainPrefixes(addrs: seq<WriterAddress>) {
    forall i :: 0 <= i < |addrs| ==> addrs[i].address.prefix != 255
  }

  /** `received` is the addresses from `first` on. */
  ghost predicate AllTold(addrs: seq<WriterAddress>, types: seq<TlvType>, first: nat, received: seq<Received>) {
    forall i :: 0 <= i < |received| ==> Tells(addrs, types, first + i, received[i])
  }

  /** What is read of a block is the addresses from `first` up to `next`. */
  ghost predicate BlockTold(addrs: seq<WriterAddress>, types: seq<TlvType>, first: nat, next: nat, len: AddrLen, b: ParsedBlock) {
    first + |ReceivedOf(b, len)| == next && AllTold(addrs, types, first, ReceivedOf(b, len))
  }

  lemma TellsHow(addrs: seq<WriterAddress>, types: seq<TlvType>, first: nat, len: AddrLen, i: nat, e: BlockEntry, tlvs: seq<Entry>)
    requires first < |addrs| && BlockReady(addrs, first, len) && AllReady(types, addrs[first].blockEnd)
    requires i <= addrs[first].blockEnd - first && PlainPrefixes(addrs)
    requires e == EntryBack(addrs, first, len) && tlvs == TlvsBack(types, first, addrs[first].blockEnd)
    ensures Whole(e, len) && e.count == addrs[first].blockEnd - first + 1
    ensures Tells(addrs, types, first + i, Received(Address(AddressAt(e, len, i), PrefixAt(e, len, i)), tlvs, i))
  {
    hide EntryBack, TlvsBack, AddressAt, PrefixAt, Seen, ValuesOn, Unready, Ready;
    AddressTells(addrs, first, len, i);
    forall order ensures Seen(tlvs, order, i) == ValuesOn(types, first + i, order) {
      ValuesTell(types, first, addrs[first].blockEnd, i, first + i, order, tlvs);
    }
  }

  lemma PieceTells(addrs: seq<WriterAddress>, types: seq<TlvType>, first: nat, len: AddrLen, b: ParsedBlock)
    requires first < |addrs| && BlockReady(addrs, first, len) && AllReady(types, addrs[first].blockEnd)
    requires PlainPrefixes(addrs) && b == PieceOf(addrs, types, first, len).block
    ensures BlockTold(addrs, types, first, addrs[first].blockEnd + 1, len, b)
  {
    TellsHow(addrs, types, first, len, 0, b.entry, b.tlvs);
    var r := ReceivedOf(b, len);
    forall i | 0 <= i < |r| ensures Tells(addrs, types, first + i, r[i]) {
      TellsHow(addrs, types, first, len, i, b.entry, b.tlvs);
    }
  }

  /** Block `i` is the addresses from bound `i` up to the next one. */
  ghost predicate BlocksTold(addrs: seq<WriterAddress>, types: seq<TlvType>, bounds: seq<nat>, len: AddrLen, pieces: seq<Piece>) {
    && |bounds| == |pieces| + 1
    && forall i :: 0 <= i < |pieces| ==> BlockTold(addrs, types, bounds[i], bounds[i + 1], len, pieces[i].block)
  }

  lemma BlocksToldRest(addrs: seq<WriterAddress>, types: seq<TlvType>, bounds: seq<nat>, len: AddrLen, pieces: seq<Piece>)
    requires BlocksTold(addrs, types, bounds, len, pieces) && pieces != []
    ensures BlockTold(addrs, types, bounds[0], bounds[1], len, pieces[0].block)
    ensures BlocksTold(addrs, types, bounds[1..], len, pieces[1..])
  {
    forall i | 0 <= i < |pieces[1..]|
      ensures BlockTold(addrs, types, bounds[1..][i], bounds[1..][i + 1], len, pieces[1..][i].block)
    {
      assert BlockTold(addrs, types, bounds[i + 1], bounds[i + 1 + 1], len, pieces[i + 1].block);
    }
  }

  lemma ToldAppend(addrs: seq<WriterAddress>, types: seq<TlvType>, first: nat, next: nat, a: seq<Received>, b: seq<Received>)
    requires AllTold(addrs, types, first, a) && next == first + |a| && AllTold(addrs, types, next, b)
    ensures AllTold(addrs, types, first, a + b)
  {
    forall i | 0 <= i < |a + b| ensures Tells(addrs, types, first + i, (a + b)[i]) {
      if i >= |a| {
        assert Tells(addrs, types, next + (i - |a|), b[i - |a|]);
      }
    }
  }

  /** Blocks that say what they should one by one say it together. */
  lemma {:induction false} PiecesTell(addrs: seq<WriterAddress>, types: seq<TlvType>, bounds: seq<nat>, len: AddrLen, pieces: seq<Piece>)
    requires BlocksTold(addrs, types, bounds, len, pieces)
    ensures bounds[0] + |AllReceived(Parsed(pieces), len)| == bounds[|pieces|]
    ensures AllTold(addrs, types, bounds[0], AllReceived(Parsed(pieces), len))
    decreases |pieces|
  {
    if pieces != [] {
      var here, rest := ReceivedOf(pieces[0].block, len), AllReceived(Parsed(pieces[1..]), len);
      BlocksToldRest(addrs, types, bounds, len, pieces);
      PiecesTell(addrs, types, bounds[1..], len, pieces[1..]);
      assert Parsed(pieces)[1..] == Parsed(pieces[1..]);
      ToldAppend(addrs, types, bounds[0], bounds[1], here, rest);
    }
  }

  lemma AllTell(addrs: seq<WriterAddress>, types: seq<TlvType>, first: nat, last: nat, len: AddrLen, pieces: seq<Piece>)
    requires Partition(addrs, first, last, len) && AllReady(types, last) && PlainPrefixes(addrs)
    requires pieces == Pieces(addrs, types, first, last, len)
    ensures |AllReceived(Parsed(pieces), len)| == last + 1 - first
    ensures AllTold(addrs, types, first, AllReceived(Parsed(pieces), len))
  {
    var starts := Starts(addrs, first, last);
    var bounds: seq<nat> := starts + [last + 1];
    forall i | 0 <= i < |pieces| ensures BlockTold(addrs, types, bounds[i], bounds[i + 1], len, pieces[i].block) {
      EarlierReady(types, addrs[starts[i]].blockEnd, last);
      PieceTells(addrs, types, starts[i], len, pieces[i].block);
    }
    PiecesTell(addrs, types, bounds, len, pieces);
  }

  /** Whatever valid partition into blocks is written, parsing the octets gives
      back every address, its prefix length, and for each TLV type exactly the
      values that the address was given. */
  lemma AddressRoundTrip(data: seq<Octet>, end: nat, at: nat, addrs: seq<WriterAddress>, types: seq<TlvType>,
      first: nat, last: nat, len: AddrLen, text: seq<Octet>)
    requires Partition(addrs, first, last, len) && AllReady(types, last) && PlainPrefixes(addrs)
    requires text == Texts(Pieces(addrs, types, first, last, len)) && |text| < 0x1_0000
    requires Holds(data, at, text) && end == at + |text| <= |data|
    ensures var r := ReadBlocks(data, end, at, len);
      && r.Read? && r.at == end
      && |AllReceived(r.item, len)| == last + 1 - first
      && AllTold(addrs, types, first, AllReceived(r.item, len))
  {
    var pieces := Pieces(addrs, types, first, last, len);
    PiecesReadBack(addrs, types, first, last, len);
    PiecesRead(data, end, at, len, pieces);
    AllTell(addrs, types, first, last, len, pieces);
  }

  // ----- from the marks of a run to the round trip

  /** The types after a run of the writer over the addresses. */
  function MarkedTypes(types: seq<TlvType>, calls: seq<Call>): seq<TlvType> {
    seq(|types|, i requires 0 <= i < |types| => MarkedBy(types[i], calls))
  }

  ghost predicate AllRising(types: seq<TlvType>) {
    forall i :: 0 <= i < |types| ==> Rising(types[i].tlvs)
  }

  lemma RunReady(types: seq<TlvType>, calls: seq<Call>)
    requires AllRising(types) && InOrder(calls) && calls != [] && calls[0].addr == 0
    ensures AllReady(MarkedTypes(types, calls), calls[|calls| - 1].addr)
  {
    forall i | 0 <= i < |types| ensures Ready(MarkedBy(types[i], calls), calls[|calls| - 1].addr) {
      RunMarks(types[i], calls);
    }
  }

  lemma {:induction false} RunValues(types: seq<TlvType>, calls: seq<Call>, a: nat, order: int)
    requires AllRising(types) && InOrder(calls) && calls != [] && calls[0].addr == 0
    ensures ValuesOn(MarkedTypes(types, calls), a, order) == ValuesOn(types, a, order)
  {
    if types != [] {
      hide ValueOn, MarkedBy;
      RunMarks(types[0], calls);
      RunValues(types[1..], calls, a, order);
      assert MarkedTypes(types, calls)[1..] == MarkedTypes(types[1..], calls);
    }
  }

  /** Whatever the writer has been given, with whatever marks: once it has gone
      through the addresses, writing and parsing gives it back. */
  lemma RunRoundTrip(data: seq<Octet>, end: nat, at: nat, addrs: seq<WriterAddress>, types: seq<TlvType>, calls: seq<Call>,
      first: nat, last: nat, len: AddrLen, marked: seq<TlvType>)
    requires AllRising(types) && InOrder(calls) && calls != [] && calls[0].addr == 0 && last <= calls[|calls| - 1].addr
    requires Partition(addrs, first, last, len) && PlainPrefixes(addrs) && marked == MarkedTypes(types, calls)
    ensures AllReady(marked, last)
    ensures var text := Texts(Pieces(addrs, marked, first, last, len));
      Holds(data, at, text) && end == at + |text| <= |data| && |text| < 0x1_0000 ==>
        var r := ReadBlocks(data, end, at, len);
        r.Read? && r.at == end && |AllReceived(r.item, len)| == last + 1 - first && AllTold(addrs, types, first, AllReceived(r.item, len))
  {
    hide Partition, PlainPrefixes, Pieces, Texts, ReadBlocks, ValuesOn, MarkedTypes, ReceivedOf, AllReceived, Holds, Seen;
    RunReady(types, calls);
    EarlierReady(marked, last, calls[|calls| - 1].addr);
    var text := Texts(Pieces(addrs, marked, first, last, len));
    if Holds(data, at, text) && end == at + |text| <= |data| && |text| < 0x1_0000 {
      AddressRoundTrip(data, end, at, addrs, marked, first, last, len, text);
      var rs := AllReceived(ReadBlocks(data, end, at, len).item, len);
      forall i | 0 <= i < |rs| ensures Tells(addrs, types, first + i, rs[i]) {
        assert Tells(addrs, marked, first + i, rs[i]);
        forall order ensures ValuesOf(rs[i], order) == ValuesOn(types, first + i, order) {
          RunValues(types, calls, first + i, order);
        }
      }
    }
  }
}
