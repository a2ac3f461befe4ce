/** Messages (section 5.2 of RFC 5444): a header, TLVs of the message, and its
    address blocks; written by _finalize_message_fragment and _write_msgheader
    in src-api/rfc5444/rfc5444_msg_generator.c, parsed by the first half of
    _handle_message in src-api/rfc5444/rfc5444_reader.c. */
module Messages {
  import opened AddressBlocks
  import opened Addresses
  import opened AddressTlvs
  import opened Octets
  import opened TlvWriter
  import opened Tlvs
  import opened Wrappers

  const MSG_ORIGINATOR: Octet := 128
  const MSG_HOPLIMIT: Octet := 64
  const MSG_HOPCOUNT: Octet := 32
  const MSG_SEQNO: Octet := 16

  /** What the header says, beside the sizes. */
  datatype Header = Header(typ: Octet, addrLen: AddrLen, orig: Option<seq<Octet>>, hopLimit: Option<Octet>,
                           hopCount: Option<Octet>, seqno: Option<Word>)

  // ----- a message on the wire

  predicate HeaderRight(h: Header) {
    h.orig.Some? ==> |h.orig.value| == h.addrLen
  }

  /** The four flags, and the address length less one in the low bits. */
  function MsgFlags(h: Header): Octet {
    If(h.orig.Some?, 128) + If(h.hopLimit.Some?, 64) + If(h.hopCount.Some?, 32) + If(h.seqno.Some?, 16) + (h.addrLen - 1)
  }

  function OrigOctets(h: Header): seq<Octet> {
    if h.orig.Some? then h.orig.value else []
  }

  function OptionOctets(x: Option<Octet>): seq<Octet> {
    if x.Some? then [x.value] else []
  }

  function SeqnoOctets(x: Option<Word>): seq<Octet> {
    if x.Some? then Both(x.value) else []
  }

  /** The header without the size of the TLV block behind it. */
  function HeaderOctets(h: Header, size: nat): seq<Octet> {
    [h.typ, MsgFlags(h)] + Both(size) + OrigOctets(h)
      + OptionOctets(h.hopLimit) + OptionOctets(h.hopCount) + SeqnoOctets(h.seqno)
  }

  /** rfc5444_writer_set_msg_header: the size of the header with the size of the TLV block. */
  function HeaderSize(h: Header): nat {
    6 + (if h.orig.Some? then h.addrLen else 0) + (if h.hopLimit.Some? then 1 else 0)
      + (if h.hopCount.Some? then 1 else 0) + (if h.seqno.Some? then 2 else 0)
  }

  lemma HeaderSizeRight(h: Header, size: nat)
    requires HeaderRight(h)
    ensures |HeaderOctets(h, size)| + 2 == HeaderSize(h)
  {
  }

  function MessageSize(h: Header, ts: seq<Tlv>, addresses: seq<Octet>): nat {
    HeaderSize(h) + |EncodeAll(ts)| + |addresses|
  }

  function MessageText(h: Header, ts: seq<Tlv>, addresses: seq<Octet>): seq<Octet> {
    HeaderOctets(h, MessageSize(h, ts, addresses)) + TlvBlock(ts) + addresses
  }

  // ----- the header as the reader sees it

  function ReadOption(data: seq<Octet>, eob: nat, p: Place, present: bool): (r: (Option<Octet>, Place))
    requires eob <= |data|
    ensures p.at <= r.1.at && (r.1.at <= eob || r.1.at == p.at)
  {
    if present then
      var (x, q) := U8(data, eob, p);
      (Some(x), q)
    else (None, p)
  }

  function ReadSeqno(data: seq<Octet>, eob: nat, p: Place, present: bool): (r: (Option<Word>, Place))
    requires eob <= |data|
    ensures p.at <= r.1.at && (r.1.at <= eob || r.1.at == p.at)
  {
    if present then
      var (x, q) := U16(data, eob, p);
      (Some(x), q)
    else (None, p)
  }

  /** The rest of the header, behind the originator. */
  function ReadOptions(data: seq<Octet>, eob: nat, p: Place, flags: Octet): (r: (Option<Octet>, Option<Octet>, Option<Word>, Place))
    requires eob <= |data|
    ensures p.at <= r.3.at && (p.at <= eob ==> r.3.at <= eob)
  {
    var (limit, q) := ReadOption(data, eob, p, Has(flags, MSG_HOPLIMIT));
    var (count, r) := ReadOption(data, eob, q, Has(flags, MSG_HOPCOUNT));
    var (seqno, s) := ReadSeqno(data, eob, r, Has(flags, MSG_SEQNO));
    (limit, count, seqno, s)
  }

  /** Header and size of a message. */
  function ReadHeader(data: seq<Octet>, eob: nat, at: nat): (r: Reading<(Header, Word)>)
    requires at <= eob <= |data|
    ensures r.Read? ==> at + 4 <= r.at <= eob && HeaderRight(r.item.0) && at + r.item.1 <= eob
  {
    var (typ, p) := U8(data, eob, Place(at, OKAY));
    var (flags, q) := U8(data, eob, p);
    var (size, r) := U16(data, eob, q);
    var len: AddrLen := flags % 16 + 1;
    if Has(flags, MSG_ORIGINATOR) && r.at + len > eob then Failed(END_OF_BUFFER, r.at) else
      var orig := if Has(flags, MSG_ORIGINATOR) then Some(data[r.at..r.at + len]) else None;
      var s := if Has(flags, MSG_ORIGINATOR) then Place(r.at + len, r.code) else r;
      var (limit, count, seqno, t) := ReadOptions(data, eob, s, flags);
      if at + size > eob then Failed(END_OF_BUFFER, t.at)
      else if t.code != OKAY then Failed(t.code, t.at)
      else Read((Header(typ, len, orig, limit, count, seqno), size), t.at)
  }

  datatype Message = Message(header: Header, tlvs: seq<Entry>, blocks: seq<ParsedBlock>)

  /** What _handle_message parses at `at`. */
  function ReadMessage(data: seq<Octet>, eob: nat, at: nat): (r: Reading<Message>)
    requires at <= eob <= |data|
    ensures r.Read? ==> at < r.at <= eob
  {
    match ReadHeader(data, eob, at)
    case Failed(code, at') => Failed(code, at')
    case Read(h, p) =>
      var end := at + h.1;
      if p > end then Failed(END_OF_BUFFER, end) else
        match ReadTlvBlock(data, end, p, 0)
        case Failed(code, at') => Failed(code, end)
        case Read(tlvs, q) =>
          match ReadBlocks(data, end, q, h.0.addrLen)
          case Failed(code, at') => Failed(code, end)
          case Read(blocks, r) => Read(Message(h.0, tlvs, blocks), end)
  }

  // ----- parsing

  method ParseOption(s: Stream, eob: nat, present: bool, error: int) returns (x: Option<Octet>, code: int)
    requires eob <= |s.data|
    modifies s
    ensures (x, Place(s.ptr, code)) == ReadOption(s.data, eob, Place(old(s.ptr), error), present)
  {
    x, code := None, error;
    if present {
      var b;
      b, code := s.GetU8(eob, error);
      x := Some(b);
    }
  }

  method ParseOptions(s: Stream, eob: nat, flags: Octet, error: int)
    returns (limit: Option<Octet>, count: Option<Octet>, seqno: Option<Word>, code: int)
    requires eob <= |s.data|
    modifies s
    ensures (limit, count, seqno, Place(s.ptr, code)) == ReadOptions(s.data, eob, Place(old(s.ptr), error), flags)
  {
    hide U8, U16;
    limit, code := ParseOption(s, eob, Has(flags, MSG_HOPLIMIT), error);
    count, code := ParseOption(s, eob, Has(flags, MSG_HOPCOUNT), code);
    seqno := None;
    if Has(flags, MSG_SEQNO) {
      var n;
      n, code := s.GetU16(eob, code);
      seqno := Some(n);
    }
  }

  /** The header of a message, and its size. */
  method ParseHeader(s: Stream, eob: nat) returns (code: int, header: Header, size: Word)
    requires s.ptr <= eob <= |s.data|
    modifies s
    ensures Agrees(ReadHeader(s.data, eob, old(s.ptr)), code, (header, size), s.ptr)
  {
    hide U8, U16, ReadOptions, Has;
    var start := s.ptr;
    var typ, flags, limit, count, seqno;
    typ, code := s.GetU8(eob, OKAY);
    flags, code := s.GetU8(eob, code);
    size, code := s.GetU16(eob, code);
    var len: AddrLen := flags % 16 + 1;
    header := Header(typ, len, None, None, None, None);
    if Has(flags, MSG_ORIGINATOR) {
      if s.ptr + len > eob {
        code := END_OF_BUFFER;
        return;
      }
      header := header.(orig := Some(s.data[s.ptr..s.ptr + len]));
      s.ptr := s.ptr + len;
    }
    limit, count, seqno, code := ParseOptions(s, eob, flags, code);
    header := header.(hopLimit := limit, hopCount := count, seqno := seqno);
    if start + size > eob {
      code := END_OF_BUFFER;
    }
  }

  /** The parsing half of _handle_message. A header that is longer than the
      message leaves no octets for the size of the TLV block. */
  method ParseMessage(s: Stream, eob: nat) returns (code: int, message: Message)
    requires s.ptr <= eob <= |s.data|
    modifies s
    ensures Agrees(ReadMessage(s.data, eob, old(s.ptr)), code, message, s.ptr)
  {
    hide ReadHeader, ReadTlvBlock, ReadBlocks;
    var start := s.ptr;
    var header, size, tlvs, blocks;
    code, header, size := ParseHeader(s, eob);
    message := Message(header, [], []);
    if code != OKAY {
      return;
    }
    var end := start + size;
    if s.ptr > end {
      code := END_OF_BUFFER;
      s.ptr := end;
      return;
    }
    code, tlvs := ParseTlvBlock(s, end, 0);
    if code == OKAY {
      code, blocks := ParseBlocks(s, end, header.addrLen);
      message := Message(header, tlvs, blocks);
    }
    s.ptr := end;
  }

  // ----- reading back a written message

  lemma HighFlagsHave(b7: bool, b6: bool, low: nat)
    requires low < 64
    ensures var f := If(b7, 128) + If(b6, 64) + low; Has(f, 128) == b7 && Has(f, 64) == b6
  {
  }

  lemma LowFlagsHave(high: nat, b5: bool, b4: bool, low: nat)
    requires high < 4 && low < 16
    ensures var f := 64 * high + If(b5, 32) + If(b4, 16) + low; Has(f, 32) == b5 && Has(f, 16) == b4 && f % 16 == low
  {
  }

  lemma MsgFlagsHave(h: Header)
    ensures Has(MsgFlags(h), MSG_ORIGINATOR) == h.orig.Some? && Has(MsgFlags(h), MSG_HOPLIMIT) == h.hopLimit.Some?
    ensures Has(MsgFlags(h), MSG_HOPCOUNT) == h.hopCount.Some? && Has(MsgFlags(h), MSG_SEQNO) == h.seqno.Some?
    ensures MsgFlags(h) % 16 + 1 == h.addrLen
  {
    hide Has;
    var high, b5, b4 := If(h.orig.Some?, 2) + If(h.hopLimit.Some?, 1), h.hopCount.Some?, h.seqno.Some?;
    HighFlagsHave(h.orig.Some?, h.hopLimit.Some?, If(b5, 32) + If(b4, 16) + (h.addrLen - 1));
    LowFlagsHave(high, b5, b4, h.addrLen - 1);
    assert MsgFlags(h) == 64 * high + If(b5, 32) + If(b4, 16) + (h.addrLen - 1);
  }

  lemma OptionRead(data: seq<Octet>, eob: nat, at: nat, x: Option<Octet>)
    requires Holds(data, at, OptionOctets(x)) && at + |OptionOctets(x)| <= eob <= |data|
    ensures ReadOption(data, eob, Place(at, OKAY), x.Some?) == (x, Place(at + |OptionOctets(x)|, OKAY))
  {
    if x.Some? {
      ReadsOctet(data, eob, at, x.value);
    }
  }

  lemma SeqnoRead(data: seq<Octet>, eob: nat, at: nat, x: Option<Word>)
    requires Holds(data, at, SeqnoOctets(x)) && at + |SeqnoOctets(x)| <= eob <= |data|
    ensures ReadSeqno(data, eob, Place(at, OKAY), x.Some?) == (x, Place(at + |SeqnoOctets(x)|, OKAY))
  {
    if x.Some? {
      ReadsWord(data, eob, at, x.value);
    }
  }

  function OptionsOctets(h: Header): seq<Octet> {
    OptionOctets(h.hopLimit) + OptionOctets(h.hopCount) + SeqnoOctets(h.seqno)
  }

  lemma OptionsRead(data: seq<Octet>, eob: nat, at: nat, h: Header, flags: Octet)
    requires Holds(data, at, OptionsOctets(h)) && at + |OptionsOctets(h)| <= eob <= |data|
    requires Has(flags, MSG_HOPLIMIT) == h.hopLimit.Some? && Has(flags, MSG_HOPCOUNT) == h.hopCount.Some?
    requires Has(flags, MSG_SEQNO) == h.seqno.Some?
    ensures ReadOptions(data, eob, Place(at, OKAY), flags)
         == (h.hopLimit, h.hopCount, h.seqno, Place(at + |OptionsOctets(h)|, OKAY))
  {
    var a, b, c := OptionOctets(h.hopLimit), OptionOctets(h.hopCount), SeqnoOctets(h.seqno);
    HoldsParts(data, at, a + b, c);
    HoldsParts(data, at, a, b);
    OptionRead(data, eob, at, h.hopLimit);
    OptionRead(data, eob, at + |a|, h.hopCount);
    SeqnoRead(data, eob, at + |a| + |b|, h.seqno);
  }

  lemma HeaderParts(data: seq<Octet>, at: nat, h: Header, size: nat) returns (p: nat, q: nat)
    requires Holds(data, at, HeaderOctets(h, size))
    ensures Holds(data, at, [h.typ]) && Holds(data, at + 1, [MsgFlags(h)]) && Holds(data, at + 2, Both(size))
    ensures p == at + 4 + |OrigOctets(h)| && Holds(data, at + 4, OrigOctets(h))
    ensures q == p + |OptionsOctets(h)| == at + |HeaderOctets(h, size)| && Holds(data, p, OptionsOctets(h))
  {
    var flags, orig, options := MsgFlags(h), OrigOctets(h), OptionsOctets(h);
    p, q := at + 4 + |orig|, at + 4 + |orig| + |options|;
    assert HeaderOctets(h, size) == [h.typ, flags] + Both(size) + orig + options;
    HoldsParts(data, at, [h.typ, flags] + Both(size) + orig, options);
    HoldsParts(data, at, [h.typ, flags] + Both(size), orig);
    HoldsParts(data, at, [h.typ, flags], Both(size));
    assert [h.typ, flags] == [h.typ] + [flags];
    HoldsParts(data, at, [h.typ], [flags]);
  }

  lemma HeaderRead(data: seq<Octet>, eob: nat, at: nat, h: Header, size: Word)
    requires HeaderRight(h) && Holds(data, at, HeaderOctets(h, size))
    requires at + |HeaderOctets(h, size)| <= eob <= |data| && at + size <= eob
    ensures ReadHeader(data, eob, at) == Read((h, size), at + |HeaderOctets(h, size)|)
  {
    hide ReadOptions, Has, MsgFlags, OptionsOctets, HeaderOctets, Both, U8, U16;
    var p, q := HeaderParts(data, at, h, size);
    MsgFlagsHave(h);
    ReadsOctet(data, eob, at, h.typ);
    ReadsOctet(data, eob, at + 1, MsgFlags(h));
    ReadsWord(data, eob, at + 2, size);
    OptionsRead(data, eob, p, h, MsgFlags(h));
    if h.orig.Some? {
      assert data[at + 4..at + 4 + h.addrLen] == h.orig.value;
    }
  }

  lemma MessageSteps(data: seq<Octet>, eob: nat, at: nat, h: Header, size: Word, p: nat, q: nat, end: nat,
      tlvs: seq<Entry>, blocks: seq<ParsedBlock>)
    requires at <= p <= q <= end == at + size <= eob <= |data|
    requires ReadHeader(data, eob, at) == Read((h, size), p)
    requires ReadTlvBlock(data, end, p, 0) == Read(tlvs, q)
    requires ReadBlocks(data, end, q, h.addrLen) == Read(blocks, end)
    ensures ReadMessage(data, eob, at) == Read(Message(h, tlvs, blocks), end)
  {
    hide ReadHeader, ReadTlvBlock, ReadBlocks;
  }

  lemma MessageParts(data: seq<Octet>, at: nat, h: Header, size: nat, tlvs: seq<Octet>, addresses: seq<Octet>) returns (p: nat, q: nat)
    requires Holds(data, at, HeaderOctets(h, size) + tlvs + addresses)
    ensures p == at + |HeaderOctets(h, size)| && Holds(data, at, HeaderOctets(h, size))
    ensures q == p + |tlvs| && Holds(data, p, tlvs) && Holds(data, q, addresses)
  {
    var head := HeaderOctets(h, size);
    p, q := at + |head|, at + |head| + |tlvs|;
    HoldsParts(data, at, head + tlvs, addresses);
    HoldsParts(data, at, head, tlvs);
  }

  /** A message is read back: its header, its TLVs sorted by type, and its
      blocks. */
  lemma MessageRead(data: seq<Octet>, eob: nat, at: nat, h: Header, ts: seq<Tlv>, pieces: seq<Piece>, end: nat)
    requires HeaderRight(h) && AllFit(ts, 0) && AllReadBack(h.addrLen, pieces)
    requires MessageSize(h, ts, Texts(pieces)) < 0x1_0000
    requires Holds(data, at, MessageText(h, ts, Texts(pieces)))
    requires end == at + |MessageText(h, ts, Texts(pieces))| <= eob <= |data|
    ensures ReadMessage(data, eob, at) == Read(Message(h, PlacedAll([], Entries(ts, 0)), Parsed(pieces)), end)
  {
    hide HeaderOctets, EncodeAll, ReadHeader, ReadTlvBlock, ReadBlocks, ReadMessage, PlacedAll, Entries, Parsed, Texts, ReadsBack, Misfits;
    var size := MessageSize(h, ts, Texts(pieces));
    HeaderSizeRight(h, size);
    var p, q := MessageParts(data, at, h, size, TlvBlock(ts), Texts(pieces));
    HeaderRead(data, eob, at, h, size);
    TlvBlockRead(data, end, p, ts, 0);
    PiecesRead(data, end, q, h.addrLen, pieces);
    MessageSteps(data, eob, at, h, size, p, q, end, PlacedAll([], Entries(ts, 0)), Parsed(pieces));
  }

  // ----- writing

  /** The flags of a message in the making. */
  function FlagsSoFar(b7: bool, b6: bool, b5: bool, b4: bool, low: Octet): Octet
    requires low < 16
  {
    If(b7, 128) + If(b6, 64) + If(b5, 32) + If(b4, 16) + low
  }

  lemma FlagsStep(b7: bool, b6: bool, b5: bool, low: Octet)
    requires low < 16
    ensures With(FlagsSoFar(false, false, false, false, low), 128) == FlagsSoFar(true, false, false, false, low)
    ensures With(FlagsSoFar(b7, false, false, false, low), 64) == FlagsSoFar(b7, true, false, false, low)
    ensures With(FlagsSoFar(b7, b6, false, false, low), 32) == FlagsSoFar(b7, b6, true, false, low)
    ensures With(FlagsSoFar(b7, b6, b5, false, low), 16) == FlagsSoFar(b7, b6, b5, true, low)
  {
  }

  /** A part of the header that has a flag. */
  method WriteOptional(pen: Pen, flag: nat, bit: Octet, present: bool, s: seq<Octet>, ghost d: Draft, ghost f: Octet)
    returns (ghost next: Draft)
    requires pen.ptr + |s| <= pen.buffer.Length && bit > 0 && (!present ==> s == [])
    requires pen.Ink() == Text(d) && flag == |d.base| + 1 && f == if present then With(d.flags, bit) else d.flags
    modifies pen, pen.buffer
    ensures next == Longer(d.(flags := f), s)
    ensures pen.ptr == old(pen.ptr) + |s| && pen.Ink() == Text(next)
    ensures forall k :: pen.ptr <= k < pen.buffer.Length ==> pen.buffer[k] == old(pen.buffer[k])
  {
    next := Longer(d.(flags := f), s);
    if present {
      pen.Flag(flag, bit, d);
      pen.Copy(s);
      LongerText(Flagged(d, bit), s);
    }
  }

  lemma TailFurther(x: seq<Octet>, y: seq<Octet>, p: nat, q: nat)
    requires p <= q <= |x| == |y| && x[p..] == y[p..]
    ensures x[q..] == y[q..]
  {
    assert x[q..] == x[p..][q - p..] && y[q..] == y[p..][q - p..];
  }

  method WriteOptions(pen: Pen, flag: nat, h: Header, ghost d: Draft) returns (ghost next: Draft)
    requires pen.ptr + |OrigOctets(h)| + |OptionsOctets(h)| <= pen.buffer.Length
    requires pen.Ink() == Text(d) && flag == |d.base| + 1 && d.flags == h.addrLen - 1
    modifies pen, pen.buffer
    ensures next == Longer(d.(flags := MsgFlags(h)), OrigOctets(h) + OptionsOctets(h))
    ensures pen.ptr == old(pen.ptr) + |OrigOctets(h)| + |OptionsOctets(h)| <= pen.buffer.Length && pen.Ink() == Text(next)
    ensures forall k :: pen.ptr <= k < pen.buffer.Length ==> pen.buffer[k] == old(pen.buffer[k])
  {
    ghost var low, b7, b6, b5 := h.addrLen - 1, h.orig.Some?, h.hopLimit.Some?, h.hopCount.Some?;
    FlagsStep(b7, b6, b5, low);
    next := WriteOptional(pen, flag, MSG_ORIGINATOR, h.orig.Some?, OrigOctets(h), d, FlagsSoFar(b7, false, false, false, low));
    next := WriteOptional(pen, flag, MSG_HOPLIMIT, h.hopLimit.Some?, OptionOctets(h.hopLimit), next, FlagsSoFar(b7, b6, false, false, low));
    next := WriteOptional(pen, flag, MSG_HOPCOUNT, h.hopCount.Some?, OptionOctets(h.hopCount), next, FlagsSoFar(b7, b6, b5, false, low));
    next := WriteOptional(pen, flag, MSG_SEQNO, h.seqno.Some?, SeqnoOctets(h.seqno), next, MsgFlags(h));
    LongerOften(d.(flags := MsgFlags(h)), OrigOctets(h), OptionOctets(h.hopLimit), OptionOctets(h.hopCount), SeqnoOctets(h.seqno));
  }

  lemma LongerOften(d: Draft, a: seq<Octet>, b: seq<Octet>, c: seq<Octet>, e: seq<Octet>)
    ensures Longer(Longer(Longer(Longer(d, a), b), c), e) == Longer(d, a + (b + c + e))
  {
  }

  lemma JoinedRight(a: seq<Octet>, b: seq<Octet>, c: seq<Octet>, d: seq<Octet>)
    ensures a + b + c + d == a + (b + (c + d))
  {
  }

  lemma HeaderDrafted(h: Header, size: nat)
    ensures Text(Longer(Draft([], h.typ, MsgFlags(h), Both(size)), OrigOctets(h) + OptionsOctets(h))) == HeaderOctets(h, size)
  {
    assert [] + [h.typ, MsgFlags(h)] == [h.typ, MsgFlags(h)];
    JoinedRight([h.typ, MsgFlags(h)], Both(size), OrigOctets(h), OptionsOctets(h));
  }

  /** _write_msgheader; everything behind the header stays. */
  method WriteMsgHeader(buffer: array<Octet>, h: Header, size: Word, tlvSize: Word, ghost header: nat, ghost before: seq<Octet>)
    returns (ghost after: seq<Octet>)
    requires HeaderRight(h) && header == HeaderSize(h) <= buffer.Length && before == buffer[..]
    modifies buffer
    ensures after == buffer[..] && after[header..] == before[header..]
    ensures after[..header] == HeaderOctets(h, size) + Both(tlvSize)
  {
    HeaderSizeRight(h, size);
    var pen := new Pen(buffer, 0);
    WriteMsgStart(pen, h, size);
    ghost var d := Draft([], h.typ, h.addrLen - 1, Both(size));
    assert pen.Ink() == Text(d);
    d := WriteOptions(pen, 1, h, d);
    HeaderDrafted(h, size);
    WriteSize(pen, tlvSize);
    after := buffer[..];
    assert after[..header] == pen.Ink();
    assert after[header..] == before[header..];
  }

  method WriteSize(pen: Pen, n: Word)
    requires pen.ptr + 2 <= pen.buffer.Length
    modifies pen, pen.buffer
    ensures pen.ptr == old(pen.ptr) + 2 && pen.Ink() == old(pen.Ink()) + Both(n)
    ensures forall k :: pen.ptr <= k < pen.buffer.Length ==> pen.buffer[k] == old(pen.buffer[k])
  {
    pen.Put(n / 256);
    pen.Put(n % 256);
  }

  /** Type, address length and size. */
  method WriteMsgStart(pen: Pen, h: Header, size: Word)
    requires pen.ptr == 0 && 4 <= pen.buffer.Length
    modifies pen, pen.buffer
    ensures pen.ptr == 4 && pen.Ink() == [h.typ, h.addrLen - 1] + Both(size)
    ensures forall k :: pen.ptr <= k < pen.buffer.Length ==> pen.buffer[k] == old(pen.buffer[k])
  {
    pen.Put(h.typ);
    pen.Put(h.addrLen - 1);
    WriteSize(pen, size);
  }

  /** The addresses of one message; without any there is no block. */
  datatype AddressPart = NoAddresses | From(addrs: seq<WriterAddress>, types: seq<TlvType>, first: nat, last: nat)

  ghost predicate PartReady(part: AddressPart, len: AddrLen) {
    part.From? ==> Partition(part.addrs, part.first, part.last, len) && AllReady(part.types, part.last)
  }

  ghost function PartPieces(part: AddressPart, len: AddrLen): seq<Piece>
    requires PartReady(part, len)
  {
    if part.From? then Pieces(part.addrs, part.types, part.first, part.last, len) else []
  }

  /** Octets written with a pen that started at `start` stand there, and what
      is before them stays. */
  lemma InkHolds(before: seq<Octet>, after: seq<Octet>, ink: seq<Octet>, start: nat, text: seq<Octet>)
    requires start <= |before| && |ink| <= |after| && after[..|ink|] == ink && ink == before[..start] + text
    ensures Holds(after, start, text) && after[..start] == before[..start]
  {
    assert after[..start] == after[..|ink|][..start];
    assert after[start..start + |text|] == after[..|ink|][start..];
  }

  /** Writes the addresses behind the room for TLVs. */
  method PlaceAddresses(data: TlvData, len: AddrLen, part: AddressPart, ghost text: seq<Octet>) returns (size: nat)
    requires data.Valid() && PartReady(part, len) && text == Texts(PartPieces(part, len)) && |text| < 0x1_0000
    requires data.header + data.added + data.reserved + |text| <= data.buffer.Length
    modifies data.buffer
    ensures data.Valid() && size == |text|
    ensures Holds(data.buffer[..], data.header + data.added + data.reserved, text)
  {
    hide Partition, Ready, Stray, Pieces;
    size := 0;
    if part.From? {
      ghost var before := data.buffer[..];
      var start := data.header + data.added + data.reserved;
      var pen := new Pen(data.buffer, start);
      assert pen.Ink() == before[..start];
      WriteAddresses(pen, part.addrs, part.types, part.first, part.last, len);
      size := pen.ptr - start;
      InkHolds(before, data.buffer[..], pen.Ink(), start, text);
      StrayPrefix(before, data.buffer[..], data.header, data.added, data.filled, data.tlvs, data.late, start);
    }
  }

  lemma MessageTogether(data: seq<Octet>, h: Header, header: nat, size: nat, ts: seq<Tlv>, addresses: seq<Octet>, n: nat,
      end: nat, at: nat)
    requires HeaderRight(h) && header == HeaderSize(h) && n == |EncodeAll(ts)|
    requires end == header + n <= at && at + |addresses| <= |data| && size == end + |addresses|
    requires data[..header] == HeaderOctets(h, size) + Both(n)
    requires Holds(data, header, EncodeAll(ts)) && Holds(data, at, addresses)
    ensures data[..end] + data[at..at + |addresses|] == MessageText(h, ts, addresses)
  {
    hide HeaderOctets, HeaderSize, EncodeAll, Both;
    assert data[..end] == data[..header] + data[header..end];
    Regroup(HeaderOctets(h, size), Both(n), EncodeAll(ts));
  }

  /** Once the header is written in front of them, the parts make up the message. */
  lemma HeaderCloses(before: seq<Octet>, after: seq<Octet>, h: Header, header: nat, size: nat, ts: seq<Tlv>, addresses: seq<Octet>,
      n: nat, end: nat, at: nat)
    requires HeaderRight(h) && header == HeaderSize(h) && n == |EncodeAll(ts)| && |before| == |after|
    requires end == header + n <= at && at + |addresses| <= |after| && size == end + |addresses|
    requires Holds(before, header, EncodeAll(ts)) && Holds(before, at, addresses)
    requires after[header..] == before[header..] && after[..header] == HeaderOctets(h, size) + Both(n)
    ensures after[..end] + after[at..at + |addresses|] == MessageText(h, ts, addresses)
  {
    HeldTail(before, after, header, EncodeAll(ts));
    TailFurther(after, before, header, at);
    HeldTail(before, after, at, addresses);
    MessageTogether(after, h, header, size, ts, addresses, n, end, at);
  }

  /** Writes the header in front of the TLVs `ts`. */
  method CloseMessage(data: TlvData, h: Header, size: nat, ghost ts: seq<Tlv>, ghost text: seq<Octet>) returns (message: seq<Octet>)
    requires data.Valid() && HeaderRight(h) && data.header == HeaderSize(h) && ts == data.tlvs + data.late
    requires size == |text| && Holds(data.buffer[..], data.header + data.added + data.reserved, text)
    requires data.header + data.added + data.filled + size < 0x1_0000
    modifies data.buffer
    ensures message == MessageText(h, ts, text) && Misfits(ts, 0) == 0
  {
    hide HeaderOctets, HeaderSize, EncodeAll, Misfits, MessageText, Stray;
    var header, n := data.header, data.added + data.filled;
    var start, end := header + data.added + data.reserved, header + n;
    var total := end + size;
    ghost var before := data.buffer[..];
    TlvsTogether(before, before, header, data.added, data.filled, data.tlvs, data.late);
    ghost var after := WriteMsgHeader(data.buffer, h, total, n, header, before);
    HeaderCloses(before, after, h, header, total, ts, text, n, end, start);
    message := data.buffer[..][..end] + data.buffer[..][start..start + size];
  }

  /** _finalize_message_fragment, for one target: what is copied into its packet. */
  method FinishMessage(data: TlvData, h: Header, part: AddressPart, ghost text: seq<Octet>) returns (message: seq<Octet>)
    requires data.Valid() && HeaderRight(h) && data.header == HeaderSize(h)
    requires PartReady(part, h.addrLen) && text == Texts(PartPieces(part, h.addrLen))
    requires data.header + data.added + data.reserved + |text| <= data.buffer.Length
    requires data.header + data.added + data.filled + |text| < 0x1_0000
    modifies data.buffer
    ensures message == MessageText(h, data.tlvs + data.late, text)
    ensures Misfits(data.tlvs + data.late, 0) == 0
  {
    var size := PlaceAddresses(data, h.addrLen, part, text);
    message := CloseMessage(data, h, size, data.tlvs + data.late, text);
  }

  /** Whatever a message says is read back from what is sent for it: the
      header, the TLVs of each type in their order, and for each address
      exactly its values. */
  lemma MessageRoundTrip(data: seq<Octet>, eob: nat, at: nat, h: Header, ts: seq<Tlv>, part: AddressPart, text: seq<Octet>)
    requires HeaderRight(h) && AllFit(ts, 0) && PartReady(part, h.addrLen)
    requires part.From? ==> PlainPrefixes(part.addrs)
    requires MessageSize(h, ts, Texts(PartPieces(part, h.addrLen))) < 0x1_0000
    requires text == MessageText(h, ts, Texts(PartPieces(part, h.addrLen)))
    requires Holds(data, at, text) && at + |text| <= eob <= |data|
    ensures var r := ReadMessage(data, eob, at);
      && r.Read? && r.at == at + |text|
      && r.item.header == h
      && MessageTells(r.item, ts, part)
  {
    var pieces := PartPieces(part, h.addrLen);
    assert AllReadBack(h.addrLen, pieces) by {
      if part.From? {
        PiecesReadBack(part.addrs, part.types, part.first, part.last, h.addrLen);
      }
    }
    MessageRead(data, eob, at, h, ts, pieces, at + |text|);
    if part.From? {
      AllTell(part.addrs, part.types, part.first, part.last, h.addrLen, pieces);
    }
    forall order ensures OfOrder(PlacedAll([], Entries(ts, 0)), order) == OfOrder(Entries(ts, 0), order) {
      SortingStable([], Entries(ts, 0), order);
    }
    SortingStable([], Entries(ts, 0), 0);
  }

  /** A parsed message has the TLVs `ts`, sorted by type and otherwise in their
      order, and exactly the addresses of `part` with their values. */
  ghost predicate MessageTells(m: Message, ts: seq<Tlv>, part: AddressPart) {
    && Sorted(m.tlvs)
    && (forall order :: OfOrder(m.tlvs, order) == OfOrder(Entries(ts, 0), order))
    && var received := AllReceived(m.blocks, m.header.addrLen);
      match part
      case NoAddresses => received == []
      case From(addrs, types, first, last) =>
        first + |received| == last + 1 && AllTold(addrs, types, first, received)
  }
}
