/** Packets (section 5.1 of RFC 5444): a header, TLVs of the packet, and its
    messages; collected and sent by src-api/rfc5444/rfc5444_pkt_generator.c and
    the end of _finalize_message_fragment, read by rfc5444_reader_handle_packet. */
module Packets {
  import opened Addresses
  import opened Messages
  import opened Octets
  import opened TlvWriter
  import opened Tlvs
  import opened Wrappers

  const PKT_SEQNO: Octet := 8
  const PKT_TLV: Octet := 4

  // ----- a packet on the wire

  function PktFlags(seqno: Option<Word>, hasTlvs: bool): Octet {
    If(seqno.Some?, 8) + If(hasTlvs, 4)
  }

  /** The octets in front of the TLVs. */
  function PktHeader(seqno: Option<Word>, size: nat): seq<Octet> {
    [PktFlags(seqno, size > 0)] + SeqnoOctets(seqno) + if size > 0 then Both(size) else []
  }

  function PacketText(seqno: Option<Word>, ts: seq<Tlv>, body: seq<Octet>): seq<Octet> {
    PktHeader(seqno, |EncodeAll(ts)|) + EncodeAll(ts) + body
  }

  function Together(texts: seq<seq<Octet>>): seq<Octet> {
    if texts == [] then [] else Together(texts[..|texts| - 1]) + texts[|texts| - 1]
  }

  // ----- reading

  datatype Packet = Packet(seqno: Option<Word>, tlvs: seq<Entry>, messages: seq<Message>)

  /** The messages up to the end or to the first one that is broken. */
  function ReadMessages(data: seq<Octet>, at: nat, list: seq<Message>): (seq<Message>, int)
    requires at <= |data|
    decreases |data| - at
  {
    if at == |data| then (list, OKAY)
    else match ReadMessage(data, |data|, at)
      case Failed(code, _) => (list, code)
      case Read(m, next) => ReadMessages(data, next, list + [m])
  }

  /** The TLVs of a packet, if its flags say that it has some. */
  function ReadPacketTlvs(data: seq<Octet>, at: nat, flags: Octet): (r: Reading<seq<Entry>>)
    requires at <= |data|
    ensures r.at <= |data|
  {
    if Has(flags, PKT_TLV) then ReadTlvBlock(data, |data|, at, 0) else Read([], at)
  }

  /** rfc5444_reader_handle_packet: what has been read, and the result. Broken
      headers and TLVs leave nothing, a broken message leaves those before it. */
  function ReadPacket(data: seq<Octet>): (Option<Packet>, int) {
    var (first, p) := U8(data, |data|, Place(0, OKAY));
    if first / 16 != 0 then (None, UNSUPPORTED_VERSION)
    else
      var (seqno, q) := ReadSeqno(data, |data|, p, Has(first % 16, PKT_SEQNO));
      if q.code != OKAY then (None, q.code)
      else match ReadPacketTlvs(data, q.at, first % 16)
        case Failed(code, _) => (None, code)
        case Read(tlvs, at) =>
          var (messages, code) := ReadMessages(data, at, []);
          (Some(Packet(seqno, tlvs, messages)), code)
  }

  // ----- parsing

  /** The loop over the messages of a packet. */
  method ParseMessages(s: Stream) returns (list: seq<Message>, code: int)
    requires s.ptr <= |s.data|
    modifies s
    ensures (list, code) == ReadMessages(s.data, old(s.ptr), [])
  {
    hide ReadMessage;
    list, code := [], OKAY;
    while code == OKAY && s.ptr < |s.data|
      invariant s.ptr <= |s.data| || code != OKAY
      invariant ReadMessages(s.data, old(s.ptr), []) == if code == OKAY then ReadMessages(s.data, s.ptr, list) else (list, code)
      decreases code == OKAY, |s.data| - s.ptr
    {
      var m;
      code, m := ParseMessage(s, |s.data|);
      if code == OKAY {
        list := list + [m];
      }
    }
  }

  /** The parsing in rfc5444_reader_handle_packet. */
  method ParsePacket(buffer: seq<Octet>) returns (packet: Option<Packet>, code: int)
    ensures (packet, code) == ReadPacket(buffer)
  {
    hide ReadMessages, ReadTlvBlock, U16;
    var s := new Stream(buffer);
    var first, tlvs, messages;
    first, code := s.GetU8(|buffer|, OKAY);
    var flags := first % 16;
    if first / 16 != 0 {
      return None, UNSUPPORTED_VERSION;
    }
    var seqno := None;
    if Has(flags, PKT_SEQNO) {
      var n;
      n, code := s.GetU16(|buffer|, code);
      seqno := Some(n);
    }
    if code != OKAY {
      return None, code;
    }
    tlvs := [];
    if Has(flags, PKT_TLV) {
      code, tlvs := ParseTlvBlock(s, |buffer|, 0);
      if code != OKAY {
        return None, code;
      }
    }
    messages, code := ParseMessages(s);
    packet := Some(Packet(seqno, tlvs, messages));
  }

  // ----- reading back

  /** `text` is read as the message `m`, wherever it stands. */
  ghost predicate ReadsAsAt(data: seq<Octet>, eob: nat, at: nat, text: seq<Octet>, m: Message) {
    Holds(data, at, text) && at + |text| <= eob <= |data| ==> ReadMessage(data, eob, at) == Read(m, at + |text|)
  }

  ghost predicate ReadsAs(text: seq<Octet>, m: Message) {
    |text| > 0 && forall data, eob, at :: ReadsAsAt(data, eob, at, text, m)
  }

  ghost predicate AllReadAs(texts: seq<seq<Octet>>, ms: seq<Message>) {
    |texts| == |ms| && forall i :: 0 <= i < |texts| ==> ReadsAs(texts[i], ms[i])
  }

  /** What FinishMessage writes is read as the message it was made from. */
  lemma MessageReadsAs(h: Header, ts: seq<Tlv>, pieces: seq<Piece>, text: seq<Octet>)
    requires HeaderRight(h) && AllFit(ts, 0) && AllReadBack(h.addrLen, pieces)
    requires MessageSize(h, ts, Texts(pieces)) < 0x1_0000 && text == MessageText(h, ts, Texts(pieces))
    ensures ReadsAs(text, Message(h, PlacedAll([], Entries(ts, 0)), Parsed(pieces)))
  {
    hide AllReadBack, MessageSize, ReadMessage, PlacedAll, Entries, Parsed, Texts, Misfits;
    var m := Message(h, PlacedAll([], Entries(ts, 0)), Parsed(pieces));
    forall data, eob: nat, at: nat ensures ReadsAsAt(data, eob, at, text, m) {
      if Holds(data, at, text) && at + |text| <= eob <= |data| {
        MessageRead(data, eob, at, h, ts, pieces, at + |text|);
      }
    }
  }

  function From(texts: seq<seq<Octet>>, i: nat): seq<Octet>
    requires i <= |texts|
    decreases |texts| - i
  {
    if i == |texts| then [] else texts[i] + From(texts, i + 1)
  }

  lemma {:induction false} TogetherFrom(texts: seq<seq<Octet>>, i: nat)
    requires i <= |texts|
    ensures Together(texts) == Together(texts[..i]) + From(texts, i)
    decreases |texts| - i
  {
    if i < |texts| {
      TogetherFrom(texts, i + 1);
      assert texts[..i + 1][..i] == texts[..i];
      Regroup(Together(texts[..i]), texts[i], From(texts, i + 1));
    } else {
      assert texts[..i] == texts;
    }
  }

  lemma {:induction false} MessagesRead(data: seq<Octet>, at: nat, texts: seq<seq<Octet>>, ms: seq<Message>, i: nat)
    requires AllReadAs(texts, ms) && i <= |texts|
    requires at <= |data| && Holds(data, at, From(texts, i)) && at + |From(texts, i)| == |data|
    ensures ReadMessages(data, at, ms[..i]) == (ms, OKAY)
    decreases |texts| - i
  {
    hide ReadMessage;
    if i < |texts| {
      HoldsParts(data, at, texts[i], From(texts, i + 1));
      assert ReadsAs(texts[i], ms[i]) && ReadsAsAt(data, |data|, at, texts[i], ms[i]);
      MessagesRead(data, at + |texts[i]|, texts, ms, i + 1);
      assert ms[..i] + [ms[i]] == ms[..i + 1];
    } else {
      assert ms[..i] == ms;
    }
  }

  lemma PktFlagsHave(seqno: Option<Word>, hasTlvs: bool)
    ensures var f := PktFlags(seqno, hasTlvs);
      f / 16 == 0 && f % 16 == f && Has(f, PKT_SEQNO) == seqno.Some? && Has(f, PKT_TLV) == hasTlvs
  {
  }

  lemma PacketParts(data: seq<Octet>, seqno: Option<Word>, ts: seq<Tlv>, body: seq<Octet>) returns (p: nat, q: nat)
    requires data == PacketText(seqno, ts, body)
    ensures Holds(data, 0, [PktFlags(seqno, |EncodeAll(ts)| > 0)]) && Holds(data, 1, SeqnoOctets(seqno))
    ensures p == 1 + |SeqnoOctets(seqno)| && q + |body| == |data| && Holds(data, q, body)
    ensures if |EncodeAll(ts)| > 0 then Holds(data, p, TlvBlock(ts)) && q == p + |TlvBlock(ts)| else q == p
  {
    hide EncodeAll, Both, PktFlags, SeqnoOctets;
    var n := |EncodeAll(ts)|;
    var f, s, b := [PktFlags(seqno, n > 0)], SeqnoOctets(seqno), if n > 0 then Both(n) else [];
    p, q := 1 + |s|, 1 + |s| + |b| + n;
    assert data == f + s + b + EncodeAll(ts) + body;
    assert Holds(data, 0, data);
    HoldsParts(data, 0, f + s + b + EncodeAll(ts), body);
    HoldsParts(data, 0, f + s + b, EncodeAll(ts));
    HoldsParts(data, 0, f + s, b);
    HoldsParts(data, 0, f, s);
    HoldsParts(data, p, b, EncodeAll(ts));
  }

  /** A packet is read back: its sequence number, its TLVs sorted by type, and
      its messages, all of them and in their order. */
  lemma PacketRead(seqno: Option<Word>, ts: seq<Tlv>, texts: seq<seq<Octet>>, ms: seq<Message>)
    requires AllFit(ts, 0) && |EncodeAll(ts)| < 0x1_0000 && AllReadAs(texts, ms)
    ensures ReadPacket(PacketText(seqno, ts, Together(texts)))
         == (Some(Packet(seqno, PlacedAll([], Entries(ts, 0)), ms)), OKAY)
  {
    hide PacketText, ReadMessages, ReadTlvBlock, EncodeAll, PlacedAll, Entries, Misfits, AllReadAs, Both, Has, ReadSeqno, PktFlags, Together;
    var data := PacketText(seqno, ts, Together(texts));
    var p, q := PacketParts(data, seqno, ts, Together(texts));
    PktFlagsHave(seqno, |EncodeAll(ts)| > 0);
    ReadsOctet(data, |data|, 0, PktFlags(seqno, |EncodeAll(ts)| > 0));
    SeqnoRead(data, |data|, 1, seqno);
    if |EncodeAll(ts)| > 0 {
      TlvBlockRead(data, |data|, p, ts, 0);
    } else {
      NoTlvs(ts);
      NoEntries();
    }
    TogetherFrom(texts, 0);
    assert Together(texts[..0]) == [] by {
      NothingTogether(texts);
    }
    assert Together(texts) == From(texts, 0);
    MessagesRead(data, q, texts, ms, 0);
    assert ms[..0] == [];
  }

  lemma NoTlvs(ts: seq<Tlv>)
    ensures ts != [] ==> |EncodeAll(ts)| > 0
  {
    if ts != [] {
      EncodeFirst(ts[0], ts[1..]);
      assert [ts[0]] + ts[1..] == ts;
    }
  }

  lemma NoEntries()
    ensures PlacedAll([], Entries([], 0)) == []
  {
  }

  lemma NothingTogether(texts: seq<seq<Octet>>)
    ensures Together(texts[..0]) == []
  {
  }

  // ----- writing

  /** A TLV that a handler of packets writes. */
  datatype TlvItem = TlvItem(typ: Octet, ext: Octet, value: seq<Octet>)
  type Item = t: TlvItem | |t.value| < 0x1_0000 witness TlvItem(0, 0, [])

  /** A call that a handler makes when a packet begins: a TLV is added, or room is
      asked for (with a type extension or not, and a length). */
  datatype Call = Add(t: Item) | Allocate(hasExt: bool, length: nat)

  /** What the handlers do with one packet: its sequence number, their calls when
      it begins, and the TLVs they set when it ends. */
  datatype Plan = Plan(seqno: Option<Word>, calls: seq<Call>, sets: seq<Item>)

  /** rfc5444_writer_set_pkt_header */
  function HeaderRoom(withSeqno: bool): nat {
    if withSeqno then 5 else 3
  }

  /** The room that is kept is that of the header, with its number and the size of
      its TLVs; the size is left out where there are none. */
  lemma HeaderRoomExactly(seqno: Option<Word>, size: nat)
    ensures |PktHeader(seqno, size)| + (if size == 0 then 2 else 0) == HeaderRoom(seqno.Some?)
    ensures PktHeader(seqno, size)[0] == (if seqno.Some? then 8 else 0) + (if size > 0 then 4 else 0)
  {
    hide High, Low;
  }

  function ItemSize(t: Item): nat {
    TlvSize(t.ext != 0, |t.value|)
  }

  function ItemTlv(t: Item): Tlv {
    Plain(t.typ, t.ext, t.value)
  }

  function CallSize(c: Call): nat {
    match c
    case Add(t) => ItemSize(t)
    case Allocate(hasExt, length) => TlvSize(hasExt, length)
  }

  // ----- what the handlers get

  /** Some TLVs with their size, and the room that is reserved behind them. */
  datatype Share = Share(tlvs: seq<Tlv>, size: nat, reserved: nat)

  /** What the calls come to if `room` octets are left behind the header: each of
      them is refused if and only if it is too large for what the others left. */
  function Granted(calls: seq<Call>, room: nat): (g: Share)
    ensures g.size + g.reserved <= room
  {
    if calls == [] then Share([], 0, 0)
    else
      var g, c := Granted(calls[..|calls| - 1], room), calls[|calls| - 1];
      if g.size + g.reserved + CallSize(c) > room then g
      else match c
        case Add(t) => Share(g.tlvs + [ItemTlv(t)], g.size + ItemSize(t), g.reserved)
        case Allocate(_, _) => g.(reserved := g.reserved + CallSize(c))
  }

  /** The TLVs that can be set in the room that has been reserved. */
  function SetIn(items: seq<Item>, room: nat): (g: Share)
    ensures g.size <= room
  {
    if items == [] then Share([], 0, 0)
    else
      var g, t := SetIn(items[..|items| - 1], room), items[|items| - 1];
      if g.size + ItemSize(t) > room then g else Share(g.tlvs + [ItemTlv(t)], g.size + ItemSize(t), 0)
  }

  function RoomFor(plan: Plan, max: nat): nat {
    if HeaderRoom(plan.seqno.Some?) <= max then max - HeaderRoom(plan.seqno.Some?) else 0
  }

  /** The octets of a packet that are in use before its first message, and how
      many of them the test for room counts. */
  function Front(plan: Plan, max: nat): nat {
    Tested(plan, max) + Granted(plan.calls, RoomFor(plan, max)).reserved
  }

  function Tested(plan: Plan, max: nat): nat {
    HeaderRoom(plan.seqno.Some?) + Granted(plan.calls, RoomFor(plan, max)).size
  }

  /** The TLVs of a packet: those that were added, then those that were set. */
  function Written(plan: Plan, max: nat): seq<Tlv> {
    var g := Granted(plan.calls, RoomFor(plan, max));
    g.tlvs + SetIn(plan.sets, g.reserved).tlvs
  }

  lemma GrantedStep(calls: seq<Call>, i: nat, room: nat)
    requires i < |calls|
    ensures var g, c := Granted(calls[..i], room), calls[i];
      Granted(calls[..i + 1], room) ==
        if g.size + g.reserved + CallSize(c) > room then g
        else match c
          case Add(t) => Share(g.tlvs + [ItemTlv(t)], g.size + ItemSize(t), g.reserved)
          case Allocate(_, _) => g.(reserved := g.reserved + CallSize(c))
  {
    assert calls[..i + 1][..i] == calls[..i];
  }

  lemma SetInStep(items: seq<Item>, i: nat, room: nat)
    requires i < |items|
    ensures var g, t := SetIn(items[..i], room), items[i];
      SetIn(items[..i + 1], room) ==
        if g.size + ItemSize(t) > room then g else Share(g.tlvs + [ItemTlv(t)], g.size + ItemSize(t), 0)
  {
    assert items[..i + 1][..i] == items[..i];
  }

  function CallsSize(calls: seq<Call>): nat {
    if calls == [] then 0 else CallsSize(calls[..|calls| - 1]) + CallSize(calls[|calls| - 1])
  }

  function ItemsSize(items: seq<Item>): nat {
    if items == [] then 0 else ItemsSize(items[..|items| - 1]) + ItemSize(items[|items| - 1])
  }

  /** The TLVs of the calls that add one. */
  function Adds(calls: seq<Call>): seq<Tlv> {
    if calls == [] then []
    else Adds(calls[..|calls| - 1]) + match calls[|calls| - 1] case Add(t) => [ItemTlv(t)] case Allocate(_, _) => []
  }

  /** The room of the calls that ask for some. */
  function Rooms(calls: seq<Call>): nat {
    if calls == [] then 0
    else Rooms(calls[..|calls| - 1]) + if calls[|calls| - 1].Allocate? then CallSize(calls[|calls| - 1]) else 0
  }

  function ItemTlvs(items: seq<Item>): seq<Tlv> {
    if items == [] then [] else ItemTlvs(items[..|items| - 1]) + [ItemTlv(items[|items| - 1])]
  }

  lemma {:induction false} AllGranted(calls: seq<Call>, room: nat)
    requires CallsSize(calls) <= room
    ensures var g := Granted(calls, room);
      g.tlvs == Adds(calls) && g.reserved == Rooms(calls) && g.size + g.reserved == CallsSize(calls)
  {
    if calls != [] {
      AllGranted(calls[..|calls| - 1], room);
    }
  }

  lemma {:induction false} AllSet(items: seq<Item>, room: nat)
    requires ItemsSize(items) <= room
    ensures SetIn(items, room).tlvs == ItemTlvs(items) && SetIn(items, room).size == ItemsSize(items)
  {
    if items != [] {
      AllSet(items[..|items| - 1], room);
    }
  }

  /** Where everything fits, a packet has every TLV that a handler wanted in it. */
  lemma AllWritten(plan: Plan, max: nat)
    requires HeaderRoom(plan.seqno.Some?) + CallsSize(plan.calls) <= max && ItemsSize(plan.sets) <= Rooms(plan.calls)
    ensures Written(plan, max) == Adds(plan.calls) + ItemTlvs(plan.sets)
  {
    AllGranted(plan.calls, RoomFor(plan, max));
    AllSet(plan.sets, Rooms(plan.calls));
  }

  lemma {:induction false} NothingReserved(calls: seq<Call>, room: nat)
    ensures Granted(calls, room).reserved <= Rooms(calls)
  {
    if calls != [] {
      NothingReserved(calls[..|calls| - 1], room);
    }
  }

  /** Their TLVs can be written, and take the octets that are counted. */
  lemma {:induction false} GrantedFit(calls: seq<Call>, room: nat)
    ensures AllFit(Granted(calls, room).tlvs, 0) && |EncodeAll(Granted(calls, room).tlvs)| == Granted(calls, room).size
  {
    if calls == [] {
      NothingFits();
    } else {
      GrantedFit(calls[..|calls| - 1], room);
      var c := calls[|calls| - 1];
      if c.Add? {
        ItemFits(Granted(calls[..|calls| - 1], room).tlvs, c.t);
      }
    }
  }

  lemma {:induction false} SetFit(items: seq<Item>, room: nat)
    ensures AllFit(SetIn(items, room).tlvs, 0) && |EncodeAll(SetIn(items, room).tlvs)| == SetIn(items, room).size
  {
    if items == [] {
      NothingFits();
    } else {
      SetFit(items[..|items| - 1], room);
      ItemFits(SetIn(items[..|items| - 1], room).tlvs, items[|items| - 1]);
    }
  }

  lemma NothingFits()
    ensures AllFit([], 0) && EncodeAll([]) == []
  {
  }

  lemma ItemFits(ts: seq<Tlv>, t: Item)
    requires AllFit(ts, 0)
    ensures AllFit(ts + [ItemTlv(t)], 0) && |EncodeAll(ts + [ItemTlv(t)])| == |EncodeAll(ts)| + ItemSize(t)
  {
    hide EncodeAll, Encode, Misfits;
    SizeRight(t.typ, t.ext, t.value);
    FitMore(ts, ItemTlv(t));
    EncodeMore(ts, ItemTlv(t));
  }

  lemma WrittenFit(plan: Plan, max: nat)
    requires HeaderRoom(plan.seqno.Some?) <= max
    ensures AllFit(Written(plan, max), 0) && |EncodeAll(Written(plan, max))| <= max
  {
    hide EncodeAll, Misfits, Granted, SetIn;
    var g := Granted(plan.calls, RoomFor(plan, max));
    GrantedFit(plan.calls, RoomFor(plan, max));
    SetFit(plan.sets, g.reserved);
    EncodeAppend(g.tlvs, SetIn(plan.sets, g.reserved).tlvs);
    FitAppend(g.tlvs, SetIn(plan.sets, g.reserved).tlvs, 0);
  }

  // ----- which message goes into which packet

  /** The messages of the packets that are full, and those that wait in the next one. */
  datatype Deal = Deal(full: seq<seq<seq<Octet>>>, waiting: seq<seq<Octet>>)

  type Plans = nat -> Plan

  /** There is room for `length` octets behind `used` octets of messages, and the
      test for room finds some. */
  predicate HasRoom(plan: Plan, max: nat, used: nat, length: nat) {
    Front(plan, max) + used + length <= max
  }

  predicate Passes(plan: Plan, max: nat, used: nat, length: nat) {
    Tested(plan, max) + used + length <= max
  }

  /** How messages are dealt out to packets, of which the first is number `turn`;
      None if one of them is let into a packet it does not fit into. */
  function Dealt(plans: Plans, max: nat, turn: nat, messages: seq<seq<Octet>>): Option<Deal> {
    if messages == [] then Some(Deal([], []))
    else
      match Dealt(plans, max, turn, messages[..|messages| - 1])
      case None => None
      case Some(d) => DealOne(plans, max, turn, d, messages[|messages| - 1])
  }

  function DealOne(plans: Plans, max: nat, turn: nat, d: Deal, message: seq<Octet>): Option<Deal> {
    var k, used := turn + |d.full|, |Together(d.waiting)|;
    if Passes(plans(k), max, used, |message|) then
      if HasRoom(plans(k), max, used, |message|) then Some(d.(waiting := d.waiting + [message])) else None
    else
      if HasRoom(plans(k + 1), max, 0, |message|) then Some(Deal(d.full + [d.waiting], [message])) else None
  }

  lemma DealtStep(plans: Plans, max: nat, turn: nat, messages: seq<seq<Octet>>, i: nat)
    requires i < |messages|
    ensures Dealt(plans, max, turn, messages[..i + 1]) ==
      match Dealt(plans, max, turn, messages[..i])
      case None => None
      case Some(d) => DealOne(plans, max, turn, d, messages[i])
  {
    assert messages[..i + 1][..i] == messages[..i];
  }

  /** Once a message has been let in wrongly, that stands. */
  lemma {:induction false} DealtNone(plans: Plans, max: nat, turn: nat, messages: seq<seq<Octet>>, i: nat)
    requires i <= |messages| && Dealt(plans, max, turn, messages[..i]) == None
    ensures Dealt(plans, max, turn, messages) == None
    decreases |messages| - i
  {
    hide Dealt;
    if i < |messages| {
      DealtStep(plans, max, turn, messages, i);
      DealtNone(plans, max, turn, messages, i + 1);
    } else {
      assert messages[..i] == messages;
    }
  }

  /** All batches one behind the other. */
  function Joined(batches: seq<seq<seq<Octet>>>): seq<seq<Octet>> {
    if batches == [] then [] else Joined(batches[..|batches| - 1]) + batches[|batches| - 1]
  }

  lemma JoinedMore(batches: seq<seq<seq<Octet>>>, batch: seq<seq<Octet>>)
    ensures Joined(batches + [batch]) == Joined(batches) + batch
  {
    assert (batches + [batch])[..|batches|] == batches;
  }

  /** No message is lost, and none changes its place. */
  lemma {:induction false} DealtAll(plans: Plans, max: nat, turn: nat, messages: seq<seq<Octet>>)
    requires Dealt(plans, max, turn, messages).Some?
    ensures var d := Dealt(plans, max, turn, messages).value; Joined(d.full + [d.waiting]) == messages
  {
    var d := Dealt(plans, max, turn, messages).value;
    JoinedMore(d.full, d.waiting);
    if messages != [] {
      var front, m := messages[..|messages| - 1], messages[|messages| - 1];
      DealtAll(plans, max, turn, front);
      var before := Dealt(plans, max, turn, front).value;
      JoinedMore(before.full, before.waiting);
      assert messages == front + [m];
    }
  }

  // ----- which runs are safe

  ghost predicate Between(messages: seq<seq<Octet>>, least: nat, most: int) {
    forall i :: 0 <= i < |messages| ==> least <= |messages[i]| <= most
  }

  /** If no handler asks for room, every message that fits behind the TLVs of any
      packet is delivered. */
  lemma {:induction false} SafeUnreserved(plans: Plans, max: nat, turn: nat, messages: seq<seq<Octet>>)
    requires forall k :: Rooms(plans(k).calls) == 0
    requires forall i, k :: 0 <= i < |messages| ==> HasRoom(plans(k), max, 0, |messages[i]|)
    ensures Dealt(plans, max, turn, messages).Some?
  {
    hide Granted, Together, CallSize;
    if messages != [] {
      var front := messages[..|messages| - 1];
      SafeUnreserved(plans, max, turn, front);
      var k := turn + |Dealt(plans, max, turn, front).value.full|;
      NothingReserved(plans(k).calls, RoomFor(plans(k), max));
    }
  }

  /** One plan for all packets: room for messages, and what the test is wrong by. */
  function Space(plan: Plan, max: nat): int {
    max - Front(plan, max)
  }

  function Gap(plan: Plan, max: nat): nat {
    Granted(plan.calls, RoomFor(plan, max)).reserved
  }

  function Always(plan: Plan): Plans {
    _ => plan
  }

  ghost predicate AlwaysDelivered(plan: Plan, max: nat, least: nat) {
    forall messages {:trigger Between(messages, least, Space(plan, max))} ::
      Between(messages, least, Space(plan, max)) ==> Dealt(Always(plan), max, 0, messages).Some?
  }

  lemma {:induction false} SafeRun(plan: Plan, max: nat, least: nat, messages: seq<seq<Octet>>)
    requires Gap(plan, max) == 0 || Space(plan, max) < least || Space(plan, max) + Gap(plan, max) < 2 * least
    requires Between(messages, least, Space(plan, max))
    ensures Dealt(Always(plan), max, 0, messages).Some?
    ensures var d := Dealt(Always(plan), max, 0, messages).value; d.waiting == [] || |Together(d.waiting)| >= least
  {
    if messages != [] {
      var front, m := messages[..|messages| - 1], messages[|messages| - 1];
      assert Between(front, least, Space(plan, max));
      SafeRun(plan, max, least, front);
      var d := Dealt(Always(plan), max, 0, front).value;
      TogetherMore(d.waiting, m);
      TogetherMore([], m);
      hide Granted, Dealt;
      assert Front(plan, max) == Tested(plan, max) + Gap(plan, max);
    }
  }

  lemma DealtFirst(plans: Plans, max: nat, a: seq<Octet>)
    requires Passes(plans(0), max, 0, |a|) && HasRoom(plans(0), max, 0, |a|)
    ensures Dealt(plans, max, 0, [a]) == Some(Deal([], [a])) && |Together([a])| == |a|
  {
    hide Passes, HasRoom, Together;
    NoMessages();
    TogetherMore([], a);
    assert Dealt(plans, max, 0, []) == Some(Deal([], []));
    assert [a][..0] == [] && [] + [a] == [a];
  }

  lemma DealtSecond(plans: Plans, max: nat, a: seq<Octet>, b: seq<Octet>)
    requires Dealt(plans, max, 0, [a]) == Some(Deal([], [a])) && |Together([a])| == |a|
    requires Passes(plans(0), max, |a|, |b|) && !HasRoom(plans(0), max, |a|, |b|)
    ensures Dealt(plans, max, 0, [a, b]) == None
  {
    hide Passes, HasRoom, Together, Dealt;
    assert [a, b][..1] == [a] && [a, b][..2] == [a, b];
    DealtStep(plans, max, 0, [a, b], 1);
  }

  /** Two messages of which the second one is let in wrongly. */
  lemma UnsafeRun(plan: Plan, max: nat, least: nat) returns (messages: seq<seq<Octet>>)
    requires Gap(plan, max) > 0 && 0 < least <= Space(plan, max) && 2 * least <= Space(plan, max) + Gap(plan, max)
    ensures Between(messages, least, Space(plan, max)) && Dealt(Always(plan), max, 0, messages) == None
  {
    hide Dealt, Granted, Together;
    var space := Space(plan, max);
    var both := if space + 1 < 2 * least then 2 * least else space + 1;
    var a: seq<Octet>, b: seq<Octet> := seq(both - least, _ => 0), seq(least, _ => 0);
    assert Front(plan, max) == Tested(plan, max) + Gap(plan, max);
    DealtFirst(Always(plan), max, a);
    DealtSecond(Always(plan), max, a, b);
    messages := [a, b];
  }

  /** With one plan for all packets, and messages of `least` octets or more: all
      of those that fit behind the TLVs are always delivered if and only if no
      room is reserved, or two messages never come near the end of a packet. */
  lemma AlwaysDeliveredExactly(plan: Plan, max: nat, least: nat)
    requires least > 0
    ensures AlwaysDelivered(plan, max, least)
       <==> Gap(plan, max) == 0 || Space(plan, max) < least || Space(plan, max) + Gap(plan, max) < 2 * least
  {
    hide Dealt, Between, Gap, Space;
    if Gap(plan, max) == 0 || Space(plan, max) < least || Space(plan, max) + Gap(plan, max) < 2 * least {
      forall messages | Between(messages, least, Space(plan, max)) ensures Dealt(Always(plan), max, 0, messages).Some? {
        SafeRun(plan, max, least, messages);
      }
    } else {
      var messages := UnsafeRun(plan, max, least);
    }
  }

  lemma TogetherMore(texts: seq<seq<Octet>>, text: seq<Octet>)
    ensures Together(texts + [text]) == Together(texts) + text
  {
    assert (texts + [text])[..|texts|] == texts;
  }

  method WriteNumber(pen: Pen, n: nat)
    requires pen.ptr + 2 <= pen.buffer.Length
    modifies pen, pen.buffer
    ensures pen.ptr == old(pen.ptr) + 2 && pen.Ink() == old(pen.Ink()) + Both(n)
    ensures forall k :: pen.ptr <= k < pen.buffer.Length ==> pen.buffer[k] == old(pen.buffer[k])
  {
    pen.Put(High(n));
    pen.Put(Low(n));
  }

  /** The header as _write_pktheader writes it. */
  method WritePktHeader(buffer: array<Octet>, seqno: Option<Word>, size: nat) returns (len: nat)
    requires HeaderRoom(seqno.Some?) <= buffer.Length
    modifies buffer
    ensures len == |PktHeader(seqno, size)| <= HeaderRoom(seqno.Some?) && buffer[..len] == PktHeader(seqno, size)
    ensures buffer[len..] == old(buffer[len..])
  {
    hide PktFlags, Both;
    var pen := new Pen(buffer, 0);
    pen.Put(PktFlags(seqno, size > 0));
    assert pen.Ink() == [PktFlags(seqno, size > 0)];
    if seqno.Some? {
      WriteNumber(pen, seqno.value);
    }
    assert pen.Ink() == [PktFlags(seqno, size > 0)] + SeqnoOctets(seqno);
    if size > 0 {
      WriteNumber(pen, size);
    }
    len := pen.ptr;
  }

  /** memmove */
  method Move(buffer: array<Octet>, dst: nat, src: nat, n: nat)
    requires src + n <= buffer.Length && dst + n <= buffer.Length
    modifies buffer
    ensures buffer[..][dst..dst + n] == old(buffer[..])[src..src + n] && buffer[..][..dst] == old(buffer[..])[..dst]
    ensures buffer[..][dst + n..] == old(buffer[..])[dst + n..]
  {
    forall k | 0 <= k < n {
      buffer[dst + k] := buffer[src + k];
    }
  }

  /** The messages, once there is another one behind them. */
  lemma MessageAppended(data: seq<Octet>, other: seq<Octet>, start: nat, texts: seq<seq<Octet>>, text: seq<Octet>, at: nat)
    requires Holds(data, start, Together(texts)) && at == start + |Together(texts)| && at + |text| <= |other|
    requires other[..at + |text|] == data[..at] + text
    ensures Holds(other, start, Together(texts + [text]))
  {
    TogetherMore(texts, text);
    assert other[..at] == other[..at + |text|][..at] == data[..at];
    HeldPrefix(data, other, start, Together(texts), at);
    assert other[at..at + |text|] == other[..at + |text|][at..] == text;
    HoldsParts(other, start, Together(texts), text);
  }

  /** The parts of a packet, once they stand one behind the other. */
  lemma PacketTogether(data: seq<Octet>, seqno: Option<Word>, ts: seq<Tlv>, body: seq<Octet>, len: nat, n: nat)
    requires n == |EncodeAll(ts)| && len == |PktHeader(seqno, n)| && len + n + |body| <= |data|
    requires data[..len] == PktHeader(seqno, n) && Holds(data, len, EncodeAll(ts)) && Holds(data, len + n, body)
    ensures data[..len + n + |body|] == PacketText(seqno, ts, body)
  {
    hide PktHeader, EncodeAll;
    assert data[..len + n] == data[..len] + data[len..len + n];
    assert data[..len + n + |body|] == data[..len + n] + data[len + n..len + n + |body|];
  }

  /** A header that names a TLV block takes all the room there is for it. */
  lemma HeaderFull(seqno: Option<Word>, n: nat, ts: seq<Tlv>, header: nat, len: nat)
    requires header == HeaderRoom(seqno.Some?) && len == |PktHeader(seqno, n)| && n == |EncodeAll(ts)|
    ensures len <= header && (n > 0 ==> len == header)
  {
  }

  /** Once the header is written, TLVs and messages are still there. */
  lemma PartsStay(before: seq<Octet>, after: seq<Octet>, header: nat, tlvs: seq<Octet>, start: nat, body: seq<Octet>)
    requires |before| == |after| && header <= start && header <= |before| && after[header..] == before[header..]
    requires Holds(before, header, tlvs) && Holds(before, start, body)
    ensures Holds(after, header, tlvs) && Holds(after, start, body)
  {
    HeldTail(before, after, header, tlvs);
    TailFurther(after, before, header, start);
    HeldTail(before, after, start, body);
  }

  /** Writes the header in front of the TLVs `ts`, and moves the messages behind them. */
  method CloseUp(buffer: array<Octet>, seqno: Option<Word>, header: nat, n: nat, start: nat, size: nat, ghost ts: seq<Tlv>, ghost body: seq<Octet>)
    returns (packet: seq<Octet>)
    requires header == HeaderRoom(seqno.Some?) && header + n <= start && start + size <= buffer.Length
    requires n == |EncodeAll(ts)| && Holds(buffer[..], header, EncodeAll(ts)) && Holds(buffer[..], start, body) && size == |body|
    modifies buffer
    ensures packet == PacketText(seqno, ts, body)
  {
    hide HeaderRoom, PktHeader, EncodeAll, PacketText, Overwrite;
    ghost var before := buffer[..];
    var len := WritePktHeader(buffer, seqno, n);
    ghost var middle := buffer[..];
    HeaderFull(seqno, n, ts, header, len);
    TailFurther(middle, before, len, header);
    PartsStay(before, middle, header, EncodeAll(ts), start, body);
    Move(buffer, len + n, start, size);
    ghost var after := buffer[..];
    Closed(middle, after, seqno, n, ts, header, len, body);
    packet := buffer[..][..len + n + size];
  }

  lemma Closed(middle: seq<Octet>, after: seq<Octet>, seqno: Option<Word>, n: nat, ts: seq<Tlv>, header: nat, len: nat, body: seq<Octet>)
    requires n == |EncodeAll(ts)| && len == |PktHeader(seqno, n)| <= header && (n > 0 ==> len == header)
    requires len + n + |body| <= |after| == |middle| && after[..len + n] == middle[..len + n]
    requires middle[..len] == PktHeader(seqno, n) && Holds(middle, header, EncodeAll(ts))
    requires after[len + n..len + n + |body|] == body
    ensures after[..len + n + |body|] == PacketText(seqno, ts, body)
  {
    hide PktHeader, EncodeAll;
    assert after[..len] == after[..len + n][..len] == middle[..len];
    assert Holds(middle, len, EncodeAll(ts));
    HeldPrefix(middle, after, len, EncodeAll(ts), len + n);
    PacketTogether(after, seqno, ts, body, len, n);
  }

  /** Packet `k` of a run, with the messages of a batch. */
  ghost predicate Sent(plans: Plans, max: nat, k: nat, packet: seq<Octet>, batch: seq<seq<Octet>>) {
    packet == PacketText(plans(k).seqno, Written(plans(k), max), Together(batch))
  }

  ghost predicate AllSent(plans: Plans, max: nat, turn: nat, packets: seq<seq<Octet>>, batches: seq<seq<seq<Octet>>>) {
    |packets| == |batches| && forall i :: 0 <= i < |packets| ==> Sent(plans, max, turn + i, packets[i], batches[i])
  }

  lemma SentMore(plans: Plans, max: nat, turn: nat, packets: seq<seq<Octet>>, batches: seq<seq<seq<Octet>>>,
      packet: seq<Octet>, batch: seq<seq<Octet>>)
    requires AllSent(plans, max, turn, packets, batches) && Sent(plans, max, turn + |packets|, packet, batch)
    ensures AllSent(plans, max, turn, packets + [packet], batches + [batch])
  {
    hide Sent;
  }

  /** One target that packets are sent to. */
  class Target {
    const pkt: TlvData
    const plans: Plans
    var turn: nat
    var size: nat
    var flushed: bool
    ghost var pending: seq<seq<Octet>>

    /** What the handlers do with the packet that is filled now, or next. */
    function Now(): Plan
      reads this`turn
    {
      plans(turn)
    }

    /** Where the messages start in the buffer. */
    function Start(): nat
      reads pkt
    {
      pkt.header + pkt.added + pkt.reserved
    }

    /** The buffer has the TLVs that were granted. */
    ghost predicate Opened(g: Share)
      reads this`turn, pkt
    {
      && pkt.filled == 0 && pkt.late == [] && pkt.header == HeaderRoom(Now().seqno.Some?)
      && pkt.tlvs == g.tlvs && pkt.added == g.size && pkt.reserved == g.reserved
    }

    /** A packet has been begun. */
    ghost predicate Filling()
      reads this, pkt, pkt.buffer
    {
      && pkt.Valid() && Opened(Granted(Now().calls, RoomFor(Now(), pkt.max)))
      && Start() + |Together(pending)| <= pkt.max && Holds(pkt.buffer[..], Start(), Together(pending))
    }

    ghost predicate Valid()
      reads this, pkt, pkt.buffer
    {
      && 5 <= pkt.max <= pkt.buffer.Length && size == |Together(pending)|
      && if flushed then pending == [] else Filling()
    }

    constructor (buffer: array<Octet>, plans: Plans)
      requires 5 <= buffer.Length
      ensures Valid() && flushed && this.plans == plans && turn == 0
      ensures pkt.buffer == buffer && pkt.max == buffer.Length && fresh(pkt)
    {
      pkt := new TlvData(buffer, buffer.Length);
      this.plans := plans;
      turn, size, flushed, pending := 0, 0, true, [];
    }

    /** _rfc5444_writer_begin_packet: the packet has exactly the TLVs and the room
        that were granted. */
    method Begin()
      requires Valid() && flushed
      modifies this`flushed, pkt, pkt.buffer
      ensures Valid() && !flushed && pkt.max == old(pkt.max)
      ensures Start() == Front(Now(), pkt.max) && pkt.header + pkt.added == Tested(Now(), pkt.max)
    {
      hide Granted;
      pkt.Init(pkt.max, HeaderRoom(Now().seqno.Some?));
      CallAll();
      flushed := false;
    }

    /** The calls of the handlers. */
    method CallAll()
      requires pkt.Valid() && Opened(Share([], 0, 0))
      modifies pkt, pkt.buffer
      ensures pkt.Valid() && Opened(Granted(Now().calls, RoomFor(Now(), pkt.max))) && pkt.max == old(pkt.max)
    {
      hide Granted, Stray;
      ghost var room := RoomFor(Now(), pkt.max);
      NoneGranted(Now().calls, room);
      for i := 0 to |Now().calls|
        invariant pkt.Valid() && pkt.max == old(pkt.max) && Opened(Granted(Now().calls[..i], room))
      {
        GrantedStep(Now().calls, i, room);
        match Now().calls[i]
        case Add(t) =>
          var code := pkt.Add(t.typ, t.ext, t.value);
        case Allocate(hasExt, length) =>
          var code := pkt.Allocate(hasExt, length);
      }
      assert Now().calls[..|Now().calls|] == Now().calls;
    }

    /** A message behind those that are waiting. */
    method Append(message: seq<Octet>)
      requires Valid() && !flushed && Start() + size + |message| <= pkt.max
      modifies this`size, this`pending, pkt.buffer
      ensures Valid() && pending == old(pending) + [message]
    {
      hide Stray, Together, HeaderRoom, Granted;
      ghost var before := pkt.buffer[..];
      var at := Start() + size;
      var pen := new Pen(pkt.buffer, at);
      assert pen.Ink() == before[..at];
      pen.Copy(message);
      ghost var after := pkt.buffer[..];
      assert after[..at] == after[..at + |message|][..at] == before[..at];
      StrayPrefix(before, after, pkt.header, pkt.added, 0, pkt.tlvs, [], at);
      MessageAppended(before, after, Start(), pending, message, at);
      TogetherMore(pending, message);
      size := size + |message|;
      pending := pending + [message];
    }

    /** The TLVs that the handlers set when a packet ends. */
    method SetAll()
      requires Valid() && !flushed
      modifies pkt, pkt.buffer
      ensures pkt.Valid() && pkt.tlvs == old(pkt.tlvs) && pkt.max == old(pkt.max)
      ensures pkt.header == old(pkt.header) && pkt.added == old(pkt.added) && pkt.reserved == old(pkt.reserved)
      ensures pkt.late == SetIn(Now().sets, pkt.reserved).tlvs
      ensures Holds(pkt.buffer[..], Start(), Together(pending))
    {
      hide Stray, Together, Granted, SetIn;
      NoneSet(Now().sets, pkt.reserved);
      for i := 0 to |Now().sets|
        invariant pkt.Valid() && pkt.tlvs == old(pkt.tlvs) && pkt.max == old(pkt.max)
        invariant pkt.header == old(pkt.header) && pkt.added == old(pkt.added) && pkt.reserved == old(pkt.reserved)
        invariant pkt.late == SetIn(Now().sets[..i], pkt.reserved).tlvs && pkt.filled == SetIn(Now().sets[..i], pkt.reserved).size
        invariant Holds(pkt.buffer[..], Start(), Together(pending))
      {
        SetInStep(Now().sets, i, pkt.reserved);
        ghost var before := pkt.buffer[..];
        var t := Now().sets[i];
        var code := pkt.Set(t.typ, t.ext, t.value);
        assert pkt.buffer[..][Start()..] == pkt.buffer[Start()..] == before[Start()..];
        HeldTail(before, pkt.buffer[..], Start(), Together(pending));
      }
      assert Now().sets[..|Now().sets|] == Now().sets;
    }

    /** Header, TLVs and messages are moved together. */
    method Close(ghost body: seq<Octet>) returns (packet: seq<Octet>)
      requires pkt.Valid() && pkt.header == HeaderRoom(Now().seqno.Some?) && Holds(pkt.buffer[..], Start(), body) && size == |body|
      modifies pkt.buffer
      ensures packet == PacketText(Now().seqno, pkt.tlvs + pkt.late, body)
    {
      ghost var before, ts := pkt.buffer[..], pkt.tlvs + pkt.late;
      TlvsTogether(before, before, pkt.header, pkt.added, pkt.filled, pkt.tlvs, pkt.late);
      packet := CloseUp(pkt.buffer, Now().seqno, pkt.header, pkt.added + pkt.filled, Start(), size, ts, body);
    }

    /** rfc5444_writer_flush for a packet that has been begun: it has the TLVs
        that were added and set, and the messages that were waiting. */
    method Send() returns (packet: seq<Octet>)
      requires Valid() && !flushed
      modifies this, pkt, pkt.buffer
      ensures Valid() && flushed && pkt.max == old(pkt.max) && turn == old(turn) + 1
      ensures Sent(plans, pkt.max, old(turn), packet, old(pending))
    {
      hide Granted, SetIn, Together, PacketText;
      SetAll();
      packet := Close(Together(pending));
      assert pkt.tlvs + pkt.late == Written(Now(), pkt.max);
      pkt.filled, size, flushed, turn := 0, 0, true, turn + 1;
      pending := [];
      NoMessages();
    }

    /** rfc5444_writer_flush: a packet that has not been begun is sent only if that
        is asked for, and then without messages. */
    method Flush(force: bool) returns (packet: seq<Octet>, sent: bool)
      requires Valid()
      modifies this, pkt, pkt.buffer
      ensures Valid() && flushed && pkt.max == old(pkt.max) && turn == old(turn) + if sent then 1 else 0
      ensures sent <==> force || !old(flushed)
      ensures sent ==> Sent(plans, pkt.max, old(turn), packet, old(pending))
    {
      hide Sent, Granted, Together, Filling;
      if flushed {
        if !force {
          return [], false;
        }
        Begin();
      }
      packet := Send();
      sent := true;
    }

    /** The end of _finalize_message_fragment: a packet that is full is sent
        first. Where the test for room is wrong, the source writes on behind
        the limit; here the run stops. */
    method AddMessage(message: seq<Octet>) returns (packet: seq<Octet>, full: bool, overrun: bool)
      requires Valid()
      modifies this, pkt, pkt.buffer
      ensures Valid() && pkt.max == old(pkt.max) && turn == old(turn) + if full then 1 else 0
      ensures full <==> !Passes(plans(old(turn)), pkt.max, |Together(old(pending))|, |message|)
      ensures overrun <==> !HasRoom(plans(turn), pkt.max, if full then 0 else |Together(old(pending))|, |message|)
      ensures full ==> Sent(plans, pkt.max, old(turn), packet, old(pending))
      ensures !overrun ==> !flushed && pending == (if full then [message] else old(pending) + [message])
    {
      hide Sent, Granted, Together;
      NoMessages();
      packet, full, overrun := [], false, false;
      if flushed {
        Begin();
      }
      if pkt.header + pkt.added + pkt.filled + size + |message| > pkt.max {
        packet := Send();
        full := true;
        Begin();
      }
      if Start() + size + |message| > pkt.max {
        overrun := true;
        return;
      }
      Append(message);
    }

    /** Sends the messages, and what is left at the end: every packet has the TLVs
        its handlers asked for and the messages dealt to it, and the run breaks
        off if and only if the lengths do not go together. */
    method SendAll(messages: seq<seq<Octet>>) returns (packets: seq<seq<Octet>>, overrun: bool, ghost batches: seq<seq<seq<Octet>>>)
      requires Valid() && flushed
      modifies this, pkt, pkt.buffer
      ensures Valid() && pkt.max == old(pkt.max)
      ensures AllSent(plans, pkt.max, old(turn), packets, batches)
      ensures overrun <==> Dealt(plans, pkt.max, old(turn), messages) == None
      ensures !overrun ==> flushed && Joined(batches) == messages
      ensures !overrun && messages != [] ==>
        var d := Dealt(plans, pkt.max, old(turn), messages).value; batches == d.full + [d.waiting]
    {
      hide Sent, AllSent, Dealt, Joined, Together, Filling, Passes, HasRoom, Granted;
      ghost var first := turn;
      NoneSent(plans, pkt.max, first, messages);
      packets, overrun, batches := [], false, [];
      for i := 0 to |messages|
        invariant Valid() && pkt.max == old(pkt.max) && turn == first + |batches| && (flushed ==> i == 0)
        invariant AllSent(plans, pkt.max, first, packets, batches) && |packets| == |batches|
        invariant Dealt(plans, pkt.max, first, messages[..i]) == Some(Deal(batches, pending))
      {
        DealtStep(plans, pkt.max, first, messages, i);
        ghost var waiting := pending;
        var packet, full;
        packet, full, overrun := AddMessage(messages[i]);
        if full {
          SentMore(plans, pkt.max, first, packets, batches, packet, waiting);
          packets, batches := packets + [packet], batches + [waiting];
        }
        if overrun {
          DealtNone(plans, pkt.max, first, messages, i + 1);
          return;
        }
      }
      assert messages[..|messages|] == messages;
      DealtAll(plans, pkt.max, first, messages);
      ghost var waiting := pending;
      var packet, sent := Flush(false);
      if sent {
        SentMore(plans, pkt.max, first, packets, batches, packet, waiting);
        packets, batches := packets + [packet], batches + [waiting];
      } else {
        JoinedMore([], []);
      }
    }
  }

  lemma NoneGranted(calls: seq<Call>, room: nat)
    ensures Granted(calls[..0], room) == Share([], 0, 0)
  {
  }

  lemma NoneSet(items: seq<Item>, room: nat)
    ensures SetIn(items[..0], room) == Share([], 0, 0)
  {
  }

  lemma NoMessages()
    ensures Together([]) == []
  {
  }

  lemma NoneSent(plans: Plans, max: nat, turn: nat, messages: seq<seq<Octet>>)
    ensures AllSent(plans, max, turn, [], []) && Dealt(plans, max, turn, messages[..0]) == Some(Deal([], []))
    ensures Joined([]) == []
  {
  }

  // ----- a whole run

  /** All messages that come out of the packets. */
  function Delivered(packets: seq<seq<Octet>>): seq<Message> {
    if packets == [] then []
    else
      var r := ReadPacket(packets[|packets| - 1]).0;
      Delivered(packets[..|packets| - 1]) + if r.Some? then r.value.messages else []
  }

  lemma DeliveredMore(packets: seq<seq<Octet>>, packet: seq<Octet>, ms: seq<Message>)
    requires ReadPacket(packet).0.Some? && ReadPacket(packet).0.value.messages == ms
    ensures Delivered(packets + [packet]) == Delivered(packets) + ms
  {
    hide ReadPacket;
    assert (packets + [packet])[..|packets|] == packets;
  }

  lemma ReadAsParts(a: seq<seq<Octet>>, b: seq<seq<Octet>>, ms: seq<Message>)
    requires AllReadAs(a + b, ms)
    ensures |a| <= |ms| && AllReadAs(a, ms[..|a|]) && AllReadAs(b, ms[|a|..]) && ms == ms[..|a|] + ms[|a|..]
  {
    forall i | 0 <= i < |a| ensures ReadsAs(a[i], ms[..|a|][i]) {
      assert ReadsAs((a + b)[i], ms[i]);
    }
    forall i | 0 <= i < |b| ensures ReadsAs(b[i], ms[|a|..][i]) {
      assert ReadsAs((a + b)[|a| + i], ms[|a| + i]);
    }
  }

  /** What the reader finds in a packet of a run. */
  lemma SentRead(plans: Plans, max: nat, k: nat, packet: seq<Octet>, batch: seq<seq<Octet>>, ms: seq<Message>)
    requires Sent(plans, max, k, packet, batch) && 5 <= max < 0x1_0000 && AllReadAs(batch, ms)
    ensures ReadPacket(packet) == (Some(Packet(plans(k).seqno, PlacedAll([], Entries(Written(plans(k), max), 0)), ms)), OKAY)
  {
    hide ReadPacket, PacketText, EncodeAll, AllReadAs, Together, PlacedAll, Entries, Written, Misfits;
    WrittenFit(plans(k), max);
    PacketRead(plans(k).seqno, Written(plans(k), max), batch, ms);
  }

  lemma SentParts(plans: Plans, max: nat, turn: nat, packets: seq<seq<Octet>>, batches: seq<seq<seq<Octet>>>)
    requires AllSent(plans, max, turn, packets, batches) && packets != []
    ensures var n := |packets| - 1;
      |batches| == n + 1 && AllSent(plans, max, turn, packets[..n], batches[..n]) && Sent(plans, max, turn + n, packets[n], batches[n])
  {
    hide Sent;
  }

  lemma JoinedLast(batches: seq<seq<seq<Octet>>>)
    requires batches != []
    ensures Joined(batches) == Joined(batches[..|batches| - 1]) + batches[|batches| - 1]
  {
  }

  lemma NoneDelivered()
    ensures Joined([]) == [] && Delivered([]) == []
  {
  }

  lemma NothingRead(ms: seq<Message>)
    requires AllReadAs([], ms)
    ensures ms == []
  {
  }

  /** Whatever messages are sent: reading the packets gives all of them back, in
      their order. */
  lemma {:induction false} AllDelivered(plans: Plans, max: nat, turn: nat, packets: seq<seq<Octet>>, batches: seq<seq<seq<Octet>>>, ms: seq<Message>)
    requires |packets| == |batches| && AllSent(plans, max, turn, packets, batches)
    requires 5 <= max < 0x1_0000 && AllReadAs(Joined(batches), ms)
    ensures Delivered(packets) == ms
    decreases |packets|
  {
    hide *;
    if packets == [] {
      NoneDelivered();
      assert batches == [];
      NothingRead(ms);
    } else {
      SentParts(plans, max, turn, packets, batches);
      JoinedLast(batches);
      var n := |packets| - 1;
      var front := batches[..n];
      var k := |Joined(front)|;
      ReadAsParts(Joined(front), batches[n], ms);
      AllDelivered(plans, max, turn, packets[..n], front, ms[..k]);
      SentRead(plans, max, turn + n, packets[n], batches[n], ms[k..]);
      DeliveredMore(packets[..n], packets[n], ms[k..]);
      assert packets == packets[..n] + [packets[n]];
    }
  }

  /** Each packet is read with its own number, with exactly the TLVs that its
      handlers added and set, sorted by type, and with the messages dealt to it. */
  lemma EachRead(plans: Plans, max: nat, turn: nat, packets: seq<seq<Octet>>, batches: seq<seq<seq<Octet>>>, i: nat, ms: seq<Message>)
    requires AllSent(plans, max, turn, packets, batches) && 5 <= max < 0x1_0000 && i < |packets| && AllReadAs(batches[i], ms)
    ensures ReadPacket(packets[i])
         == (Some(Packet(plans(turn + i).seqno, PlacedAll([], Entries(Written(plans(turn + i), max), 0)), ms)), OKAY)
  {
    hide ReadPacket, AllReadAs, Written, PlacedAll, Entries, Sent;
    assert Sent(plans, max, turn + i, packets[i], batches[i]);
    SentRead(plans, max, turn + i, packets[i], batches[i], ms);
  }
}
