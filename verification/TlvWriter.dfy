/** The buffer for the TLVs of a packet or message
    (src-api/rfc5444/rfc5444_tlv_writer.c): a header, TLVs that were added, and
    room that was reserved (allocated) for TLVs that are set at the end. */
module TlvWriter {
  import opened Octets
  import opened Tlvs

  /** A TLV of a packet or message. */
  function Plain(typ: Octet, ext: Octet, value: seq<Octet>): Tlv {
    Tlv(typ, ext, All, false, value)
  }

  /** _calc_tlv_size */
  function TlvSize(hasExt: bool, length: nat): (s: nat)
    ensures s >= 2 + length
  {
    2 + (if hasExt then 1 else 0) + length + (if length > 255 then 2 else if length > 0 then 1 else 0)
  }

  /** The size that is checked is the size that is written. */
  lemma SizeRight(typ: Octet, ext: Octet, value: seq<Octet>)
    ensures |Encode(Plain(typ, ext, value))| == TlvSize(ext != 0, |value|)
  {
  }

  /** The index octets that _write_tlv writes. */
  function IndexSpan(idx1: Octet, idx2: Octet): Span {
    if idx1 == idx2 then One(idx1) else if idx1 > 0 || idx2 < 255 then Row(idx1, idx2) else All
  }

  /** The flags are the sum of their bits. */
  function TlvFlagSum(ext: Octet, idx1: Octet, idx2: Octet, length: nat): Octet {
    var f0 := if ext > 0 then With(0, TLV_TYPEEXT) else 0;
    var f1 := if idx1 == idx2 then With(f0, TLV_SINGLE_IDX)
              else if idx1 > 0 || idx2 < 255 then With(f0, TLV_MULTI_IDX) else f0;
    var f2 := if length > 255 then With(f1, TLV_EXTVALUE) else f1;
    if length > 0 then With(f2, TLV_VALUE) else f2
  }

  lemma FlagSum(ext: Octet, idx1: Octet, idx2: Octet, length: nat)
    ensures TlvFlagSum(ext, idx1, idx2, length)
         == Flags(ext != 0, IndexSpan(idx1, idx2).One?, IndexSpan(idx1, idx2).Row?, length > 0, length > 255, false)
  {
    var one, row := IndexSpan(idx1, idx2).One?, IndexSpan(idx1, idx2).Row?;
    WithFirst(false, false, false, false, false);
    WithSecond(ext != 0, false, false, false, false);
    WithThird(ext != 0, false, false, false, false);
    WithFifth(ext != 0, one, row, false, false);
    WithFourth(ext != 0, one, row, length > 255, false);
  }

  lemma EncodeOf(t: Tlv, start: seq<Octet>, span: seq<Octet>, rest: seq<Octet>, base: seq<Octet>)
    requires start == [t.typ, TlvFlags(t)] + ExtOctets(t) && span == SpanOctets(t.span)
    requires rest == LengthOctets(|t.value|) + t.value
    ensures base + start + span + rest == base + Encode(t)
    ensures |Encode(t)| == |start| + |span| + |rest|
  {
  }

  /** _write_tlv */
  method WriteTlv(pen: Pen, typ: Octet, ext: Octet, idx1: Octet, idx2: Octet, value: seq<Octet>)
    requires |value| < 0x1_0000
    requires pen.ptr + |Encode(Tlv(typ, ext, IndexSpan(idx1, idx2), false, value))| <= pen.buffer.Length
    modifies pen, pen.buffer
    ensures var text := Encode(Tlv(typ, ext, IndexSpan(idx1, idx2), false, value));
      && pen.ptr == old(pen.ptr) + |text| && pen.Ink() == old(pen.Ink()) + text
    ensures forall k :: pen.ptr <= k < pen.buffer.Length ==> pen.buffer[k] == old(pen.buffer[k])
  {
    ghost var t := Tlv(typ, ext, IndexSpan(idx1, idx2), false, value);
    FlagSum(ext, idx1, idx2, |value|);
    EncodeOf(t, [typ, TlvFlags(t)] + ExtOctets(t), SpanOctets(t.span), LengthOctets(|value|) + value, pen.Ink());
    WriteStart(pen, typ, ext, TlvFlagSum(ext, idx1, idx2, |value|));
    WriteSpan(pen, idx1, idx2);
    WriteLengthAndValue(pen, value);
  }

  method WriteSpan(pen: Pen, idx1: Octet, idx2: Octet)
    requires pen.ptr + |SpanOctets(IndexSpan(idx1, idx2))| <= pen.buffer.Length
    modifies pen, pen.buffer
    ensures var text := SpanOctets(IndexSpan(idx1, idx2));
      && pen.ptr == old(pen.ptr) + |text| && pen.Ink() == old(pen.Ink()) + text
    ensures forall k :: pen.ptr <= k < pen.buffer.Length ==> pen.buffer[k] == old(pen.buffer[k])
  {
    if idx1 > 0 || idx2 < 255 {
      pen.Put(idx1);
      if idx1 != idx2 {
        pen.Put(idx2);
      }
    }
  }

  method WriteStart(pen: Pen, typ: Octet, ext: Octet, flags: Octet)
    requires pen.ptr + 2 + (if ext != 0 then 1 else 0) <= pen.buffer.Length
    modifies pen, pen.buffer
    ensures var text := [typ, flags] + if ext != 0 then [ext] else [];
      && pen.ptr == old(pen.ptr) + |text| && pen.Ink() == old(pen.Ink()) + text
    ensures forall k :: pen.ptr <= k < pen.buffer.Length ==> pen.buffer[k] == old(pen.buffer[k])
  {
    pen.Put(typ);
    pen.Put(flags);
    if ext != 0 {
      pen.Put(ext);
    }
  }

  method WriteLengthAndValue(pen: Pen, value: seq<Octet>)
    requires |value| < 0x1_0000 && pen.ptr + |LengthOctets(|value|)| + |value| <= pen.buffer.Length
    modifies pen, pen.buffer
    ensures var text := LengthOctets(|value|) + value;
      && pen.ptr == old(pen.ptr) + |text| && pen.Ink() == old(pen.Ink()) + text
    ensures forall k :: pen.ptr <= k < pen.buffer.Length ==> pen.buffer[k] == old(pen.buffer[k])
  {
    if |value| > 255 {
      pen.Put(|value| / 256);
    }
    if |value| > 0 {
      pen.Put(|value| % 256);
      pen.Copy(value);
    }
  }

  lemma EncodeMore(ts: seq<Tlv>, t: Tlv)
    ensures EncodeAll(ts + [t]) == EncodeAll(ts) + Encode(t)
  {
    EncodeAppend(ts, [t]);
    EncodeFirst(t, []);
    assert [t] + [] == [t];
  }

  /** Writing a TLV into the middle of a buffer. */
  method PlaceTlv(buffer: array<Octet>, at: nat, typ: Octet, ext: Octet, value: seq<Octet>)
    requires |value| < 0x1_0000 && at + |Encode(Plain(typ, ext, value))| <= buffer.Length
    modifies buffer
    ensures buffer[..] == Overwrite(old(buffer[..]), at, Encode(Plain(typ, ext, value)))
  {
    ghost var before, text := buffer[..], Encode(Plain(typ, ext, value));
    var pen := new Pen(buffer, at);
    assert pen.Ink() == before[..at];
    WriteTlv(pen, typ, ext, 0, 255, value);
    assert buffer[pen.ptr..] == before[pen.ptr..];
    assert buffer[..] == pen.Ink() + buffer[pen.ptr..];
  }

  /** 0 if `data` holds the TLVs at `at`, in `n` octets. */
  ghost function Missing(data: seq<Octet>, at: nat, n: nat, ts: seq<Tlv>): nat {
    if n == |EncodeAll(ts)| && Holds(data, at, EncodeAll(ts)) then 0 else 1
  }

  ghost predicate HoldsTlvs(data: seq<Octet>, at: nat, n: nat, ts: seq<Tlv>) {
    Missing(data, at, n, ts) == 0
  }

  lemma TlvAppended(data: seq<Octet>, at: nat, n: nat, ts: seq<Tlv>, t: Tlv, i: nat, text: seq<Octet>)
    requires HoldsTlvs(data, at, n, ts) && i == at + n && text == Encode(t) && i + |text| <= |data|
    ensures HoldsTlvs(Overwrite(data, i, text), at, n + |text|, ts + [t])
  {
    EncodeMore(ts, t);
    HoldsWritten(data, i, text, at, EncodeAll(ts));
    HoldsParts(Overwrite(data, i, text), at, EncodeAll(ts), text);
  }

  lemma FitMore(ts: seq<Tlv>, t: Tlv)
    requires Misfits(ts, 0) == 0 && Fits(t, 0)
    ensures Misfits(ts + [t], 0) == 0
  {
    FitAppend(ts, [t], 0);
    FitFirst([t], t, [], 0);
  }

  /** 0 if the TLVs `ts` and then `late` stand behind the header, each for no
      address and with a length that can be written. */
  ghost function Stray(data: seq<Octet>, header: nat, added: nat, filled: nat, ts: seq<Tlv>, late: seq<Tlv>): nat {
    if HoldsTlvs(data, header, added, ts) && HoldsTlvs(data, header + added, filled, late)
      && Misfits(ts, 0) == Misfits(late, 0) == 0 then 0 else 1
  }

  lemma AddedRight(data: seq<Octet>, header: nat, added: nat, ts: seq<Tlv>, t: Tlv, text: seq<Octet>)
    requires Stray(data, header, added, 0, ts, []) == 0 && text == Encode(t) && header + added + |text| <= |data|
    requires Fits(t, 0)
    ensures Stray(Overwrite(data, header + added, text), header, added + |text|, 0, ts + [t], []) == 0
  {
    TlvAppended(data, header, added, ts, t, header + added, text);
    FitMore(ts, t);
  }

  lemma SetRight(data: seq<Octet>, header: nat, added: nat, filled: nat, ts: seq<Tlv>, late: seq<Tlv>, t: Tlv,
      i: nat, text: seq<Octet>)
    requires Stray(data, header, added, filled, ts, late) == 0 && Fits(t, 0)
    requires i == header + added + filled && text == Encode(t) && i + |text| <= |data|
    ensures Stray(Overwrite(data, i, text), header, added, filled + |text|, ts, late + [t]) == 0
  {
    TlvAppended(data, header + added, filled, late, t, i, text);
    TlvsKept(data, header, added, ts, i, text);
    FitMore(late, t);
  }

  lemma TlvsKept(data: seq<Octet>, at: nat, n: nat, ts: seq<Tlv>, i: nat, text: seq<Octet>)
    requires HoldsTlvs(data, at, n, ts) && at + n <= i && i + |text| <= |data|
    ensures HoldsTlvs(Overwrite(data, i, text), at, n, ts)
  {
    HoldsWritten(data, i, text, at, EncodeAll(ts));
  }

  lemma HeldPrefix(data: seq<Octet>, other: seq<Octet>, at: nat, s: seq<Octet>, k: nat)
    requires Holds(data, at, s) && at + |s| <= k <= |data| && k <= |other| && other[..k] == data[..k]
    ensures Holds(other, at, s)
  {
    assert other[at..at + |s|] == other[..k][at..at + |s|] == data[at..at + |s|];
  }

  /** Only what is behind the TLVs has changed. */
  lemma StrayPrefix(data: seq<Octet>, other: seq<Octet>, header: nat, added: nat, filled: nat, ts: seq<Tlv>, late: seq<Tlv>, k: nat)
    requires Stray(data, header, added, filled, ts, late) == 0
    requires header + added + filled <= k <= |data| && k <= |other| && other[..k] == data[..k]
    ensures Stray(other, header, added, filled, ts, late) == 0
  {
    HeldPrefix(data, other, header, EncodeAll(ts), k);
    HeldPrefix(data, other, header + added, EncodeAll(late), k);
  }

  lemma HeldTail(data: seq<Octet>, other: seq<Octet>, at: nat, s: seq<Octet>)
    requires Holds(data, at, s) && |data| == |other| && other[at..] == data[at..]
    ensures Holds(other, at, s)
  {
    assert other[at..at + |s|] == other[at..][..|s|] == data[at..][..|s|];
  }

  /** Only the header has changed; then the TLVs stand one behind the other. */
  lemma TlvsTogether(data: seq<Octet>, other: seq<Octet>, header: nat, added: nat, filled: nat, ts: seq<Tlv>, late: seq<Tlv>)
    requires Stray(data, header, added, filled, ts, late) == 0
    requires header <= |data| == |other| && other[header..] == data[header..]
    ensures Misfits(ts + late, 0) == 0 && added + filled == |EncodeAll(ts + late)|
    ensures Holds(other, header, EncodeAll(ts + late))
  {
    hide EncodeAll, Misfits, Encode;
    EncodeAppend(ts, late);
    FitAppend(ts, late, 0);
    HoldsParts(data, header, EncodeAll(ts), EncodeAll(late));
    HeldTail(data, other, header, EncodeAll(ts) + EncodeAll(late));
  }

  /** Puts a TLV behind those that were added. */
  method PlaceAdded(buffer: array<Octet>, header: nat, added: nat, typ: Octet, ext: Octet, value: seq<Octet>, ghost ts: seq<Tlv>)
    requires |value| < 0x1_0000 && header + added + TlvSize(ext != 0, |value|) <= buffer.Length
    requires Stray(buffer[..], header, added, 0, ts, []) == 0
    modifies buffer
    ensures Stray(buffer[..], header, added + TlvSize(ext != 0, |value|), 0, ts + [Plain(typ, ext, value)], []) == 0
  {
    SizeRight(typ, ext, value);
    ghost var t := Plain(typ, ext, value);
    AddedRight(buffer[..], header, added, ts, t, Encode(t));
    PlaceTlv(buffer, header + added, typ, ext, value);
  }

  /** Puts a TLV behind those that were set. */
  method PlaceSet(buffer: array<Octet>, header: nat, added: nat, filled: nat, typ: Octet, ext: Octet, value: seq<Octet>,
      ghost ts: seq<Tlv>, ghost late: seq<Tlv>, ghost end: nat)
    requires |value| < 0x1_0000 && header + added + filled + TlvSize(ext != 0, |value|) <= end <= buffer.Length
    requires Stray(buffer[..], header, added, filled, ts, late) == 0
    modifies buffer
    ensures Stray(buffer[..], header, added, filled + TlvSize(ext != 0, |value|), ts, late + [Plain(typ, ext, value)]) == 0
    ensures buffer[end..] == old(buffer[end..])
  {
    SizeRight(typ, ext, value);
    ghost var t := Plain(typ, ext, value);
    var at := header + added + filled;
    SetRight(buffer[..], header, added, filled, ts, late, t, at, Encode(t));
    OverwriteParts(buffer[..], at, Encode(t), end, buffer.Length);
    PlaceTlv(buffer, at, typ, ext, value);
  }

  /** The sizes of the parts of a buffer, and what the parts hold. */
  class TlvData {
    const buffer: array<Octet>
    var header: nat
    var added: nat
    var reserved: nat
    var filled: nat
    var max: nat
    ghost var tlvs: seq<Tlv>
    ghost var late: seq<Tlv>

    /** The parts fit into the buffer one behind the other, and hold the TLVs
        that were added and those that were set. */
    ghost predicate Valid()
      reads this, buffer
    {
      && header + added + reserved <= max <= buffer.Length && filled <= reserved
      && Stray(buffer[..], header, added, filled, tlvs, late) == 0
    }

    constructor (buffer: array<Octet>, max: nat)
      requires max <= buffer.Length
      ensures Valid() && this.buffer == buffer && this.max == max
      ensures header == added == reserved == filled == 0 && tlvs == late == []
    {
      this.buffer, this.max := buffer, max;
      header, added, reserved, filled := 0, 0, 0, 0;
      tlvs, late := [], [];
    }

    /** _rfc5444_tlv_writer_init, and the size of the header set afterwards. */
    method Init(max: nat, header: nat)
      requires header <= max <= buffer.Length
      modifies this
      ensures Valid() && this.max == max && this.header == header
      ensures added == reserved == filled == 0 && tlvs == late == []
    {
      this.max, this.header, added, reserved, filled := max, header, 0, 0, 0;
      tlvs, late := [], [];
    }

    /** _rfc5444_tlv_writer_add: refused only if the TLV does not fit. */
    method Add(typ: Octet, ext: Octet, value: seq<Octet>) returns (code: int)
      requires Valid() && filled == 0 && late == [] && |value| < 0x1_0000
      modifies this, buffer
      ensures Valid() && max == old(max) && header == old(header) && reserved == old(reserved) && filled == 0 && late == []
      ensures if old(header + added + reserved) + TlvSize(ext != 0, |value|) <= max
              then code == OKAY && tlvs == old(tlvs) + [Plain(typ, ext, value)] && added == old(added) + TlvSize(ext != 0, |value|)
              else code == MTU_TOO_SMALL && tlvs == old(tlvs) && added == old(added) && buffer[..] == old(buffer[..])
    {
      var s := TlvSize(ext != 0, |value|);
      if header + added + reserved + s > max {
        return MTU_TOO_SMALL;
      }
      PlaceAdded(buffer, header, added, typ, ext, value, tlvs);
      added := added + s;
      tlvs := tlvs + [Plain(typ, ext, value)];
      return OKAY;
    }

    /** _rfc5444_tlv_writer_allocate */
    method Allocate(hasExt: bool, length: nat) returns (code: int)
      requires Valid()
      modifies this
      ensures Valid() && max == old(max) && header == old(header) && added == old(added) && filled == old(filled)
      ensures tlvs == old(tlvs) && late == old(late)
      ensures if old(header + added + reserved) + TlvSize(hasExt, length) <= max
              then code == OKAY && reserved == old(reserved) + TlvSize(hasExt, length)
              else code == MTU_TOO_SMALL && reserved == old(reserved)
    {
      var s := TlvSize(hasExt, length);
      if header + added + reserved + s > max {
        return MTU_TOO_SMALL;
      }
      reserved := reserved + s;
      return OKAY;
    }

    /** _rfc5444_tlv_writer_set: refused only if not enough has been allocated. */
    method Set(typ: Octet, ext: Octet, value: seq<Octet>) returns (code: int)
      requires Valid() && |value| < 0x1_0000
      modifies this, buffer
      ensures Valid() && max == old(max) && header == old(header) && added == old(added) && reserved == old(reserved)
      ensures tlvs == old(tlvs)
      ensures buffer[header + added + reserved..] == old(buffer[header + added + reserved..])
      ensures if old(filled) + TlvSize(ext != 0, |value|) <= reserved
              then code == OKAY && late == old(late) + [Plain(typ, ext, value)] && filled == old(filled) + TlvSize(ext != 0, |value|)
              else code == MTU_TOO_SMALL && late == old(late) && filled == old(filled) && buffer[..] == old(buffer[..])
    {
      var s := TlvSize(ext != 0, |value|);
      if reserved - filled < s {
        return MTU_TOO_SMALL;
      }
      PlaceSet(buffer, header, added, filled, typ, ext, value, tlvs, late, header + added + reserved);
      filled := filled + s;
      late := late + [Plain(typ, ext, value)];
      return OKAY;
    }
  }
}
