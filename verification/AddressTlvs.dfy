/** The TLVs of addresses as src-api/rfc5444/rfc5444_msg_generator.c writes
    them: those of one type on neighbouring addresses share a TLV on the wire. */
module AddressTlvs {
  import opened Octets
  import opened Tlvs

  // ----- TLVs of addresses

  /** A TLV of the address with index `at`. `sameLength` and `sameValue`
      compare it with that of the address before. */
  datatype AddrTlv = AddrTlv(at: nat, value: seq<Octet>, sameLength: bool, sameValue: bool)

  /** A type with its TLVs, sorted by address. */
  datatype TlvType = TlvType(typ: Octet, ext: Octet, tlvs: seq<AddrTlv>)

  ghost predicate Rising(tlvs: seq<AddrTlv>) {
    forall i, j :: 0 <= i < j < |tlvs| ==> tlvs[i].at < tlvs[j].at
  }

  // ----- marking what stays the same

  predicate Continues(tlvs: seq<AddrTlv>, k: nat)
    requires k < |tlvs|
  {
    k > 0 && tlvs[k].at <= tlvs[k - 1].at + 1
  }

  function Marks(tlvs: seq<AddrTlv>, k: nat, first: bool): AddrTlv
    requires k < |tlvs|
  {
    var sameLength := !first && Continues(tlvs, k) && |tlvs[k].value| == |tlvs[k - 1].value|;
    tlvs[k].(sameLength := sameLength, sameValue := sameLength && tlvs[k].value == tlvs[k - 1].value)
  }

  /** A TLV is marked as one that goes on exactly if it is not the first of a
      fragment, the address before has one, and the lengths, or the values, agree. */
  lemma MarksExactly(tlvs: seq<AddrTlv>, k: nat, first: bool)
    requires k < |tlvs|
    ensures var m := Marks(tlvs, k, first);
      && (m.at, m.value) == (tlvs[k].at, tlvs[k].value)
      && (m.sameLength <==> !first && k > 0 && tlvs[k].at <= tlvs[k - 1].at + 1 && |tlvs[k].value| == |tlvs[k - 1].value|)
      && (m.sameValue <==> m.sameLength && tlvs[k].value == tlvs[k - 1].value)
  {
  }

  ghost predicate MarkHolds(tlvs: seq<AddrTlv>, k: nat)
    requires k < |tlvs|
  {
    && (tlvs[k].sameLength ==> Continues(tlvs, k) && |tlvs[k].value| == |tlvs[k - 1].value|)
    && (tlvs[k].sameValue <==> tlvs[k].sameLength && tlvs[k].value == tlvs[k - 1].value)
  }

  /** The marks up to the address `last` say nothing wrong. */
  ghost predicate Marked(tlvs: seq<AddrTlv>, last: int) {
    forall k {:trigger MarkHolds(tlvs, k)} :: 0 <= k < |tlvs| && tlvs[k].at <= last ==> MarkHolds(tlvs, k)
  }

  /** The index of the TLV of an address, or the number of TLVs. */
  function IndexOf(tlvs: seq<AddrTlv>, at: nat): (k: nat)
    ensures k <= |tlvs| && (k < |tlvs| ==> tlvs[k].at == at)
    ensures forall j :: 0 <= j < k ==> tlvs[j].at != at
  {
    if tlvs == [] then 0 else if tlvs[0].at == at then 0 else
      var k := IndexOf(tlvs[1..], at);
      assert forall j :: 0 < j < k + 1 ==> tlvs[j] == tlvs[1..][j - 1];
      k + 1
  }

  function Remarked(t: TlvType, addr: nat, first: bool): TlvType {
    var k := IndexOf(t.tlvs, addr);
    if k == |t.tlvs| then t else t.(tlvs := t.tlvs[k := Marks(t.tlvs, k, first)])
  }

  lemma RemarkedParts(t: TlvType, addr: nat, first: bool, k: nat)
    requires k < |t.tlvs| && Rising(t.tlvs)
    ensures |Remarked(t, addr, first).tlvs| == |t.tlvs|
    ensures Remarked(t, addr, first).tlvs[k] == if t.tlvs[k].at == addr then Marks(t.tlvs, k, first) else t.tlvs[k]
  {
    var i := IndexOf(t.tlvs, addr);
    if i < |t.tlvs| {
      assert t.tlvs[i].at == addr;
    }
  }

  /** Marking the addresses in their order marks them all correctly. */
  lemma MarkedFurther(t: TlvType, addr: nat, first: bool)
    requires Rising(t.tlvs) && Marked(t.tlvs, addr - 1)
    ensures Rising(Remarked(t, addr, first).tlvs) && Marked(Remarked(t, addr, first).tlvs, addr)
  {
    var tlvs, next := t.tlvs, Remarked(t, addr, first).tlvs;
    forall i, j | 0 <= i < j < |next| ensures next[i].at < next[j].at {
      RemarkedParts(t, addr, first, i);
      RemarkedParts(t, addr, first, j);
    }
    forall k | 0 <= k < |next| && next[k].at <= addr ensures MarkHolds(next, k) {
      RemarkedParts(t, addr, first, k);
      if k > 0 {
        RemarkedParts(t, addr, first, k - 1);
      }
      assert tlvs[k].at <= addr - 1 ==> MarkHolds(tlvs, k);
    }
  }

  /** _calculate_tlv_flags */
  method CalculateTlvFlags(types: array<TlvType>, addr: nat, first: bool)
    modifies types
    ensures forall i :: 0 <= i < types.Length ==> types[i] == Remarked(old(types[i]), addr, first)
  {
    for i := 0 to types.Length
      invariant forall j :: 0 <= j < i ==> types[j] == Remarked(old(types[j]), addr, first)
      invariant forall j :: i <= j < types.Length ==> types[j] == old(types[j])
    {
      var t := types[i];
      var k := IndexOf(t.tlvs, addr);
      if k < |t.tlvs| {
        var tlv := t.tlvs[k];
        if first || k == 0 || tlv.at > t.tlvs[k - 1].at + 1 {
          tlv := tlv.(sameLength := false, sameValue := false);
        } else {
          var prev := t.tlvs[k - 1];
          tlv := tlv.(sameLength := |tlv.value| == |prev.value|);
          tlv := tlv.(sameValue := tlv.sameLength && tlv.value == prev.value);
        }
        types[i] := t.(tlvs := t.tlvs[k := tlv]);
      }
    }
  }

  /** One call of _calculate_tlv_flags; the same address comes again when a
      fragment has to end in front of it. */
  datatype Call = Call(addr: nat, first: bool)

  ghost predicate InOrder(calls: seq<Call>) {
    forall i :: 0 < i < |calls| ==> calls[i - 1].addr <= calls[i].addr <= calls[i - 1].addr + 1
  }

  function MarkedBy(t: TlvType, calls: seq<Call>): TlvType {
    if calls == [] then t
    else Remarked(MarkedBy(t, calls[..|calls| - 1]), calls[|calls| - 1].addr, calls[|calls| - 1].first)
  }

  lemma RemarkedValues(t: TlvType, addr: nat, first: bool, a: nat, order: int)
    requires Rising(t.tlvs)
    ensures ValueOn(Remarked(t, addr, first), a, order) == ValueOn(t, a, order)
  {
    var tlvs, next := t.tlvs, Remarked(t, addr, first).tlvs;
    forall k | 0 <= k < |tlvs| ensures |next| == |tlvs| && next[k].at == tlvs[k].at && next[k].value == tlvs[k].value {
      RemarkedParts(t, addr, first, k);
    }
    var i, j := IndexOf(tlvs, a), IndexOf(next, a);
    assert tlvs == [] ==> next == [];
    assert i == j;
  }

  /** A run of the writer over the addresses leaves all its marks right, and
      changes no value. */
  lemma {:induction false} RunMarks(t: TlvType, calls: seq<Call>)
    requires Rising(t.tlvs) && InOrder(calls) && calls != [] && Marked(t.tlvs, calls[0].addr - 1)
    ensures Ready(MarkedBy(t, calls), calls[|calls| - 1].addr)
    ensures forall a: nat, order :: ValueOn(MarkedBy(t, calls), a, order) == ValueOn(t, a, order)
    decreases |calls|
  {
    hide Rising, Marked, Remarked, ValueOn;
    var n := |calls| - 1;
    var before := calls[..n];
    assert Rising(MarkedBy(t, before).tlvs) && Marked(MarkedBy(t, before).tlvs, calls[n].addr - 1) && forall a: nat, order :: ValueOn(MarkedBy(t, before), a, order) == ValueOn(t, a, order) by {
      if n == 0 {
        assert MarkedBy(t, []) == t;
      } else {
        RunMarks(t, before);
        MarkedLess(MarkedBy(t, before).tlvs, calls[n].addr - 1, calls[n - 1].addr);
      }
    }
    MarkedFurther(MarkedBy(t, before), calls[n].addr, calls[n].first);
    forall a: nat, order ensures ValueOn(MarkedBy(t, calls), a, order) == ValueOn(t, a, order) {
      RemarkedValues(MarkedBy(t, before), calls[n].addr, calls[n].first, a, order);
    }
  }

  lemma MarkedLess(tlvs: seq<AddrTlv>, less: int, last: int)
    requires Marked(tlvs, last) && less <= last
    ensures Marked(tlvs, less)
  {
  }

  /** The calls of a whole run. */
  method CalculateAll(types: array<TlvType>, calls: seq<Call>)
    modifies types
    ensures forall i :: 0 <= i < types.Length ==> types[i] == MarkedBy(old(types[i]), calls)
  {
    for n := 0 to |calls|
      invariant forall i :: 0 <= i < types.Length ==> types[i] == MarkedBy(old(types[i]), calls[..n])
    {
      assert calls[..n + 1][..n] == calls[..n];
      CalculateTlvFlags(types, calls[n].addr, calls[n].first);
    }
    assert calls[..|calls|] == calls;
  }

  // ----- runs of TLVs that share one on the wire

  /** Where the run that starts with TLV `k` ends, inside a block up to the address `last`. */
  function RunEnd(tlvs: seq<AddrTlv>, k: nat, last: nat): (e: nat)
    requires k < |tlvs|
    ensures k <= e < |tlvs|
    ensures tlvs[k].at <= last ==> tlvs[e].at <= last
    ensures forall j :: k < j <= e ==> tlvs[j].sameLength
    decreases |tlvs| - k
  {
    if k + 1 < |tlvs| && tlvs[k + 1].at <= last && tlvs[k + 1].sameLength then RunEnd(tlvs, k + 1, last) else k
  }

  /** A run goes on as far as the marks do, inside its block. */
  lemma {:induction false} RunEndExactly(tlvs: seq<AddrTlv>, k: nat, last: nat)
    requires k < |tlvs|
    ensures var e := RunEnd(tlvs, k, last);
      && k <= e < |tlvs| && (forall j :: k < j <= e ==> tlvs[j].sameLength && tlvs[j].at <= last)
      && (e + 1 < |tlvs| ==> tlvs[e + 1].at > last || !tlvs[e + 1].sameLength)
    decreases |tlvs| - k
  {
    if k + 1 < |tlvs| && tlvs[k + 1].at <= last && tlvs[k + 1].sameLength {
      RunEndExactly(tlvs, k + 1, last);
    }
  }

  predicate OneValue(tlvs: seq<AddrTlv>, k: nat, e: nat)
    requires k <= e < |tlvs|
  {
    forall j :: k < j <= e ==> tlvs[j].sameValue
  }

  function Joined(tlvs: seq<AddrTlv>): seq<Octet> {
    if tlvs == [] then [] else Joined(tlvs[..|tlvs| - 1]) + tlvs[|tlvs| - 1].value
  }

  function SpanOf(low: nat, high: nat, first: nat, last: nat): Span
    requires first <= low <= high <= last < first + 255
  {
    if low == first && high == last then All
    else if low == high then One(low - first)
    else Row(low - first, high - first)
  }

  /** The TLV on the wire for a run, in a block with the addresses `first` to `last`. */
  function RunTlv(t: TlvType, k: nat, e: nat, first: nat, last: nat): Tlv
    requires k <= e < |t.tlvs| && first <= t.tlvs[k].at <= t.tlvs[e].at <= last < first + 255
  {
    var multi := !OneValue(t.tlvs, k, e);
    Tlv(t.typ, t.ext, SpanOf(t.tlvs[k].at, t.tlvs[e].at, first, last), multi,
        if multi then Joined(t.tlvs[k..e + 1]) else t.tlvs[k].value)
  }

  /** A run has a value for each address exactly if they are not all the same. */
  lemma RunTlvExactly(t: TlvType, k: nat, e: nat, first: nat, last: nat)
    requires k <= e < |t.tlvs| && first <= t.tlvs[k].at <= t.tlvs[e].at <= last < first + 255
    ensures var x := RunTlv(t, k, e, first, last);
      && (x.typ, x.ext) == (t.typ, t.ext)
      && (x.multi <==> exists j :: k < j <= e && !t.tlvs[j].sameValue)
      && (!x.multi ==> x.value == t.tlvs[k].value)
      && (x.span == All <==> t.tlvs[k].at == first && t.tlvs[e].at == last)
      && (x.span.One? ==> t.tlvs[k].at == t.tlvs[e].at == first + x.span.index)
      && (x.span.Row? ==> t.tlvs[k].at == first + x.span.first && t.tlvs[e].at == first + x.span.last && x.span.first < x.span.last)
  {
  }

  /** The index of the first TLV of an address not before `at`. */
  function From(tlvs: seq<AddrTlv>, at: nat): (k: nat)
    ensures k <= |tlvs| && (k < |tlvs| ==> tlvs[k].at >= at)
    ensures forall j :: 0 <= j < k ==> tlvs[j].at < at
  {
    if tlvs == [] || tlvs[0].at >= at then 0 else
      var k := From(tlvs[1..], at);
      assert forall j :: 0 < j < k + 1 ==> tlvs[j] == tlvs[1..][j - 1];
      k + 1
  }

  ghost predicate BlockFrom(tlvs: seq<AddrTlv>, k: nat, first: nat, last: nat) {
    && first <= last < first + 255
    && Rising(tlvs)
    && forall j :: k <= j < |tlvs| ==> tlvs[j].at >= first
  }

  /** The TLVs on the wire for the TLVs from `k` on in a block. */
  ghost function RunsFrom(t: TlvType, k: nat, first: nat, last: nat): (r: seq<Tlv>)
    requires BlockFrom(t.tlvs, k, first, last)
    decreases |t.tlvs| - k
  {
    if k >= |t.tlvs| || t.tlvs[k].at > last then [] else
      var e := RunEnd(t.tlvs, k, last);
      [RunTlv(t, k, e, first, last)] + RunsFrom(t, e + 1, first, last)
  }

  ghost function Runs(t: TlvType, first: nat, last: nat): seq<Tlv>
    requires first <= last < first + 255 && Rising(t.tlvs)
  {
    RunsFrom(t, From(t.tlvs, first), first, last)
  }

  // ----- what a run says

  /** A run is for addresses in a row, all with values of one length. */
  lemma {:induction false} RunInARow(tlvs: seq<AddrTlv>, k: nat, e: nat, last: nat)
    requires k <= e < |tlvs| && Rising(tlvs) && Marked(tlvs, last) && tlvs[e].at <= last
    requires forall j :: k < j <= e ==> tlvs[j].sameLength
    ensures forall j :: k <= j <= e ==> tlvs[j].at == tlvs[k].at + (j - k) && |tlvs[j].value| == |tlvs[k].value|
    ensures OneValue(tlvs, k, e) ==> forall j :: k <= j <= e ==> tlvs[j].value == tlvs[k].value
    decreases e - k
  {
    if k < e {
      RunInARow(tlvs, k, e - 1, last);
      assert MarkHolds(tlvs, e) && tlvs[e].sameLength;
    }
  }

  ghost predicate AllLong(tlvs: seq<AddrTlv>, n: nat) {
    forall i :: 0 <= i < |tlvs| ==> |tlvs[i].value| == n
  }

  lemma {:induction false} JoinedLength(tlvs: seq<AddrTlv>, n: nat)
    requires AllLong(tlvs, n)
    ensures |Joined(tlvs)| == Times(|tlvs|, n)
  {
    if tlvs != [] {
      JoinedLength(tlvs[..|tlvs| - 1], n);
    }
  }

  lemma {:induction false} JoinedValue(tlvs: seq<AddrTlv>, n: nat, j: nat)
    requires AllLong(tlvs, n) && j < |tlvs|
    ensures Times(j, n) + n <= |Joined(tlvs)| && Joined(tlvs)[Times(j, n)..Times(j, n) + n] == tlvs[j].value
  {
    var start := tlvs[..|tlvs| - 1];
    JoinedLength(start, n);
    if j < |start| {
      JoinedValue(start, n, j);
    }
  }

  lemma RunValue(t: TlvType, k: nat, e: nat, last: nat, count: nat, n: nat)
    requires k <= e < |t.tlvs| && t.tlvs[e].at <= last && !OneValue(t.tlvs, k, e)
    requires Rising(t.tlvs) && Marked(t.tlvs, last) && forall j :: k < j <= e ==> t.tlvs[j].sameLength
    requires count == e + 1 - k && n == |t.tlvs[k].value|
    ensures count > 1 && n > 0 && |Joined(t.tlvs[k..e + 1])| == Times(count, n)
    ensures t.tlvs[e].at + 1 == t.tlvs[k].at + count
  {
    RunInARow(t.tlvs, k, e, last);
    JoinedLength(t.tlvs[k..e + 1], n);
    var j :| k < j <= e && !t.tlvs[j].sameValue;
    assert MarkHolds(t.tlvs, j);
    assert t.tlvs[j].value != t.tlvs[j - 1].value && |t.tlvs[j].value| == |t.tlvs[j - 1].value| > 0;
  }

  lemma SpanIs(low: nat, high: nat, first: nat, last: nat)
    requires first <= low <= high <= last < first + 255
    ensures First(SpanOf(low, high, first, last)) == low - first
    ensures Last(SpanOf(low, high, first, last), last - first + 1) == high - first
  {
  }

  lemma RunFits(t: TlvType, k: nat, e: nat, first: nat, last: nat)
    requires k <= e < |t.tlvs| && first <= t.tlvs[k].at <= t.tlvs[e].at <= last < first + 255
    requires Rising(t.tlvs) && Marked(t.tlvs, last) && forall j :: k < j <= e ==> t.tlvs[j].sameLength
    requires |RunTlv(t, k, e, first, last).value| < 0x1_0000
    ensures Fits(RunTlv(t, k, e, first, last), last - first + 1)
  {
    if !OneValue(t.tlvs, k, e) {
      var r, count, n := RunTlv(t, k, e, first, last), e + 1 - k, |t.tlvs[k].value|;
      RunValue(t, k, e, last, count, n);
      TimesRises(0, count, n);
      TimesSwap(count, n);
      EvenTimes(count, n);
      SpanIs(t.tlvs[k].at, t.tlvs[e].at, first, last);
    }
  }

  /** `x` stands for the run from `k` to `e`. */
  ghost predicate RunData(t: TlvType, k: nat, e: nat, first: nat, x: Entry) {
    && k <= e < |t.tlvs| && first <= t.tlvs[k].at <= t.tlvs[e].at
    && x.index1 == t.tlvs[k].at - first && x.index2 == t.tlvs[e].at - first
    && Order(x) == t.typ * 256 + t.ext
    && x.multi == !OneValue(t.tlvs, k, e)
    && x.value == (if x.multi then Joined(t.tlvs[k..e + 1]) else t.tlvs[k].value)
    && x.length == |t.tlvs[k].value|
  }

  lemma RunEntry(t: TlvType, k: nat, e: nat, first: nat, last: nat)
    requires k <= e < |t.tlvs| && first <= t.tlvs[k].at <= t.tlvs[e].at <= last < first + 255
    requires Rising(t.tlvs) && Marked(t.tlvs, last) && forall i :: k < i <= e ==> t.tlvs[i].sameLength
    ensures RunData(t, k, e, first, EntryOf(RunTlv(t, k, e, first, last), last - first + 1))
  {
    var r := RunTlv(t, k, e, first, last);
    SpanIs(t.tlvs[k].at, t.tlvs[e].at, first, last);
    if r.multi {
      var count, n := e + 1 - k, |t.tlvs[k].value|;
      RunValue(t, k, e, last, count, n);
      ShareOf(count, n);
      assert Last(r.span, last - first + 1) - First(r.span) + 1 == count;
    }
  }

  lemma ShareAt(x: Entry, i: nat, steps: nat, from: nat)
    requires x.multi && Covers(x, i) && steps == i - x.index1 && from == Times(steps, x.length)
    requires from + x.length <= |x.value|
    ensures ValueFor(x, i) == x.value[from..from + x.length]
  {
    hide Times;
  }

  lemma PickShare(x: Entry, run: seq<AddrTlv>, i: nat, steps: nat)
    requires x.multi && Covers(x, i) && steps == i - x.index1
    requires steps < |run| && AllLong(run, x.length) && x.value == Joined(run)
    ensures ValueFor(x, i) == run[steps].value
  {
    hide Joined, Times, ValueFor;
    JoinedValue(run, x.length, steps);
    ShareAt(x, i, steps, Times(steps, x.length));
  }

  /** The TLV of a run gives each of its addresses that address' value. */
  lemma RunSeen(t: TlvType, k: nat, e: nat, first: nat, last: nat, x: Entry, j: nat)
    requires RunData(t, k, e, first, x) && t.tlvs[e].at <= last
    requires Rising(t.tlvs) && Marked(t.tlvs, last) && forall i :: k < i <= e ==> t.tlvs[i].sameLength
    requires k <= j <= e
    ensures Covers(x, t.tlvs[j].at - first) && ValueFor(x, t.tlvs[j].at - first) == t.tlvs[j].value
  {
    RunInARow(t.tlvs, k, e, last);
    if x.multi {
      var run := t.tlvs[k..e + 1];
      PickShare(x, run, t.tlvs[j].at - first, j - k);
      assert run[j - k] == t.tlvs[j];
    }
  }

  // ----- a block of runs

  /** The TLVs are sorted, and marked correctly up to the address `last`. */
  ghost predicate Ready(t: TlvType, last: nat) {
    Rising(t.tlvs) && Marked(t.tlvs, last)
  }

  /** The value of type `order` that address `a` has, if any. */
  function ValueOn(t: TlvType, a: nat, order: int): seq<seq<Octet>> {
    var j := IndexOf(t.tlvs, a);
    if t.typ * 256 + t.ext == order && j < |t.tlvs| then [t.tlvs[j].value] else []
  }

  lemma OnlyIndex(tlvs: seq<AddrTlv>, j: nat)
    requires Rising(tlvs) && j < |tlvs|
    ensures IndexOf(tlvs, tlvs[j].at) == j
  {
  }

  /** A run covers the addresses of its TLVs and no others. */
  lemma RunCovers(t: TlvType, k: nat, e: nat, first: nat, last: nat, x: Entry, a: nat)
    requires RunData(t, k, e, first, x) && t.tlvs[e].at <= last && Ready(t, last) && first <= a
    requires forall i :: k < i <= e ==> t.tlvs[i].sameLength
    ensures Covers(x, a - first) <==> k <= IndexOf(t.tlvs, a) <= e
  {
    RunInARow(t.tlvs, k, e, last);
    if Covers(x, a - first) {
      var j := k + (a - t.tlvs[k].at);
      assert t.tlvs[j].at == a;
      OnlyIndex(t.tlvs, j);
    }
  }

  lemma RunsStep(t: TlvType, k: nat, first: nat, last: nat, runs: seq<Tlv>, e: nat) returns (r: Tlv, rest: seq<Tlv>)
    requires BlockFrom(t.tlvs, k, first, last) && k < |t.tlvs| && t.tlvs[k].at <= last
    requires runs == RunsFrom(t, k, first, last) && e == RunEnd(t.tlvs, k, last)
    ensures BlockFrom(t.tlvs, e + 1, first, last)
    ensures k <= e < |t.tlvs| && first <= t.tlvs[k].at <= t.tlvs[e].at <= last < first + 255
    ensures forall i :: k < i <= e ==> t.tlvs[i].sameLength
    ensures rest == RunsFrom(t, e + 1, first, last)
    ensures r == RunTlv(t, k, e, first, last) && runs == [r] + rest
  {
    r := RunTlv(t, k, e, first, last);
    rest := RunsFrom(t, e + 1, first, last);
  }

  /** What the TLV of one run says about address `a`. */
  lemma RunSays(t: TlvType, k: nat, e: nat, first: nat, last: nat, x: Entry, a: nat, order: int)
    requires RunData(t, k, e, first, x) && t.tlvs[e].at <= last && Ready(t, last) && first <= a
    requires forall i :: k < i <= e ==> t.tlvs[i].sameLength
    ensures Seen([x], order, a - first) == if k <= IndexOf(t.tlvs, a) <= e then ValueOn(t, a, order) else []
  {
    var j := IndexOf(t.tlvs, a);
    RunCovers(t, k, e, first, last, x, a);
    SeenOne(x, order, a - first);
    if k <= j <= e {
      RunSeen(t, k, e, first, last, x, j);
    }
  }

  lemma FirstRunSays(t: TlvType, k: nat, e: nat, first: nat, last: nat, count: Octet, a: nat, order: int)
    requires k <= e < |t.tlvs| && first <= t.tlvs[k].at <= t.tlvs[e].at <= last < first + 255
    requires Ready(t, last) && first <= a && count == last - first + 1
    requires forall i :: k < i <= e ==> t.tlvs[i].sameLength
    ensures Seen([EntryOf(RunTlv(t, k, e, first, last), count)], order, a - first)
         == if k <= IndexOf(t.tlvs, a) <= e then ValueOn(t, a, order) else []
  {
    RunEntry(t, k, e, first, last);
    RunSays(t, k, e, first, last, EntryOf(RunTlv(t, k, e, first, last), count), a, order);
  }

  lemma {:induction false} RunsSay(t: TlvType, k: nat, first: nat, last: nat, count: Octet, a: nat, order: int, runs: seq<Tlv>)
    requires BlockFrom(t.tlvs, k, first, last) && Ready(t, last) && first <= a <= last && count == last - first + 1
    requires runs == RunsFrom(t, k, first, last)
    ensures Seen(Entries(runs, count), order, a - first) == SaidFrom(t, k, a, order)
    decreases |t.tlvs| - k
  {
    if k < |t.tlvs| && t.tlvs[k].at <= last {
      hide RunTlv, Seen, Entries, ValueOn, Marked;
      var e := RunEnd(t.tlvs, k, last);
      var r, rest := RunsStep(t, k, first, last, runs, e);
      RunsSay(t, e + 1, first, last, count, a, order, rest);
      RunsSayMore(t, k, e, first, last, count, a, order, runs, r, rest);
    } else {
      assert IndexOf(t.tlvs, a) == |t.tlvs| || IndexOf(t.tlvs, a) < k;
    }
  }

  /** What the TLVs from `k` on have for address `a`. */
  function SaidFrom(t: TlvType, k: nat, a: nat, order: int): seq<seq<Octet>> {
    if k <= IndexOf(t.tlvs, a) then ValueOn(t, a, order) else []
  }

  lemma RunsSayMore(t: TlvType, k: nat, e: nat, first: nat, last: nat, count: Octet, a: nat, order: int, runs: seq<Tlv>, r: Tlv, rest: seq<Tlv>)
    requires k <= e < |t.tlvs| && first <= t.tlvs[k].at <= t.tlvs[e].at <= last < first + 255
    requires Ready(t, last) && first <= a && count == last - first + 1
    requires forall i :: k < i <= e ==> t.tlvs[i].sameLength
    requires r == RunTlv(t, k, e, first, last) && runs == [r] + rest
    requires Seen(Entries(rest, count), order, a - first) == SaidFrom(t, e + 1, a, order)
    ensures Seen(Entries(runs, count), order, a - first) == SaidFrom(t, k, a, order)
  {
    hide RunTlv, Seen, Entries, EntryOf, Marked;
    var here := if k <= IndexOf(t.tlvs, a) <= e then ValueOn(t, a, order) else [];
    FirstRunSays(t, k, e, first, last, count, a, order);
    SeenSplit(runs, r, rest, count, order, a - first, here, SaidFrom(t, e + 1, a, order));
  }

  lemma RunsStart(t: TlvType, first: nat, last: nat)
    requires first <= last < first + 255 && Ready(t, last)
    ensures BlockFrom(t.tlvs, From(t.tlvs, first), first, last)
  {
    var k := From(t.tlvs, first);
    forall i | k <= i < |t.tlvs| ensures t.tlvs[i].at >= first {
      assert t.tlvs[k].at >= first;
    }
  }

  /** The TLVs of a type in a block say about each of its addresses exactly
      what the type has for it. */
  lemma TypeSays(t: TlvType, first: nat, last: nat, count: Octet, a: nat, order: int, runs: seq<Tlv>)
    requires first <= last < first + 255 && Ready(t, last) && first <= a <= last && count == last - first + 1
    requires runs == Runs(t, first, last)
    ensures Seen(Entries(runs, count), order, a - first) == ValueOn(t, a, order)
  {
    var k := From(t.tlvs, first);
    RunsStart(t, first, last);
    RunsSay(t, k, first, last, count, a, order, runs);
  }

  ghost predicate AllReady(types: seq<TlvType>, last: nat) {
    forall i :: 0 <= i < |types| ==> Ready(types[i], last)
  }

  ghost function AllRuns(types: seq<TlvType>, first: nat, last: nat): seq<Tlv>
    requires first <= last < first + 255 && AllReady(types, last)
  {
    if types == [] then [] else Runs(types[0], first, last) + AllRuns(types[1..], first, last)
  }

  function ValuesOn(types: seq<TlvType>, a: nat, order: int): seq<seq<Octet>> {
    if types == [] then [] else ValueOn(types[0], a, order) + ValuesOn(types[1..], a, order)
  }

  lemma {:induction false} TypesSay(types: seq<TlvType>, first: nat, last: nat, count: Octet, a: nat, order: int, all: seq<Tlv>)
    requires first <= last < first + 255 && AllReady(types, last) && first <= a <= last && count == last - first + 1
    requires all == AllRuns(types, first, last)
    ensures Seen(Entries(all, count), order, a - first) == ValuesOn(types, a, order)
  {
    hide Runs, Misfits, Marked, ValueOn;
    if types != [] {
      var runs, rest := Runs(types[0], first, last), AllRuns(types[1..], first, last);
      TypeSays(types[0], first, last, count, a, order, runs);
      TypesSay(types[1..], first, last, count, a, order, rest);
      SeenJoin(runs, rest, count, order, a - first);
    }
  }

  // ----- runs that fit

  lemma FirstRunFits(t: TlvType, k: nat, e: nat, first: nat, last: nat, runs: seq<Tlv>, r: Tlv, rest: seq<Tlv>)
    requires k <= e < |t.tlvs| && first <= t.tlvs[k].at <= t.tlvs[e].at <= last < first + 255
    requires Ready(t, last) && forall i :: k < i <= e ==> t.tlvs[i].sameLength
    requires r == RunTlv(t, k, e, first, last) && runs == [r] + rest && |EncodeAll(runs)| < 0x1_0000
    ensures |EncodeAll(rest)| < 0x1_0000
    ensures AllFit(rest, last - first + 1) ==> AllFit(runs, last - first + 1)
  {
    EncodeSmaller(runs, r, rest);
    RunFits(t, k, e, first, last);
    if AllFit(rest, last - first + 1) {
      FitFirst(runs, r, rest, last - first + 1);
    }
  }

  lemma {:induction false} RunsFit(t: TlvType, k: nat, first: nat, last: nat, runs: seq<Tlv>)
    requires BlockFrom(t.tlvs, k, first, last) && Ready(t, last)
    requires runs == RunsFrom(t, k, first, last) && |EncodeAll(runs)| < 0x1_0000
    ensures AllFit(runs, last - first + 1)
    decreases |t.tlvs| - k
  {
    hide RunTlv, Encode, Fits, Marked;
    if k < |t.tlvs| && t.tlvs[k].at <= last {
      var e := RunEnd(t.tlvs, k, last);
      var r, rest := RunsStep(t, k, first, last, runs, e);
      FirstRunFits(t, k, e, first, last, runs, r, rest);
      RunsFit(t, e + 1, first, last, rest);
    }
  }

  lemma {:induction false} AllRunsFit(types: seq<TlvType>, first: nat, last: nat, count: Octet)
    requires first <= last < first + 255 && AllReady(types, last) && count == last - first + 1
    requires |EncodeAll(AllRuns(types, first, last))| < 0x1_0000
    ensures AllFit(AllRuns(types, first, last), count)
  {
    hide RunsFrom, Encode, Fits, Marked;
    if types != [] {
      var runs, rest := Runs(types[0], first, last), AllRuns(types[1..], first, last);
      SplitSizes(runs, rest, count);
      RunsStart(types[0], first, last);
      RunsFit(types[0], From(types[0].tlvs, first), first, last, runs);
      AllRunsFit(types[1..], first, last, count);
    }
  }

  // ----- writing

  /** The indices of a run. */
  method WriteIndices(pen: Pen, flag: nat, low: nat, high: nat, first: nat, last: nat, ghost d: Draft, ghost ext: bool)
    requires first <= low <= high <= last < first + 255 && flag == |d.base| + 1
    requires pen.ptr + |SpanOctets(SpanOf(low, high, first, last))| <= pen.buffer.Length
    requires d.flags == Flags(ext, false, false, false, false, false) && pen.Ink() == Text(d)
    modifies pen, pen.buffer
    ensures var span := SpanOf(low, high, first, last);
      && pen.ptr == old(pen.ptr) + |SpanOctets(span)| <= pen.buffer.Length
      && pen.Ink() == Text(Longer(d.(flags := Flags(ext, span.One?, span.Row?, false, false, false)), SpanOctets(span)))
  {
    WithSecond(ext, false, false, false, false);
    WithThird(ext, false, false, false, false);
    if low == first && high == last {
    } else if low == high {
      pen.Flag(flag, TLV_SINGLE_IDX, d);
      pen.Put(low - first);
    } else {
      pen.Flag(flag, TLV_MULTI_IDX, d);
      pen.Put(low - first);
      pen.Put(high - first);
    }
  }

  /** The length field of a TLV with `total` octets. */
  method WriteLength(pen: Pen, flag: nat, total: nat, ghost d: Draft, ghost ext: bool, ghost one: bool, ghost row: bool, ghost multi: bool)
    requires flag == |d.base| + 1 && total < 0x1_0000
    requires pen.ptr + |LengthOctets(total)| <= pen.buffer.Length
    requires d.flags == Flags(ext, one, row, false, false, multi) && pen.Ink() == Text(d)
    modifies pen, pen.buffer
    ensures pen.ptr == old(pen.ptr) + |LengthOctets(total)| <= pen.buffer.Length
    ensures pen.Ink() == Text(Longer(d.(flags := Flags(ext, one, row, total > 0, total > 255, multi)), LengthOctets(total)))
  {
    WithFifth(ext, one, row, false, multi);
    WithFourth(ext, one, row, total > 255, multi);
    ghost var e := d;
    if total > 255 {
      pen.Flag(flag, TLV_EXTVALUE, e);
      pen.Put(total / 256);
      e := Longer(Flagged(e, TLV_EXTVALUE), [High(total)]);
    }
    if total > 0 {
      pen.Flag(flag, TLV_VALUE, e);
      pen.Put(total % 256);
    }
  }

  lemma TotalLength(t: TlvType, k: nat, e: nat, last: nat)
    requires k <= e < |t.tlvs| && t.tlvs[e].at <= last && Ready(t, last)
    requires forall i :: k < i <= e ==> t.tlvs[i].sameLength
    ensures |Joined(t.tlvs[k..e + 1])| == |t.tlvs[k].value| * (t.tlvs[e].at - t.tlvs[k].at + 1)
  {
    var run, n, count := t.tlvs[k..e + 1], |t.tlvs[k].value|, t.tlvs[e].at - t.tlvs[k].at + 1;
    assert |run| == count && AllLong(run, n) by {
      RunInARow(t.tlvs, k, e, last);
    }
    assert |Joined(run)| == Times(count, n) by {
      JoinedLength(run, n);
    }
    TimesIsProduct(count, n);
  }

  /** Type, flags, type extension and indices of a run. */
  method WriteHead(pen: Pen, t: TlvType, k: nat, e: nat, first: nat, last: nat, sameValue: bool) returns (flag: nat, ghost d: Draft)
    requires k <= e < |t.tlvs| && first <= t.tlvs[k].at <= t.tlvs[e].at <= last < first + 255
    requires sameValue == OneValue(t.tlvs, k, e)
    requires pen.ptr + 2 + |ExtOctets(RunTlv(t, k, e, first, last))| + |SpanOctets(RunTlv(t, k, e, first, last).span)| <= pen.buffer.Length
    modifies pen, pen.buffer
    ensures var r := RunTlv(t, k, e, first, last);
      && d == Draft(old(pen.Ink()), t.typ, Flags(t.ext != 0, r.span.One?, r.span.Row?, false, false, r.multi), ExtOctets(r) + SpanOctets(r.span))
      && pen.ptr == old(pen.ptr) + 2 + |ExtOctets(r)| + |SpanOctets(r.span)| <= pen.buffer.Length
    ensures pen.Ink() == Text(d) && flag == |d.base| + 1
  {
    ghost var base := pen.Ink();
    ghost var span := RunTlv(t, k, e, first, last).span;
    pen.Put(t.typ);
    flag := pen.ptr;
    pen.Put(0);
    d := Draft(base, t.typ, 0, []);
    if t.ext != 0 {
      pen.Flag(flag, TLV_TYPEEXT, d);
      pen.Put(t.ext);
      d := Draft(base, t.typ, TLV_TYPEEXT, [t.ext]);
    }
    WriteIndices(pen, flag, t.tlvs[k].at, t.tlvs[e].at, first, last, d, t.ext != 0);
    d := Longer(d.(flags := Flags(t.ext != 0, span.One?, span.Row?, false, false, false)), SpanOctets(span));
    if !sameValue {
      WithSixth(t.ext != 0, span.One?, span.Row?, false, false);
      pen.Flag(flag, TLV_MULTIVALUE, d);
      d := Flagged(d, TLV_MULTIVALUE);
    }
  }

  method WriteEachValue(pen: Pen, tlvs: seq<AddrTlv>, k: nat, n: nat)
    requires k < n <= |tlvs| && pen.ptr + |Joined(tlvs[k..n])| <= pen.buffer.Length
    modifies pen, pen.buffer
    ensures pen.ptr == old(pen.ptr) + |Joined(tlvs[k..n])| && pen.Ink() == old(pen.Ink()) + Joined(tlvs[k..n])
  {
    ghost var before := pen.Ink();
    assert Joined(tlvs[k..k]) == [];
    hide Joined;
    for j := k to n
      invariant |Joined(tlvs[k..j])| <= |Joined(tlvs[k..n])|
      invariant pen.ptr == |before| + |Joined(tlvs[k..j])| <= pen.buffer.Length
      invariant pen.Ink() == before + Joined(tlvs[k..j])
    {
      JoinedGrows(tlvs, k, j, n);
      pen.Copy(tlvs[j].value);
    }
  }

  method WriteValues(pen: Pen, tlvs: seq<AddrTlv>, k: nat, e: nat, sameValue: bool)
    requires k <= e < |tlvs|
    requires pen.ptr + |if sameValue then tlvs[k].value else Joined(tlvs[k..e + 1])| <= pen.buffer.Length
    modifies pen, pen.buffer
    ensures var value := if sameValue then tlvs[k].value else Joined(tlvs[k..e + 1]);
      pen.ptr == old(pen.ptr) + |value| && pen.Ink() == old(pen.Ink()) + value
  {
    hide Joined;
    if sameValue {
      pen.Copy(tlvs[k].value);
    } else {
      WriteEachValue(pen, tlvs, k, e + 1);
    }
  }

  lemma {:induction false} JoinedGrows(tlvs: seq<AddrTlv>, k: nat, j: nat, n: nat)
    requires k <= j < n <= |tlvs|
    ensures Joined(tlvs[k..j + 1]) == Joined(tlvs[k..j]) + tlvs[j].value
    ensures |Joined(tlvs[k..j + 1])| <= |Joined(tlvs[k..n])|
    decreases n
  {
    assert tlvs[k..j + 1][..j - k] == tlvs[k..j];
    if j + 1 < n {
      assert tlvs[k..n][..n - 1 - k] == tlvs[k..n - 1];
      JoinedGrows(tlvs, k, j, n - 1);
    }
  }

  lemma RunText(t: TlvType, r: Tlv, base: seq<Octet>, d: Draft)
    requires d == Draft(base, r.typ, TlvFlags(r), ExtOctets(r) + SpanOctets(r.span) + LengthOctets(|r.value|))
    ensures Text(d) + r.value == base + Encode(r)
  {
  }

  /** One TLV on the wire. */
  method WriteRun(pen: Pen, t: TlvType, k: nat, e: nat, first: nat, last: nat, sameValue: bool)
    requires k <= e < |t.tlvs| && first <= t.tlvs[k].at <= t.tlvs[e].at <= last < first + 255
    requires Ready(t, last) && forall i :: k < i <= e ==> t.tlvs[i].sameLength
    requires sameValue == OneValue(t.tlvs, k, e)
    requires |RunTlv(t, k, e, first, last).value| < 0x1_0000
    requires pen.ptr + |Encode(RunTlv(t, k, e, first, last))| <= pen.buffer.Length
    modifies pen, pen.buffer
    ensures pen.ptr <= pen.buffer.Length
    ensures pen.Ink() == old(pen.Ink()) + Encode(RunTlv(t, k, e, first, last))
  {
    ghost var base, r := pen.Ink(), RunTlv(t, k, e, first, last);
    ghost var d: Draft;
    var flag;
    flag, d := WriteHead(pen, t, k, e, first, last, sameValue);
    var total := |t.tlvs[k].value|;
    if !sameValue {
      TotalLength(t, k, e, last);
      total := total * (t.tlvs[e].at - t.tlvs[k].at + 1);
    }
    WriteLength(pen, flag, total, d, t.ext != 0, r.span.One?, r.span.Row?, r.multi);
    d := Longer(d.(flags := TlvFlags(r)), LengthOctets(total));
    WriteValues(pen, t.tlvs, k, e, sameValue);
    RunText(t, r, base, d);
  }

  ghost predicate AllSmall(ts: seq<Tlv>) {
    forall i :: 0 <= i < |ts| ==> |ts[i].value| < 0x1_0000
  }

  /** The end of the run that starts with `k`, and whether one value is enough for it. */
  method ScanRun(tlvs: seq<AddrTlv>, k: nat, last: nat) returns (e: nat, sameValue: bool)
    requires k < |tlvs| && tlvs[k].at <= last && Rising(tlvs)
    ensures e == RunEnd(tlvs, k, last) && sameValue == OneValue(tlvs, k, e)
  {
    sameValue := true;
    e := k;
    var j := k;
    while j < |tlvs|
      invariant k <= e < |tlvs| && e <= j <= |tlvs| && tlvs[e].at <= last
      invariant RunEnd(tlvs, e, last) == RunEnd(tlvs, k, last)
      invariant sameValue == OneValue(tlvs, k, e)
      invariant e + 1 < j ==> tlvs[e + 1].at > last
    {
      if j != k && tlvs[j].at <= last {
        if !tlvs[j].sameLength {
          break;
        }
        e := j;
        sameValue := sameValue && tlvs[j].sameValue;
      }
      j := j + 1;
    }
  }

  /** Writes the TLV of the run that starts with `k`. */
  method WriteNextRun(pen: Pen, first: nat, last: nat, t: TlvType, k: nat, ghost runs: seq<Tlv>)
    returns (next: nat, ghost rest: seq<Tlv>)
    requires BlockFrom(t.tlvs, k, first, last) && Ready(t, last) && k < |t.tlvs| && t.tlvs[k].at <= last
    requires runs == RunsFrom(t, k, first, last) && AllSmall(runs)
    requires pen.ptr + |EncodeAll(runs)| <= pen.buffer.Length
    modifies pen, pen.buffer
    ensures k < next <= |t.tlvs| && BlockFrom(t.tlvs, next, first, last)
    ensures rest == RunsFrom(t, next, first, last) && AllSmall(rest)
    ensures pen.ptr + |EncodeAll(rest)| <= pen.buffer.Length
    ensures pen.Ink() + EncodeAll(rest) == old(pen.Ink()) + EncodeAll(runs)
  {
    hide RunTlv, Encode, Marked;
    var e, sameValue := ScanRun(t.tlvs, k, last);
    ghost var r, others := RunsStep(t, k, first, last, runs, e);
    EncodeFirst(r, others);
    Regroup(pen.Ink(), Encode(r), EncodeAll(others));
    WriteRun(pen, t, k, e, first, last, sameValue);
    next, rest := e + 1, others;
  }

  /** _write_tlvtype */
  method WriteTlvType(pen: Pen, first: nat, last: nat, t: TlvType)
    requires first <= last < first + 255 && Ready(t, last)
    requires AllSmall(Runs(t, first, last))
    requires pen.ptr + |EncodeAll(Runs(t, first, last))| <= pen.buffer.Length
    modifies pen, pen.buffer
    ensures pen.ptr <= pen.buffer.Length
    ensures pen.Ink() == old(pen.Ink()) + EncodeAll(Runs(t, first, last))
  {
    RunsStart(t, first, last);
    var k := From(t.tlvs, first);
    ghost var runs := Runs(t, first, last);
    while k < |t.tlvs| && t.tlvs[k].at <= last
      invariant BlockFrom(t.tlvs, k, first, last)
      invariant runs == RunsFrom(t, k, first, last) && AllSmall(runs)
      invariant pen.ptr + |EncodeAll(runs)| <= pen.buffer.Length
      invariant pen.Ink() + EncodeAll(runs) == old(pen.Ink()) + EncodeAll(Runs(t, first, last))
    {
      k, runs := WriteNextRun(pen, first, last, t, k, runs);
    }
  }
}
