/** How the consumers of a packet are called around its messages
    (rfc5444_reader_handle_packet in src-api/rfc5444/rfc5444_reader.c), with any
    of the callbacks asking for something to be dropped. */
module PacketConsumers {
  import Consumers
  import opened Octets

  datatype Consumer = Consumer(hasStart: bool, hasTlvs: bool)

  /** A point at which the consumer with index `i` may have a callback, or at
      which message `m` is handled. */
  datatype Event = Start(i: nat) | Tlvs(i: nat) | Handle(m: nat) | End(i: nat, dropped: bool)

  /** A message that cannot be parsed, or one that is handed to the consumers of
      messages and addresses, with what their callbacks answer. */
  datatype Handling = Broken(code: int) | Whole(msgType: Octet, addresses: nat, answers: Consumers.Answers)

  /** What the callbacks answer, depending on everything that has happened. */
  datatype Run = Run(consumers: seq<Consumer>, hasTlv: bool, answers: seq<Event> -> int,
                     listeners: seq<Consumers.Consumer>, messages: seq<Handling>)

  function RunOf(run: Run, h: Handling): Consumers.Run
    requires h.Whole?
  {
    Consumers.Run(run.listeners, h.msgType, h.addresses, h.answers)
  }

  /** The result that stands at the end of _handle_message. */
  ghost function MessageResult(run: Run, m: nat): int {
    if m >= |run.messages| then OKAY
    else match run.messages[m]
      case Broken(code) => code
      case Whole(_, _, _) => Consumers.Outcome(RunOf(run, run.messages[m]))
  }

  // ----- what is to be done

  /** The first `n` consumers, in their order. */
  function Starts(run: Run, n: nat): seq<Event>
    requires n <= |run.consumers|
  {
    if n == 0 then []
    else Starts(run, n - 1) + [Start(n - 1)] + if run.hasTlv && run.consumers[n - 1].hasTlvs then [Tlvs(n - 1)] else []
  }

  function Handles(k: nat): seq<Event> {
    if k == 0 then [] else Handles(k - 1) + [Handle(k - 1)]
  }

  /** Everything that happens to a packet of which nothing is dropped, but for the ends. */
  function Planned(run: Run): seq<Event> {
    Starts(run, |run.consumers|) + Handles(|run.messages|)
  }

  /** The ends of the first `n` consumers, the last one first. */
  function Ends(n: nat, dropped: bool): seq<Event> {
    if n == 0 then [] else [End(n - 1, dropped)] + Ends(n - 1, dropped)
  }

  function Begun(trace: seq<Event>): nat {
    if trace == [] then 0
    else Begun(trace[..|trace| - 1]) + if trace[|trace| - 1].Start? then 1 else 0
  }

  /** What a start or TLV callback at the end of a trace says; a TLV block's
      callback may drop TLVs. */
  function Answered(run: Run, trace: seq<Event>): int
    requires trace != []
  {
    match trace[|trace| - 1]
    case Start(i) => if i < |run.consumers| && run.consumers[i].hasStart then run.answers(trace) else OKAY
    case Tlvs(_) => if run.answers(trace) == DROP_TLV then OKAY else run.answers(trace)
    case _ => OKAY
  }

  /** A dropped message is no reason to stop. */
  function Passed(result: int): int {
    if result == DROP_MESSAGE then OKAY else result
  }

  /** What the last event of a trace leads to. */
  ghost function Outcome(run: Run, trace: seq<Event>): int {
    if trace == [] then OKAY
    else if trace[|trace| - 1].Handle? then Passed(MessageResult(run, trace[|trace| - 1].m))
    else Answered(run, trace)
  }

  /** The plan has been followed up to here without anything being dropped before. */
  ghost predicate Reached(run: Run, trace: seq<Event>) {
    trace <= Planned(run) && forall j :: 0 <= j < |trace| ==> Outcome(run, trace[..j]) == OKAY
  }

  /** The plan, cut off behind the first event that drops something. */
  ghost predicate IsCut(run: Run, trace: seq<Event>) {
    Reached(run, trace) && (trace == Planned(run) || Outcome(run, trace) != OKAY)
  }

  lemma ReachedFurther(run: Run, trace: seq<Event>, e: Event)
    requires Reached(run, trace) && Outcome(run, trace) == OKAY && trace + [e] <= Planned(run)
    ensures Reached(run, trace + [e])
  {
    forall j | 0 <= j < |trace + [e]| ensures Outcome(run, (trace + [e])[..j]) == OKAY {
      assert (trace + [e])[..j] == trace[..j];
      assert trace[..|trace|] == trace;
    }
  }

  /** Where the plan has been followed further, nothing was dropped. */
  lemma PlanGoesOn(run: Run, trace: seq<Event>, j: nat)
    requires Reached(run, trace) && j <= |trace|
    ensures trace[..j] == Planned(run)[..j]
    ensures j < |trace| ==> Outcome(run, Planned(run)[..j]) == OKAY
  {
    assert trace == Planned(run)[..|trace|];
    assert trace[..j] == Planned(run)[..j];
  }

  lemma CutNoSooner(run: Run, s: seq<Event>, t: seq<Event>)
    requires IsCut(run, s) && IsCut(run, t)
    ensures |t| <= |s|
  {
    if |s| <= |t| {
      PlanGoesOn(run, t, |s|);
      PlanGoesOn(run, s, |s|);
      assert s[..|s|] == s;
    }
  }

  /** There is only one place to cut. */
  lemma CutOnce(run: Run, s: seq<Event>, t: seq<Event>)
    requires IsCut(run, s) && IsCut(run, t)
    ensures s == t
  {
    CutNoSooner(run, s, t);
    CutNoSooner(run, t, s);
  }

  lemma {:induction false} StartsPlanned(run: Run, n: nat)
    requires n <= |run.consumers|
    ensures Starts(run, n) <= Planned(run)
    decreases |run.consumers| - n
  {
    if n < |run.consumers| {
      StartsPlanned(run, n + 1);
    }
  }

  lemma {:induction false} HandlesPlanned(run: Run, k: nat)
    requires k <= |run.messages|
    ensures Starts(run, |run.consumers|) + Handles(k) <= Planned(run)
    decreases |run.messages| - k
  {
    if k < |run.messages| {
      HandlesPlanned(run, k + 1);
    }
  }

  lemma BegunFurther(trace: seq<Event>, e: Event)
    ensures Begun(trace + [e]) == Begun(trace) + if e.Start? then 1 else 0
  {
    assert (trace + [e])[..|trace|] == trace;
  }

  // ----- the calls

  /** The start and TLV callbacks. */
  method CallStarts(run: Run) returns (trace: seq<Event>, result: int, lastStarted: nat)
    ensures Reached(run, trace) && result == Outcome(run, trace) && lastStarted == Begun(trace)
    ensures result == OKAY ==> trace == Starts(run, |run.consumers|)
  {
    hide Planned, Reached;
    trace, result, lastStarted := [], OKAY, 0;
    ReachedNothing(run);
    var i := 0;
    while i < |run.consumers|
      invariant i <= |run.consumers| && trace == Starts(run, i) && lastStarted == i == Begun(trace)
      invariant Reached(run, trace) && result == Outcome(run, trace) == OKAY
    {
      trace, result, lastStarted := CallStart(run, i, trace);
      if result != OKAY {
        return;
      }
      i := i + 1;
    }
  }

  method CallStart(run: Run, i: nat, trace0: seq<Event>) returns (trace: seq<Event>, result: int, lastStarted: nat)
    requires i < |run.consumers| && trace0 == Starts(run, i) && Begun(trace0) == i
    requires Reached(run, trace0) && Outcome(run, trace0) == OKAY
    ensures Reached(run, trace) && result == Outcome(run, trace) && lastStarted == Begun(trace) == i + 1
    ensures result == OKAY ==> trace == Starts(run, i + 1)
  {
    hide Planned, Reached, Answered, Begun;
    StartsPlanned(run, i + 1);
    var tlvs := run.hasTlv && run.consumers[i].hasTlvs;
    trace, lastStarted := trace0 + [Start(i)], i + 1;
    BegunFurther(trace0, Start(i));
    assert trace <= Starts(run, i + 1);
    ReachedFurther(run, trace0, Start(i));
    result := Answered(run, trace);
    if result == OKAY && tlvs {
      BegunFurther(trace, Tlvs(i));
      assert trace + [Tlvs(i)] == Starts(run, i + 1);
      ReachedFurther(run, trace, Tlvs(i));
      trace := trace + [Tlvs(i)];
      result := Answered(run, trace);
    }
  }

  /** _handle_message: a message that is whole is handed to its consumers. */
  method HandleMessage(run: Run, m: nat) returns (result: int)
    requires m < |run.messages| && Consumers.InOrder(run.listeners)
    ensures result == Passed(MessageResult(run, m))
  {
    match run.messages[m] {
      case Broken(code) =>
        result := code;
      case Whole(_, _, _) =>
        var r := RunOf(run, run.messages[m]);
        var trace, dropped;
        trace, result, dropped := Consumers.ScheduleConsumers(r);
        Consumers.OutcomeIs(r, trace);
    }
    result := Passed(result);
  }

  /** The loop over the messages. */
  method HandleMessages(run: Run, trace0: seq<Event>) returns (trace: seq<Event>, result: int)
    requires Consumers.InOrder(run.listeners)
    requires trace0 == Starts(run, |run.consumers|) && Reached(run, trace0) && Outcome(run, trace0) == OKAY
    ensures IsCut(run, trace) && result == Outcome(run, trace) && Begun(trace) == Begun(trace0)
  {
    hide Reached, Begun, Starts, MessageResult, Answered;
    trace, result := trace0, OKAY;
    var k := 0;
    while result == OKAY && k < |run.messages|
      invariant k <= |run.messages| && trace == trace0 + Handles(k) && Begun(trace) == Begun(trace0)
      invariant Reached(run, trace) && result == Outcome(run, trace)
    {
      HandlesPlanned(run, k + 1);
      BegunFurther(trace, Handle(k));
      assert trace + [Handle(k)] == trace0 + Handles(k + 1);
      ReachedFurther(run, trace, Handle(k));
      trace := trace + [Handle(k)];
      result := HandleMessage(run, k);
      k := k + 1;
    }
  }

  /** The end callbacks, from the consumer that was started last back to the first. */
  method CallEnds(lastStarted: nat, dropped: bool, trace0: seq<Event>) returns (trace: seq<Event>)
    ensures trace == trace0 + Ends(lastStarted, dropped)
  {
    trace := trace0;
    var n := lastStarted;
    while n > 0
      invariant 0 <= n <= lastStarted && trace + Ends(n, dropped) == trace0 + Ends(lastStarted, dropped)
    {
      n := n - 1;
      assert trace + ([End(n, dropped)] + Ends(n, dropped)) == (trace + [End(n, dropped)]) + Ends(n, dropped);
      trace := trace + [End(n, dropped)];
    }
    assert trace + [] == trace;
  }

  lemma ReachedNothing(run: Run)
    ensures Reached(run, [])
  {
  }

  /** What rfc5444_reader_handle_packet does: the plan is followed up to the first
      drop, and whoever was started is ended, the last one first, and told whether
      something was dropped. */
  ghost predicate Handled(run: Run, before: seq<Event>, trace: seq<Event>) {
    IsCut(run, before) && trace == before + Ends(Begun(before), Outcome(run, before) != OKAY)
  }

  /** rfc5444_reader_handle_packet, once the packet TLVs have been parsed. A drop of
      the whole packet is not told to the caller, any other result is. */
  method HandlePacket(run: Run) returns (trace: seq<Event>, result: int)
    requires Consumers.InOrder(run.listeners)
    ensures exists before ::
      && Handled(run, before, trace)
      && (Outcome(run, before) == 5 ==> result == 0) && (Outcome(run, before) != 5 ==> result == Outcome(run, before))
  {
    hide Outcome, Planned, Ends, Begun;
    var lastStarted;
    trace, result, lastStarted := CallStarts(run);
    if result == OKAY {
      trace, result := HandleMessages(run, trace);
    }
    ghost var before := trace;
    trace := CallEnds(lastStarted, result != OKAY, trace);
    assert Handled(run, before, trace) && result == Outcome(run, before);
    if result == DROP_PACKET {
      result := OKAY;
    }
  }

  /** What stands in front of the ends: what the last callback answered, but for
      dropped TLVs, or what the last message came to, but for a dropped message. */
  lemma OutcomeExactly(run: Run, before: seq<Event>)
    requires IsCut(run, before)
    ensures before == [] ==> Outcome(run, before) == 0
    ensures before != [] ==>
      var r := Outcome(run, before);
      match before[|before| - 1]
      case Start(i) => i < |run.consumers| && r == if run.consumers[i].hasStart then run.answers(before) else 0
      case Tlvs(_) => r == if run.answers(before) == 1 then 0 else run.answers(before)
      case Handle(m) => m < |run.messages| && r == if MessageResult(run, m) == 4 then 0 else MessageResult(run, m)
      case End(_, _) => false
  {
    if before != [] {
      var p := |before| - 1;
      PlannedAt(run, p);
      NoEndPlanned(run, p);
      match before[p]
      case Start(i) => PlannedOnce(run, p, i);
      case _ =>
    }
  }

  // ----- each start has its end

  lemma {:induction false} StartsAt(run: Run, n: nat, p: nat)
    requires n <= |run.consumers| && p < |Starts(run, n)|
    ensures Starts(run, n)[p].Start? ==> Starts(run, n)[p].i == Begun(Starts(run, n)[..p])
    ensures Starts(run, n)[p].Start? || Starts(run, n)[p].Tlvs?
    decreases n
  {
    var s := Starts(run, n - 1);
    if p < |s| {
      StartsAt(run, n - 1, p);
      assert Starts(run, n)[..p] == s[..p];
    } else if p == |s| {
      StartsBegin(run, n - 1);
      assert Starts(run, n)[..p] == s;
    }
  }

  lemma {:induction false} StartsBegin(run: Run, n: nat)
    requires n <= |run.consumers|
    ensures Begun(Starts(run, n)) == n
  {
    if n > 0 {
      var s := Starts(run, n - 1);
      StartsBegin(run, n - 1);
      BegunFurther(s, Start(n - 1));
      BegunFurther(s + [Start(n - 1)], Tlvs(n - 1));
      assert s + [Start(n - 1)] + [] == s + [Start(n - 1)];
    }
  }

  lemma {:induction false} HandlesAre(k: nat, p: nat)
    requires p < k
    ensures |Handles(k)| == k && Handles(k)[p] == Handle(p)
    decreases k
  {
    if k > 1 {
      HandlesAre(k - 1, if p < k - 1 then p else 0);
    }
  }

  /** The consumer that is started next in the plan is the next one. */
  lemma PlannedAt(run: Run, p: nat)
    requires p < |Planned(run)|
    ensures Planned(run)[p].Start? ==> Planned(run)[p].i == Begun(Planned(run)[..p])
    ensures Planned(run)[p] == if p < |Starts(run, |run.consumers|)| then Starts(run, |run.consumers|)[p] else Handle(p - |Starts(run, |run.consumers|)|)
  {
    var s := Starts(run, |run.consumers|);
    if p < |s| {
      StartsAt(run, |run.consumers|, p);
      assert Planned(run)[..p] == s[..p];
    } else {
      HandlesLength(|run.messages|);
      HandlesAre(|run.messages|, p - |s|);
    }
  }

  lemma {:induction false} HandlesLength(k: nat)
    ensures |Handles(k)| == k
  {
    if k > 0 {
      HandlesLength(k - 1);
    }
  }

  /** Whoever was started is ended, wherever the plan is cut off, and nobody else. */
  lemma {:induction false} StartedEnds(run: Run, p: nat, i: nat, dropped: bool)
    requires p <= |Planned(run)|
    ensures Start(i) in Planned(run)[..p] <==> i < Begun(Planned(run)[..p])
    ensures Start(i) in Planned(run)[..p] <==> End(i, dropped) in Ends(Begun(Planned(run)[..p]), dropped)
    decreases p
  {
    var t := Planned(run)[..p];
    if p > 0 {
      var e := Planned(run)[p - 1];
      var before := Planned(run)[..p - 1];
      StartedEnds(run, p - 1, i, dropped);
      PlannedAt(run, p - 1);
      assert t == before + [e];
      BegunFurther(before, e);
    }
    EndsHave(Begun(t), dropped, i);
  }

  lemma {:induction false} EndsHave(n: nat, dropped: bool, i: nat)
    ensures End(i, dropped) in Ends(n, dropped) <==> i < n
  {
    if n > 0 {
      EndsHave(n - 1, dropped, i);
    }
  }

  // ----- which messages are handled

  /** The part of the plan before message `m`. */
  function Until(run: Run, m: nat): seq<Event> {
    Starts(run, |run.consumers|) + Handles(m)
  }

  lemma HandleAt(run: Run, p: nat, m: nat)
    requires p < |Planned(run)|
    ensures Planned(run)[p] == Handle(m) <==> p == |Until(run, m)|
  {
    PlannedAt(run, p);
    HandlesLength(m);
    if p < |Starts(run, |run.consumers|)| {
      StartsAt(run, |run.consumers|, p);
    }
  }

  lemma HandledFar(run: Run, cut: seq<Event>, m: nat)
    requires Reached(run, cut) && m < |run.messages|
    ensures Handle(m) in cut <==> |Until(run, m)| < |cut|
  {
    HandlesLength(m);
    HandlesLength(|run.messages|);
    HandleAt(run, |Until(run, m)|, m);
    forall p | 0 <= p < |cut| ensures cut[p] == Handle(m) ==> p == |Until(run, m)| {
      HandleAt(run, p, m);
    }
  }

  /** A dropped message leaves the rest of the packet alone exactly if it is
      dropped with DROP_MESSAGE. */
  lemma NextHandled(run: Run, cut: seq<Event>, m: nat)
    requires IsCut(run, cut) && Handle(m) in cut && m + 1 < |run.messages|
    ensures Handle(m + 1) in cut <==> MessageResult(run, m) in {0, 4}
  {
    var next := Until(run, m + 1);
    HandledFar(run, cut, m);
    HandledFar(run, cut, m + 1);
    HandlesLength(m);
    HandlesLength(m + 1);
    HandlesLength(|run.messages|);
    HandlesPlanned(run, m + 1);
    PlanGoesOn(run, cut, |next|);
    assert next == Planned(run)[..|next|];
    assert |cut| == |next| ==> cut[..|next|] == cut;
    assert next[|next| - 1] == Handle(m);
  }

  // ----- who is called, event by event

  /** How far a packet gets: event `k` of the plan comes if and only if all those
      before it have and the last of them leads on. */
  lemma CutLonger(run: Run, cut: seq<Event>, k: nat)
    requires IsCut(run, cut) && k < |Planned(run)|
    ensures k == 0 ==> 0 < |cut|
    ensures k > 0 ==> (k < |cut| <==> k <= |cut| && Outcome(run, cut[..k]) == OKAY)
  {
    if k <= |cut| {
      assert cut[..|cut|] == cut;
    }
  }

  /** The plan at the events of consumer `i`. */
  lemma PlanAt(run: Run, i: nat)
    requires i < |run.consumers|
    ensures var n := |Starts(run, i)|;
      && n < |Planned(run)| && Planned(run)[n] == Start(i)
      && (run.hasTlv && run.consumers[i].hasTlvs ==> n + 1 < |Planned(run)| && Planned(run)[n + 1] == Tlvs(i))
      && |Starts(run, i + 1)| == n + if run.hasTlv && run.consumers[i].hasTlvs then 2 else 1
  {
    StartsPlanned(run, i + 1);
    var n, s := |Starts(run, i)|, Starts(run, i + 1);
    assert s == Planned(run)[..|s|];
    assert s[n] == Start(i);
  }

  /** And nowhere else. */
  lemma {:induction false} PlanOnce(run: Run, n: nat, p: nat, i: nat)
    requires n <= |run.consumers| && p < |Starts(run, n)|
    ensures Starts(run, n)[p] == Start(i) ==> i < n && p == |Starts(run, i)|
    ensures Starts(run, n)[p] == Tlvs(i) ==> i < n && run.hasTlv && run.consumers[i].hasTlvs && p == |Starts(run, i)| + 1
    decreases n
  {
    if p < |Starts(run, n - 1)| {
      PlanOnce(run, n - 1, p, i);
    }
  }

  lemma PlannedOnce(run: Run, p: nat, i: nat)
    requires p < |Planned(run)|
    ensures Planned(run)[p] == Start(i) ==> i < |run.consumers| && p == |Starts(run, i)|
    ensures Planned(run)[p] == Tlvs(i) ==>
      i < |run.consumers| && run.hasTlv && run.consumers[i].hasTlvs && p == |Starts(run, i)| + 1
  {
    PlannedAt(run, p);
    if p < |Starts(run, |run.consumers|)| {
      PlanOnce(run, |run.consumers|, p, i);
    }
  }

  /** Where the events of consumer `i` are, if it has any. */
  lemma CutAt(run: Run, cut: seq<Event>, i: nat)
    requires Reached(run, cut) && i < |run.consumers|
    ensures var n := |Starts(run, i)|;
      && (forall p :: 0 <= p < |cut| ==> (cut[p] == Start(i) <==> p == n))
      && (forall p :: 0 <= p < |cut| ==> (cut[p] == Tlvs(i) <==> p == n + 1 && run.hasTlv && run.consumers[i].hasTlvs))
  {
    PlanAt(run, i);
    hide Starts, Planned;
    forall p | 0 <= p < |cut|
      ensures cut[p] == Start(i) <==> p == |Starts(run, i)|
      ensures cut[p] == Tlvs(i) <==> p == |Starts(run, i)| + 1 && run.hasTlv && run.consumers[i].hasTlvs
    {
      PlannedOnce(run, p, i);
    }
  }

  lemma {:induction false} OnlyEnds(n: nat, dropped: bool, p: nat)
    requires p < |Ends(n, dropped)|
    ensures |Ends(n, dropped)| == n && Ends(n, dropped)[p] == End(n - 1 - p, dropped)
    decreases n
  {
    if p > 0 {
      OnlyEnds(n - 1, dropped, p - 1);
    } else if n > 1 {
      OnlyEnds(n - 1, dropped, 0);
    }
  }

  lemma NoEndPlanned(run: Run, p: nat)
    requires p < |Planned(run)|
    ensures !Planned(run)[p].End?
  {
    PlannedAt(run, p);
    if p < |Starts(run, |run.consumers|)| {
      StartsAt(run, |run.consumers|, p);
    }
  }

  /** The ends of a trace are behind everything else, and count down to the first
      consumer; each is told whether something was dropped. */
  lemma EndsBehind(run: Run, before: seq<Event>, trace: seq<Event>, p: nat)
    requires Handled(run, before, trace) && p < |trace|
    ensures p < |before| ==> trace[p] == before[p] && trace[..p + 1] == before[..p + 1] && !trace[p].End?
    ensures p >= |before| ==> trace[p] == End(|trace| - 1 - p, Outcome(run, before) != OKAY)
    ensures |trace| == |before| + Begun(before)
  {
    hide Planned, Ends, Begun, Outcome;
    var n, d := Begun(before), Outcome(run, before) != OKAY;
    EndsLength(n, d);
    if p < |before| {
      NoEndPlanned(run, p);
    } else {
      OnlyEnds(n, d, p - |before|);
    }
  }

  lemma {:induction false} EndsLength(n: nat, dropped: bool)
    ensures |Ends(n, dropped)| == n
  {
    if n > 0 {
      EndsLength(n - 1, dropped);
    }
  }

  lemma NotAnEnd(run: Run, before: seq<Event>, trace: seq<Event>, e: Event)
    requires Handled(run, before, trace) && !e.End?
    ensures e in trace <==> e in before
  {
    forall p | 0 <= p < |trace|
      ensures p < |before| ==> trace[p] == before[p]
      ensures p >= |before| ==> trace[p].End?
    {
      EndsBehind(run, before, trace, p);
    }
    hide *;
    if e in before {
      var p :| 0 <= p < |before| && before[p] == e;
      assert trace[p] == e;
    }
  }

  /** A packet consumer gets the TLVs of the packet if and only if there are some,
      it has a callback for them, and it was started and did not object; it gets
      them once, and directly behind its start. */
  lemma TlvsExactly(run: Run, before: seq<Event>, trace: seq<Event>, i: nat)
    requires Handled(run, before, trace)
    ensures Tlvs(i) in trace <==>
      && i < |run.consumers| && run.hasTlv && run.consumers[i].hasTlvs
      && exists p :: 0 <= p < |trace| && trace[p] == Start(i) && (run.consumers[i].hasStart ==> run.answers(trace[..p + 1]) == 0)
    ensures forall p :: 0 <= p < |trace| && trace[p] == Tlvs(i) ==> 0 < p && trace[p - 1] == Start(i)
    ensures forall p, q :: 0 <= p < |trace| && 0 <= q < |trace| && trace[p] == Tlvs(i) && trace[q] == Tlvs(i) ==> p == q
  {
    hide Starts, Begun, Ends;
    forall p | 0 <= p < |trace|
      ensures p < |before| ==> trace[p] == before[p] && trace[..p + 1] == before[..p + 1] && !trace[p].End?
      ensures p >= |before| ==> trace[p].End?
    {
      EndsBehind(run, before, trace, p);
    }
    if i < |run.consumers| {
      CutAt(run, before, i);
      PlanAt(run, i);
      var n := |Starts(run, i)|;
      if n + 1 < |Planned(run)| {
        CutLonger(run, before, n + 1);
      }
      hide Planned, IsCut, Reached;
      if n < |before| {
        assert trace[n] == Start(i) && before[..n + 1][n] == before[n];
      }
    } else {
      forall p | 0 <= p < |before| ensures before[p] != Tlvs(i) {
        PlannedOnce(run, p, i);
      }
    }
  }

  /** Neither the start nor the TLV callback of consumer `i` objects. */
  ghost predicate Content(run: Run, trace: seq<Event>, i: nat)
    requires i < |run.consumers|
  {
    && (exists p :: 0 <= p < |trace| && trace[p] == Start(i) && (run.consumers[i].hasStart ==> run.answers(trace[..p + 1]) == 0))
    && (run.hasTlv && run.consumers[i].hasTlvs ==>
         exists p :: 0 <= p < |trace| && trace[p] == Tlvs(i) && run.answers(trace[..p + 1]) in {0, 1})
  }

  /** The consumer is content exactly if the packet goes on behind its events. */
  lemma ContentFar(run: Run, before: seq<Event>, trace: seq<Event>, i: nat)
    requires Handled(run, before, trace) && i < |run.consumers|
    ensures Content(run, trace, i)
       <==> |Starts(run, i)| < |before| && |Starts(run, i + 1)| <= |before| && Outcome(run, before[..|Starts(run, i + 1)|]) == OKAY
  {
    hide Starts, Begun, Ends;
    forall p | 0 <= p < |trace|
      ensures p < |before| ==> trace[p] == before[p] && trace[..p + 1] == before[..p + 1] && !trace[p].End?
      ensures p >= |before| ==> trace[p].End?
    {
      EndsBehind(run, before, trace, p);
    }
    CutAt(run, before, i);
    PlanAt(run, i);
    var n := |Starts(run, i)|;
    if n + 1 < |Planned(run)| {
      CutLonger(run, before, n + 1);
    }
    hide Planned, IsCut, Reached;
    if n < |before| {
      assert trace[n] == Start(i) && before[..n + 1][n] == before[n];
      if n + 1 < |before| {
        assert trace[n + 1] == before[n + 1] && before[..n + 2][n + 1] == before[n + 1];
      }
    }
  }

  /** A consumer is started if and only if it is the first or the one before it is
      content. */
  lemma StartsExactly(run: Run, before: seq<Event>, trace: seq<Event>, i: nat)
    requires Handled(run, before, trace)
    ensures Start(i) in trace <==> i < |run.consumers| && (i == 0 || Content(run, trace, i - 1))
  {
    NotAnEnd(run, before, trace, Start(i));
    if i < |run.consumers| {
      CutAt(run, before, i);
      PlanAt(run, i);
      CutLonger(run, before, |Starts(run, i)|);
      if i > 0 {
        ContentFar(run, before, trace, i - 1);
        PlanAt(run, i - 1);
      } else {
        assert Starts(run, 0) == [];
      }
      hide Starts, Planned, Begun, Ends, IsCut, Reached, Content;
      if |Starts(run, i)| < |before| {
        assert before[|Starts(run, i)|] == Start(i);
      }
    } else {
      forall p | 0 <= p < |before| ensures before[p] != Start(i) {
        PlannedOnce(run, p, i);
      }
    }
  }

  /** The first message is handled if and only if all packet consumers are content. */
  lemma FirstHandled(run: Run, before: seq<Event>, trace: seq<Event>)
    requires Handled(run, before, trace)
    ensures Handle(0) in trace <==> |run.messages| > 0 && (|run.consumers| == 0 || Content(run, trace, |run.consumers| - 1))
  {
    hide Begun, Ends, Outcome, Content, MessageResult;
    NotAnEnd(run, before, trace, Handle(0));
    var n := |run.consumers|;
    HandlesLength(|run.messages|);
    if |run.messages| > 0 {
      HandledFar(run, before, 0);
      HandlesLength(0);
      CutLonger(run, before, |Starts(run, n)|);
      if n > 0 {
        ContentFar(run, before, trace, n - 1);
        PlanAt(run, n - 1);
      } else {
        assert Starts(run, 0) == [];
      }
      assert |Until(run, 0)| == |Starts(run, n)|;
    } else {
      forall p | 0 <= p < |before| ensures before[p] != Handle(0) {
        HandleAt(run, p, 0);
      }
    }
  }

  /** Two messages, and one consumer whose start callback answers with `code`. */
  function TwoMessages(code: int): Run {
    var whole := Whole(0, 0, _ => code);
    Run([], false, _ => OKAY, [Consumers.Consumer(0, true, 0, false, true, false)], [whole, whole])
  }

  lemma TwoMessagesGive(code: int)
    requires code != OKAY
    ensures MessageResult(TwoMessages(code), 0) == code
  {
    var run := RunOf(TwoMessages(code), TwoMessages(code).messages[0]);
    var start, end := Consumers.Start(0), Consumers.End(0, true);
    Consumers.Nothing(run);
    Consumers.Further(run, [], start);
    Consumers.FurtherOpen([], start);
    Consumers.LastOf([], start);
    assert [] + [start] == [start];
    assert [start] + [end] == [start, end];
    Consumers.Further(run, [start], end);
    Consumers.FurtherOpen([start], end);
    Consumers.OutcomeIs(run, [start, end]);
  }

  /** So a message dropped with DROP_MSG_BUT_FORWARD takes the one behind it along. */
  lemma ForwardingDropsTheRest()
    ensures IsCut(TwoMessages(DROP_MSG_BUT_FORWARD), [Handle(0)])
  {
    var run := TwoMessages(DROP_MSG_BUT_FORWARD);
    TwoMessagesGive(DROP_MSG_BUT_FORWARD);
    assert Handles(1) == [Handle(0)];
    assert Planned(run) == [Handle(0), Handle(1)];
    assert [Handle(0)][..0] == [];
  }
}
