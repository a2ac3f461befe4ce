/** How the consumers of a message are called (schedule_msgtlv_consumer,
    schedule_msgaddr_consumer, schedule_end_message_cbs and the second half of
    _handle_message in src-api/rfc5444/rfc5444_reader.c), with any of the
    callbacks asking for something to be dropped. */
module Consumers {
  import opened Octets
  import opened Wrappers

  /** A consumer of messages, or of their addresses. */
  datatype Consumer = Consumer(order: int, anyMessage: bool, msgId: Octet, addresses: bool, hasStart: bool, hasEnd: bool)

  /** A point at which the consumer with index `i` may have a callback; `a` is
      an address, counted through all blocks. */
  datatype Event =
    | Start(i: nat)
    | Tlvs(i: nat)
    | End(i: nat, dropped: bool)
    | AddrStart(i: nat, a: nat)
    | AddrTlvs(i: nat, a: nat)
    | AddrEnd(i: nat, a: nat, dropped: bool)

  /** What the callbacks answer, depending on everything that has happened. */
  type Answers = seq<Event> -> int

  datatype Run = Run(consumers: seq<Consumer>, msgType: Octet, addresses: nat, answers: Answers)

  predicate Interested(run: Run, i: nat) {
    i < |run.consumers| && (run.consumers[i].anyMessage || run.consumers[i].msgId == run.msgType)
  }

  predicate OfMessages(run: Run, i: nat) {
    Interested(run, i) && !run.consumers[i].addresses
  }

  predicate OfAddresses(run: Run, i: nat) {
    Interested(run, i) && run.consumers[i].addresses
  }

  predicate HasStart(run: Run, i: nat) {
    i < |run.consumers| && run.consumers[i].hasStart
  }

  predicate HasEnd(run: Run, i: nat) {
    i < |run.consumers| && run.consumers[i].hasEnd
  }

  function OrderOf(run: Run, i: nat): int {
    if i < |run.consumers| then run.consumers[i].order else 0
  }

  /** The consumers are sorted by their order. */
  ghost predicate InOrder(consumers: seq<Consumer>) {
    forall i, j :: 0 <= i < j < |consumers| ==> consumers[i].order <= consumers[j].order
  }

  // ----- what has been asked for

  function Larger(x: int, y: int): int {
    if y > x then y else x
  }

  /** What a start or TLV callback says; the callback of a TLV block may drop
      TLVs, which is not passed on. */
  function Said(run: Run, trace: seq<Event>, e: Event): int {
    var answer := run.answers(trace + [e]);
    if e.Start? || e.AddrStart? then (if HasStart(run, e.i) then answer else OKAY)
    else if answer == DROP_TLV then OKAY else answer
  }

  /** An end callback, if there is one, can only raise the result. */
  function Raised(run: Run, trace: seq<Event>, e: Event, before: int): int {
    if HasEnd(run, e.i) then Larger(before, run.answers(trace + [e])) else before
  }

  /** The result that stands once `e` has happened after `trace`, in which the
      result was `before`. */
  function ResultAfter(run: Run, trace: seq<Event>, e: Event, before: int): int {
    match e
    case End(_, _) => Raised(run, trace, e, before)
    case AddrEnd(_, _, _) =>
      var r := Raised(run, trace, e, before);
      if r == DROP_ADDRESS then OKAY else r
    case _ => Said(run, trace, e)
  }

  function Result(run: Run, trace: seq<Event>): int {
    if trace == [] then OKAY
    else
      var before := trace[..|trace| - 1];
      ResultAfter(run, before, trace[|trace| - 1], Result(run, before))
  }

  /** The event drops an address. */
  predicate Drops(run: Run, trace: seq<Event>, e: Event, before: int) {
    e.AddrEnd? && Raised(run, trace, e, before) == DROP_ADDRESS
  }

  /** The addresses that were dropped by the first `n` consumers. */
  function DroppedBy(run: Run, trace: seq<Event>, n: nat): set<nat> {
    if trace == [] then {}
    else
      var before, e := trace[..|trace| - 1], trace[|trace| - 1];
      DroppedBy(run, before, n) + if e.i < n && Drops(run, before, e, Result(run, before)) then {e.a} else {}
  }

  function Dropped(run: Run, trace: seq<Event>): set<nat> {
    DroppedBy(run, trace, |run.consumers|)
  }

  /** Something more than an address has been dropped, or there was an error. */
  predicate Stopped(run: Run, trace: seq<Event>) {
    trace != [] &&
    (Stopped(run, trace[..|trace| - 1])
      || (!trace[|trace| - 1].AddrStart? && !trace[|trace| - 1].AddrTlvs? && Result(run, trace) != OKAY))
  }

  // ----- what happens next

  /** The message consumers that are started and not ended, the last one last. */
  function Open(trace: seq<Event>): seq<nat> {
    if trace == [] then []
    else
      var s := Open(trace[..|trace| - 1]);
      match trace[|trace| - 1]
      case Start(i) => s + [i]
      case End(_, _) => if s == [] then [] else s[..|s| - 1]
      case _ => s
  }

  /** The first visit that can come after all those that have been. */
  function Position(trace: seq<Event>): (nat, nat) {
    if trace == [] then (0, 0)
    else match trace[|trace| - 1]
      case Start(i) => (i, 1)
      case AddrStart(i, a) => (i, a + 1)
      case _ => Position(trace[..|trace| - 1])
  }

  /** The first visit to be made, from consumer `i` and its address `a` on: a
      consumer has one visit for the message, or one for each address that has
      not been dropped. */
  function NextVisit(run: Run, dropped: set<nat>, i: nat, a: nat): Option<Event>
    decreases |run.consumers| - i, run.addresses - a
  {
    if i >= |run.consumers| then None
    else if OfMessages(run, i) && a == 0 then Some(Start(i))
    else if OfAddresses(run, i) && a < run.addresses then
      if a in dropped then NextVisit(run, dropped, i, a + 1) else Some(AddrStart(i, a))
    else NextVisit(run, dropped, i + 1, 0)
  }

  /** The visit whose turn it is, unless the run has been stopped. */
  function Candidate(run: Run, trace: seq<Event>): Option<Event> {
    if Stopped(run, trace) then None
    else NextVisit(run, Dropped(run, trace), Position(trace).0, Position(trace).1)
  }

  /** Nobody is being visited. */
  predicate Idle(run: Run, trace: seq<Event>) {
    trace == [] ||
    match trace[|trace| - 1]
    case Start(_) => Result(run, trace) != OKAY
    case AddrStart(_, _) => false
    case AddrTlvs(_, _) => false
    case _ => true
  }

  /** The next visit, once those of smaller order have been ended. */
  function NextTurn(run: Run, trace: seq<Event>): Option<Event> {
    var v, open := Candidate(run, trace), Open(trace);
    if v.Some? && (open == [] || OrderOf(run, v.value.i) <= OrderOf(run, open[|open| - 1])) then v
    else if open != [] then Some(End(open[|open| - 1], Result(run, trace) != OKAY))
    else None
  }

  /** A visit is gone on with: TLVs are shown unless the start callback objects,
      and an address is ended in any case. */
  function NextOfVisit(run: Run, trace: seq<Event>): Option<Event>
    requires !Idle(run, trace)
  {
    match trace[|trace| - 1]
    case Start(i) => Some(Tlvs(i))
    case AddrStart(i, a) => if Result(run, trace) == OKAY then Some(AddrTlvs(i, a)) else Some(AddrEnd(i, a, true))
    case AddrTlvs(i, a) => Some(AddrEnd(i, a, Result(run, trace) != OKAY))
    case _ => None
  }

  function Next(run: Run, trace: seq<Event>): Option<Event> {
    if Idle(run, trace) then NextTurn(run, trace) else NextOfVisit(run, trace)
  }

  predicate Lawful(run: Run, trace: seq<Event>) {
    trace == [] || (Lawful(run, trace[..|trace| - 1]) && Next(run, trace[..|trace| - 1]) == Some(trace[|trace| - 1]))
  }

  predicate Finished(run: Run, trace: seq<Event>) {
    Lawful(run, trace) && Next(run, trace) == None
  }

  lemma Further(run: Run, trace: seq<Event>, e: Event)
    ensures Result(run, trace + [e]) == ResultAfter(run, trace, e, Result(run, trace))
    ensures Lawful(run, trace + [e]) == (Lawful(run, trace) && Next(run, trace) == Some(e))
    ensures Stopped(run, trace + [e])
        <==> Stopped(run, trace) || (!e.AddrStart? && !e.AddrTlvs? && Result(run, trace + [e]) != OKAY)
  {
    assert (trace + [e])[..|trace + [e]| - 1] == trace;
  }

  lemma FurtherDropped(run: Run, trace: seq<Event>, e: Event, n: nat)
    ensures DroppedBy(run, trace + [e], n)
         == DroppedBy(run, trace, n) + if e.i < n && Drops(run, trace, e, Result(run, trace)) then {e.a} else {}
  {
    assert (trace + [e])[..|trace + [e]| - 1] == trace;
  }

  lemma FurtherOpen(trace: seq<Event>, e: Event)
    ensures Open(trace + [e]) ==
      if e.Start? then Open(trace) + [e.i]
      else if e.End? then (if Open(trace) == [] then [] else Open(trace)[..|Open(trace)| - 1])
      else Open(trace)
    ensures Position(trace + [e]) == if e.Start? then (e.i, 1) else if e.AddrStart? then (e.i, e.a + 1) else Position(trace)
  {
    assert (trace + [e])[..|trace + [e]| - 1] == trace;
  }

  lemma Nothing(run: Run)
    ensures Lawful(run, []) && Idle(run, []) && Result(run, []) == OKAY && !Stopped(run, [])
    ensures Dropped(run, []) == {} && Open([]) == [] && Position([]) == (0, 0)
  {
  }

  // ----- the calls

  /** What has happened, and the result so far. */
  ghost predicate Tracked(run: Run, trace: seq<Event>, result: int, dropped: set<nat>) {
    Lawful(run, trace) && result == Result(run, trace) && dropped == Dropped(run, trace)
  }

  /** Between two visits, and nothing has stopped the run. */
  ghost predicate Ready(run: Run, trace: seq<Event>, dropped: set<nat>) {
    Tracked(run, trace, OKAY, dropped) && Idle(run, trace) && !Stopped(run, trace)
  }

  /** Between two visits; the run has been stopped if and only if the result says so. */
  ghost predicate Settled(run: Run, trace: seq<Event>, result: int, dropped: set<nat>) {
    Tracked(run, trace, result, dropped) && Idle(run, trace) && (Stopped(run, trace) <==> result != OKAY)
  }

  /** A visit of a message: its TLVs follow the start unless that objects. */
  function MessageVisit(run: Run, trace: seq<Event>, i: nat): seq<Event> {
    if Result(run, trace + [Start(i)]) == OKAY then [Start(i), Tlvs(i)] else [Start(i)]
  }

  /** A visit of an address: it is ended in any case. */
  function AddressVisit(run: Run, trace: seq<Event>, i: nat, a: nat): seq<Event> {
    if Result(run, trace + [AddrStart(i, a)]) != OKAY then [AddrStart(i, a), AddrEnd(i, a, true)]
    else [AddrStart(i, a), AddrTlvs(i, a), AddrEnd(i, a, Result(run, trace + [AddrStart(i, a), AddrTlvs(i, a)]) != OKAY)]
  }

  /** An event that no address can be dropped at. */
  lemma TrackedFurther(run: Run, trace: seq<Event>, e: Event, dropped: set<nat>)
    requires Tracked(run, trace, Result(run, trace), dropped) && Next(run, trace) == Some(e) && !e.AddrEnd?
    ensures Tracked(run, trace + [e], ResultAfter(run, trace, e, Result(run, trace)), dropped)
    ensures Stopped(run, trace + [e])
        <==> Stopped(run, trace) || (!e.AddrStart? && !e.AddrTlvs? && ResultAfter(run, trace, e, Result(run, trace)) != OKAY)
  {
    Further(run, trace, e);
    FurtherDropped(run, trace, e, |run.consumers|);
  }

  lemma LastOf(trace: seq<Event>, e: Event)
    ensures (trace + [e])[|trace + [e]| - 1] == e
  {
  }

  /** schedule_msgtlv_consumer */
  method ScheduleMessage(run: Run, i: nat, trace0: seq<Event>, ghost dropped: set<nat>) returns (trace: seq<Event>, result: int)
    requires Ready(run, trace0, dropped) && NextTurn(run, trace0) == Some(Start(i))
    ensures Settled(run, trace, result, dropped) && trace == trace0 + MessageVisit(run, trace0, i)
    ensures Open(trace) == Open(trace0) + [i] && Position(trace) == (i, 1)
  {
    hide Said, Lawful, Result, DroppedBy, Stopped, Open, Position, NextTurn;
    TrackedFurther(run, trace0, Start(i), dropped);
    FurtherOpen(trace0, Start(i));
    LastOf(trace0, Start(i));
    result := Said(run, trace0, Start(i));
    trace := trace0 + [Start(i)];
    if result == OKAY {
      TrackedFurther(run, trace, Tlvs(i), dropped);
      FurtherOpen(trace, Tlvs(i));
      LastOf(trace, Tlvs(i));
      result := Said(run, trace, Tlvs(i));
      trace := trace + [Tlvs(i)];
    }
  }

  /** The end of one address, whatever the consumer said before. */
  method EndAddress(run: Run, i: nat, a: nat, trace0: seq<Event>, result0: int, dropped0: set<nat>)
    returns (trace: seq<Event>, result: int, dropped: set<nat>)
    requires Tracked(run, trace0, result0, dropped0) && !Stopped(run, trace0)
    requires i < |run.consumers| && Next(run, trace0) == Some(AddrEnd(i, a, result0 != OKAY))
    ensures Settled(run, trace, result, dropped) && trace == trace0 + [AddrEnd(i, a, result0 != OKAY)]
    ensures Open(trace) == Open(trace0) && Position(trace) == Position(trace0) && dropped0 <= dropped <= dropped0 + {a}
  {
    hide Lawful, Result, DroppedBy, Stopped, Open, Position, Next;
    var e := AddrEnd(i, a, result0 != OKAY);
    Further(run, trace0, e);
    FurtherDropped(run, trace0, e, |run.consumers|);
    FurtherOpen(trace0, e);
    LastOf(trace0, e);
    result, dropped := result0, dropped0;
    if run.consumers[i].hasEnd {
      var r := run.answers(trace0 + [e]);
      if r > result {
        result := r;
      }
    }
    trace := trace0 + [e];
    if result == DROP_ADDRESS {
      dropped := dropped + {a};
      result := OKAY;
    }
  }

  /** One address of schedule_msgaddr_consumer. */
  method ScheduleAddress(run: Run, i: nat, a: nat, trace0: seq<Event>, dropped0: set<nat>)
    returns (trace: seq<Event>, result: int, dropped: set<nat>)
    requires Ready(run, trace0, dropped0) && i < |run.consumers| && NextTurn(run, trace0) == Some(AddrStart(i, a))
    ensures Settled(run, trace, result, dropped) && trace == trace0 + AddressVisit(run, trace0, i, a)
    ensures Open(trace) == Open(trace0) && Position(trace) == (i, a + 1) && dropped0 <= dropped <= dropped0 + {a}
  {
    hide Said, Lawful, Result, DroppedBy, Stopped, Open, Position, NextTurn;
    TrackedFurther(run, trace0, AddrStart(i, a), dropped0);
    FurtherOpen(trace0, AddrStart(i, a));
    LastOf(trace0, AddrStart(i, a));
    result := Said(run, trace0, AddrStart(i, a));
    trace := trace0 + [AddrStart(i, a)];
    if result == OKAY {
      TrackedFurther(run, trace, AddrTlvs(i, a), dropped0);
      FurtherOpen(trace, AddrTlvs(i, a));
      LastOf(trace, AddrTlvs(i, a));
      result := Said(run, trace, AddrTlvs(i, a));
      trace := trace + [AddrTlvs(i, a)];
      assert trace == trace0 + [AddrStart(i, a), AddrTlvs(i, a)];
    }
    trace, result, dropped := EndAddress(run, i, a, trace, result, dropped0);
  }

  /** Where the next visit is looked for. */
  ghost predicate Bound(run: Run, trace: seq<Event>, dropped: set<nat>, i: nat, a: nat) {
    NextVisit(run, dropped, Position(trace).0, Position(trace).1) == NextVisit(run, dropped, i, a)
  }

  /** A visit to consumer `i` need not wait for others to be ended. */
  predicate MayVisit(run: Run, trace: seq<Event>, i: nat) {
    Open(trace) == [] || OrderOf(run, i) <= OrderOf(run, Open(trace)[|Open(trace)| - 1])
  }

  lemma VisitTurn(run: Run, trace: seq<Event>, dropped: set<nat>, i: nat, a: nat, v: Event)
    requires Ready(run, trace, dropped) && Bound(run, trace, dropped, i, a)
    requires NextVisit(run, dropped, i, a) == Some(v) && v.i == i && MayVisit(run, trace, i)
    ensures NextTurn(run, trace) == Some(v)
  {
    hide NextVisit, Stopped, Position, DroppedBy, Open, Result, Lawful;
  }

  /** schedule_msgaddr_consumer: every address that has not been dropped is
      visited, up to the first result that is more than a dropped address. */
  method ScheduleAddresses(run: Run, i: nat, trace0: seq<Event>, dropped0: set<nat>)
    returns (trace: seq<Event>, result: int, dropped: set<nat>)
    requires Ready(run, trace0, dropped0) && Bound(run, trace0, dropped0, i, 0) && OfAddresses(run, i) && MayVisit(run, trace0, i)
    ensures Settled(run, trace, result, dropped) && Open(trace) == Open(trace0)
    ensures result == OKAY ==> Bound(run, trace, dropped, i + 1, 0)
  {
    hide Stopped, Position, DroppedBy, Open, Result, Lawful, AddressVisit, Idle;
    trace, result, dropped := trace0, OKAY, dropped0;
    var a := 0;
    while a < run.addresses
      invariant a <= run.addresses && Ready(run, trace, dropped) && Bound(run, trace, dropped, i, a) && result == OKAY
      invariant Open(trace) == Open(trace0)
    {
      if a !in dropped {
        VisitTurn(run, trace, dropped, i, a, AddrStart(i, a));
        trace, result, dropped := ScheduleAddress(run, i, a, trace, dropped);
        if result != OKAY {
          return;
        }
      }
      a := a + 1;
    }
  }

  /** The message consumers from `first` up to `n` that want the message. */
  function Group(run: Run, first: nat, n: nat): seq<nat> {
    if n <= first then [] else Group(run, first, n - 1) + if OfMessages(run, n - 1) then [n - 1] else []
  }

  /** No visit can come before an end. */
  predicate Ending(run: Run, trace: seq<Event>) {
    var v := Candidate(run, trace);
    v.None? || forall k :: 0 <= k < |Open(trace)| ==> OrderOf(run, v.value.i) > OrderOf(run, Open(trace)[k])
  }

  lemma EndTurn(run: Run, trace: seq<Event>, i: nat, result: int)
    requires Ending(run, trace) && Idle(run, trace) && Open(trace) != [] && Open(trace)[|Open(trace)| - 1] == i
    requires result == Result(run, trace)
    ensures Next(run, trace) == Some(End(i, result != OKAY))
  {
    hide Candidate, Open, Result;
  }

  /** An end leaves the rest of the group to be ended. */
  lemma EndFurther(run: Run, trace: seq<Event>, e: Event, dropped: set<nat>)
    requires Tracked(run, trace, Result(run, trace), dropped) && Next(run, trace) == Some(e) && e.End? && Ending(run, trace)
    requires Open(trace) != []
    ensures Ending(run, trace + [e]) && Idle(run, trace + [e])
    ensures Candidate(run, trace) == None ==> Candidate(run, trace + [e]) == None
    ensures Open(trace + [e]) == Open(trace)[..|Open(trace)| - 1] && Position(trace + [e]) == Position(trace)
  {
    hide Next, NextVisit, Open, Result, DroppedBy, Position, Lawful, Stopped;
    TrackedFurther(run, trace, e, dropped);
    FurtherOpen(trace, e);
    LastOf(trace, e);
  }

  lemma GroupLast(run: Run, first: nat, n: nat)
    requires first < n
    ensures Group(run, first, n) == if OfMessages(run, n - 1) then Group(run, first, n - 1) + [n - 1] else Group(run, first, n - 1)
  {
    assert Group(run, first, n - 1) + [] == Group(run, first, n - 1);
  }

  lemma NoGroup(run: Run, first: nat)
    ensures Group(run, first, first) == []
  {
  }

  /** schedule_end_message_cbs: from the last consumer back to the first. */
  method ScheduleEnds(run: Run, first: nat, last: nat, trace0: seq<Event>, result0: int, ghost dropped: set<nat>)
    returns (trace: seq<Event>, result: int)
    requires first <= last < |run.consumers| && Settled(run, trace0, result0, dropped) && Ending(run, trace0)
    requires Open(trace0) == Group(run, first, last + 1)
    ensures Tracked(run, trace, result, dropped) && Idle(run, trace) && Ending(run, trace) && Open(trace) == []
    ensures Position(trace) == Position(trace0)
    ensures Candidate(run, trace0) == None ==> Candidate(run, trace) == None
    ensures result0 == OKAY ==> Settled(run, trace, result, dropped)
  {
    hide Group, OfMessages, Next, Idle, Open, Position, Lawful, Stopped, Result, DroppedBy, Ending, Candidate;
    trace, result := trace0, result0;
    var n := last + 1;
    while n > first
      invariant first <= n <= last + 1
      invariant Tracked(run, trace, result, dropped) && Idle(run, trace) && Ending(run, trace)
      invariant Open(trace) == Group(run, first, n) && Position(trace) == Position(trace0)
      invariant Candidate(run, trace0) == None ==> Candidate(run, trace) == None
      invariant result0 == OKAY ==> result >= OKAY && (Stopped(run, trace) <==> result != OKAY)
    {
      GroupLast(run, first, n);
      n := n - 1;
      if OfMessages(run, n) {
        var e := End(n, result != OKAY);
        EndTurn(run, trace, n, result);
        TrackedFurther(run, trace, e, dropped);
        EndFurther(run, trace, e, dropped);
        if run.consumers[n].hasEnd {
          var r := run.answers(trace + [e]);
          if r > result {
            result := r;
          }
        }
        trace := trace + [e];
      }
    }
    NoGroup(run, first);
  }

  /** The open consumers are those of a group with one order. */
  ghost predicate OneGroup(run: Run, trace: seq<Event>, first: nat, last: nat) {
    && first <= last < |run.consumers| && OfMessages(run, last) && Open(trace) == Group(run, first, last + 1)
    && forall j :: first <= j <= last ==> OrderOf(run, j) == OrderOf(run, last)
  }

  lemma {:induction false} GroupInside(run: Run, first: nat, n: nat, k: nat)
    requires k < |Group(run, first, n)|
    ensures first <= Group(run, first, n)[k] < n
  {
    if k < |Group(run, first, n - 1)| {
      GroupInside(run, first, n - 1, k);
    }
  }

  /** Between the last of a group and `i` nobody wants the message. */
  lemma {:induction false} GroupGap(run: Run, first: nat, last: nat, i: nat)
    requires first <= last < i && forall j :: last < j < i ==> !OfMessages(run, j)
    ensures Group(run, first, i) == Group(run, first, last + 1)
    decreases i
  {
    if last + 1 < i {
      GroupGap(run, first, last, i - 1);
      GroupLast(run, first, i);
    }
  }

  /** What NextVisit finds. */
  lemma {:induction false} NextVisitFound(run: Run, dropped: set<nat>, i: nat, a: nat)
    requires NextVisit(run, dropped, i, a).Some?
    ensures var v := NextVisit(run, dropped, i, a).value;
      && v.i < |run.consumers|
      && ((OfMessages(run, v.i) && v == Start(v.i) && (v.i > i || (v.i == i && a == 0)))
        || (OfAddresses(run, v.i) && v.AddrStart? && v.a < run.addresses && v.a !in dropped && (v.i > i || (v.i == i && v.a >= a))))
    decreases |run.consumers| - i, run.addresses - a
  {
    if OfMessages(run, i) && a == 0 {
    } else if OfAddresses(run, i) && a < run.addresses {
      if a in dropped {
        NextVisitFound(run, dropped, i, a + 1);
      }
    } else {
      NextVisitFound(run, dropped, i + 1, 0);
    }
  }

  /** At a consumer of larger order the group before it is to be ended. */
  lemma GroupEnding(run: Run, trace: seq<Event>, dropped: set<nat>, first: nat, last: nat, i: nat)
    requires InOrder(run.consumers) && OneGroup(run, trace, first, last) && Ready(run, trace, dropped) && Bound(run, trace, dropped, i, 0)
    requires i < |run.consumers| ==> OrderOf(run, i) > OrderOf(run, last)
    ensures Ending(run, trace)
  {
    hide Lawful, Stopped, Open, Position, DroppedBy, Group, NextVisit, OfMessages, Idle, Result;
    if Candidate(run, trace).Some? {
      NextVisitFound(run, dropped, i, 0);
      forall k | 0 <= k < |Open(trace)| ensures OrderOf(run, Open(trace)[k]) == OrderOf(run, last) {
        GroupInside(run, first, last + 1, k);
      }
    }
  }

  lemma GroupJoins(run: Run, trace: seq<Event>, first: nat, last: nat, i: nat)
    requires InOrder(run.consumers) && OneGroup(run, trace, first, last) && last < i < |run.consumers|
    requires OrderOf(run, i) <= OrderOf(run, last)
    ensures MayVisit(run, trace, i) && forall j :: first <= j <= i ==> OrderOf(run, j) == OrderOf(run, i)
  {
    hide Open;
    GroupLast(run, first, last + 1);
  }

  /** The state of the loop over the consumers. */
  ghost predicate AtConsumer(run: Run, trace: seq<Event>, gone: set<nat>, n: nat, some: bool, first: nat, last: nat) {
    && n <= |run.consumers| && Ready(run, trace, gone) && Bound(run, trace, gone, n, 0)
    && if some then OneGroup(run, trace, first, last) && last < n && (forall j :: last < j < n ==> !OfMessages(run, j)) else Open(trace) == []
  }

  lemma AllVisited(run: Run, trace: seq<Event>, gone: set<nat>, n: nat)
    requires Ready(run, trace, gone) && Bound(run, trace, gone, n, 0) && n >= |run.consumers|
    ensures Candidate(run, trace) == None
  {
    hide Stopped, Position, DroppedBy, Idle, Result, Lawful;
  }

  lemma AllEnded(run: Run, trace: seq<Event>)
    requires Lawful(run, trace) && Idle(run, trace) && Open(trace) == [] && Candidate(run, trace) == None
    ensures Finished(run, trace)
  {
    hide Lawful, Idle, Open, Candidate;
  }

  /** The state behind a consumer that wants the message. */
  ghost predicate BehindConsumer(run: Run, trace: seq<Event>, result: int, gone: set<nat>, i: nat, some: bool, first: nat, last: nat) {
    && Settled(run, trace, result, gone) && (result == OKAY ==> Bound(run, trace, gone, i + 1, 0))
    && if some then OneGroup(run, trace, first, last) && last <= i && (forall j :: last < j <= i ==> !OfMessages(run, j)) else Open(trace) == []
  }

  /** A consumer of the loop in _handle_message, behind the ends of those before it. */
  method ScheduleConsumer(run: Run, i: nat, trace0: seq<Event>, gone0: set<nat>, some0: bool, first0: nat, last0: nat)
    returns (trace: seq<Event>, result: int, gone: set<nat>, some: bool, first: nat, last: nat)
    requires InOrder(run.consumers) && AtConsumer(run, trace0, gone0, i, some0, first0, last0) && Interested(run, i)
    requires some0 ==> OrderOf(run, i) <= OrderOf(run, last0)
    ensures BehindConsumer(run, trace, result, gone, i, some, first, last)
  {
    hide Lawful, Stopped, Open, Position, DroppedBy, Group, Idle, Result, NextTurn, MessageVisit;
    trace, gone, some, first, last := trace0, gone0, some0, first0, last0;
    if some {
      GroupJoins(run, trace, first, last, i);
    }
    if run.consumers[i].addresses {
      trace, result, gone := ScheduleAddresses(run, i, trace, gone);
    } else {
      VisitTurn(run, trace, gone, i, 0, Start(i));
      trace, result := ScheduleMessage(run, i, trace, gone);
      if some {
        GroupGap(run, first, last, i);
      } else {
        first, some := i, true;
        NoGroup(run, i);
      }
      GroupLast(run, first, i + 1);
      last := i;
    }
  }

  /** Behind the loop everybody who was started is ended. */
  method ScheduleLastEnds(run: Run, trace0: seq<Event>, result0: int, ghost gone: set<nat>, some: bool, first: nat, last: nat)
    returns (trace: seq<Event>, result: int)
    requires Settled(run, trace0, result0, gone) && Candidate(run, trace0) == None
    requires if some then OneGroup(run, trace0, first, last) else Open(trace0) == []
    ensures Finished(run, trace) && Tracked(run, trace, result, gone)
  {
    hide Lawful, Stopped, Open, Position, DroppedBy, Group, Idle, Result, Next, NextVisit;
    trace, result := trace0, result0;
    if some {
      trace, result := ScheduleEnds(run, first, last, trace, result, gone);
    }
    AllEnded(run, trace);
  }

  /** The consumers of a parsed message, sorted by their order: what happens is
      what Next says, up to the end. */
  method ScheduleConsumers(run: Run) returns (trace: seq<Event>, result: int, dropped: set<nat>)
    requires InOrder(run.consumers)
    ensures Finished(run, trace) && result == Result(run, trace) && dropped == Dropped(run, trace)
  {
    hide Lawful, Stopped, Open, Position, DroppedBy, Group, Idle, Result, Next;
    var first: nat, last: nat, some := 0, 0, false;
    var n: nat := 0;
    Nothing(run);
    trace, result, dropped := [], OKAY, {};
    while n < |run.consumers|
      invariant AtConsumer(run, trace, dropped, n, some, first, last) && result == OKAY
    {
      var i := n;
      n := n + 1;
      if Interested(run, i) {
        if some && run.consumers[i].order > run.consumers[last].order {
          GroupEnding(run, trace, dropped, first, last, i);
          trace, result := ScheduleEnds(run, first, last, trace, result, dropped);
          if result != OKAY {
            AllEnded(run, trace);
            return;
          }
          some := false;
        }
        trace, result, dropped, some, first, last := ScheduleConsumer(run, i, trace, dropped, some, first, last);
        if result != OKAY {
          trace, result := ScheduleLastEnds(run, trace, result, dropped, some, first, last);
          return;
        }
      }
    }
    AllVisited(run, trace, dropped, n);
    trace, result := ScheduleLastEnds(run, trace, result, dropped, some, first, last);
  }

  // ----- there is only one run

  function LeftConsumers(run: Run, trace: seq<Event>): nat {
    if Position(trace).0 <= |run.consumers| then |run.consumers| - Position(trace).0 else 0
  }

  function LeftAddresses(run: Run, trace: seq<Event>): nat {
    if Position(trace).1 <= run.addresses + 1 then run.addresses + 1 - Position(trace).1 else 0
  }

  function LeftOfVisit(run: Run, trace: seq<Event>): nat {
    if Idle(run, trace) then 0 else if trace[|trace| - 1].AddrStart? then 2 else 1
  }

  lemma NextSmaller(run: Run, trace: seq<Event>, e: Event)
    requires Next(run, trace) == Some(e)
    ensures var t := trace + [e];
      LeftConsumers(run, t) < LeftConsumers(run, trace) || (LeftConsumers(run, t) == LeftConsumers(run, trace)
        && (LeftAddresses(run, t) < LeftAddresses(run, trace) || (LeftAddresses(run, t) == LeftAddresses(run, trace)
          && (LeftOfVisit(run, t) < LeftOfVisit(run, trace) || (LeftOfVisit(run, t) == LeftOfVisit(run, trace)
            && |Open(t)| < |Open(trace)|)))))
  {
    hide NextVisit, Stopped, DroppedBy, Position, Open, Result;
    FurtherOpen(trace, e);
    LastOf(trace, e);
    if Idle(run, trace) && Candidate(run, trace) == Some(e) {
      NextVisitFound(run, Dropped(run, trace), Position(trace).0, Position(trace).1);
    }
  }

  /** What happens after a trace, to the end. */
  ghost function Complete(run: Run, trace: seq<Event>): (t: seq<Event>)
    requires Lawful(run, trace)
    ensures Finished(run, t)
    decreases LeftConsumers(run, trace), LeftAddresses(run, trace), LeftOfVisit(run, trace), |Open(trace)|
  {
    match Next(run, trace)
    case None => trace
    case Some(e) =>
      NextSmaller(run, trace, e);
      Further(run, trace, e);
      Complete(run, trace + [e])
  }

  /** A message has only one finished trace. */
  lemma {:induction false} OnlyOne(run: Run, trace: seq<Event>, k: nat)
    requires Finished(run, trace) && k <= |trace|
    ensures Lawful(run, trace[..k]) && Complete(run, trace[..k]) == trace
    decreases |trace| - k
  {
    hide Next;
    if k < |trace| {
      OnlyOne(run, trace, k + 1);
      assert trace[..k + 1] == trace[..k] + [trace[k]];
      Further(run, trace[..k], trace[k]);
    } else {
      assert trace[..k] == trace;
    }
  }

  /** The result that stands at the end of _handle_message. */
  ghost function Outcome(run: Run): int {
    Result(run, Complete(run, []))
  }

  lemma OutcomeIs(run: Run, trace: seq<Event>)
    requires Finished(run, trace)
    ensures Outcome(run) == Result(run, trace)
  {
    OnlyOne(run, trace, 0);
    assert trace[..0] == [];
  }

  // ----- each start has its end

  /** A lawful trace is one event longer than another. */
  lemma Shorter(run: Run, trace: seq<Event>) returns (front: seq<Event>, e: Event)
    requires Lawful(run, trace) && trace != []
    ensures trace == front + [e] && front == trace[..|trace| - 1] && e == trace[|trace| - 1]
    ensures Lawful(run, front) && Next(run, front) == Some(e)
  {
    front, e := trace[..|trace| - 1], trace[|trace| - 1];
  }

  /** Only the consumer that was started last is ended. */
  lemma EndsTop(run: Run, trace: seq<Event>, e: Event)
    requires Next(run, trace) == Some(e) && e.End?
    ensures Open(trace) != [] && Open(trace)[|Open(trace)| - 1] == e.i && e.dropped == (Result(run, trace) != OKAY)
  {
    hide NextVisit, Open, Result, Stopped, DroppedBy, Position;
    if Candidate(run, trace).Some? {
      NextVisitFound(run, Dropped(run, trace), Position(trace).0, Position(trace).1);
    }
  }

  function Ended(trace: seq<Event>, i: nat): nat {
    multiset(trace)[End(i, false)] + multiset(trace)[End(i, true)]
  }

  function AddressEnded(trace: seq<Event>, i: nat, a: nat): nat {
    multiset(trace)[AddrEnd(i, a, false)] + multiset(trace)[AddrEnd(i, a, true)]
  }

  lemma EndedMore(trace: seq<Event>, e: Event, i: nat)
    ensures multiset(trace + [e])[Start(i)] == multiset(trace)[Start(i)] + if e == Start(i) then 1 else 0
    ensures Ended(trace + [e], i) == Ended(trace, i) + if e.End? && e.i == i then 1 else 0
  {
  }

  lemma PushedPopped(s: seq<nat>, i: nat, j: nat)
    ensures multiset(s + [j])[i] == multiset(s)[i] + if i == j then 1 else 0
    ensures s != [] && s[|s| - 1] == j ==> multiset(s)[i] == multiset(s[..|s| - 1])[i] + if i == j then 1 else 0
  {
    if s != [] {
      assert s == s[..|s| - 1] + [s[|s| - 1]];
    }
  }

  lemma NoneEnded(i: nat)
    ensures Ended([], i) == 0 && Open([]) == []
  {
  }

  lemma {:induction false} OpenCounts(run: Run, trace: seq<Event>, i: nat)
    requires Lawful(run, trace)
    ensures multiset(trace)[Start(i)] == Ended(trace, i) + multiset(Open(trace))[i]
    decreases |trace|
  {
    hide *;
    if trace == [] {
      NoneEnded(i);
    } else {
      var front, e := Shorter(run, trace);
      OpenCounts(run, front, i);
      FurtherOpen(front, e);
      EndedMore(front, e, i);
      PushedPopped(Open(front), i, e.i);
      if e.End? {
        EndsTop(run, front, e);
      }
    }
  }

  /** The address that is being visited. */
  predicate At(trace: seq<Event>, i: nat, a: nat) {
    trace != [] && (trace[|trace| - 1] == AddrStart(i, a) || trace[|trace| - 1] == AddrTlvs(i, a))
  }

  /** An address's events can only come in this order. */
  lemma VisitOrder(run: Run, trace: seq<Event>, e: Event)
    requires Next(run, trace) == Some(e)
    ensures e.AddrTlvs? ==> trace != [] && trace[|trace| - 1] == AddrStart(e.i, e.a)
    ensures e.AddrEnd? ==> At(trace, e.i, e.a) && e.dropped == (Result(run, trace) != OKAY)
    ensures e.Tlvs? ==> trace != [] && trace[|trace| - 1] == Start(e.i) && Result(run, trace) == OKAY
    ensures forall i, a :: At(trace, i, a) ==> e == AddrTlvs(i, a) || (e.AddrEnd? && e.i == i && e.a == a)
  {
    hide NextVisit, Open, Result, Stopped, DroppedBy, Position;
    if Idle(run, trace) && Candidate(run, trace).Some? {
      NextVisitFound(run, Dropped(run, trace), Position(trace).0, Position(trace).1);
    }
  }

  lemma {:induction false} AddressCounts(run: Run, trace: seq<Event>, i: nat, a: nat)
    requires Lawful(run, trace)
    ensures multiset(trace)[AddrStart(i, a)] == AddressEnded(trace, i, a) + if At(trace, i, a) then 1 else 0
    decreases |trace|
  {
    if trace != [] {
      var front, e := Shorter(run, trace);
      AddressCounts(run, front, i, a);
      VisitOrder(run, front, e);
      LastOf(front, e);
    }
  }

  /** The parser's guarantee: each start has its end, whatever is dropped. */
  lemma EachStartEnds(run: Run, trace: seq<Event>, i: nat, a: nat)
    requires Finished(run, trace)
    ensures multiset(trace)[Start(i)] == Ended(trace, i)
    ensures multiset(trace)[AddrStart(i, a)] == AddressEnded(trace, i, a)
  {
    hide Lawful, NextVisit, Open, Result, Stopped, DroppedBy, Position;
    OpenCounts(run, trace, i);
    AddressCounts(run, trace, i, a);
  }

  // ----- nobody is called in vain

  lemma {:induction false} StoppedIdle(run: Run, trace: seq<Event>)
    requires Lawful(run, trace) && Stopped(run, trace)
    ensures Idle(run, trace)
    decreases |trace|
  {
    var front, e := Shorter(run, trace);
    if Stopped(run, front) {
      StoppedIdle(run, front);
    }
  }

  /** Once the run has been stopped there are only ends. */
  lemma OnlyEnds(run: Run, trace: seq<Event>, e: Event)
    requires Lawful(run, trace) && Stopped(run, trace) && Next(run, trace) == Some(e)
    ensures e.End?
  {
    StoppedIdle(run, trace);
  }

  // ----- who is visited

  /** The visit of address `a` by consumer `i` comes before `p`. */
  predicate Before(i: nat, a: nat, p: (nat, nat)) {
    i < p.0 || (i == p.0 && a < p.1)
  }

  /** Visits only go forward. */
  lemma VisitForward(run: Run, trace: seq<Event>, e: Event)
    requires Next(run, trace) == Some(e)
    ensures e.AddrStart? ==> OfAddresses(run, e.i) && !Before(e.i, e.a, Position(trace)) && e.a !in Dropped(run, trace)
    ensures e.Start? ==> OfMessages(run, e.i) && !Before(e.i, 0, Position(trace))
    ensures e.AddrStart? || e.Start? ==> Candidate(run, trace) == Some(e)
  {
    hide NextVisit, Open, Result, Stopped, DroppedBy, Position;
    if Candidate(run, trace).Some? {
      NextVisitFound(run, Dropped(run, trace), Position(trace).0, Position(trace).1);
    }
  }

  /** What is still to come has not been. */
  lemma {:induction false} NotYet(run: Run, trace: seq<Event>, i: nat, a: nat)
    requires Lawful(run, trace) && !Before(i, a, Position(trace))
    ensures multiset(trace)[AddrStart(i, a)] == 0 && (a == 0 ==> multiset(trace)[Start(i)] == 0)
    decreases |trace|
  {
    if trace != [] {
      var front, e := Shorter(run, trace);
      FurtherOpen(front, e);
      VisitForward(run, front, e);
      NotYet(run, front, i, a);
    }
  }

  /** What NextVisit passes over has been dropped, or is for nobody. */
  lemma {:induction false} PassedOver(run: Run, dropped: set<nat>, i: nat, a: nat, j: nat, b: nat)
    requires !Before(j, b, (i, a)) && j < |run.consumers|
    requires NextVisit(run, dropped, i, a).Some? ==>
      var v := NextVisit(run, dropped, i, a).value; j < v.i || (j == v.i && v.AddrStart? && b < v.a)
    ensures OfMessages(run, j) ==> b > 0
    ensures OfAddresses(run, j) && b < run.addresses ==> b in dropped
    decreases |run.consumers| - i, run.addresses - a
  {
    if OfMessages(run, i) && a == 0 {
    } else if OfAddresses(run, i) && a < run.addresses {
      if a in dropped && (j != i || b != a) {
        PassedOver(run, dropped, i, a + 1, j, b);
      }
    } else if j > i {
      PassedOver(run, dropped, i + 1, 0, j, b);
    }
  }

  lemma {:induction false} VisitPosition(run: Run, trace: seq<Event>, i: nat, a: nat)
    requires Lawful(run, trace) && At(trace, i, a)
    ensures Position(trace) == (i, a + 1)
  {
    var front, e := Shorter(run, trace);
    FurtherOpen(front, e);
    if e.AddrTlvs? {
      VisitOrder(run, front, e);
      VisitPosition(run, front, i, a);
    }
  }

  /** An address was dropped by a consumer that had visited it. */
  lemma {:induction false} DroppersBefore(run: Run, trace: seq<Event>, j: nat, b: nat)
    requires Lawful(run, trace) && !Before(j, b, Position(trace)) && b in Dropped(run, trace)
    ensures b in DroppedBy(run, trace, j)
    decreases |trace|
  {
    hide NextVisit, Result, Stopped, Next, Position;
    var front, e := Shorter(run, trace);
    FurtherOpen(front, e);
    VisitForward(run, front, e);
    VisitOrder(run, front, e);
    if b in Dropped(run, front) {
      DroppersBefore(run, front, j, b);
    } else {
      VisitPosition(run, front, e.i, b);
    }
  }

  lemma {:induction false} DroppedByFewer(run: Run, trace: seq<Event>, n: nat)
    requires n <= |run.consumers|
    ensures DroppedBy(run, trace, n) <= Dropped(run, trace)
  {
    if trace != [] {
      DroppedByFewer(run, trace[..|trace| - 1], n);
    }
  }

  /** How often the visit has been made, if it comes before the position: a
      message consumer is called once, and an address is shown once, unless an
      earlier consumer had it dropped. */
  ghost predicate VisitedRight(run: Run, trace: seq<Event>, i: nat, a: nat) {
    && (OfMessages(run, i) && a == 0 ==> multiset(trace)[Start(i)] == 1)
    && (OfAddresses(run, i) && a < run.addresses ==>
      multiset(trace)[AddrStart(i, a)] == if a in DroppedBy(run, trace, i) then 0 else 1)
  }

  /** The visit is made now. */
  lemma VisitNow(run: Run, front: seq<Event>, e: Event, i: nat, a: nat)
    requires Lawful(run, front) && Next(run, front) == Some(e) && i < |run.consumers|
    requires e == AddrStart(i, a) || (e == Start(i) && a == 0)
    ensures VisitedRight(run, front + [e], i, a)
  {
    hide Next, NextVisit, Lawful, Position, DroppedBy;
    VisitForward(run, front, e);
    NotYet(run, front, i, a);
    FurtherDropped(run, front, e, i);
    DroppedByFewer(run, front, i);
  }

  /** The visit is passed over now. */
  lemma VisitPassed(run: Run, front: seq<Event>, i: nat, a: nat)
    requires Lawful(run, front) && i < |run.consumers| && !Before(i, a, Position(front)) && !Stopped(run, front)
    requires Candidate(run, front).Some? ==>
      var v := Candidate(run, front).value; i < v.i || (i == v.i && v.AddrStart? && a < v.a)
    ensures VisitedRight(run, front, i, a)
  {
    hide Next, NextVisit, Lawful, Position, DroppedBy, Stopped, Before;
    PassedOver(run, Dropped(run, front), Position(front).0, Position(front).1, i, a);
    NotYet(run, front, i, a);
    if OfAddresses(run, i) && a < run.addresses {
      DroppersBefore(run, front, i, a);
    }
  }

  /** Another event makes no difference to an earlier visit. */
  lemma VisitStays(run: Run, front: seq<Event>, e: Event, i: nat, a: nat)
    requires Lawful(run, front) && Next(run, front) == Some(e) && VisitedRight(run, front, i, a)
    requires e != AddrStart(i, a) && (e == Start(i) ==> a > 0) && (e.AddrEnd? ==> i <= e.i)
    ensures VisitedRight(run, front + [e], i, a)
  {
    hide Next, NextVisit, Lawful, Position, DroppedBy, Stopped;
    FurtherDropped(run, front, e, i);
  }

  lemma {:induction false} VisitsAre(run: Run, trace: seq<Event>, i: nat, a: nat)
    requires Lawful(run, trace) && i < |run.consumers| && Before(i, a, Position(trace))
    ensures VisitedRight(run, trace, i, a)
    decreases |trace|
  {
    hide Next, NextVisit, Lawful, DroppedBy, Stopped, VisitedRight, Position;
    Nothing(run);
    var front, e := Shorter(run, trace);
    FurtherOpen(front, e);
    VisitForward(run, front, e);
    VisitOrder(run, front, e);
    if e.AddrEnd? {
      VisitPosition(run, front, e.i, e.a);
    }
    if e == AddrStart(i, a) || (e == Start(i) && a == 0) {
      VisitNow(run, front, e, i, a);
    } else {
      if Before(i, a, Position(front)) {
        VisitsAre(run, front, i, a);
      } else {
        VisitPassed(run, front, i, a);
      }
      VisitStays(run, front, e, i, a);
    }
  }

  lemma FinishedIdle(run: Run, trace: seq<Event>)
    requires Finished(run, trace)
    ensures Idle(run, trace) && Open(trace) == [] && Candidate(run, trace) == None
  {
    hide NextVisit, Lawful, Position, DroppedBy, Stopped, Open, Result;
  }

  /** A run that is not stopped makes every visit once, but for the addresses
      that an earlier consumer had dropped. */
  lemma EverybodyVisited(run: Run, trace: seq<Event>, i: nat, a: nat)
    requires Finished(run, trace) && !Stopped(run, trace) && i < |run.consumers|
    ensures VisitedRight(run, trace, i, a)
  {
    hide Next, NextVisit, Lawful, Position, DroppedBy, Stopped, VisitedRight;
    FinishedIdle(run, trace);
    if Before(i, a, Position(trace)) {
      VisitsAre(run, trace, i, a);
    } else {
      VisitPassed(run, trace, i, a);
    }
  }

  // ----- what the result tells

  /** No callback answers with an error code. */
  ghost predicate NoErrors(run: Run) {
    forall trace :: run.answers(trace) >= OKAY
  }

  /** Without error codes the result tells whether the run was stopped. */
  lemma {:induction false} StoppedTells(run: Run, trace: seq<Event>)
    requires Lawful(run, trace) && NoErrors(run)
    ensures Result(run, trace) >= OKAY && (Stopped(run, trace) ==> Result(run, trace) > OKAY)
    decreases |trace|
  {
    hide NextVisit, Position, DroppedBy, Open, Idle;
    if trace != [] {
      var front, e := Shorter(run, trace);
      StoppedTells(run, front);
      Further(run, front, e);
      if Stopped(run, front) {
        OnlyEnds(run, front, e);
      }
    }
  }

  /** And the ends of messages are told whether the run was stopped. */
  lemma FlagsTell(run: Run, trace: seq<Event>, e: Event)
    requires Lawful(run, trace) && NoErrors(run) && Next(run, trace) == Some(e) && e.End?
    ensures e.dropped <==> Stopped(run, trace)
  {
    hide NextVisit, Position, DroppedBy, Open, Lawful, NoErrors;
    StoppedTells(run, trace);
    EndsTop(run, trace, e);
  }

  /** So if nothing is to be dropped everybody has been visited. */
  lemma OkayVisitsAll(run: Run, trace: seq<Event>, i: nat, a: nat)
    requires Finished(run, trace) && NoErrors(run) && Result(run, trace) == OKAY && i < |run.consumers|
    ensures VisitedRight(run, trace, i, a)
  {
    StoppedTells(run, trace);
    EverybodyVisited(run, trace, i, a);
  }

  /** An error code is forgotten at an end exactly if there is a callback that
      answers with OKAY, or with dropping the address where it is one's end. */
  lemma ErrorForgottenExactly(run: Run, trace: seq<Event>, e: Event)
    requires Result(run, trace) < OKAY && (e.End? || e.AddrEnd?)
    ensures Result(run, trace + [e]) == OKAY
       <==> HasEnd(run, e.i) && (run.answers(trace + [e]) == OKAY || (e.AddrEnd? && run.answers(trace + [e]) == DROP_ADDRESS))
  {
    Further(run, trace, e);
  }

  // ----- groups

  /** Those who wait for an end have the order of consumer `i`. */
  ghost predicate OneOrder(run: Run, trace: seq<Event>, i: nat) {
    forall k :: 0 <= k < |Open(trace)| ==>
      Open(trace)[k] < |run.consumers| && OrderOf(run, Open(trace)[k]) == OrderOf(run, i)
  }

  /** Those who wait for an end have one order, and have been visited. */
  ghost predicate Waiting(run: Run, trace: seq<Event>) {
    forall k :: 0 <= k < |Open(trace)| ==>
      Open(trace)[k] < |run.consumers| && Open(trace)[k] <= Position(trace).0 && OrderOf(run, Open(trace)[k]) == OrderOf(run, Open(trace)[0])
  }

  /** Nobody is visited while consumers of smaller order wait for their end. */
  lemma VisitOrdered(run: Run, trace: seq<Event>, e: Event)
    requires InOrder(run.consumers) && Waiting(run, trace) && Next(run, trace) == Some(e) && (e.Start? || e.AddrStart?)
    ensures OneOrder(run, trace, e.i)
  {
    hide NextVisit, Lawful, Position, DroppedBy, Stopped, Open, Result;
    VisitForward(run, trace, e);
  }

  lemma {:induction false} GroupsWait(run: Run, trace: seq<Event>)
    requires InOrder(run.consumers) && Lawful(run, trace)
    ensures Waiting(run, trace)
    decreases |trace|
  {
    hide Next, NextVisit, Lawful, DroppedBy, Stopped, Result, InOrder, Open, Position, OfMessages, OfAddresses, Dropped, Before;
    Nothing(run);
    if trace != [] {
      var front, e := Shorter(run, trace);
      GroupsWait(run, front);
      FurtherOpen(front, e);
      if e.Start? || e.AddrStart? {
        VisitOrdered(run, front, e);
        VisitForward(run, front, e);
        VisitLater(run, front, e);
      }
    }
  }

  lemma VisitLater(run: Run, trace: seq<Event>, e: Event)
    requires Next(run, trace) == Some(e) && (e.Start? || e.AddrStart?)
    ensures Position(trace).0 <= e.i < |run.consumers|
  {
    hide Next, Position, DroppedBy;
    VisitForward(run, trace, e);
  }

  /** All consumers of one order are ended before anybody of another is visited. */
  lemma GroupsApart(run: Run, trace: seq<Event>, e: Event, k: nat)
    requires InOrder(run.consumers) && Lawful(run, trace) && Next(run, trace) == Some(e) && (e.Start? || e.AddrStart?)
    requires k < |Open(trace)|
    ensures Open(trace)[k] < |run.consumers| && OrderOf(run, Open(trace)[k]) == OrderOf(run, e.i)
  {
    hide Next, NextVisit, Lawful, Open;
    GroupsWait(run, trace);
    VisitOrdered(run, trace, e);
  }

  /** An end comes before another visit only where the consumer visited next has a
      larger order. */
  ghost predicate Above(run: Run, trace: seq<Event>, o: int) {
    || (Position(trace).0 < |run.consumers| && OrderOf(run, Position(trace).0) > o)
    || (Idle(run, trace) && var v := Candidate(run, trace); v.None? || OrderOf(run, v.value.i) > o)
  }

  lemma AboveVisit(run: Run, trace: seq<Event>, e: Event, o: int)
    requires InOrder(run.consumers) && Next(run, trace) == Some(e) && (e.Start? || e.AddrStart?) && Above(run, trace, o)
    ensures e.i < |run.consumers| && OrderOf(run, e.i) > o
  {
    hide NextVisit, Stopped, DroppedBy, Position, Open, Result;
    VisitForward(run, trace, e);
  }

  /** Between two visits there is another visit, or an end. */
  lemma TurnKind(run: Run, trace: seq<Event>, e: Event)
    requires Next(run, trace) == Some(e)
    ensures Idle(run, trace) <==> e.Start? || e.AddrStart? || e.End?
    ensures e.End? ==> var v := Candidate(run, trace); v.None? || OrderOf(run, v.value.i) > OrderOf(run, e.i)
  {
    hide NextVisit, Open, Result, Stopped, DroppedBy, Position;
    if Candidate(run, trace).Some? {
      NextVisitFound(run, Dropped(run, trace), Position(trace).0, Position(trace).1);
    }
  }

  lemma AboveFurther(run: Run, trace: seq<Event>, e: Event, o: int)
    requires InOrder(run.consumers) && Lawful(run, trace) && Next(run, trace) == Some(e) && Above(run, trace, o)
    ensures Above(run, trace + [e], o)
  {
    hide NextVisit, Stopped, DroppedBy, Position, Open, Result, Lawful;
    FurtherOpen(trace, e);
    LastOf(trace, e);
    TurnKind(run, trace, e);
    if e.Start? || e.AddrStart? {
      AboveVisit(run, trace, e, o);
    } else if e.End? {
      Further(run, trace, e);
      FurtherDropped(run, trace, e, |run.consumers|);
      assert Dropped(run, trace + [e]) == Dropped(run, trace);
    }
  }

  lemma LawfulAt(run: Run, trace: seq<Event>, p: nat)
    requires Lawful(run, trace) && p <= |trace|
    ensures Lawful(run, trace[..p]) && (p < |trace| ==> Next(run, trace[..p]) == Some(trace[p]))
    decreases |trace|
  {
    hide Next;
    if p == |trace| {
      assert trace[..p] == trace;
    } else if p < |trace| - 1 {
      LawfulAt(run, trace[..|trace| - 1], p);
      assert trace[..|trace| - 1][..p] == trace[..p];
    }
  }

  lemma {:induction false} AboveStays(run: Run, trace: seq<Event>, p: nat, q: nat, o: int)
    requires InOrder(run.consumers) && Lawful(run, trace) && p <= q <= |trace| && Above(run, trace[..p], o)
    ensures Above(run, trace[..q], o)
    decreases q
  {
    hide Above, Next, Lawful, InOrder;
    if p < q {
      AboveStays(run, trace, p, q - 1, o);
      LawfulAt(run, trace, q - 1);
      AboveFurther(run, trace[..q - 1], trace[q - 1], o);
      assert trace[..q - 1] + [trace[q - 1]] == trace[..q];
    }
  }

  lemma EndAbove(run: Run, trace: seq<Event>, e: Event)
    requires Lawful(run, trace) && Next(run, trace) == Some(e) && e.End?
    ensures Above(run, trace, OrderOf(run, e.i))
  {
    hide NextVisit, Stopped, DroppedBy, Position, Open, Result, Lawful;
    TurnKind(run, trace, e);
  }

  /** Consumers are not ended before others of their own order have been visited. */
  lemma EndsSeparate(run: Run, trace: seq<Event>, p: nat, q: nat)
    requires InOrder(run.consumers) && Lawful(run, trace) && p < q < |trace|
    requires trace[p].End? && (trace[q].Start? || trace[q].AddrStart?)
    ensures trace[q].i < |run.consumers| && OrderOf(run, trace[q].i) > OrderOf(run, trace[p].i)
  {
    hide Next, Lawful, Above, InOrder;
    LawfulAt(run, trace, p);
    EndAbove(run, trace[..p], trace[p]);
    AboveStays(run, trace, p, q, OrderOf(run, trace[p].i));
    LawfulAt(run, trace, q);
    AboveVisit(run, trace[..q], trace[q], OrderOf(run, trace[p].i));
  }

  // ----- who is called, on the fields of the consumers

  /** A message of this type is for the consumer. */
  lemma {:induction false} OnlyInterested(run: Run, trace: seq<Event>, i: nat, a: nat)
    requires Lawful(run, trace)
    ensures multiset(trace)[Start(i)] > 0 ==> OfMessages(run, i)
    ensures multiset(trace)[AddrStart(i, a)] > 0 ==> OfAddresses(run, i) && a < run.addresses
    decreases |trace|
  {
    hide Next, NextVisit, Lawful, Position, DroppedBy, Stopped, OfMessages, OfAddresses;
    if trace != [] {
      var front, e := Shorter(run, trace);
      OnlyInterested(run, front, i, a);
      VisitForward(run, front, e);
      VisitInside(run, front, e);
    }
  }

  lemma VisitInside(run: Run, trace: seq<Event>, e: Event)
    requires Next(run, trace) == Some(e)
    ensures e.AddrStart? ==> e.a < run.addresses
  {
    hide NextVisit, Open, Result, Stopped, DroppedBy, Position;
    if Candidate(run, trace).Some? {
      NextVisitFound(run, Dropped(run, trace), Position(trace).0, Position(trace).1);
    }
  }

  /** Where nothing stops the run, a consumer of messages is started once if it is
      for any message or for this type of message, and no other ever is. */
  lemma CalledExactly(run: Run, trace: seq<Event>, i: nat)
    requires Finished(run, trace) && !Stopped(run, trace)
    ensures multiset(trace)[Start(i)] ==
      if i < |run.consumers| && !run.consumers[i].addresses && (run.consumers[i].anyMessage || run.consumers[i].msgId == run.msgType)
      then 1 else 0
  {
    hide Next, NextVisit, Lawful, Position, DroppedBy, Stopped;
    OnlyInterested(run, trace, i, 0);
    if i < |run.consumers| {
      EverybodyVisited(run, trace, i, 0);
    }
  }

  /** A consumer of addresses is shown each address once, unless an earlier one had
      it dropped, under the same condition. */
  lemma ShownExactly(run: Run, trace: seq<Event>, i: nat, a: nat)
    requires Finished(run, trace) && !Stopped(run, trace)
    ensures multiset(trace)[AddrStart(i, a)] ==
      if i < |run.consumers| && run.consumers[i].addresses && (run.consumers[i].anyMessage || run.consumers[i].msgId == run.msgType)
        && a < run.addresses && a !in DroppedBy(run, trace, i)
      then 1 else 0
  {
    hide Next, NextVisit, Lawful, Position, DroppedBy, Stopped;
    OnlyInterested(run, trace, i, a);
    if i < |run.consumers| {
      EverybodyVisited(run, trace, i, a);
    }
  }

  /** Whether the run is stopped or not, nobody else is called. */
  lemma NobodyElse(run: Run, trace: seq<Event>, i: nat, a: nat)
    requires Lawful(run, trace)
    requires i < |run.consumers| ==> !run.consumers[i].anyMessage && run.consumers[i].msgId != run.msgType
    ensures Start(i) !in trace && AddrStart(i, a) !in trace
  {
    hide Next, NextVisit, Lawful, Position, DroppedBy, Stopped;
    OnlyInterested(run, trace, i, a);
  }

  /** The address was dropped by one of the first `n` consumers: its end, if it is
      called, raises the result to 2, or leaves it there. */
  lemma {:induction false} DroppedExactly(run: Run, trace: seq<Event>, n: nat, a: nat)
    ensures a in DroppedBy(run, trace, n) <==>
      exists p :: 0 <= p < |trace| && trace[p].AddrEnd? && trace[p].i < n && trace[p].a == a && EndGives(run, trace, p, 2)
    decreases |trace|
  {
    hide Result;
    if trace != [] {
      var front := trace[..|trace| - 1];
      DroppedExactly(run, front, n, a);
      forall p | 0 <= p < |front| ensures front[p] == trace[p] && (EndGives(run, front, p, 2) <==> EndGives(run, trace, p, 2)) {
        assert front[..p] == trace[..p] && front[..p + 1] == trace[..p + 1];
      }
      assert trace[..|trace| - 1 + 1] == front + [trace[|trace| - 1]];
      assert EndGives(run, trace, |trace| - 1, 2) <==> Raised(run, front, trace[|trace| - 1], Result(run, front)) == 2;
    }
  }

  /** The larger of the result so far and of what the end callback answers is `r`. */
  ghost predicate EndGives(run: Run, trace: seq<Event>, p: nat, r: int)
    requires p < |trace|
  {
    var before, i := Result(run, trace[..p]), trace[p].i;
    if i < |run.consumers| && run.consumers[i].hasEnd
    then before <= r && run.answers(trace[..p + 1]) <= r && (before == r || run.answers(trace[..p + 1]) == r)
    else before == r
  }

  /** What event `p` leads to: what a start or TLV callback answers, but for dropped
      TLVs; and at an end the larger of that and the result so far, but for a
      dropped address. */
  ghost predicate Leads(run: Run, trace: seq<Event>, p: nat, r: int)
    requires p < |trace|
  {
    var i, answer := trace[p].i, run.answers(trace[..p + 1]);
    match trace[p]
    case Start(_) => r == if i < |run.consumers| && run.consumers[i].hasStart then answer else 0
    case AddrStart(_, _) => r == if i < |run.consumers| && run.consumers[i].hasStart then answer else 0
    case Tlvs(_) => r == if answer == 1 then 0 else answer
    case AddrTlvs(_, _) => r == if answer == 1 then 0 else answer
    case End(_, _) => EndGives(run, trace, p, r)
    case AddrEnd(_, _, _) => if EndGives(run, trace, p, 2) then r == 0 else EndGives(run, trace, p, r)
  }

  lemma ResultExactly(run: Run, trace: seq<Event>, p: nat)
    requires p < |trace|
    ensures Leads(run, trace, p, Result(run, trace[..p + 1]))
  {
    assert trace[..p + 1] == trace[..p] + [trace[p]];
    Further(run, trace[..p], trace[p]);
    hide Result;
  }

  lemma OneResult(run: Run, trace: seq<Event>, p: nat, r: int, s: int)
    requires p < |trace| && Leads(run, trace, p, r) && Leads(run, trace, p, s)
    ensures r == s
  {
    hide Result;
  }

  lemma LeadsTheSame(run: Run, trace: seq<Event>, n: nat, p: nat, r: int)
    requires p < n <= |trace|
    ensures Leads(run, trace[..n], p, r) <==> Leads(run, trace, p, r)
  {
    hide Result;
    assert trace[..n][..p] == trace[..p] && trace[..n][..p + 1] == trace[..p + 1];
  }

  /** The run is stopped exactly by a message's start, TLVs or end, or by the end of
      an address, that leads to something else than OKAY. */
  lemma {:induction false} StoppedExactly(run: Run, trace: seq<Event>)
    ensures Stopped(run, trace) <==>
      exists p :: 0 <= p < |trace| && !trace[p].AddrStart? && !trace[p].AddrTlvs? && !Leads(run, trace, p, 0)
    decreases |trace|
  {
    hide Leads, Result;
    if trace != [] {
      var n := |trace| - 1;
      StoppedExactly(run, trace[..n]);
      forall p | 0 <= p < n ensures trace[..n][p] == trace[p] && (Leads(run, trace[..n], p, 0) <==> Leads(run, trace, p, 0)) {
        LeadsTheSame(run, trace, n, p, 0);
      }
      ResultExactly(run, trace, n);
      assert trace[..n + 1] == trace;
      if Leads(run, trace, n, 0) {
        OneResult(run, trace, n, 0, Result(run, trace));
      }
    }
  }

  // ----- a visit, event by event

  /** What must come behind event `p`: the TLVs behind a start that does not object,
      and the end of an address in any case. */
  ghost predicate Spelled(run: Run, trace: seq<Event>, p: nat)
    requires p < |trace|
  {
    match trace[p]
    case Start(i) =>
      (i < |run.consumers| && run.consumers[i].hasStart ==> run.answers(trace[..p + 1]) == 0)
        <==> p + 1 < |trace| && trace[p + 1] == Tlvs(i)
    case AddrStart(i, a) =>
      p + 1 < |trace| && trace[p + 1] ==
        if i < |run.consumers| && run.consumers[i].hasStart && run.answers(trace[..p + 1]) != 0
        then AddrEnd(i, a, true) else AddrTlvs(i, a)
    case AddrTlvs(i, a) =>
      p + 1 < |trace| && trace[p + 1] == AddrEnd(i, a, run.answers(trace[..p + 1]) !in {0, 1})
    case _ => true
  }

  lemma VisitSpelled(run: Run, trace: seq<Event>, p: nat)
    requires Finished(run, trace) && p < |trace|
    ensures Spelled(run, trace, p)
  {
    hide NextVisit, Open, Stopped, DroppedBy, Position, Lawful;
    LawfulAt(run, trace, p);
    LawfulAt(run, trace, p + 1);
    var t, e := trace[..p], trace[p];
    assert t + [e] == trace[..p + 1];
    assert p + 1 == |trace| ==> trace[..p + 1] == trace;
    Further(run, t, e);
    LastOf(t, e);
    hide Result;
    assert e.Start? || e.AddrStart? ==> Result(run, t + [e]) == Said(run, t, e);
    assert e.AddrTlvs? ==> Result(run, t + [e]) == Said(run, t, e);
    TlvsBehindStart(run, trace[..p + 1]);
  }

  /** The TLVs of a message can only come behind its start. */
  lemma TlvsBehindStart(run: Run, trace: seq<Event>)
    ensures trace != [] && trace[|trace| - 1].Start? && Result(run, trace) != OKAY ==> !(Next(run, trace).Some? && Next(run, trace).value.Tlvs?)
  {
    hide NextVisit, Open, Stopped, DroppedBy, Position, Result;
    if Candidate(run, trace).Some? {
      NextVisitFound(run, Dropped(run, trace), Position(trace).0, Position(trace).1);
    }
  }
}
