/** How the TLVs of a block are handed to one consumer (_schedule_tlvblock in
    src-api/rfc5444/rfc5444_reader.c): one pass through the sorted TLVs and the
    sorted list of what the consumer asks for. */
module Schedule {
  import opened Octets
  import opened Tlvs
  import opened Wrappers

  /** An entry of a consumer: a type, with or without its extension. */
  datatype Want = Want(typ: Octet, ext: Octet, matchExt: bool, mandatory: bool, matchLength: bool, min: nat, max: nat)

  function Low(w: Want): int {
    if w.matchExt then w.typ * 256 + w.ext else w.typ * 256
  }

  function High(w: Want): int {
    if w.matchExt then w.typ * 256 + w.ext else w.typ * 256 + 255
  }

  /** _compare_tlvtypes */
  function Compare(tlv: Option<Entry>, want: Option<Want>): int {
    match want
    case None => if tlv.None? then 0 else -1
    case Some(w) =>
      match tlv
      case None => 1
      case Some(e) => if w.matchExt then Order(e) - (w.typ * 256 + w.ext) else e.typ - w.typ
  }

  lemma CompareRange(e: Entry, w: Want)
    ensures Compare(Some(e), Some(w)) > 0 <==> Order(e) > High(w)
    ensures Compare(Some(e), Some(w)) < 0 <==> Order(e) < Low(w)
  {
  }

  /** The TLVs of a block, what the consumer wants, the index of the address,
      the TLVs that are dropped for it already, and what the consumer's own TLV
      callback, if it has one, answers to a TLV. */
  datatype Task = Task(tlvs: seq<Entry>, wants: seq<Want>, index: nat, dropped: set<nat>, hasCallback: bool, answers: nat -> int)

  predicate Drops(k: Task, i: nat) {
    k.answers(i) == DROP_TLV
  }

  /** The callback wants more than the TLV to be dropped, or reports an error. */
  predicate Stops(k: Task, i: nat) {
    k.answers(i) != OKAY && k.answers(i) != DROP_TLV
  }

  // ----- what each entry is to get

  /** The first entry that does not end before `order`. */
  function Place(wants: seq<Want>, order: int): (p: nat)
    ensures p <= |wants| && (p < |wants| ==> order <= High(wants[p]))
    ensures forall c :: 0 <= c < p ==> High(wants[c]) < order
  {
    if wants == [] || order <= High(wants[0]) then 0
    else
      var p := Place(wants[1..], order);
      assert forall c :: 0 < c < p + 1 ==> wants[c] == wants[1..][c - 1];
      p + 1
  }

  function PlaceOf(k: Task, i: nat): (p: nat)
    requires i < |k.tlvs|
    ensures p <= |k.wants|
  {
    Place(k.wants, Order(k.tlvs[i]))
  }

  /** TLV `i` goes to entry `c`: no earlier entry reaches as far. */
  predicate Goes(k: Task, c: nat, i: nat)
    requires c < |k.wants| && i < |k.tlvs|
  {
    PlaceOf(k, i) == c && Low(k.wants[c]) <= Order(k.tlvs[i])
  }

  /** TLV `i` is for the address, and has not been dropped before. */
  predicate Offered(k: Task, i: nat)
    requires i < |k.tlvs|
  {
    Covers(k.tlvs[i], k.index) && i !in k.dropped
  }

  predicate Applies(k: Task, i: nat)
    requires i < |k.tlvs|
  {
    Offered(k, i) && !(k.hasCallback && Drops(k, i))
  }

  predicate BadLength(w: Want, e: Entry) {
    w.matchLength && (e.length < w.min || e.length > w.max)
  }

  /** TLV `i` violates what entry `c` asks for. */
  predicate Wrong(k: Task, c: nat, i: nat)
    requires c < |k.wants| && i < |k.tlvs|
  {
    if Applies(k, i) then BadLength(k.wants[c], k.tlvs[i]) else k.wants[c].mandatory
  }

  /** Those of the first `n` TLVs that entry `c` gets, in their order. */
  function Chain(k: Task, c: nat, n: nat): seq<nat>
    requires c < |k.wants| && n <= |k.tlvs|
  {
    if n == 0 then []
    else Chain(k, c, n - 1) + if Goes(k, c, n - 1) && Applies(k, n - 1) then [n - 1] else []
  }

  predicate Met(k: Task, c: nat, n: nat)
    requires c < |k.wants| && n <= |k.tlvs|
  {
    n > 0 && (Met(k, c, n - 1) || Goes(k, c, n - 1))
  }

  predicate Spoiled(k: Task, c: nat, n: nat)
    requires c < |k.wants| && n <= |k.tlvs|
  {
    n > 0 && (Spoiled(k, c, n - 1) || (Goes(k, c, n - 1) && Wrong(k, c, n - 1)))
  }

  predicate Fails(k: Task, c: nat, n: nat)
    requires c < |k.wants| && n <= |k.tlvs|
  {
    Spoiled(k, c, n) || (k.wants[c].mandatory && !Met(k, c, n))
  }

  predicate AnyFails(k: Task, c: nat, n: nat)
    requires c <= |k.wants| && n <= |k.tlvs|
  {
    c > 0 && (AnyFails(k, c - 1, n) || Fails(k, c - 1, n))
  }

  // ----- how often the TLV callback is called

  /** The entry the pass is at when TLV `i` comes up. */
  function Enter(k: Task, i: nat): nat
    requires i < |k.tlvs|
  {
    if i == 0 then 0 else if PlaceOf(k, i) == PlaceOf(k, i - 1) then PlaceOf(k, i) else PlaceOf(k, i - 1) + 1
  }

  /** Calls for TLV `i` once the pass has gone on by `passed` entries. */
  function CallsAfter(k: Task, i: nat, passed: int): nat
    requires i < |k.tlvs|
  {
    if !k.hasCallback || !Offered(k, i) || passed <= 0 then 0 else if Drops(k, i) then 1 else passed
  }

  function Calls(k: Task, i: nat): nat
    requires i < |k.tlvs|
  {
    CallsAfter(k, i, PlaceOf(k, i) - Enter(k, i) + 1)
  }

  function Repeated(i: nat, n: nat): seq<nat> {
    seq(n, _ => i)
  }

  /** The TLVs that the callback is called with. */
  function CallTrace(k: Task, n: nat): seq<nat>
    requires n <= |k.tlvs|
  {
    if n == 0 then [] else CallTrace(k, n - 1) + Repeated(n - 1, Calls(k, n - 1))
  }

  // ----- the pass

  predicate InTask(k: Task, t: nat, c: nat) {
    t <= |k.tlvs| && c <= |k.wants|
  }

  /** Entry `c` ends before the TLVs from `t` on. */
  predicate Behind(k: Task, t: nat, c: nat)
    requires InTask(k, t, c)
  {
    c < |k.wants| && (t == |k.tlvs| || c < PlaceOf(k, t))
  }

  /** Where the pass can be at the top of its loop. */
  predicate Inside(k: Task, t: nat, c: nat) {
    && InTask(k, t, c)
    && (t < |k.tlvs| ==> Enter(k, t) <= c <= PlaceOf(k, t))
    && (t > 0 ==> PlaceOf(k, t - 1) <= c)
    && (Behind(k, t, c) ==> !Met(k, c, t))
  }

  predicate FailedSoFar(k: Task, t: nat, c: nat)
    requires InTask(k, t, c)
  {
    AnyFails(k, c, t) || (c < |k.wants| && Spoiled(k, c, t))
  }

  function CallsSoFar(k: Task, t: nat, c: nat): seq<nat>
    requires InTask(k, t, c)
  {
    CallTrace(k, t) + if t < |k.tlvs| then Repeated(t, CallsAfter(k, t, c - Enter(k, t))) else []
  }

  function ChainsSoFar(k: Task, t: nat): (r: seq<seq<nat>>)
    requires t <= |k.tlvs|
    ensures |r| == |k.wants|
  {
    seq(|k.wants|, c requires 0 <= c < |k.wants| => Chain(k, c, t))
  }

  /** TLV `t` is dropped by now, the callback having been called or not. */
  predicate DroppedBy(k: Task, t: nat, c: nat)
    requires t < |k.tlvs|
  {
    t in k.dropped || (k.hasCallback && Offered(k, t) && Drops(k, t) && c > Enter(k, t))
  }

  lemma PlaceRises(k: Task, i: nat, j: nat)
    requires Sorted(k.tlvs) && i <= j < |k.tlvs|
    ensures PlaceOf(k, i) <= PlaceOf(k, j)
  {
  }

  lemma {:induction false} NotMet(k: Task, c: nat, n: nat)
    requires Sorted(k.tlvs) && c < |k.wants| && n <= |k.tlvs| && (n > 0 ==> PlaceOf(k, n - 1) < c)
    ensures !Met(k, c, n)
    decreases n
  {
    if n > 1 {
      PlaceRises(k, n - 2, n - 1);
    }
    if n > 0 {
      NotMet(k, c, n - 1);
    }
  }

  /** Nothing that goes to an entry comes before a TLV that is too small for it. */
  lemma {:induction false} NotMetBelow(k: Task, c: nat, n: nat, t: nat)
    requires Sorted(k.tlvs) && c < |k.wants| && n <= t < |k.tlvs| && Order(k.tlvs[t]) < Low(k.wants[c])
    ensures !Met(k, c, n)
  {
    if n > 0 {
      NotMetBelow(k, c, n - 1, t);
      assert Order(k.tlvs[n - 1]) <= Order(k.tlvs[t]);
    }
  }

  lemma {:induction false} SpoiledMet(k: Task, c: nat, n: nat)
    requires c < |k.wants| && n <= |k.tlvs| && Spoiled(k, c, n)
    ensures Met(k, c, n)
  {
    if !Goes(k, c, n - 1) {
      SpoiledMet(k, c, n - 1);
    }
  }

  /** A TLV makes no difference to the entries before its place. */
  lemma {:induction false} FailsStay(k: Task, c: nat, t: nat)
    requires t < |k.tlvs| && c <= PlaceOf(k, t)
    ensures AnyFails(k, c, t + 1) == AnyFails(k, c, t)
  {
    if c > 0 {
      FailsStay(k, c - 1, t);
      assert !Goes(k, c - 1, t);
    }
  }

  /** The pass goes on to the next entry. */
  lemma LeaveEntry(k: Task, t: nat, c: nat)
    requires Sorted(k.tlvs) && Inside(k, t, c) && Behind(k, t, c)
    ensures Inside(k, t, c + 1)
    ensures FailedSoFar(k, t, c + 1) == (FailedSoFar(k, t, c) || k.wants[c].mandatory)
  {
    if c + 1 < |k.wants| {
      NotMet(k, c + 1, t);
      if Spoiled(k, c + 1, t) {
        SpoiledMet(k, c + 1, t);
      }
    }
    if Spoiled(k, c, t) {
      SpoiledMet(k, c, t);
    }
  }

  /** The pass goes on to the next TLV, and stays at the entry. */
  lemma TakeTlv(k: Task, t: nat, c: nat)
    requires Inside(k, t, c) && t < |k.tlvs| && c == PlaceOf(k, t)
    ensures FailedSoFar(k, t + 1, c) == (FailedSoFar(k, t, c) || (c < |k.wants| && Goes(k, c, t) && Wrong(k, c, t)))
    ensures !Behind(k, t + 1, c) ==> Sorted(k.tlvs) ==> Inside(k, t + 1, c) && (t + 1 < |k.tlvs| ==> c == Enter(k, t + 1))
  {
    FailsStay(k, c, t);
    if t + 1 < |k.tlvs| && Sorted(k.tlvs) {
      PlaceRises(k, t, t + 1);
    }
  }

  /** It goes on to the next entry as well. */
  lemma TakeTlvAndLeave(k: Task, t: nat, c: nat)
    requires Sorted(k.tlvs) && Inside(k, t, c) && t < |k.tlvs| && c == PlaceOf(k, t) && Behind(k, t + 1, c)
    ensures Inside(k, t + 1, c + 1) && (t + 1 < |k.tlvs| ==> c + 1 == Enter(k, t + 1))
    ensures FailedSoFar(k, t + 1, c + 1)
         == (FailedSoFar(k, t + 1, c) || (k.wants[c].mandatory && !(Goes(k, c, t) && Applies(k, t))))
  {
    hide Place, Offered, BadLength, Low, High, Order;
    if c + 1 < |k.wants| {
      NotMet(k, c + 1, t + 1);
      if Spoiled(k, c + 1, t + 1) {
        SpoiledMet(k, c + 1, t + 1);
      }
    }
    if !Goes(k, c, t) {
      NotMetBelow(k, c, t, t);
    }
  }

  lemma ChainsStep(k: Task, t: nat, c: nat, chains: seq<seq<nat>>)
    requires t < |k.tlvs| && c == PlaceOf(k, t) && chains == ChainsSoFar(k, t)
    ensures ChainsSoFar(k, t + 1)
         == if c < |k.wants| && Goes(k, c, t) && Applies(k, t) then chains[c := chains[c] + [t]] else chains
  {
    var next := if c < |k.wants| && Goes(k, c, t) && Applies(k, t) then chains[c := chains[c] + [t]] else chains;
    forall d | 0 <= d < |k.wants| ensures next[d] == Chain(k, d, t + 1) {
      assert Chain(k, d, t) + [] == Chain(k, d, t);
    }
    assert ChainsSoFar(k, t + 1) == next;
  }

  lemma RepeatedMore(i: nat, n: nat)
    ensures Repeated(i, n + 1) == Repeated(i, n) + [i] && Repeated(i, 0) == []
  {
  }

  /** The callback is called at this look at TLV `t`. */
  predicate CalledNow(k: Task, t: nat, c: nat)
    requires t < |k.tlvs|
  {
    k.hasCallback && Covers(k.tlvs[t], k.index) && !DroppedBy(k, t, c)
  }

  lemma CallsMore(k: Task, t: nat, c: nat)
    requires Inside(k, t, c) && t < |k.tlvs|
    ensures var p := c - Enter(k, t);
      CallsAfter(k, t, p + 1) == CallsAfter(k, t, p) + if CalledNow(k, t, c) then 1 else 0
  {
  }

  /** One look at a TLV. */
  lemma CallsStep(k: Task, t: nat, c: nat)
    requires Inside(k, t, c) && t < |k.tlvs|
    ensures c < |k.wants| ==> CallsSoFar(k, t, c + 1) == CallsSoFar(k, t, c) + if CalledNow(k, t, c) then [t] else []
    ensures c == PlaceOf(k, t) ==> CallTrace(k, t) + Repeated(t, Calls(k, t)) == CallsSoFar(k, t, c) + if CalledNow(k, t, c) then [t] else []
  {
    CallsMore(k, t, c);
    hide PlaceOf, Enter, CallsAfter, Repeated, CallTrace, CalledNow, Met;
    var p := c - Enter(k, t);
    RepeatedMore(t, CallsAfter(k, t, p));
    Regroup(CallTrace(k, t), Repeated(t, CallsAfter(k, t, p)), [t]);
    assert c + 1 - Enter(k, t) == p + 1 && PlaceOf(k, t) - Enter(k, t) + 1 == PlaceOf(k, t) - c + (p + 1);
  }

  lemma CallsOver(k: Task, c: nat)
    requires c < |k.wants|
    ensures CallsSoFar(k, |k.tlvs|, c + 1) == CallsSoFar(k, |k.tlvs|, c)
  {
  }

  lemma CallsTaken(k: Task, t: nat, c: nat)
    requires t < |k.tlvs| && c <= |k.wants| && (t + 1 < |k.tlvs| ==> c == Enter(k, t + 1))
    ensures CallsSoFar(k, t + 1, c) == CallTrace(k, t) + Repeated(t, Calls(k, t))
  {
    RepeatedMore(t + 1, 0);
  }

  // ----- where a callback stops the pass

  /** The calls up to the first one that stops the pass. */
  function UpToStop(k: Task, calls: seq<nat>): (r: seq<nat>)
    ensures r <= calls
  {
    if calls == [] then []
    else if Stops(k, calls[0]) then [calls[0]]
    else [calls[0]] + UpToStop(k, calls[1..])
  }

  /** The calls go on up to the first answer that is neither OKAY nor a dropped TLV. */
  lemma {:induction false} UpToStopExactly(k: Task, calls: seq<nat>)
    ensures var r := UpToStop(k, calls);
      && r <= calls && (forall j :: 0 <= j < |r| - 1 ==> k.answers(r[j]) in {0, 1})
      && (r == calls || (r != [] && k.answers(r[|r| - 1]) !in {0, 1}))
  {
    if calls != [] && !Stops(k, calls[0]) {
      UpToStopExactly(k, calls[1..]);
      var r, rest := UpToStop(k, calls), UpToStop(k, calls[1..]);
      assert r == [calls[0]] + rest;
      assert rest == calls[1..] ==> r == calls;
    }
  }

  predicate Stopped(k: Task, calls: seq<nat>) {
    calls != [] && Stops(k, calls[|calls| - 1])
  }

  ghost predicate NoStop(k: Task, calls: seq<nat>) {
    forall j :: 0 <= j < |calls| ==> !Stops(k, calls[j])
  }

  lemma {:induction false} StopsHere(k: Task, calls: seq<nat>, i: nat, all: seq<nat>)
    requires NoStop(k, calls) && Stops(k, i) && calls + [i] <= all
    ensures UpToStop(k, all) == calls + [i]
  {
    if calls != [] {
      assert calls[1..] + [i] <= all[1..];
      StopsHere(k, calls[1..], i, all[1..]);
      assert calls + [i] == [calls[0]] + (calls[1..] + [i]);
    }
  }

  lemma {:induction false} StopsNowhere(k: Task, calls: seq<nat>)
    requires NoStop(k, calls)
    ensures UpToStop(k, calls) == calls && !Stopped(k, calls)
  {
    if calls != [] {
      StopsNowhere(k, calls[1..]);
    }
  }

  lemma RepeatedPrefix(i: nat, m: nat, n: nat)
    requires m <= n
    ensures Repeated(i, m) <= Repeated(i, n)
  {
  }

  lemma CallTraceStep(k: Task, t: nat)
    requires t < |k.tlvs|
    ensures CallTrace(k, t + 1) == CallTrace(k, t) + Repeated(t, Calls(k, t))
  {
  }

  lemma {:induction false} TracePrefix(k: Task, t: nat, n: nat)
    requires t <= n <= |k.tlvs|
    ensures CallTrace(k, t) <= CallTrace(k, n)
    decreases n
  {
    hide Calls, Repeated, CallTrace;
    if t < n {
      TracePrefix(k, t, n - 1);
      CallTraceStep(k, n - 1);
    }
  }

  lemma PrefixJoins(a: seq<nat>, b: seq<nat>, c: seq<nat>, all: seq<nat>)
    requires b <= c && a + c <= all
    ensures a + b <= all
  {
  }

  /** A call is one of those that a pass without a stop makes. */
  lemma CallPrefix(k: Task, t: nat, c: nat)
    requires Inside(k, t, c) && t < |k.tlvs| && CalledNow(k, t, c)
    ensures CallsSoFar(k, t, c) + [t] <= CallTrace(k, |k.tlvs|)
  {
    hide PlaceOf, Enter, CalledNow, Met, CallTrace, Repeated, CallsAfter, Calls;
    var p := c - Enter(k, t);
    CallsMore(k, t, c);
    CallsRise(k, t, p + 1);
    CallTraceStep(k, t);
    TracePrefix(k, t + 1, |k.tlvs|);
    RepeatedMore(t, CallsAfter(k, t, p));
    RepeatedPrefix(t, CallsAfter(k, t, p + 1), Calls(k, t));
    Regroup(CallTrace(k, t), Repeated(t, CallsAfter(k, t, p)), [t]);
    PrefixJoins(CallTrace(k, t), Repeated(t, CallsAfter(k, t, p + 1)), Repeated(t, Calls(k, t)), CallTrace(k, |k.tlvs|));
  }

  lemma CallsRise(k: Task, t: nat, p: int)
    requires t < |k.tlvs| && p <= PlaceOf(k, t) - Enter(k, t) + 1
    ensures CallsAfter(k, t, p) <= Calls(k, t)
  {
  }

  function DroppedCalls(k: Task, calls: seq<nat>): set<nat> {
    set i | i in calls && Drops(k, i)
  }

  lemma DroppedMore(k: Task, calls: seq<nat>, i: nat)
    ensures DroppedCalls(k, []) == {}
    ensures DroppedCalls(k, calls + [i]) == DroppedCalls(k, calls) + if Drops(k, i) then {i} else {}
  {
  }

  /** The pass of _schedule_tlvblock: for each entry the TLVs that it gets, whether
      a constraint failed, and the calls of the TLV callback, of which one can
      stop the pass. */
  method Pass(k: Task) returns (chains: seq<seq<nat>>, failed: bool, calls: seq<nat>, dropped: set<nat>)
    requires Sorted(k.tlvs)
    ensures calls == UpToStop(k, CallTrace(k, |k.tlvs|))
    ensures !Stopped(k, calls) ==> calls == CallTrace(k, |k.tlvs|)
    ensures !Stopped(k, calls) ==> chains == ChainsSoFar(k, |k.tlvs|) && failed == AnyFails(k, |k.wants|, |k.tlvs|)
    ensures dropped == k.dropped + DroppedCalls(k, calls)
  {
    hide Place, Sorted, Compare, PlaceOf, Covers, Goes, BadLength;
    hide FailedSoFar, ChainsSoFar, CallsSoFar, CallsAfter, Calls, CallTrace, Repeated, Met, Enter, Stopped, UpToStop, DroppedCalls;
    var t, c := 0, 0;
    dropped := k.dropped;
    chains, failed, calls := Started(k);
    DroppedMore(k, [], 0);
    while c < |k.wants| || t < |k.tlvs|
      invariant Inside(k, t, c) && NoStop(k, calls)
      invariant chains == ChainsSoFar(k, t) && failed == FailedSoFar(k, t, c) && calls == CallsSoFar(k, t, c)
      invariant t < |k.tlvs| ==> (t in dropped <==> DroppedBy(k, t, c))
      invariant forall i :: t < i < |k.tlvs| ==> (i in dropped <==> i in k.dropped)
      invariant dropped == k.dropped + DroppedCalls(k, calls)
      decreases |k.wants| - c + |k.tlvs| - t
    {
      var tlv := if t < |k.tlvs| then Some(k.tlvs[t]) else None;
      var want := if c < |k.wants| then Some(k.wants[c]) else None;
      if t < |k.tlvs| {
        CallsStep(k, t, c);
      } else {
        CallsOver(k, c);
      }
      var indexMatch := tlv.Some? && t !in dropped && Covers(tlv.value, k.index);
      var matches := indexMatch && want.Some? && Compare(tlv, want) == 0;
      if indexMatch && k.hasCallback {
        ghost var before := calls;
        DroppedMore(k, before, t);
        calls := calls + [t];
        if Drops(k, t) {
          dropped := dropped + {t};
          matches := false;
        } else if k.answers(t) != OKAY {
          CallPrefix(k, t, c);
          StopsHere(k, before, t, CallTrace(k, |k.tlvs|));
          StoppedAt(k, before, t);
          return;
        }
      }
      LookAt(k, t, c);
      if Compare(tlv, want) >= 0 {
        failed := failed || (want.value.mandatory && !matches);
        if matches {
          if BadLength(want.value, tlv.value) {
            failed := true;
          }
          chains := chains[c := chains[c] + [t]];
        }
      }
      ghost var t0, c0 := t, c;
      if tlv.Some? && Compare(tlv, want) <= 0 {
        t := t + 1;
        tlv := if t < |k.tlvs| then Some(k.tlvs[t]) else None;
        TakeTlv(k, t0, c);
        ChainsStep(k, t0, c, ChainsSoFar(k, t0));
        LookAt(k, t, c);
      }
      if Compare(tlv, want) > 0 {
        failed := failed || (want.value.mandatory && !matches);
        c := c + 1;
        if t == t0 {
          LeaveEntry(k, t, c0);
        } else {
          TakeTlvAndLeave(k, t0, c0);
        }
      }
      if t > t0 {
        CallsTaken(k, t0, c);
      }
    }
    Ended(k, t, c);
    StopsNowhere(k, calls);
  }

  lemma StoppedAt(k: Task, calls: seq<nat>, i: nat)
    requires Stops(k, i)
    ensures Stopped(k, calls + [i])
  {
  }

  /** What comparing the TLV at `t` with the entry at `c` tells. */
  lemma LookAt(k: Task, t: nat, c: nat)
    requires InTask(k, t, c) && (t < |k.tlvs| ==> c <= PlaceOf(k, t) || c == |k.wants|)
    ensures var d := Compare(if t < |k.tlvs| then Some(k.tlvs[t]) else None, if c < |k.wants| then Some(k.wants[c]) else None);
      && (d > 0 <==> Behind(k, t, c))
      && (c == |k.wants| ==> d <= 0 && (d == 0 <==> t == |k.tlvs|))
      && (d == 0 && t < |k.tlvs| && c < |k.wants| <==> t < |k.tlvs| && c < |k.wants| && Goes(k, c, t))
  {
    if t < |k.tlvs| && c < |k.wants| {
      CompareRange(k.tlvs[t], k.wants[c]);
    }
  }

  method Started(k: Task) returns (chains: seq<seq<nat>>, failed: bool, calls: seq<nat>)
    ensures Inside(k, 0, 0) && chains == ChainsSoFar(k, 0) && failed == FailedSoFar(k, 0, 0) && calls == CallsSoFar(k, 0, 0) == []
  {
    chains, failed, calls := seq(|k.wants|, _ => []), false, [];
    RepeatedMore(0, 0);
  }

  lemma Ended(k: Task, t: nat, c: nat)
    requires t == |k.tlvs| && c == |k.wants|
    ensures FailedSoFar(k, t, c) == AnyFails(k, c, t) && CallsSoFar(k, t, c) == CallTrace(k, t)
  {
  }

  // ----- the callbacks for the block

  /** What the callbacks for a block that meets all constraints, and for one that
      fails some, answer if there are such callbacks; and the entries whose drop
      flag they set. */
  datatype Block = Block(onBlock: Option<int>, onFailed: Option<int>, marked: set<nat>)

  /** Of each of the first `n` entries that are marked, the first TLV it got. */
  function Marked(chains: seq<seq<nat>>, marked: set<nat>, n: nat): set<nat>
    requires n <= |chains|
  {
    set c | 0 <= c < n && c in marked && chains[c] != [] :: chains[c][0]
  }

  /** _schedule_tlvblock: the pass, and what the callback for the block says; TLVs
      that are dropped are no matter for the caller. */
  method ScheduleTlvBlock(k: Task, b: Block)
    returns (result: int, dropped: set<nat>, chains: seq<seq<nat>>, failed: bool, calls: seq<nat>)
    requires Sorted(k.tlvs)
    ensures calls == UpToStop(k, CallTrace(k, |k.tlvs|)) && result != DROP_TLV
    ensures Stopped(k, calls) ==> result == k.answers(calls[|calls| - 1]) && dropped == k.dropped + DroppedCalls(k, calls)
    ensures !Stopped(k, calls) ==> chains == ChainsSoFar(k, |k.tlvs|) && failed == AnyFails(k, |k.wants|, |k.tlvs|)
    ensures !Stopped(k, calls) ==> (failed <==> exists c :: 0 <= c < |k.wants| && !Meets(k, c))
    ensures !Stopped(k, calls) ==>
      var answer := if failed then b.onFailed else b.onBlock;
      && result == (if answer.Some? && answer.value != DROP_TLV then answer.value else OKAY)
      && dropped == k.dropped + DroppedCalls(k, calls) + (if answer == Some(DROP_TLV) then set c | 0 <= c < |k.wants| && c in b.marked && chains[c] != [] :: chains[c][0] else {})
  {
    hide CallTrace, UpToStop, AnyFails, ChainsSoFar, Marked, DroppedCalls, Meets, Sorted, Stopped;
    AnyFailsMeans(k, |k.wants|);
    chains, failed, calls, dropped := Pass(k);
    StoppedMeans(k, calls);
    if calls != [] && k.answers(calls[|calls| - 1]) != OKAY && k.answers(calls[|calls| - 1]) != DROP_TLV {
      return k.answers(calls[|calls| - 1]), dropped, chains, failed, calls;
    }
    result := OKAY;
    if b.onBlock.Some? && !failed {
      result := b.onBlock.value;
    } else if b.onFailed.Some? && failed {
      result := b.onFailed.value;
    }
    if result == DROP_TLV {
      ghost var before := dropped;
      NoneMarked(chains, b.marked);
      MarkedMeans(chains, b.marked);
      for c := 0 to |k.wants|
        invariant |chains| == |k.wants| && dropped == before + Marked(chains, b.marked, c)
      {
        MarkedStep(chains, b.marked, c);
        if chains[c] != [] && c in b.marked {
          dropped := dropped + {chains[c][0]};
        }
      }
      result := OKAY;
    }
  }

  lemma StoppedMeans(k: Task, calls: seq<nat>)
    ensures Stopped(k, calls) <==> calls != [] && k.answers(calls[|calls| - 1]) != 0 && k.answers(calls[|calls| - 1]) != 1
  {
  }

  lemma MarkedMeans(chains: seq<seq<nat>>, marked: set<nat>)
    ensures Marked(chains, marked, |chains|) == set c | 0 <= c < |chains| && c in marked && chains[c] != [] :: chains[c][0]
  {
  }

  lemma NoneMarked(chains: seq<seq<nat>>, marked: set<nat>)
    ensures Marked(chains, marked, 0) == {}
  {
  }

  lemma MarkedStep(chains: seq<seq<nat>>, marked: set<nat>, c: nat)
    requires c < |chains|
    ensures Marked(chains, marked, c + 1) == Marked(chains, marked, c) + if c in marked && chains[c] != [] then {chains[c][0]} else {}
  {
  }

  lemma {:induction false} CalledOffered(k: Task, n: nat, i: nat)
    requires n <= |k.tlvs| && i in CallTrace(k, n)
    ensures i < n && Offered(k, i)
  {
    hide PlaceOf, Enter;
    if i in CallTrace(k, n - 1) {
      CalledOffered(k, n - 1, i);
    }
  }

  /** A TLV that has been dropped is shown to no later consumer: its TLV callback
      is not called with it, and none of its entries gets it. */
  lemma DroppedUnseen(k: Task, i: nat, c: nat)
    requires i in k.dropped && c < |k.wants|
    ensures i !in UpToStop(k, CallTrace(k, |k.tlvs|)) && i !in Chain(k, c, |k.tlvs|)
  {
    hide CallTrace, Chain;
    if i in UpToStop(k, CallTrace(k, |k.tlvs|)) {
      CalledOffered(k, |k.tlvs|, i);
    }
    ChainMember(k, c, |k.tlvs|, i);
  }

  // ----- against looking for each entry on its own

  predicate InRange(w: Want, e: Entry) {
    Low(w) <= Order(e) <= High(w)
  }

  /** An entry is for a type, or for a type with its extension. */
  lemma InRangeMeans(w: Want, e: Entry)
    ensures InRange(w, e) <==> e.typ == w.typ && (w.matchExt ==> e.ext == w.ext)
  {
  }

  /** Those of the first `n` TLVs that have the type of entry `c` and apply. */
  function Asked(k: Task, c: nat, n: nat): seq<nat>
    requires c < |k.wants| && n <= |k.tlvs|
  {
    if n == 0 then []
    else Asked(k, c, n - 1) + if InRange(k.wants[c], k.tlvs[n - 1]) && Applies(k, n - 1) then [n - 1] else []
  }

  /** All earlier entries end before entry `c` begins. */
  predicate Apart(wants: seq<Want>, c: nat)
    requires c < |wants|
  {
    forall d :: 0 <= d < c ==> High(wants[d]) < Low(wants[c])
  }

  lemma {:induction false} ApartAsked(k: Task, c: nat, n: nat)
    requires c < |k.wants| && n <= |k.tlvs| && Apart(k.wants, c)
    ensures Chain(k, c, n) == Asked(k, c, n)
  {
    hide Offered;
    if n > 0 {
      ApartAsked(k, c, n - 1);
      var p := PlaceOf(k, n - 1);
      assert p < c ==> High(k.wants[p]) < Low(k.wants[c]);
    }
  }

  /** A TLV goes to the first entry that does not end before it, if it is in the
      range of that entry. */
  lemma GoesExactly(k: Task, c: nat, i: nat)
    requires c < |k.wants| && i < |k.tlvs|
    ensures Goes(k, c, i) <==>
      InRange(k.wants[c], k.tlvs[i]) && forall d :: 0 <= d < c ==> High(k.wants[d]) < Order(k.tlvs[i])
  {
    var p := PlaceOf(k, i);
    hide Place, Covers;
    if InRange(k.wants[c], k.tlvs[i]) && p < c {
      assert Order(k.tlvs[i]) <= High(k.wants[p]);
    }
  }

  /** Where all earlier entries are for smaller types, an entry gets exactly the
      TLVs of its type that are for the address and have not been dropped. */
  lemma ChainExactly(k: Task, c: nat, i: nat)
    requires c < |k.wants| && Apart(k.wants, c)
    ensures i in Chain(k, c, |k.tlvs|) <==>
      && i < |k.tlvs|
      && k.tlvs[i].typ == k.wants[c].typ && (k.wants[c].matchExt ==> k.tlvs[i].ext == k.wants[c].ext)
      && k.tlvs[i].index1 <= k.index <= k.tlvs[i].index2
      && i !in k.dropped && (k.hasCallback ==> k.answers(i) != 1)
  {
    ApartAsked(k, c, |k.tlvs|);
    AskedMember(k, c, |k.tlvs|, i);
    if i < |k.tlvs| {
      InRangeMeans(k.wants[c], k.tlvs[i]);
    }
  }

  lemma {:induction false} AskedMember(k: Task, c: nat, n: nat, i: nat)
    requires c < |k.wants| && n <= |k.tlvs|
    ensures i in Asked(k, c, n) <==> i < n && InRange(k.wants[c], k.tlvs[i]) && Applies(k, i)
  {
    if n > 0 {
      AskedMember(k, c, n - 1, i);
    }
  }

  /** A TLV of the smallest type that an entry is for. */
  function Smallest(w: Want): (e: Entry)
    ensures Order(e) == Low(w) && InRange(w, e) && Covers(e, 0)
  {
    Entry(w.typ, if w.matchExt then w.ext else 0, 0, 0, false, 0, [])
  }

  function Alone(wants: seq<Want>, c: nat): Task
    requires c < |wants|
  {
    Task([Smallest(wants[c])], wants, 0, {}, false, _ => OKAY)
  }

  /** The pass gives entry `c` all TLVs of its type that apply, for every block. */
  ghost predicate GetsAll(wants: seq<Want>, c: nat)
    requires c < |wants|
  {
    forall k: Task :: k.wants == wants ==> Chain(k, c, |k.tlvs|) == Asked(k, c, |k.tlvs|)
  }

  /** One pass gives an entry all TLVs of its type, whatever the TLVs are, if and
      only if all earlier entries are for smaller types. */
  lemma OnePassExactly(wants: seq<Want>, c: nat)
    requires c < |wants|
    ensures GetsAll(wants, c) <==> Apart(wants, c)
  {
    if Apart(wants, c) {
      forall k: Task | k.wants == wants ensures Chain(k, c, |k.tlvs|) == Asked(k, c, |k.tlvs|) {
        ApartAsked(k, c, |k.tlvs|);
      }
    } else {
      var k := Alone(wants, c);
      var d :| 0 <= d < c && High(wants[d]) >= Low(wants[c]);
      assert PlaceOf(k, 0) <= d;
      assert Chain(k, c, 0) == [] && Asked(k, c, 0) == [];
      assert Chain(k, c, 1) == [] && Asked(k, c, 1) == [0];
    }
  }

  function Values(k: Task, chain: seq<nat>): seq<seq<Octet>>
    requires forall j :: 0 <= j < |chain| ==> chain[j] < |k.tlvs| && Covers(k.tlvs[chain[j]], k.index)
  {
    seq(|chain|, j requires 0 <= j < |chain| => ValueFor(k.tlvs[chain[j]], k.index))
  }

  lemma {:induction false} AskedCovers(k: Task, c: nat, n: nat)
    requires c < |k.wants| && n <= |k.tlvs|
    ensures forall j :: 0 <= j < |Asked(k, c, n)| ==> Asked(k, c, n)[j] < |k.tlvs| && Applies(k, Asked(k, c, n)[j])
  {
    if n > 0 {
      AskedCovers(k, c, n - 1);
    }
  }

  /** An entry for one type, of which nothing has been dropped, gets exactly
      the values of that type that the address has, in their order. */
  lemma {:induction false} AskedValues(k: Task, c: nat, n: nat)
    requires c < |k.wants| && n <= |k.tlvs| && k.wants[c].matchExt && k.dropped == {} && (forall i :: !Drops(k, i))
    ensures forall j :: 0 <= j < |Asked(k, c, n)| ==> Asked(k, c, n)[j] < |k.tlvs| && Covers(k.tlvs[Asked(k, c, n)[j]], k.index)
    ensures Values(k, Asked(k, c, n)) == Seen(k.tlvs[..n], Low(k.wants[c]), k.index)
  {
    hide ValueFor, Place;
    AskedCovers(k, c, n);
    if n > 0 {
      AskedValues(k, c, n - 1);
      assert k.tlvs[..n][..n - 1] == k.tlvs[..n - 1];
      assert Low(k.wants[c]) == High(k.wants[c]);
    }
  }

  // ----- constraints

  lemma {:induction false} MetExactly(k: Task, c: nat, n: nat)
    requires c < |k.wants| && n <= |k.tlvs|
    ensures Met(k, c, n) <==> exists i :: 0 <= i < n && Goes(k, c, i)
    ensures Spoiled(k, c, n) <==> exists i :: 0 <= i < n && Goes(k, c, i) && Wrong(k, c, i)
  {
    hide PlaceOf, Order, Low, Wrong, Goes;
    if n > 0 {
      MetExactly(k, c, n - 1);
      SomeMore(k, c, n);
    }
  }

  lemma SomeMore(k: Task, c: nat, n: nat)
    requires c < |k.wants| && 0 < n <= |k.tlvs|
    ensures (exists i :: 0 <= i < n && Goes(k, c, i)) <==> (exists i :: 0 <= i < n - 1 && Goes(k, c, i)) || Goes(k, c, n - 1)
    ensures (exists i :: 0 <= i < n && Goes(k, c, i) && Wrong(k, c, i))
       <==> (exists i :: 0 <= i < n - 1 && Goes(k, c, i) && Wrong(k, c, i)) || (Goes(k, c, n - 1) && Wrong(k, c, n - 1))
  {
    hide Goes, Wrong;
  }

  lemma {:induction false} ChainMember(k: Task, c: nat, n: nat, i: nat)
    requires c < |k.wants| && n <= |k.tlvs|
    ensures i in Chain(k, c, n) <==> i < n && Goes(k, c, i) && Applies(k, i)
  {
    if n > 0 {
      ChainMember(k, c, n - 1, i);
    }
  }

  /** TLV `i` has the type of entry `c`, but does not apply or has a wrong length. */
  predicate GoesWrong(k: Task, c: nat, i: nat)
    requires c < |k.wants| && i < |k.tlvs|
  {
    Goes(k, c, i) && (Applies(k, i) ==> BadLength(k.wants[c], k.tlvs[i]))
  }

  /** A mandatory entry that gets a TLV fails all the same if and only if a TLV
      of its type does not apply to the address, or one has the wrong length. */
  lemma MandatoryExactly(k: Task, c: nat)
    requires c < |k.wants| && k.wants[c].mandatory
    ensures Fails(k, c, |k.tlvs|) <==> Chain(k, c, |k.tlvs|) == [] || (exists i :: 0 <= i < |k.tlvs| && GoesWrong(k, c, i))
  {
    var n := |k.tlvs|;
    MetExactly(k, c, n);
    hide Goes, Applies, BadLength;
    if Chain(k, c, n) != [] {
      ChainMember(k, c, n, Chain(k, c, n)[0]);
    }
    if i :| 0 <= i < n && Goes(k, c, i) && Wrong(k, c, i) {
      assert GoesWrong(k, c, i);
    } else if i :| 0 <= i < n && Goes(k, c, i) {
      assert !Wrong(k, c, i);
      ChainMember(k, c, n, i);
    }
    if i :| 0 <= i < n && GoesWrong(k, c, i) {
      assert Goes(k, c, i) && Wrong(k, c, i);
    }
  }

  /** An entry that is not mandatory fails only for the length of a TLV it gets. */
  lemma OptionalExactly(k: Task, c: nat)
    requires c < |k.wants| && !k.wants[c].mandatory
    ensures Fails(k, c, |k.tlvs|) <==> exists i :: i in Chain(k, c, |k.tlvs|) && i < |k.tlvs| && BadLength(k.wants[c], k.tlvs[i])
  {
    var n := |k.tlvs|;
    MetExactly(k, c, n);
    forall i: nat ensures i in Chain(k, c, n) <==> i < n && Goes(k, c, i) && Applies(k, i) {
      ChainMember(k, c, n, i);
    }
  }

  /** What entry `c` asks for is there: if it is mandatory it gets a TLV, and all
      that go to it apply; if it has bounds, the lengths of those it gets are
      inside them. */
  ghost predicate Meets(k: Task, c: nat)
    requires c < |k.wants|
  {
    var w, chain := k.wants[c], Chain(k, c, |k.tlvs|);
    && (w.mandatory ==> chain != [] && forall i :: 0 <= i < |k.tlvs| && Goes(k, c, i) ==> Applies(k, i))
    && (w.matchLength ==> forall j :: 0 <= j < |chain| ==> chain[j] < |k.tlvs| && w.min <= k.tlvs[chain[j]].length <= w.max)
  }

  lemma {:induction false} ChainInside(k: Task, c: nat, n: nat, j: nat)
    requires c < |k.wants| && n <= |k.tlvs| && j < |Chain(k, c, n)|
    ensures Chain(k, c, n)[j] < n
  {
    if j < |Chain(k, c, n - 1)| {
      ChainInside(k, c, n - 1, j);
    }
  }

  lemma MeetsExactly(k: Task, c: nat)
    requires c < |k.wants|
    ensures Fails(k, c, |k.tlvs|) <==> !Meets(k, c)
  {
    var n := |k.tlvs|;
    var w, chain := k.wants[c], Chain(k, c, n);
    forall i: nat ensures i in chain <==> i < n && Goes(k, c, i) && Applies(k, i) {
      ChainMember(k, c, n, i);
    }
    MetExactly(k, c, n);
    hide Goes, Applies, Met, Spoiled, Chain;
    if Meets(k, c) {
      forall i | 0 <= i < n && Goes(k, c, i) ensures !Wrong(k, c, i) {
        if Applies(k, i) {
          assert i in chain;
          var j :| 0 <= j < |chain| && chain[j] == i;
        }
      }
      if chain != [] {
        assert chain[0] in chain;
      }
    } else if !Fails(k, c, n) {
      forall j | 0 <= j < |chain| ensures chain[j] < n && (w.matchLength ==> w.min <= k.tlvs[chain[j]].length <= w.max) {
        assert chain[j] in chain && !Wrong(k, c, chain[j]);
      }
    }
  }

  lemma {:induction false} AnyFailsMeans(k: Task, n: nat)
    requires n <= |k.wants|
    ensures AnyFails(k, n, |k.tlvs|) <==> exists c :: 0 <= c < n && !Meets(k, c)
  {
    hide Fails, Meets;
    if n > 0 {
      AnyFailsMeans(k, n - 1);
      MeetsExactly(k, n - 1);
    }
  }

  /** Two TLVs of one type, the first for address 0 and the second for address 1. */
  function TwoFor(e: Entry, w: Want): Task {
    Task([e.(index1 := 0, index2 := 0), e.(index1 := 1, index2 := 1)], [w], 1, {}, false, _ => OKAY)
  }

  /** For address 1 a mandatory entry gets the second, and yet it fails. */
  lemma MandatoryMissed(e: Entry, w: Want)
    requires InRange(w, e) && w.mandatory && !w.matchLength
    ensures var k := TwoFor(e, w);
      Chain(k, 0, 2) == [1] && Fails(k, 0, 2)
  {
    var k := TwoFor(e, w);
    assert GoesWrong(k, 0, 0);
    assert Goes(k, 0, 0) && Goes(k, 0, 1) && !Applies(k, 0) && Applies(k, 1);
    assert Chain(k, 0, 0) == [] && Chain(k, 0, 1) == [] && Chain(k, 0, 2) == [1];
    MandatoryExactly(k, 0);
  }

  // ----- calls

  lemma RepeatedCount(i: nat, n: nat, j: nat)
    ensures multiset(Repeated(i, n))[j] == if j == i then n else 0
    decreases n
  {
    if n > 0 {
      RepeatedCount(i, n - 1, j);
      RepeatedMore(i, n - 1);
    }
  }

  /** The calls of the callback in a pass that is not stopped, TLV by TLV. */
  lemma {:induction false} CallsCounted(k: Task, n: nat, i: nat)
    requires n <= |k.tlvs|
    ensures multiset(CallTrace(k, n))[i] == if i < n then Calls(k, i) else 0
  {
    hide Calls, Repeated;
    if n > 0 {
      CallsCounted(k, n - 1, i);
      RepeatedCount(n - 1, Calls(k, n - 1), i);
    }
  }

  /** How often the callback is called with a TLV: never if it is not for the
      address, once if it drops the TLV, and otherwise once for each entry that the
      pass goes on by, but at least once. */
  lemma CallsExactly(k: Task, i: nat)
    requires Sorted(k.tlvs) && i < |k.tlvs|
    ensures var e, from := k.tlvs[i], if i == 0 then -1 else PlaceOf(k, i - 1);
      Calls(k, i) ==
        if !k.hasCallback || k.index < e.index1 || k.index > e.index2 || i in k.dropped then 0
        else if k.answers(i) == 1 || PlaceOf(k, i) == from then 1
        else PlaceOf(k, i) - from
  {
    if i > 0 {
      PlaceRises(k, i - 1, i);
    }
  }

  /** The TLV callback is called for every TLV that is offered, and only once if
      and only if it drops the TLV or the pass skips at most one entry there. */
  lemma CalledOnceExactly(k: Task, i: nat)
    requires Sorted(k.tlvs) && i < |k.tlvs| && k.hasCallback && Offered(k, i)
    ensures Calls(k, i) >= 1
    ensures Calls(k, i) == 1 <==> Drops(k, i) || PlaceOf(k, i) <= (if i == 0 then 0 else PlaceOf(k, i - 1) + 1)
  {
    if i > 0 {
      PlaceRises(k, i - 1, i);
    }
  }
}
