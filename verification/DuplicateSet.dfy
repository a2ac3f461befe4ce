/** Detecting duplicate messages by their wrapping sequence numbers
    (src-api/subsystems/oonf_duplicate_set.c): a sliding window of 32 numbers
    that starts over after a series of numbers that are too old. */
module DuplicateSet {
  import opened Words
  import opened Rfc5444

  const MAXIMUM_TOO_OLD: nat := 8
  const WINDOW: nat := 32

  datatype Result = TooOld | Duplicate | Current | New | Newest | First

  predicate IsNew(r: Result) {
    r == New || r == Newest || r == First
  }

  // ----- what an entry remembers, on numbers that do not wrap around

  /** The newest number, the numbers accepted since the last restart, and how
      many numbers in a row were too old. */
  datatype Window = Window(current: int, accepted: set<int>, tooOld: nat)

  function Opened(n: int): Window {
    Window(n, {n}, 0)
  }

  /** The number that a sequence number stands for. */
  function Unwrapped(w: Window, seqno: Seqno): int {
    w.current + SeqnoDifference(seqno, w.current % SEQNOS)
  }

  predicate IsTooOld(w: Window, n: int) {
    n < w.current - (WINDOW - 1)
  }

  predicate Restarts(w: Window, n: int) {
    IsTooOld(w, n) && w.tooOld >= MAXIMUM_TOO_OLD
  }

  function Verdict(w: Window, n: int): Result {
    if n == w.current then Current
    else if IsTooOld(w, n) then if Restarts(w, n) then Newest else TooOld
    else if n > w.current then Newest
    else if n in w.accepted then Duplicate
    else New
  }

  function Received(w: Window, n: int): Window {
    if n == w.current then w
    else if Restarts(w, n) then Opened(n)
    else if IsTooOld(w, n) then w.(tooOld := w.tooOld + 1)
    else Window(if n > w.current then n else w.current, w.accepted + {n}, 0)
  }

  /** What a query for a number does: nothing is accepted, but numbers that are too
      old are counted, and a query can start the entry over. */
  function Queried(w: Window, n: int): Window {
    if n == w.current then w
    else if Restarts(w, n) then Opened(n)
    else if IsTooOld(w, n) then w.(tooOld := w.tooOld + 1)
    else w.(tooOld := 0)
  }

  /** A query leaves the entry unchanged exactly if the number is the newest one, or
      is not too old and none too old has been counted. It does what adding the
      number does exactly if that is too old or has been accepted. */
  lemma QueryLeavesExactly(w: Window, n: int)
    requires Sane(w)
    ensures Queried(w, n) == w <==> n == w.current || (n >= w.current - 31 && w.tooOld == 0)
    ensures Queried(w, n) == Received(w, n) <==> n < w.current - 31 || n in w.accepted
  {
    assert n in w.accepted ==> w.accepted + {n} == w.accepted;
    assert n in w.accepted + {n};
  }

  /** A query makes no difference to the answer when the number is then added,
      exactly if the number is not too old or fewer than seven were before it. */
  lemma QueryThenAdd(w: Window, n: int)
    requires Sane(w)
    ensures Verdict(Queried(w, n), n) == Verdict(w, n) <==> n >= w.current - 31 || w.tooOld < 7
  {
    assert n < w.current - 31 && w.tooOld == 8 ==> Queried(w, n).current == n;
  }

  /** The newest number is accepted and none is newer. */
  ghost predicate Sane(w: Window) {
    w.current in w.accepted && w.tooOld <= MAXIMUM_TOO_OLD && forall n :: n in w.accepted ==> n <= w.current
  }

  type Word32 = v: Bits | |v| == 32 witness Zero(32)

  /** Bit k of the history says whether the number k before the newest one has
      been accepted. */
  ghost predicate Remembers(history: Word32, w: Window) {
    forall k :: 0 <= k < WINDOW ==> (history[k] <==> w.current - k in w.accepted)
  }

  function Bit(k: nat): Word32 {
    ShiftLeft(One(WINDOW), k)
  }

  lemma SlideRemembers(history: Word32, w: Window, n: int)
    requires Sane(w) && Remembers(history, w) && w.current < n < w.current + WINDOW
    ensures Remembers(Or(ShiftLeft(history, n - w.current), One(WINDOW)), Received(w, n))
  {
  }

  lemma MarkRemembers(history: Word32, w: Window, n: int)
    requires Sane(w) && Remembers(history, w) && w.current - WINDOW < n < w.current
    ensures (And(history, Bit(w.current - n)) != Zero(WINDOW)) == (n in w.accepted)
    ensures Remembers(Or(history, Bit(w.current - n)), Received(w, n))
    ensures n in w.accepted ==> Remembers(history, Received(w, n))
  {
    var k := w.current - n;
    assert And(history, Bit(k))[k] == history[k];
    if !history[k] {
      assert And(history, Bit(k)) == Zero(WINDOW);
    }
  }

  class DuplicateEntry {
    var history: Word32
    var current: Seqno
    var tooOldCount: nat
    ghost var window: Window

    ghost predicate Valid()
      reads this
    {
      && Sane(window) && Remembers(history, window)
      && current == window.current % SEQNOS && tooOldCount == window.tooOld
    }

    constructor (seqno: Seqno)
      ensures Valid() && window == Opened(seqno)
    {
      current := seqno;
      history := One(WINDOW);
      tooOldCount := 0;
      window := Opened(seqno);
    }

    /** _test, adding the number. */
    method Test(seqno: Seqno) returns (result: Result)
      requires Valid()
      modifies this
      ensures Valid()
      ensures result == Verdict(old(window), Unwrapped(old(window), seqno))
      ensures window == Received(old(window), Unwrapped(old(window), seqno))
    {
      hide And, Or, ShiftLeft;
      ghost var n := Unwrapped(window, seqno);
      DifferenceWraps(seqno, window.current);
      if seqno == current {
        return Current;
      }
      var diff := SeqnoDifference(seqno, current);
      window := Received(window, n);
      if diff < -31 {
        tooOldCount := tooOldCount + 1;
        if tooOldCount > MAXIMUM_TOO_OLD {
          history := One(WINDOW);
          tooOldCount := 0;
          current := seqno;
          return Newest;
        }
        return TooOld;
      }
      tooOldCount := 0;
      if diff <= 0 {
        MarkRemembers(history, old(window), n);
        var bitmask := Bit(-diff);
        if And(history, bitmask) != Zero(WINDOW) {
          return Duplicate;
        }
        history := Or(history, bitmask);
        return New;
      }
      current := seqno;
      if diff >= 32 {
        history := One(WINDOW);
      } else {
        SlideRemembers(history, old(window), n);
        history := Or(ShiftLeft(history, diff), One(WINDOW));
      }
      return Newest;
    }

    /** _test, without adding the number. */
    method Query(seqno: Seqno) returns (result: Result)
      requires Valid()
      modifies this
      ensures Valid()
      ensures result == Verdict(old(window), Unwrapped(old(window), seqno))
      ensures window == Queried(old(window), Unwrapped(old(window), seqno))
    {
      hide And, Or, ShiftLeft;
      ghost var n := Unwrapped(window, seqno);
      DifferenceWraps(seqno, window.current);
      if seqno == current {
        return Current;
      }
      var diff := SeqnoDifference(seqno, current);
      window := Queried(window, n);
      if diff < -31 {
        tooOldCount := tooOldCount + 1;
        if tooOldCount > MAXIMUM_TOO_OLD {
          history := One(WINDOW);
          tooOldCount := 0;
          current := seqno;
          return Newest;
        }
        return TooOld;
      }
      tooOldCount := 0;
      if diff <= 0 {
        MarkRemembers(history, old(window), n);
        return if And(history, Bit(-diff)) != Zero(WINDOW) then Duplicate else New;
      }
      return Newest;
    }
  }

  // ----- runs of one entry

  /** What the entry remembers after the first `i` of the numbers that follow the
      one it was made with. */
  function After(first: Seqno, seqnos: seq<Seqno>, i: nat): Window
    requires i <= |seqnos|
  {
    if i == 0 then Opened(first)
    else
      var w := After(first, seqnos, i - 1);
      Received(w, Unwrapped(w, seqnos[i - 1]))
  }

  /** The number the `i`th message stands for, message 0 being the one the entry
      was made with; what is reported for it; and whether the entry starts over. */
  function NumberAt(first: Seqno, seqnos: seq<Seqno>, i: nat): int
    requires i <= |seqnos|
  {
    if i == 0 then first else Unwrapped(After(first, seqnos, i - 1), seqnos[i - 1])
  }

  function VerdictAt(first: Seqno, seqnos: seq<Seqno>, i: nat): Result
    requires i <= |seqnos|
  {
    if i == 0 then First else Verdict(After(first, seqnos, i - 1), NumberAt(first, seqnos, i))
  }

  predicate RestartsAt(first: Seqno, seqnos: seq<Seqno>, i: nat)
    requires i <= |seqnos|
  {
    i > 0 && Restarts(After(first, seqnos, i - 1), NumberAt(first, seqnos, i))
  }

  lemma {:induction false} AfterSane(first: Seqno, seqnos: seq<Seqno>, i: nat)
    requires i <= |seqnos|
    ensures Sane(After(first, seqnos, i))
  {
    if i > 0 {
      AfterSane(first, seqnos, i - 1);
    }
  }

  /** A number reported as new stays accepted until a restart. */
  lemma {:induction false} StaysAccepted(first: Seqno, seqnos: seq<Seqno>, i: nat, j: nat)
    requires i <= j <= |seqnos| && IsNew(VerdictAt(first, seqnos, i))
    requires forall k :: i < k <= j ==> !RestartsAt(first, seqnos, k)
    ensures NumberAt(first, seqnos, i) in After(first, seqnos, j).accepted
    decreases j
  {
    if i < j {
      StaysAccepted(first, seqnos, i, j - 1);
      assert !RestartsAt(first, seqnos, j);
    }
  }

  /** Between restarts no number is reported as new twice. */
  lemma NewOnce(first: Seqno, seqnos: seq<Seqno>, i: nat, j: nat)
    requires i < j <= |seqnos|
    requires IsNew(VerdictAt(first, seqnos, i)) && IsNew(VerdictAt(first, seqnos, j))
    requires forall k :: i < k <= j ==> !RestartsAt(first, seqnos, k)
    ensures NumberAt(first, seqnos, i) != NumberAt(first, seqnos, j)
  {
    StaysAccepted(first, seqnos, i, j - 1);
    AfterSane(first, seqnos, j - 1);
    assert !RestartsAt(first, seqnos, j);
  }

  // ----- what is reported, by the numbers that came before

  /** Message `s` is the first one or a restart, and there is no restart up to message `i`. */
  ghost predicate Since(first: Seqno, seqnos: seq<Seqno>, s: nat, i: nat) {
    && s <= i <= |seqnos| && (s == 0 || RestartsAt(first, seqnos, s))
    && forall k :: s < k <= i ==> !RestartsAt(first, seqnos, k)
  }

  /** `c` is the largest number of the messages from `s` to `i`. */
  ghost predicate IsLargest(first: Seqno, seqnos: seq<Seqno>, s: nat, i: nat, c: int)
    requires s <= i <= |seqnos|
  {
    && (exists k :: s <= k <= i && NumberAt(first, seqnos, k) == c)
    && forall k :: s <= k <= i ==> NumberAt(first, seqnos, k) <= c
  }

  /** The number `n` has come since message `s`. */
  ghost predicate Came(first: Seqno, seqnos: seq<Seqno>, s: nat, i: nat, n: int)
    requires s <= i <= |seqnos|
  {
    exists k :: s <= k <= i && NumberAt(first, seqnos, k) == n
  }

  lemma CameMore(first: Seqno, seqnos: seq<Seqno>, s: nat, i: nat, n: int)
    requires s < i <= |seqnos|
    ensures Came(first, seqnos, s, i, n) <==> Came(first, seqnos, s, i - 1, n) || NumberAt(first, seqnos, i) == n
  {
    hide NumberAt;
  }

  /** Since a restart, the newest number is the largest, and of the numbers that
      are not too old exactly those that came have been accepted. */
  lemma {:induction false} AcceptedCame(first: Seqno, seqnos: seq<Seqno>, s: nat, i: nat, n: int)
    requires Since(first, seqnos, s, i)
    ensures IsLargest(first, seqnos, s, i, After(first, seqnos, i).current)
    ensures n in After(first, seqnos, i).accepted ==> Came(first, seqnos, s, i, n)
    ensures Came(first, seqnos, s, i, n) && n >= After(first, seqnos, i).current - 31 ==> n in After(first, seqnos, i).accepted
    decreases i
  {
    if s == i {
      assert After(first, seqnos, i).current == NumberAt(first, seqnos, i);
    } else {
      AcceptedCame(first, seqnos, s, i - 1, n);
      AfterSane(first, seqnos, i - 1);
      assert !RestartsAt(first, seqnos, i);
      CameMore(first, seqnos, s, i, n);
      CameMore(first, seqnos, s, i, After(first, seqnos, i).current);
      LargestMore(first, seqnos, s, i);
    }
  }

  lemma LargestMore(first: Seqno, seqnos: seq<Seqno>, s: nat, i: nat)
    requires s < i <= |seqnos| && !RestartsAt(first, seqnos, i)
    requires IsLargest(first, seqnos, s, i - 1, After(first, seqnos, i - 1).current)
    ensures IsLargest(first, seqnos, s, i, After(first, seqnos, i).current)
  {
    var k :| s <= k <= i - 1 && NumberAt(first, seqnos, k) == After(first, seqnos, i - 1).current;
    var n := NumberAt(first, seqnos, i);
    assert After(first, seqnos, i) == Received(After(first, seqnos, i - 1), n);
    hide NumberAt;
  }

  /** Every answer, by the numbers that have come since the last restart, of which
      `c` is the largest: what is at most 31 behind it is new exactly if it has
      not come, and what is larger than all is the newest. */
  lemma AnswerExactly(first: Seqno, seqnos: seq<Seqno>, s: nat, i: nat, c: int)
    requires 0 < i <= |seqnos| && Since(first, seqnos, s, i - 1) && IsLargest(first, seqnos, s, i - 1, c)
    ensures var n, v := NumberAt(first, seqnos, i), VerdictAt(first, seqnos, i);
      && (v == Current <==> n == c)
      && (v == TooOld <==> n < c - 31 && !RestartsAt(first, seqnos, i))
      && (v == Newest <==> n > c || RestartsAt(first, seqnos, i))
      && (v == New <==> c - 31 <= n < c && !Came(first, seqnos, s, i - 1, n))
      && (v == Duplicate <==> c - 31 <= n < c && Came(first, seqnos, s, i - 1, n))
      && (n >= c - 31 ==> (IsNew(v) <==> !Came(first, seqnos, s, i - 1, n)))
  {
    hide NumberAt, After, Came, IsLargest, Since;
    var n, w := NumberAt(first, seqnos, i), After(first, seqnos, i - 1);
    AcceptedCame(first, seqnos, s, i - 1, n);
    OnlyLargest(first, seqnos, s, i - 1, c, w.current, n);
    assert VerdictAt(first, seqnos, i) == Verdict(w, n) && (RestartsAt(first, seqnos, i) <==> Restarts(w, n));
    hide VerdictAt, RestartsAt;
  }

  lemma OnlyLargest(first: Seqno, seqnos: seq<Seqno>, s: nat, i: nat, c: int, d: int, n: int)
    requires s <= i <= |seqnos| && IsLargest(first, seqnos, s, i, c) && IsLargest(first, seqnos, s, i, d)
    ensures c == d && Came(first, seqnos, s, i, c) && (Came(first, seqnos, s, i, n) ==> n <= c)
  {
    hide NumberAt;
  }

  /** How many of the latest messages up to message `i` were too old, with none
      but current ones in between. */
  function TooOldInARow(first: Seqno, seqnos: seq<Seqno>, i: nat): nat
    requires i <= |seqnos|
  {
    match VerdictAt(first, seqnos, i)
    case TooOld => 1 + if i > 0 then TooOldInARow(first, seqnos, i - 1) else 0
    case Current => if i > 0 then TooOldInARow(first, seqnos, i - 1) else 0
    case _ => 0
  }

  lemma {:induction false} TooOldCounted(first: Seqno, seqnos: seq<Seqno>, i: nat)
    requires i <= |seqnos|
    ensures After(first, seqnos, i).tooOld == TooOldInARow(first, seqnos, i)
  {
    if i > 0 {
      TooOldCounted(first, seqnos, i - 1);
    }
  }

  /** The entry starts over exactly at a number that is too old and comes after
      eight others in a row, current ones aside. */
  lemma RestartExactly(first: Seqno, seqnos: seq<Seqno>, i: nat)
    requires 0 < i <= |seqnos|
    ensures RestartsAt(first, seqnos, i) <==>
      && NumberAt(first, seqnos, i) < After(first, seqnos, i - 1).current - 31
      && TooOldInARow(first, seqnos, i - 1) == 8
  {
    TooOldCounted(first, seqnos, i - 1);
    AfterSane(first, seqnos, i - 1);
  }

  /** As long as the sender's numbers stay close to the newest one, the numbers
      the entry works with are the sender's. */
  lemma NumbersAreTheSenders(first: Seqno, seqnos: seq<Seqno>, sent: seq<int>, i: nat)
    requires |sent| == |seqnos| + 1 && i <= |seqnos| && sent[0] == first
    requires forall k :: 0 <= k < |seqnos| ==> seqnos[k] == sent[k + 1] % SEQNOS
    requires forall k :: 0 <= k < i ==> -0x8000 < sent[k + 1] - After(first, seqnos, k).current < 0x8000
    ensures NumberAt(first, seqnos, i) == sent[i]
  {
    if i > 0 {
      var w := After(first, seqnos, i - 1);
      DifferenceUnwraps(sent[i], w.current);
    }
  }

  // ----- the set of entries

  /** Entries are kept by message type and originator. */
  datatype Key = Key(messageType: nat, originator: nat)

  class Set {
    var entries: map<Key, DuplicateEntry>

    ghost predicate Valid()
      reads this, entries.Values
    {
      && (forall k :: k in entries ==> entries[k].Valid())
      && forall j, k :: j in entries && k in entries && j != k ==> entries[j] != entries[k]
    }

    ghost function Windows(): map<Key, Window>
      reads this, entries.Values
    {
      map k | k in entries :: entries[k].window
    }

    constructor ()
      ensures Valid() && Windows() == map[]
    {
      entries := map[];
    }

    /** oonf_duplicate_entry_add */
    method Add(key: Key, seqno: Seqno) returns (result: Result)
      requires Valid()
      modifies this, entries.Values
      ensures Valid() && fresh(entries.Values - old(entries.Values))
      ensures key !in old(Windows()) ==> result == First && Windows() == old(Windows())[key := Opened(seqno)]
      ensures key in old(Windows()) ==>
        var w := old(Windows())[key];
        result == Verdict(w, Unwrapped(w, seqno)) && Windows() == old(Windows())[key := Received(w, Unwrapped(w, seqno))]
    {
      if key in entries {
        var entry := entries[key];
        result := entry.Test(seqno);
      } else {
        var entry := new DuplicateEntry(seqno);
        entries := entries[key := entry];
        result := First;
      }
    }

    /** oonf_duplicate_test: no entry is made. */
    method Test(key: Key, seqno: Seqno) returns (result: Result)
      requires Valid()
      modifies entries.Values
      ensures Valid()
      ensures key !in old(Windows()) ==> result == First && Windows() == old(Windows())
      ensures key in old(Windows()) ==>
        var w := old(Windows())[key];
        result == Verdict(w, Unwrapped(w, seqno)) && Windows() == old(Windows())[key := Queried(w, Unwrapped(w, seqno))]
    {
      result := First;
      if key in entries {
        result := entries[key].Query(seqno);
      }
    }
  }
}
