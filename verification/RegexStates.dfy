/** What the matching engine computes, free of how state sets are stored: the
    moves between positions of a strip, their closure, and the sets of states
    reached after reading text. */
module RegexStates {
  import opened RegexLang
  import opened RegexStrip

  type States = set<nat>

  /** What a step is taken on: a character, or one of the engine's codes that
      are not characters (NOTHING, BOW and EOW). */
  datatype Symbol = Of(c: Byte) | Nothing | BeginWord | EndWord

  /** A part of a strip, from `lo` up to `hi`, that the engine is run on. */
  datatype Range = Range(strip: Strip, sets: seq<CharSet>, lo: nat, hi: nat)

  ghost predicate Runnable(r: Range) {
    WellBracketed(r.strip, r.lo, r.hi)
  }

  type Machine = r: Range | Runnable(r) ghost witness Range([], [], 0, 0)

  /** The operator lets the character through. */
  predicate Consumes(s: Sop, sets: seq<CharSet>, ch: Symbol) {
    && ch.Of?
    && match s.op {
      case Char => ch.c == s.opnd
      case Any => true
      case AnyOf => s.opnd < |sets| && ch.c in sets[s.opnd].members
      case _ => false
    }
  }

  /** Following OOR2 to OOR2 up to the O_CH that closes the choice. */
  function ChoiceEnd(strip: Strip, i: nat): (e: nat)
    requires i < |strip|
    ensures i <= e < |strip|
    decreases |strip| - i
  {
    var s := strip[i];
    if s.op == Or2 && 0 < s.opnd && i + s.opnd < |strip| then ChoiceEnd(strip, i + s.opnd) else i
  }

  /** Where one can get from position `p` without reading anything. */
  function EmptyMoves(strip: Strip, p: nat): States
    requires p < |strip|
  {
    var n := strip[p].opnd;
    match strip[p].op
    case End => {}
    case Char => {}
    case Any => {}
    case AnyOf => {}
    case PlusOpen => {p + 1}
    case PlusClose => if n <= p then {p + 1, p - n} else {}
    case QuestOpen => {p + 1, p + n}
    case QuestClose => {p + 1}
    case LeftParen => {p + 1}
    case RightParen => {p + 1}
    case ChoiceOpen => {p + 1, p + n}
    case Or1 => if p + 1 < |strip| then {ChoiceEnd(strip, p + 1)} else {}
    case Or2 => if p + n < |strip| && strip[p + n].op != ChoiceClose then {p + 1, p + n} else {p + 1}
    case ChoiceClose => {p + 1}
  }

  ghost predicate Closed(m: Machine, x: States) {
    forall p: nat {:trigger EmptyMoves(m.strip, p)} :: m.lo <= p < m.hi && p in x ==> EmptyMoves(m.strip, p) <= x
  }

  /** The least closed set that includes the seed. */
  ghost predicate IsClosure(m: Machine, seed: States, r: States) {
    seed <= r && Closed(m, r) && forall x: States :: Closed(m, x) && seed <= x ==> r <= x
  }

  ghost function Closure(m: Machine, seed: States): (r: States)
    ensures IsClosure(m, seed, r)
  {
    ClosureExists(m, seed);
    var r :| IsClosure(m, seed, r); r
  }

  /** The states just after an operator of `x` that lets `ch` through. */
  function Advance(m: Machine, x: States, ch: Symbol): States {
    set q: nat | m.lo < q <= m.hi && Lets(m, x, ch, q)
  }

  predicate Lets(m: Machine, x: States, ch: Symbol, q: nat) {
    m.lo < q <= m.hi && q - 1 in x && Consumes(m.strip[q - 1], m.sets, ch)
  }

  /** The meaning of one call of the engine's `step`. */
  ghost function StepStates(m: Machine, bef: States, ch: Symbol, aft: States): States {
    Closure(m, aft + Advance(m, bef, ch))
  }

  // ----- moves stay inside the brackets

  lemma {:induction false} ChoiceEndInside(m: Machine, i: nat)
    requires m.lo <= i < m.hi && m.strip[i].op == Or2
    ensures ChoiceEnd(m.strip, i) < m.hi && m.strip[ChoiceEnd(m.strip, i)].op == ChoiceClose
    decreases m.hi - i
  {
    assert Partnered(m.strip, m.lo, m.hi, i);
    var j := i + m.strip[i].opnd;
    if m.strip[j].op == Or2 {
      ChoiceEndInside(m, j);
    }
  }

  lemma MovesInside(m: Machine, p: nat)
    requires m.lo <= p < m.hi
    ensures forall q :: q in EmptyMoves(m.strip, p) ==> m.lo <= q <= m.hi
  {
    assert Partnered(m.strip, m.lo, m.hi, p);
    if m.strip[p].op == Or1 {
      ChoiceEndInside(m, p + 1);
    }
  }

  // ----- closure

  /** Every closed set that includes the seed has `q`. */
  ghost predicate Forced(m: Machine, seed: States, q: nat) {
    forall x: States :: Closed(m, x) && seed <= x ==> q in x
  }

  lemma ForcedMoves(m: Machine, seed: States, p: nat, q: nat)
    requires m.lo <= p < m.hi && Forced(m, seed, p) && q in EmptyMoves(m.strip, p)
    ensures Forced(m, seed, q)
  {
  }

  lemma ClosureExists(m: Machine, seed: States)
    ensures exists r :: IsClosure(m, seed, r)
  {
    var r := (set q: nat | m.lo <= q <= m.hi && Forced(m, seed, q)) + seed;
    forall p: nat, q | m.lo <= p < m.hi && p in r && q in EmptyMoves(m.strip, p) ensures q in r {
      MovesInside(m, p);
      ForcedMoves(m, seed, p, q);
    }
    assert IsClosure(m, seed, r);
  }

  /** A closed set is its own closure, so a step on NOTHING leaves it alone. */
  lemma StepOnNothing(m: Machine, x: States, ch: Symbol)
    requires Closed(m, x) && !ch.Of?
    ensures StepStates(m, x, ch, x) == x
  {
    assert x + Advance(m, x, ch) == x;
  }

  // ----- reading text

  ghost function Fresh(m: Machine): States {
    Closure(m, {m.lo})
  }

  /** The states after reading `w` from the start of the range. */
  ghost function Reach(m: Machine, w: Word): States {
    if w == [] then Fresh(m)
    else StepStates(m, Reach(m, w[..|w| - 1]), Of(w[|w| - 1]), {})
  }

  /** The states when a new match may start before every character of `w`. */
  ghost function ReachAny(m: Machine, w: Word): States {
    if w == [] then Fresh(m)
    else StepStates(m, ReachAny(m, w[..|w| - 1]), Of(w[|w| - 1]), Fresh(m))
  }

  lemma ReachClosed(m: Machine, w: Word)
    ensures Closed(m, Reach(m, w)) && Closed(m, ReachAny(m, w))
  {
  }

  /** Reading one more character. */
  lemma ReadStep(m: Machine, w: Word, c: Byte)
    ensures Reach(m, w + [c]) == StepStates(m, Reach(m, w), Of(c), {})
    ensures ReachAny(m, w + [c]) == StepStates(m, ReachAny(m, w), Of(c), Fresh(m))
  {
    assert (w + [c])[..|w + [c]| - 1] == w;
  }

  lemma ReadOne(m: Machine, w: Word, c: Byte)
    ensures Reach(m, w + [c]) == Closure(m, Advance(m, Reach(m, w), Of(c)))
    ensures ReachAny(m, w + [c]) == Closure(m, Fresh(m) + Advance(m, ReachAny(m, w), Of(c)))
  {
    assert (w + [c])[..|w + [c]| - 1] == w;
    var x := Advance(m, Reach(m, w), Of(c));
    assert {} + x == x;
  }

  /** Some start of a match in `w` leads to `q` at its end. */
  ghost predicate FromSomeStart(m: Machine, w: Word, q: nat) {
    exists i :: 0 <= i <= |w| && q in Reach(m, w[i..])
  }

  lemma MoreStates(m: Machine, x: States, y: States, z: States, ch: Symbol)
    requires x <= y
    ensures Closure(m, Advance(m, x, ch)) <= Closure(m, z + Advance(m, y, ch))
  {
    assert Advance(m, x, ch) <= Advance(m, y, ch);
    hide Closure, Advance;
  }

  lemma {:induction false} StartIncluded(m: Machine, w: Word, i: nat)
    requires i <= |w|
    ensures Reach(m, w[i..]) <= ReachAny(m, w)
    decreases |w|
  {
    hide Closure, Fresh, Advance, Closed;
    if w == [] {
    } else {
      var v, c := w[..|w| - 1], w[|w| - 1];
      assert w == v + [c];
      ReadOne(m, v, c);
      if i == |w| {
        assert w[i..] == [];
      } else {
        StartIncluded(m, v, i);
        assert w[i..] == v[i..] + [c];
        ReadOne(m, v[i..], c);
        MoreStates(m, Reach(m, v[i..]), ReachAny(m, v), Fresh(m), Of(c));
      }
    }
  }

  lemma StartedEarlier(m: Machine, v: Word, c: Byte, q: nat)
    requires m.lo < q <= m.hi
    requires FromSomeStart(m, v, q - 1) && Consumes(m.strip[q - 1], m.sets, Of(c))
    ensures FromSomeStart(m, v + [c], q)
  {
    var i :| 0 <= i <= |v| && q - 1 in Reach(m, v[i..]);
    assert (v + [c])[i..] == v[i..] + [c];
    ReadOne(m, v[i..], c);
    assert Lets(m, Reach(m, v[i..]), Of(c), q);
  }

  /** The states a step starts from were reached from some start. */
  lemma SeedStarted(m: Machine, v: Word, c: Byte, q: nat)
    requires q in Fresh(m) || q in Advance(m, ReachAny(m, v), Of(c))
    requires m.lo < q && q - 1 in ReachAny(m, v) ==> FromSomeStart(m, v, q - 1)
    ensures FromSomeStart(m, v + [c], q)
  {
    if q in Fresh(m) {
      assert (v + [c])[|v| + 1..] == [];
    } else {
      StartedEarlier(m, v, c, q);
    }
  }

  /** The states reached from some start, within the range and the seed. */
  ghost function StartedStates(m: Machine, w: Word, seed: States): States {
    (set q: nat | m.lo <= q <= m.hi && FromSomeStart(m, w, q)) + (set q: nat | q in seed && FromSomeStart(m, w, q))
  }

  lemma StartedClosed(m: Machine, w: Word, seed: States)
    ensures Closed(m, StartedStates(m, w, seed))
  {
    var all := StartedStates(m, w, seed);
    forall p: nat, q | m.lo <= p < m.hi && p in all && q in EmptyMoves(m.strip, p) ensures q in all {
      var i :| 0 <= i <= |w| && p in Reach(m, w[i..]);
      ReachClosed(m, w[i..]);
      MovesInside(m, p);
      assert q in Reach(m, w[i..]);
    }
  }

  lemma {:induction false} SomeStart(m: Machine, w: Word, q: nat)
    requires q in ReachAny(m, w)
    ensures FromSomeStart(m, w, q)
    decreases |w|
  {
    if w == [] {
      assert w[0..] == w;
    } else {
      var v, c := w[..|w| - 1], w[|w| - 1];
      var any := ReachAny(m, v);
      var seed := Fresh(m) + Advance(m, any, Of(c));
      assert w == v + [c];
      forall x | x in seed ensures FromSomeStart(m, w, x) {
        if m.lo < x && x - 1 in any {
          SomeStart(m, v, x - 1);
        }
        SeedStarted(m, v, c, x);
      }
      ReadOne(m, v, c);
      StartedClosed(m, w, seed);
      assert seed <= StartedStates(m, w, seed);
    }
  }

  /** Restarting before every character reaches exactly what some start does. */
  lemma ReachAnyStarts(m: Machine, w: Word, q: nat)
    ensures q in ReachAny(m, w) <==> FromSomeStart(m, w, q)
  {
    if FromSomeStart(m, w, q) {
      var i :| 0 <= i <= |w| && q in Reach(m, w[i..]);
      StartIncluded(m, w, i);
    }
    if q in ReachAny(m, w) {
      SomeStart(m, w, q);
    }
  }
}
