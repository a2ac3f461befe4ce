/** The matching engine over state sets kept as the bits of one 64-bit word: the
    "small" macros of external/regex/regexec.c with external/regex/engine.c. */
module RegexSmall {
  import opened Words
  import opened Wrappers
  import opened RegexLang
  import opened RegexStrip
  import opened RegexStates
  import opened RegexMeaning
  import opened RegexScan
  import opened RegexSearch
  import opened RegexMust
  import opened RegexGuts

  const WIDTH: nat := 64

  type Word64 = v: Bits | |v| == 64 witness Zero(64)

  ghost function Members(v: Word64): States {
    set i: nat | i < WIDTH && v[i]
  }

  /** INIT: the word that has just the bit of position `pc`. */
  function Bit(pc: nat): Word64 {
    ShiftLeft(One(WIDTH), pc)
  }

  /** FWD: if `src` has `here`, then `dst` gets the state `n` further on. */
  function Forward(dst: Word64, src: Word64, here: Word64, n: nat): Word64 {
    Or(dst, ShiftLeft(And(src, here), n))
  }

  /** BACK: if `src` has `here`, then `dst` gets the state `n` before. */
  function Backward(dst: Word64, src: Word64, here: Word64, n: nat): Word64 {
    Or(dst, ShiftRight(And(src, here), n))
  }

  /** ISSTATEIN and ISSETBACK. */
  predicate IsStateIn(v: Word64, here: Word64) {
    And(v, here) != Zero(WIDTH)
  }

  predicate IsSetBack(v: Word64, here: Word64, n: nat) {
    And(v, ShiftRight(here, n)) != Zero(WIDTH)
  }

  lemma ForwardMembers(dst: Word64, src: Word64, pc: nat, n: nat)
    requires pc + n < WIDTH
    ensures Members(Forward(dst, src, Bit(pc), n)) == Members(dst) + if pc in Members(src) then {pc + n} else {}
  {
  }

  lemma BackwardMembers(dst: Word64, src: Word64, pc: nat, n: nat)
    requires n <= pc < WIDTH
    ensures Members(Backward(dst, src, Bit(pc), n)) == Members(dst) + if pc in Members(src) then {pc - n} else {}
  {
  }

  lemma StateInMembers(v: Word64, pc: nat)
    requires pc < WIDTH
    ensures IsStateIn(v, Bit(pc)) <==> pc in Members(v)
  {
    assert And(v, Bit(pc))[pc] == v[pc];
    if !v[pc] {
      assert And(v, Bit(pc)) == Zero(WIDTH);
    }
  }

  lemma SetBackMembers(v: Word64, pc: nat, n: nat)
    requires n <= pc < WIDTH
    ensures IsSetBack(v, Bit(pc), n) <==> pc - n in Members(v)
  {
    assert ShiftRight(Bit(pc), n) == Bit(pc - n);
    StateInMembers(v, pc - n);
  }

  ghost predicate Fits(m: Machine) {
    m.hi < |m.strip| <= WIDTH
  }

  /** O_PLUS goes both forward and back. */
  method VisitPlusClose(m: Machine, pc: nat, here: Word64, aft: Word64) returns (r: Word64, again: bool)
    requires Fits(m) && m.lo <= pc < m.hi && here == Bit(pc) && m.strip[pc].op == PlusClose
    ensures Members(r) == Members(aft) + if pc in Members(aft) then EmptyMoves(m.strip, pc) else {}
    ensures again == Reconsider(m, pc, Members(aft))
  {
    assert Partnered(m.strip, m.lo, m.hi, pc);
    var n := m.strip[pc].opnd;
    r := Forward(aft, aft, here, 1);
    ForwardMembers(aft, aft, pc, 1);
    var known := IsSetBack(r, here, n);
    SetBackMembers(r, pc, n);
    BackwardMembers(r, r, pc, n);
    r := Backward(r, r, here, n);
    again := !known && IsSetBack(r, here, n);
    SetBackMembers(r, pc, n);
  }

  method Propagate(dst: Word64, src: Word64, here: Word64, n: nat, ghost pc: nat) returns (r: Word64)
    requires here == Bit(pc) && pc + n < WIDTH
    ensures Members(r) == Members(dst) + if pc in Members(src) then {pc + n} else {}
  {
    r := Forward(dst, src, here, n);
    ForwardMembers(dst, src, pc, n);
  }

  /** Two ways on, both forward. */
  method VisitFork(here: Word64, aft: Word64, n: nat, ghost pc: nat) returns (r: Word64)
    requires here == Bit(pc) && 0 < n && pc + n < WIDTH
    ensures Members(r) == Members(aft) + if pc in Members(aft) then {pc + 1, pc + n} else {}
  {
    r := Propagate(aft, aft, here, 1, pc);
    r := Propagate(r, r, here, n, pc);
  }

  method VisitOr1(m: Machine, pc: nat, here: Word64, aft: Word64) returns (r: Word64)
    requires Fits(m) && m.lo <= pc < m.hi && here == Bit(pc) && m.strip[pc].op == Or1
    ensures Members(r) == Members(aft) + if pc in Members(aft) then EmptyMoves(m.strip, pc) else {}
  {
    r := aft;
    StateInMembers(aft, pc);
    if IsStateIn(aft, here) {
      var look := FindChoiceEnd(m, pc);
      r := Propagate(aft, aft, here, look, pc);
    }
  }

  /** What the scan does at one operator; `again` tells that a loop gained its
      start and must be scanned again. */
  method Visit(m: Machine, pc: nat, here: Word64, bef: Word64, ch: Symbol, aft: Word64) returns (r: Word64, again: bool)
    requires Fits(m) && m.lo <= pc < m.hi && here == Bit(pc)
    ensures Members(r) == Members(aft) + Contribution(m, pc, Members(bef), ch, Members(aft))
    ensures (if again then pc - m.strip[pc].opnd else pc + 1) == NextPc(m, pc, Members(aft))
  {
    hide Partnered, Bracketed, ChoiceEnd, EmptyMoves, WellBracketed, Members;
    again := false;
    r := aft;
    var s := m.strip[pc];
    MovesOf(m, pc);
    match s.op {
      case End =>
      case Char | Any | AnyOf =>
        if Consumes(s, m.sets, ch) {
          r := Propagate(aft, bef, here, 1, pc);
        }
      case PlusOpen | QuestClose | LeftParen | RightParen | ChoiceClose =>
        r := Propagate(aft, aft, here, 1, pc);
      case PlusClose => r, again := VisitPlusClose(m, pc, here, aft);
      case QuestOpen | ChoiceOpen => r := VisitFork(here, aft, s.opnd, pc);
      case Or1 => r := VisitOr1(m, pc, here, aft);
      case Or2 =>
        if m.strip[pc + s.opnd].op != ChoiceClose {
          r := VisitFork(here, aft, s.opnd, pc);
        } else {
          r := Propagate(aft, aft, here, 1, pc);
        }
    }
  }

  /** Map the states before a character to the states after it. */
  method Step(m: Machine, bef: Word64, ch: Symbol, start: Word64) returns (aft: Word64)
    requires Fits(m)
    ensures Members(aft) == StepStates(m, Members(bef), ch, Members(start))
  {
    aft := start;
    ghost var all := StepStates(m, Members(bef), ch, Members(aft));
    var pc := m.lo;
    var here := Bit(pc);
    while pc != m.hi
      invariant m.lo <= pc <= m.hi && here == Bit(pc)
      invariant Members(start) <= Members(aft) <= all
      invariant Settled(m, pc, Members(bef), ch, Members(aft))
      decreases all - Members(aft), m.hi - pc
    {
      ContributionSound(m, pc, Members(bef), ch, Members(start), Members(aft));
      VisitSettles(m, pc, Members(bef), ch, Members(aft));
      var again;
      aft, again := Visit(m, pc, here, bef, ch, aft);
      if again {
        pc := pc - m.strip[pc].opnd;
        here := Bit(pc);
      } else {
        pc := pc + 1;
        here := ShiftLeft(here, 1);
      }
    }
    SettledComplete(m, Members(bef), ch, Members(start), Members(aft));
  }

  predicate SameStates(v: Word64, w: Word64)
    ensures SameStates(v, w) <==> Members(v) == Members(w)
  {
    assert v != w ==> exists i :: 0 <= i < WIDTH && v[i] != w[i];
    assert forall i :: 0 <= i < WIDTH && v[i] != w[i] ==> (i in Members(v)) != (i in Members(w));
    v == w
  }

  method Clear() returns (v: Word64)
    ensures Members(v) == {}
  {
    v := Zero(WIDTH);
  }

  /** The states a run starts with. */
  method Begin(m: Machine) returns (st: Word64)
    requires Fits(m)
    ensures Members(st) == Fresh(m)
  {
    st := Or(Zero(WIDTH), Bit(m.lo));
    assert Members(st) == {m.lo};
    st := Step(m, st, Nothing, st);
    assert {m.lo} + Advance(m, {m.lo}, Nothing) == {m.lo};
  }

  /** The text the engine runs on, and the last position no match was under way
      at.  The state sets are local to the calls. */
  class Matching {
    const text: Word
    const flags: Flags
    var coldp: nat

    constructor (text: Word, flags: Flags)
      ensures this.text == text && this.flags == flags
    {
      this.text := text;
      this.flags := flags;
      coldp := 0;
    }

    /** A step on a word boundary, which without word operators changes nothing. */
    method Cross(m: Machine, v: Word64, last: Option<Byte>, next: Option<Byte>) returns (r: Word64)
      requires Fits(m) && Closed(m, Members(v))
      ensures Members(r) == Members(v)
    {
      r := v;
      var b := Boundary(last, next, flags);
      if b != Nothing {
        StepOnNothing(m, Members(v), b);
        r := Step(m, v, b, v);
      }
    }

    /** Read the character at `p` of a run that began at `start`. */
    method ReadOn(m: Machine, ch: Byte, st: Word64, empty: Word64, ghost start: nat, ghost p: nat) returns (r: Word64)
      requires Fits(m) && start <= p < |text| && ch == text[p] && Members(st) == Along(m, text, start, p)
      requires Members(empty) == {}
      ensures Members(r) == Along(m, text, start, p + 1)
    {
      r := Step(m, st, Of(ch), empty);
      AlongStep(m, text, start, p);
    }

    method ReadAgain(m: Machine, ch: Byte, st: Word64, other: Word64, ghost start: nat, ghost p: nat) returns (r: Word64)
      requires Fits(m) && start <= p < |text| && ch == text[p] && Members(st) == AlongAny(m, text, start, p)
      requires Members(other) == Fresh(m)
      ensures Members(r) == AlongAny(m, text, start, p + 1)
    {
      r := Step(m, st, Of(ch), other);
      AlongStep(m, text, start, p);
    }

    /** Step through the text, and tell where the longest match ends that begins
        at `start`. */
    method Slow(m: Machine, start: nat, stop: nat, ghost l: Language) returns (matchp: Option<nat>)
      requires Fits(m) && Recognizes(m, l) && start <= stop <= |text|
      ensures matchp == LongestEnd(l, text, start, stop)
    {
      assert LongestBefore(l, text, start, start) == None;
      hide Recognizes, LongestEnd, LongestBefore, Along;
      var empty := Clear();
      var p := start;
      var c := Before(text, p);
      AlongStart(m, text, start);
      var st := Begin(m);
      matchp := None;
      while true
        invariant start <= p <= stop && c == Before(text, p)
        invariant Members(st) == Along(m, text, start, p)
        invariant matchp == LongestBefore(l, text, start, p)
        decreases stop - p
      {
        var lastc := c;
        c := Current(text, p);
        AlongClosed(m, text, start, p);
        st := Cross(m, st, lastc, c);
        LookAt(m, l, text, start, p);
        if st[m.hi] {
          matchp := Some(p);
        }
        if SameStates(st, empty) || p == stop {
          StopAt(m, l, text, start, p, stop);
          return;
        }
        st := ReadOn(m, c.value, st, empty, start, p);
        p := p + 1;
      }
    }

    /** Before the character at `p` of a scan: is no match under way, and is there
        a word boundary? */
    method Look(m: Machine, st: Word64, other: Word64, lastc: Option<Byte>, c: Option<Byte>,
      ghost l: Language, ghost start: nat, ghost stop: nat, p: nat) returns (r: Word64)
      requires Fits(m) && Recognizes(m, l) && start <= p <= stop <= |text|
      requires Members(other) == Fresh(m) && Members(st) == AlongAny(m, text, start, p)
      modifies this`coldp
      ensures Members(r) == AlongAny(m, text, start, p)
      ensures old(Scan(m, l, text, start, stop, coldp, p))
           == if r[m.hi] then Report(Some(p + 1), coldp)
              else if p == stop then Report(None, coldp)
              else Scan(m, l, text, start, stop, coldp, p + 1)
    {
      if SameStates(st, other) {
        coldp := p;
      }
      ScanOne(m, l, text, start, stop, old(coldp), coldp, p);
      AlongClosed(m, text, start, p);
      r := Cross(m, st, lastc, c);
    }

    /** Step through the text at top speed until some match ends, and remember in
        `coldp` the last position before it with no match under way. */
    method Fast(m: Machine, start: nat, stop: nat, ghost l: Language) returns (found: Option<nat>)
      requires Fits(m) && Recognizes(m, l) && start <= stop <= |text|
      modifies this
      ensures Report(found, coldp) == Scan(m, l, text, start, stop, start, start)
    {
      hide Recognizes, Scan, AlongAny, Along, StepStates, Fresh;
      var p := start;
      var c := Before(text, p);
      AlongStart(m, text, start);
      var st := Begin(m);
      var other := st;
      coldp := start;
      while true
        invariant start <= p <= stop && c == Before(text, p)
        invariant Members(other) == Fresh(m)
        invariant Members(st) == AlongAny(m, text, start, p)
        invariant Scan(m, l, text, start, stop, start, start) == Scan(m, l, text, start, stop, coldp, p)
        decreases stop - p
      {
        var lastc := c;
        c := Current(text, p);
        st := Look(m, st, other, lastc, c, l, start, stop, p);
        if st[m.hi] || p == stop {
          break;
        }
        st := ReadAgain(m, c.value, st, other, start, p);
        p := p + 1;
      }
      found := if st[m.hi] then Some(p + 1) else None;
    }
  }

  /** Set the engine to work: where does the first match end, and where does a
      longest one begin? */
  method Find(g: Guts, text: Word, nmatch: nat, flags: Flags, ghost p: Piece) returns (o: Outcome)
    requires g in GutsFor(p) && g.nstates <= WIDTH
    ensures o == Search(Alone(p), Lang(p.c), text, nmatch)
  {
    ghost var l, engine := Lang(p.c), Engine(g, p);
    PieceRecognizes(p);
    ScanFinds(engine, l, text, 0, |text|);
    var machine: Machine := Range(g.strip, g.sets, g.firststate + 1, g.laststate);
    var m := new Matching(text, flags);
    var endp := m.Fast(machine, 0, |text|, l);
    if endp.None? {
      return NoMatch;
    }
    if nmatch == 0 {
      return Success;
    }
    StartFromFinds(l, text, m.coldp, endp.value - 1);
    o := FindStart(m, machine, l);
  }

  /** From where no match was under way, look for a start with a match. */
  method FindStart(m: Matching, machine: Machine, ghost l: Language) returns (o: Outcome)
    requires Fits(machine) && Recognizes(machine, l)
    requires m.coldp <= |m.text| && StartFrom(l, m.text, m.coldp).SuccessAt?
    modifies m
    ensures o == old(StartFrom(l, m.text, m.coldp))
  {
    while true
      invariant m.coldp <= |m.text| && StartFrom(l, m.text, m.coldp) == old(StartFrom(l, m.text, m.coldp))
      decreases |m.text| - m.coldp
    {
      var endp := m.Slow(machine, m.coldp, |m.text|, l);
      if endp.Some? {
        return SuccessAt(m.coldp, endp.value);
      }
      assert m.coldp < |m.text|;
      m.coldp := m.coldp + 1;
    }
  }

  /** The matching engine: prescreen, find where the first match ends, and from
      there where a longest one begins. */
  method Matcher(g: Guts, text: Word, nmatch: nat, flags: Flags, ghost p: Piece) returns (o: Outcome)
    requires g in GutsFor(p) && g.nstates <= WIDTH
    ensures o == Search(Alone(p), Lang(p.c), text, nmatch)
  {
    ghost var l := Lang(p.c);
    PieceRecognizes(p);
    SearchExact(Alone(p), l, text, nmatch);
    if g.must.Some? {
      var found := Prescreen(g.must.value, text);
      if !found {
        if Occurs(l, text, 0, |text|) {
          MustOccurs(p, text, g.must.value);
        }
        return NoMatch;
      }
    }
    o := Find(g, text, nmatch, flags, p);
  }
}
