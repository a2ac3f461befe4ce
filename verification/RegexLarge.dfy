/** The matching engine over state sets kept as one cell per state: the "large"
    macros of external/regex/regexec.c with external/regex/engine.c. */
module RegexLarge {
  import opened Wrappers
  import opened RegexLang
  import opened RegexStrip
  import opened RegexStates
  import opened RegexMeaning
  import opened RegexScan
  import opened RegexSearch
  import opened RegexMust
  import opened RegexGuts

  ghost function Members(s: seq<bool>): States {
    set i: nat | i < |s| && s[i]
  }

  /** Storage for the states of the strip, the one after the range included. */
  ghost predicate Fits(m: Machine, v: array<bool>) {
    m.hi < |m.strip| == v.Length
  }

  /** FWD and BACK: if I am here, I can also be there. */
  method Propagate(dst: array<bool>, src: array<bool>, here: nat, there: nat)
    requires src.Length == dst.Length && here < dst.Length && there < dst.Length
    modifies dst
    ensures Members(dst[..]) == old(Members(dst[..])) + if old(here in Members(src[..])) then {there} else {}
  {
    dst[there] := dst[there] || src[here];
  }

  /** O_PLUS goes both forward and back. */
  method VisitPlusClose(m: Machine, pc: nat, aft: array<bool>) returns (again: bool)
    requires Fits(m, aft) && m.lo <= pc < m.hi && m.strip[pc].op == PlusClose
    modifies aft
    ensures Members(aft[..]) == old(Members(aft[..]) + if aft[pc] then EmptyMoves(m.strip, pc) else {})
    ensures again == old(Reconsider(m, pc, Members(aft[..])))
  {
    assert Partnered(m.strip, m.lo, m.hi, pc);
    var back := pc - m.strip[pc].opnd;
    Propagate(aft, aft, pc, pc + 1);
    var known := aft[back];
    assert back != pc + 1 && known == (back in old(Members(aft[..])));
    Propagate(aft, aft, pc, back);
    again := !known && aft[back];
    assert aft[back] == (back in Members(aft[..]));
  }

  /** Two ways on, both forward. */
  method VisitFork(pc: nat, aft: array<bool>, n: nat)
    requires 0 < n && pc + n < aft.Length
    modifies aft
    ensures Members(aft[..]) == old(Members(aft[..]) + if aft[pc] then {pc + 1, pc + n} else {})
  {
    Propagate(aft, aft, pc, pc + 1);
    Propagate(aft, aft, pc, pc + n);
  }

  /** What the scan does at one operator; `again` tells that a loop gained its
      start and must be scanned again. */
  method Visit(m: Machine, pc: nat, bef: array<bool>, ch: Symbol, aft: array<bool>) returns (again: bool)
    requires Fits(m, bef) && Fits(m, aft) && m.lo <= pc < m.hi && (bef == aft ==> !ch.Of?)
    modifies aft
    ensures Members(aft[..]) == old(Members(aft[..]) + Contribution(m, pc, Members(bef[..]), ch, Members(aft[..])))
    ensures (if again then pc - m.strip[pc].opnd else pc + 1) == NextPc(m, pc, old(Members(aft[..])))
  {
    hide Bracketed, EmptyMoves, Contribution;
    ContributionOf(m, pc, Members(bef[..]), ch, Members(aft[..]));
    again := false;
    var s := m.strip[pc];
    MovesOf(m, pc);
    match s.op {
      case End =>
      case Char | Any | AnyOf =>
        if Consumes(s, m.sets, ch) {
          Propagate(aft, bef, pc, pc + 1);
        }
      case PlusOpen | QuestClose | LeftParen | RightParen | ChoiceClose =>
        Propagate(aft, aft, pc, pc + 1);
      case PlusClose => again := VisitPlusClose(m, pc, aft);
      case QuestOpen | ChoiceOpen => VisitFork(pc, aft, s.opnd);
      case Or1 =>
        if aft[pc] {
          var look := FindChoiceEnd(m, pc);
          Propagate(aft, aft, pc, pc + look);
        }
      case Or2 =>
        if m.strip[pc + s.opnd].op != ChoiceClose {
          VisitFork(pc, aft, s.opnd);
        } else {
          Propagate(aft, aft, pc, pc + 1);
        }
    }
  }

  /** Map the states before a character to the states after it, in place. */
  method Step(m: Machine, bef: array<bool>, ch: Symbol, aft: array<bool>)
    requires Fits(m, bef) && Fits(m, aft) && (bef == aft ==> !ch.Of?)
    modifies aft
    ensures Members(aft[..]) == old(StepStates(m, Members(bef[..]), ch, Members(aft[..])))
  {
    ghost var all := StepStates(m, Members(bef[..]), ch, Members(aft[..]));
    var pc := m.lo;
    while pc != m.hi
      invariant m.lo <= pc <= m.hi
      invariant old(Members(aft[..])) <= Members(aft[..]) <= all
      invariant Settled(m, pc, old(Members(bef[..])), ch, Members(aft[..]))
      decreases all - Members(aft[..]), m.hi - pc
    {
      ghost var now := Members(aft[..]);
      ContributionSound(m, pc, old(Members(bef[..])), ch, old(Members(aft[..])), now);
      VisitSettles(m, pc, old(Members(bef[..])), ch, now);
      ghost var next := NextPc(m, pc, now);
      var again := Visit(m, pc, bef, ch, aft);
      pc := if again then pc - m.strip[pc].opnd else pc + 1;
    }
    SettledComplete(m, old(Members(bef[..])), ch, old(Members(aft[..])), Members(aft[..]));
  }
  method Clear(v: array<bool>)
    modifies v
    ensures Members(v[..]) == {}
  {
    forall i | 0 <= i < v.Length {
      v[i] := false;
    }
  }

  method Assign(dst: array<bool>, src: array<bool>)
    requires dst.Length == src.Length
    modifies dst
    ensures dst[..] == old(src[..])
  {
    forall i | 0 <= i < dst.Length {
      dst[i] := src[i];
    }
  }

  predicate SameStates(v: array<bool>, w: array<bool>)
    requires v.Length == w.Length
    reads v, w
    ensures SameStates(v, w) <==> Members(v[..]) == Members(w[..])
  {
    assert v[..] != w[..] ==> exists i :: 0 <= i < v.Length && v[..][i] != w[..][i];
    assert forall i :: 0 <= i < v.Length && v[..][i] != w[..][i] ==> (i in Members(v[..])) != (i in Members(w[..]));
    v[..] == w[..]
  }

  /** The engine's working storage, the text it runs on, and the last position
      no match was under way at. */
  class Matching {
    const text: Word
    const flags: Flags
    const st: array<bool>
    const other: array<bool>
    const tmp: array<bool>
    const empty: array<bool>
    var coldp: nat

    ghost predicate Valid(m: Machine)
      reads empty
    {
      && Fits(m, st) && Fits(m, other) && Fits(m, tmp) && Fits(m, empty)
      && st != other && st != tmp && st != empty && other != tmp && other != empty && tmp != empty
      && Members(empty[..]) == {}
    }

    constructor (text: Word, flags: Flags, nstates: nat)
      ensures this.text == text && this.flags == flags
      ensures fresh(st) && fresh(other) && fresh(tmp) && fresh(empty)
      ensures forall m: Machine :: m.hi < |m.strip| == nstates ==> Valid(m)
    {
      this.text := text;
      this.flags := flags;
      st := new bool[nstates];
      other := new bool[nstates];
      tmp := new bool[nstates];
      empty := new bool[nstates];
      coldp := 0;
      new;
      Clear(empty);
    }

    /** The states a run starts with. */
    method Begin(m: Machine, v: array<bool>)
      requires Fits(m, v)
      modifies v
      ensures Members(v[..]) == Fresh(m)
    {
      Clear(v);
      v[m.lo] := true;
      assert Members(v[..]) == {m.lo};
      Step(m, v, Nothing, v);
      assert {m.lo} + Advance(m, {m.lo}, Nothing) == {m.lo};
    }

    /** A step on a word boundary, which without word operators changes nothing. */
    method Cross(m: Machine, v: array<bool>, last: Option<Byte>, next: Option<Byte>)
      requires Fits(m, v) && Closed(m, Members(v[..]))
      modifies v
      ensures Members(v[..]) == old(Members(v[..]))
    {
      var b := Boundary(last, next, flags);
      if b != Nothing {
        StepOnNothing(m, Members(v[..]), b);
        Step(m, v, b, v);
      }
    }

    /** Read one character, going on from the states in `again` as well. */
    method Read(m: Machine, ch: Byte, again: array<bool>)
      requires Valid(m) && (again == other || again == empty)
      modifies st, tmp
      ensures Members(st[..]) == old(StepStates(m, Members(st[..]), Of(ch), Members(again[..])))
    {
      Assign(tmp, st);
      Assign(st, again);
      Step(m, tmp, Of(ch), st);
    }

    /** Read the character at `p` of a run that began at `start`. */
    method ReadOn(m: Machine, ch: Byte, ghost start: nat, ghost p: nat)
      requires Valid(m) && start <= p < |text| && ch == text[p] && Members(st[..]) == Along(m, text, start, p)
      modifies st, tmp
      ensures Members(st[..]) == Along(m, text, start, p + 1)
    {
      Read(m, ch, empty);
      AlongStep(m, text, start, p);
    }

    method ReadAgain(m: Machine, ch: Byte, ghost start: nat, ghost p: nat)
      requires Valid(m) && start <= p < |text| && ch == text[p] && Members(st[..]) == AlongAny(m, text, start, p)
      requires Members(other[..]) == Fresh(m)
      modifies st, tmp
      ensures Members(st[..]) == AlongAny(m, text, start, p + 1)
    {
      Read(m, ch, other);
      AlongStep(m, text, start, p);
    }

    /** Step through the text, and tell where the longest match ends that begins
        at `start`. */
    method Slow(m: Machine, start: nat, stop: nat, ghost l: Language) returns (matchp: Option<nat>)
      requires Valid(m) && Recognizes(m, l) && start <= stop <= |text|
      modifies st, tmp
      ensures matchp == LongestEnd(l, text, start, stop)
    {
      assert LongestBefore(l, text, start, start) == None;
      hide Recognizes, LongestEnd, LongestBefore, Along;
      var p := start;
      var c := Before(text, p);
      AlongStart(m, text, start);
      Begin(m, st);
      matchp := None;
      while true
        invariant start <= p <= stop && c == Before(text, p)
        invariant Members(st[..]) == Along(m, text, start, p)
        invariant matchp == LongestBefore(l, text, start, p)
        decreases stop - p
      {
        var lastc := c;
        c := Current(text, p);
        AlongClosed(m, text, start, p);
        Cross(m, st, lastc, c);
        LookAt(m, l, text, start, p);
        if st[m.hi] {
          matchp := Some(p);
        }
        if SameStates(st, empty) || p == stop {
          StopAt(m, l, text, start, p, stop);
          return;
        }
        ReadOn(m, c.value, start, p);
        p := p + 1;
      }
    }

    /** Before the character at `p` of a scan: is no match under way, and is there
        a word boundary? */
    method Look(m: Machine, lastc: Option<Byte>, c: Option<Byte>, ghost l: Language, ghost start: nat, ghost stop: nat, p: nat)
      requires Valid(m) && Recognizes(m, l) && start <= p <= stop <= |text|
      requires Members(other[..]) == Fresh(m) && Members(st[..]) == AlongAny(m, text, start, p)
      modifies this`coldp, st
      ensures Members(st[..]) == AlongAny(m, text, start, p)
      ensures old(Scan(m, l, text, start, stop, coldp, p))
           == if st[m.hi] then Report(Some(p + 1), coldp)
              else if p == stop then Report(None, coldp)
              else Scan(m, l, text, start, stop, coldp, p + 1)
    {
      if SameStates(st, other) {
        coldp := p;
      }
      ScanOne(m, l, text, start, stop, old(coldp), coldp, p);
      AlongClosed(m, text, start, p);
      Cross(m, st, lastc, c);
    }

    /** Step through the text at top speed until some match ends, and remember in
        `coldp` the last position before it with no match under way. */
    method Fast(m: Machine, start: nat, stop: nat, ghost l: Language) returns (found: Option<nat>)
      requires Valid(m) && Recognizes(m, l) && start <= stop <= |text|
      modifies this, st, other, tmp
      ensures Report(found, coldp) == Scan(m, l, text, start, stop, start, start)
    {
      hide Recognizes, Scan, AlongAny, Along, StepStates, Fresh;
      var p := start;
      var c := Before(text, p);
      AlongStart(m, text, start);
      Begin(m, st);
      Assign(other, st);
      ghost var begun := other[..];
      coldp := start;
      while true
        invariant start <= p <= stop && c == Before(text, p)
        invariant other[..] == begun && Members(begun) == Fresh(m)
        invariant Members(st[..]) == AlongAny(m, text, start, p)
        invariant Scan(m, l, text, start, stop, start, start) == Scan(m, l, text, start, stop, coldp, p)
        decreases stop - p
      {
        var lastc := c;
        c := Current(text, p);
        Look(m, lastc, c, l, start, stop, p);
        if st[m.hi] || p == stop {
          break;
        }
        ReadAgain(m, c.value, start, p);
        p := p + 1;
      }
      found := if st[m.hi] then Some(p + 1) else None;
    }
  }

  /** Set the engine to work: where does the first match end, and where does a
      longest one begin? */
  method Find(g: Guts, text: Word, nmatch: nat, flags: Flags, ghost p: Piece) returns (o: Outcome)
    requires g in GutsFor(p)
    ensures o == Search(Alone(p), Lang(p.c), text, nmatch)
  {
    ghost var l, engine := Lang(p.c), Engine(g, p);
    PieceRecognizes(p);
    ScanFinds(engine, l, text, 0, |text|);
    var machine: Machine := Range(g.strip, g.sets, g.firststate + 1, g.laststate);
    var m := new Matching(text, flags, g.nstates);
    var endp := m.Fast(machine, 0, |text|, l);
    if endp.None? {
      return NoMatch;
    }
    if nmatch == 0 {
      return Success;
    }
    StartFromFinds(l, text, m.coldp, endp.value - 1);
    o := FindStart(m, machine, l);
  }

  /** From where no match was under way, look for a start with a match. */
  method FindStart(m: Matching, machine: Machine, ghost l: Language) returns (o: Outcome)
    requires m.Valid(machine) && Recognizes(machine, l)
    requires m.coldp <= |m.text| && StartFrom(l, m.text, m.coldp).SuccessAt?
    modifies m, m.st, m.tmp
    ensures o == old(StartFrom(l, m.text, m.coldp))
  {
    while true
      invariant m.coldp <= |m.text| && StartFrom(l, m.text, m.coldp) == old(StartFrom(l, m.text, m.coldp))
      invariant m.Valid(machine)
      decreases |m.text| - m.coldp
    {
      var endp := m.Slow(machine, m.coldp, |m.text|, l);
      if endp.Some? {
        return SuccessAt(m.coldp, endp.value);
      }
      assert m.coldp < |m.text|;
      m.coldp := m.coldp + 1;
    }
  }

  /** The matching engine: prescreen, find where the first match ends, and from
      there where a longest one begins. */
  method Matcher(g: Guts, text: Word, nmatch: nat, flags: Flags, ghost p: Piece) returns (o: Outcome)
    requires g in GutsFor(p)
    ensures o == Search(Alone(p), Lang(p.c), text, nmatch)
  {
    ghost var l := Lang(p.c);
    PieceRecognizes(p);
    SearchExact(Alone(p), l, text, nmatch);
    if g.must.Some? {
      var found := Prescreen(g.must.value, text);
      if !found {
        if Occurs(l, text, 0, |text|) {
          MustOccurs(p, text, g.must.value);
        }
        return NoMatch;
      }
    }
    o := Find(g, text, nmatch, flags, p);
  }
}
