/** The scan one engine step makes over the strip, on sets: each operator adds
    what follows from it, and a loop that gained its start is scanned again. */
module RegexScan {
  import opened RegexLang
  import opened RegexStrip
  import opened RegexStates

  /** What visiting the operator at `pc` adds to the states known after it. */
  function Contribution(m: Machine, pc: nat, bef: States, ch: Symbol, aft: States): States
    requires m.lo <= pc < m.hi
  {
    (if pc in aft then EmptyMoves(m.strip, pc) else {}) +
    (if pc in bef && Consumes(m.strip[pc], m.sets, ch) then {pc + 1} else {})
  }

  /** The scan has to go back to the start of the loop that ends at `pc`. */
  predicate Reconsider(m: Machine, pc: nat, aft: States)
    requires m.lo <= pc < m.hi
  {
    m.strip[pc].op == PlusClose && pc in aft && pc - m.strip[pc].opnd !in aft
  }

  function NextPc(m: Machine, pc: nat, aft: States): int
    requires m.lo <= pc < m.hi
  {
    if Reconsider(m, pc, aft) then pc - m.strip[pc].opnd else pc + 1
  }

  /** Everything that follows from operators before `pc` is known. */
  ghost predicate Settled(m: Machine, pc: nat, bef: States, ch: Symbol, aft: States) {
    forall p: nat :: m.lo <= p < pc && p < m.hi ==> Contribution(m, p, bef, ch, aft) <= aft
  }

  lemma ContributionSound(m: Machine, pc: nat, bef: States, ch: Symbol, start: States, aft: States)
    requires m.lo <= pc < m.hi && aft <= StepStates(m, bef, ch, start)
    ensures Contribution(m, pc, bef, ch, aft) <= StepStates(m, bef, ch, start)
  {
    var all := StepStates(m, bef, ch, start);
    assert Closed(m, all);
    if pc in bef && Consumes(m.strip[pc], m.sets, ch) {
      assert Lets(m, bef, ch, pc + 1);
    }
  }

  /** Where the partners of an operator are, as far as the scan relies on it. */
  lemma MovesOf(m: Machine, pc: nat)
    requires m.lo <= pc < m.hi
    ensures var s := m.strip[pc];
      match s.op {
        case End => false
        case Char | Any | AnyOf => EmptyMoves(m.strip, pc) == {}
        case PlusOpen | QuestClose | LeftParen | RightParen | ChoiceClose => EmptyMoves(m.strip, pc) == {pc + 1}
        case PlusClose => 0 < s.opnd <= pc && EmptyMoves(m.strip, pc) == {pc + 1, pc - s.opnd}
        case QuestOpen | ChoiceOpen => 0 < s.opnd < m.hi - pc && EmptyMoves(m.strip, pc) == {pc + 1, pc + s.opnd}
        case Or1 => true
        case Or2 => 0 < s.opnd < m.hi - pc &&
          EmptyMoves(m.strip, pc) == if m.strip[pc + s.opnd].op != ChoiceClose then {pc + 1, pc + s.opnd} else {pc + 1}
      }
  {
    assert Partnered(m.strip, m.lo, m.hi, pc);
  }

  /** Operators that read a character make no empty moves, and the others read none. */
  lemma ContributionOf(m: Machine, pc: nat, bef: States, ch: Symbol, aft: States)
    requires m.lo <= pc < m.hi
    ensures Contribution(m, pc, bef, ch, aft) ==
      if m.strip[pc].op in {Char, Any, AnyOf} then (if Consumes(m.strip[pc], m.sets, ch) && pc in bef then {pc + 1} else {})
      else if pc in aft then EmptyMoves(m.strip, pc) else {}
  {
    MovesOf(m, pc);
  }

  /** Only the end of a loop moves backwards. */
  lemma MovesForward(m: Machine, pc: nat, q: nat)
    requires m.lo <= pc < m.hi && q in EmptyMoves(m.strip, pc)
    ensures m.lo <= q <= m.hi
    ensures q > pc || (m.strip[pc].op == PlusClose && q == pc - m.strip[pc].opnd < pc)
  {
    MovesInside(m, pc);
    assert Partnered(m.strip, m.lo, m.hi, pc);
  }

  lemma VisitSettles(m: Machine, pc: nat, bef: States, ch: Symbol, aft: States)
    requires m.lo <= pc < m.hi && Settled(m, pc, bef, ch, aft)
    ensures m.lo <= NextPc(m, pc, aft) <= m.hi
    ensures Settled(m, NextPc(m, pc, aft), bef, ch, aft + Contribution(m, pc, bef, ch, aft))
    ensures Reconsider(m, pc, aft) ==> NextPc(m, pc, aft) in Contribution(m, pc, bef, ch, aft)
  {
    assert Partnered(m.strip, m.lo, m.hi, pc);
    var more := Contribution(m, pc, bef, ch, aft);
    var next := NextPc(m, pc, aft);
    forall p: nat | m.lo <= p < next && p < m.hi ensures Contribution(m, p, bef, ch, aft + more) <= aft + more {
      if p in more && p !in aft {
        MovesForward(m, pc, p);
      }
      assert p in aft + more ==> p in aft;
      assert p < pc ==> Contribution(m, p, bef, ch, aft) <= aft;
    }
  }

  /** When the scan is over, it has computed the step. */
  lemma SettledComplete(m: Machine, bef: States, ch: Symbol, start: States, aft: States)
    requires start <= aft <= StepStates(m, bef, ch, start) && Settled(m, m.hi, bef, ch, aft)
    ensures aft == StepStates(m, bef, ch, start)
  {
    forall p: nat | m.lo <= p < m.hi && p in aft ensures EmptyMoves(m.strip, p) <= aft {
      assert Contribution(m, p, bef, ch, aft) <= aft;
    }
    forall q | q in Advance(m, bef, ch) ensures q in aft {
      assert Lets(m, bef, ch, q);
      assert Contribution(m, q - 1, bef, ch, aft) <= aft;
    }
    assert Closed(m, aft) && start + Advance(m, bef, ch) <= aft;
  }

  /** The operator the OOR1 before `pc` jumps to. */
  method FindChoiceEnd(m: Machine, pc: nat) returns (look: nat)
    requires m.lo <= pc < m.hi && m.strip[pc].op == Or1
    ensures pc + look < m.hi && {pc + look} == EmptyMoves(m.strip, pc)
  {
    look := 1;
    assert Partnered(m.strip, m.lo, m.hi, pc);
    while m.strip[pc + look].op != ChoiceClose
      invariant 1 <= look && pc + look < m.hi
      invariant m.strip[pc + look].op == Or2 || m.strip[pc + look].op == ChoiceClose
      invariant ChoiceEnd(m.strip, pc + look) == ChoiceEnd(m.strip, pc + 1)
      decreases m.hi - look
    {
      assert Partnered(m.strip, m.lo, m.hi, pc + look);
      look := look + m.strip[pc + look].opnd;
    }
  }
}
