/** What is found out about a strip once it is compiled: a literal every match
    must contain (findmust) and how deep loops nest (pluscount). */
module RegexMust {
  import opened Wrappers
  import opened RegexLang
  import opened RegexStrip
  import opened RegexStates
  import opened RegexMeaning

  // ----- the literal every match contains

  /** The literal run read last, and the longest one that has ended. */
  datatype Runs = Runs(run: Word, best: Word)

  function EndRun(r: Runs): Runs {
    Runs([], if |r.run| > |r.best| then r.run else r.best)
  }

  /** Where the skipping of an optional or choice group ends. */
  function SkipEnd(strip: Strip, i: nat): nat
    requires i < |strip|
  {
    var j := i + strip[i].opnd;
    if strip[i].op == QuestOpen || j >= |strip| then j else ChoiceEnd(strip, j)
  }

  /** Where the scan goes on after the operator at `i`. */
  function ScanNext(strip: Strip, i: nat): nat
    requires i < |strip|
  {
    if strip[i].op == QuestOpen || strip[i].op == ChoiceOpen then SkipEnd(strip, i) else i + 1
  }

  /** The runs after an operator. */
  function Scanned(s: Sop, r: Runs): Runs {
    if s.op == Char then (if s.opnd < 256 then Runs(r.run + [s.opnd], r.best) else r)
    else if s.op == PlusOpen || s.op == LeftParen || s.op == RightParen then r
    else EndRun(r)
  }

  /** The runs once the scan from `i` on is over. */
  function ScanFrom(strip: Strip, i: nat, r: Runs): Runs
    decreases |strip| - i
  {
    if i >= |strip| || strip[i].op == End then EndRun(r)
    else if ScanNext(strip, i) > i then ScanFrom(strip, ScanNext(strip, i), Scanned(strip[i], r))
    else r
  }

  lemma ScanStep(strip: Strip, i: nat, r: Runs)
    requires i < |strip| && strip[i].op != End && ScanNext(strip, i) > i
    ensures ScanFrom(strip, i, r) == ScanFrom(strip, ScanNext(strip, i), Scanned(strip[i], r))
  {
  }

  lemma ScanLast(strip: Strip, i: nat, r: Runs)
    requires i < |strip| && strip[i].op == End
    ensures ScanFrom(strip, i, r) == EndRun(r)
  {
  }

  /** The same for a piece of code. */
  function ScanCode(c: Code, r: Runs): Runs {
    match c
    case Skip => r
    case Single(atom) => if atom.Literal? then Runs(r.run + [atom.c], r.best) else EndRun(r)
    case Around(pair, body) =>
      (match pair
       case ParenPair(_) => ScanCode(body, r)
       case PlusPair => EndRun(ScanCode(body, r))
       case QuestPair => EndRun(r))
    case Then(first, second) => ScanCode(second, ScanCode(first, r))
    case Choice(_, _) => EndRun(r)
  }

  lemma {:induction false} ScanPiece(p: Piece, r: Runs)
    ensures ScanFrom(p.strip, p.x, r) == ScanFrom(p.strip, p.x + Size(p.c), ScanCode(p.c, r))
    decreases p.c, 0
  {
    hide Laid, BranchesLaid, ScanFrom;
    PieceEnds(p);
    match p.c
    case Skip =>
    case Single(_) => ScanStep(p.strip, p.x, r);
    case Around(_, _) => ScanAround(p, r);
    case Then(_, _) =>
      ScanPiece(First(p), r);
      ScanPiece(Second(p), ScanCode(p.c.first, r));
    case Choice(_, _) => ScanChoice(p, r);
  }

  /** How the scan passes the two operators of a pair. */
  lemma PairNext(p: Piece, r: Runs)
    requires p.c.Around?
    ensures var y := p.x + Size(p.c.body) + 1; p.x < y < |p.strip| && p.strip[p.x].op != End && p.strip[y].op != End
    ensures var y := p.x + Size(p.c.body) + 1; ScanNext(p.strip, p.x) == (if p.c.pair.QuestPair? then y else p.x + 1) && ScanNext(p.strip, y) == y + 1
    ensures Scanned(p.strip[p.x], r) == if p.c.pair.QuestPair? then EndRun(r) else r
    ensures Scanned(p.strip[p.x + Size(p.c.body) + 1], r) == if p.c.pair.ParenPair? then r else EndRun(r)
  {
    PieceEnds(p);
    hide Laid, BranchesLaid, ChoiceEnd, EndRun;
  }

  lemma {:induction false} ScanAround(p: Piece, r: Runs)
    requires p.c.Around?
    ensures ScanFrom(p.strip, p.x, r) == ScanFrom(p.strip, p.x + Size(p.c), ScanCode(p.c, r))
    decreases p.c, -1
  {
    hide Laid, BranchesLaid, ScanFrom, ScanNext, Scanned;
    var y := p.x + Size(p.c.body) + 1;
    PairNext(p, r);
    ScanStep(p.strip, p.x, r);
    if p.c.pair.QuestPair? {
      PairNext(p, EndRun(r));
      ScanStep(p.strip, y, EndRun(r));
    } else {
      ScanPiece(Body(p), r);
      PairNext(p, ScanCode(p.c.body, r));
      ScanStep(p.strip, y, ScanCode(p.c.body, r));
    }
  }

  lemma ChoiceNext(p: Piece)
    requires p.c.Choice?
    ensures ScanNext(p.strip, p.x) == p.x + Size(p.c) - 1 < |p.strip|
    ensures p.strip[p.x].op == ChoiceOpen && p.strip[p.x + Size(p.c) - 1].op == ChoiceClose
  {
    PieceEnds(p);
    BranchEnds(OtherBranches(p));
    BranchesEnd(OtherBranches(p));
    hide Laid, BranchesLaid, ChoiceEnd;
  }

  lemma ScanChoice(p: Piece, r: Runs)
    requires p.c.Choice?
    ensures ScanFrom(p.strip, p.x, r) == ScanFrom(p.strip, p.x + Size(p.c), EndRun(r))
  {
    hide ScanFrom, Laid, BranchesLaid, SkipEnd;
    ChoiceNext(p);
    ScanStep(p.strip, p.x, r);
    ScanStep(p.strip, p.x + Size(p.c) - 1, EndRun(r));
  }

  ghost predicate EndsWith(w: Word, s: Word) {
    |s| <= |w| && w[|w| - |s|..] == s
  }

  ghost predicate StandsAt(w: Word, s: Word, i: nat) {
    i + |s| <= |w| && w[i..i + |s|] == s
  }

  ghost predicate Contains(w: Word, s: Word) {
    exists i: nat :: StandsAt(w, s, i)
  }

  lemma EndsContains(w: Word, s: Word)
    requires EndsWith(w, s)
    ensures Contains(w, s)
  {
    assert StandsAt(w, s, |w| - |s|);
  }

  lemma ContainsLonger(w: Word, s: Word, v: Word)
    requires Contains(w, s)
    ensures Contains(w + v, s)
  {
    var i: nat :| StandsAt(w, s, i);
    assert StandsAt(w + v, s, i);
  }

  /** After text that ends with the run so far, every word of the code leads to
      text that ends with the new run, and a new longest run is in that text. */
  ghost predicate RunsHold(r: Runs, r': Runs, w: Word) {
    EndsWith(w, r'.run) && (r'.best == r.best || Contains(w, r'.best))
  }

  lemma EndRunHolds(r: Runs, r': Runs, w: Word)
    requires RunsHold(r, r', w)
    ensures RunsHold(r, EndRun(r'), w)
  {
    EndsContains(w, r'.run);
  }

  lemma {:induction false} ScanSound(c: Code, r: Runs, x: Word, w: Word)
    requires EndsWith(x, r.run) && w in Lang(c)
    ensures RunsHold(r, ScanCode(c, r), x + w)
    decreases c, 0
  {
    match c
    case Skip => assert x + w == x;
    case Single(atom) =>
      if atom.Literal? {
        assert (x + w)[|x| - |r.run|..] == x[|x| - |r.run|..] + w;
      } else {
        EndRunBefore(r, x, w);
      }
    case Around(pair, body) =>
      match pair {
        case ParenPair(_) => ScanSound(body, r, x, w);
        case PlusPair => LoopScanSound(body, r, x, w);
        case QuestPair => EndRunBefore(r, x, w);
      }
    case Then(first, second) =>
      var w1, w2 := ConcatElim(Lang(first), Lang(second), w);
      var r1 := ScanCode(first, r);
      ScanSound(first, r, x, w1);
      ScanSound(second, r1, x + w1, w2);
      assert x + w == x + w1 + w2;
      if r1.best != r.best {
        ContainsLonger(x + w1, r1.best, w2);
      }
    case Choice(_, _) => EndRunBefore(r, x, w);
  }

  lemma EndRunBefore(r: Runs, x: Word, w: Word)
    requires EndsWith(x, r.run)
    ensures RunsHold(r, EndRun(r), x + w)
  {
    EndsContains(x, r.run);
    ContainsLonger(x, r.run, w);
  }

  /** Only the first time round a loop is looked at. */
  lemma {:induction false} LoopScanSound(body: Code, r: Runs, x: Word, w: Word)
    requires EndsWith(x, r.run) && w in AtLeastOnce(Lang(body))
    ensures RunsHold(r, EndRun(ScanCode(body, r)), x + w)
    decreases body, 1
  {
    hide ScanCode, Lang, Reps, Power, Concat, Repeated, SomeRepeat;
    var l := Lang(body);
    var r1 := ScanCode(body, r);
    RepsUnroll(l, 1, INFINITY);
    var w1, w2 := ConcatElim(l, Reps(l, 0, INFINITY), w);
    ScanSound(body, r, x, w1);
    EndsContains(x + w1, r1.run);
    ContainsLonger(x + w1, r1.run, w2);
    if r1.best != r.best {
      ContainsLonger(x + w1, r1.best, w2);
    }
    assert x + w == x + w1 + w2;
  }

  /** The literal found for an expression, if there is one. */
  function Mandatory(c: Code): Option<Word> {
    Found(EndRun(ScanCode(c, Runs([], []))).best)
  }

  /** The literal found for an expression is in every word it stands for. */
  lemma MustSound(c: Code, w: Word)
    requires w in Lang(c)
    ensures Contains(w, EndRun(ScanCode(c, Runs([], []))).best)
  {
    var none := Runs([], []);
    ScanSound(c, none, [], w);
    assert [] + w == w;
    EndRunHolds(none, ScanCode(c, none), w);
    assert StandsAt(w, [], 0);
  }

  /** The run of literals that is being read, and all that have ended. */
  datatype Passed = Passed(run: Word, ended: seq<Word>)

  function Broken(q: Passed): Passed {
    Passed([], q.ended + [q.run])
  }

  /** The runs of literals in a piece of code: a run is broken by anything but
      parentheses and the start of a loop, and what may be left out is passed over. */
  function PassedIn(c: Code, q: Passed): Passed {
    match c
    case Skip => q
    case Single(atom) => if atom.Literal? then Passed(q.run + [atom.c], q.ended) else Broken(q)
    case Around(pair, body) =>
      (match pair
       case ParenPair(_) => PassedIn(body, q)
       case PlusPair => Broken(PassedIn(body, q))
       case QuestPair => Broken(q))
    case Then(first, second) => PassedIn(second, PassedIn(first, q))
    case Choice(_, _) => Broken(q)
  }

  /** `best` is one of the runs, and none of them is longer. */
  ghost predicate IsLongest(best: Word, runs: seq<Word>) {
    && (best == [] || best in runs)
    && forall i :: 0 <= i < |runs| ==> |runs[i]| <= |best|
  }

  ghost predicate Follows(r: Runs, q: Passed) {
    r.run == q.run && IsLongest(r.best, q.ended)
  }

  lemma BreakFollows(r: Runs, q: Passed)
    requires Follows(r, q)
    ensures Follows(EndRun(r), Broken(q))
  {
    assert q.run in q.ended + [q.run];
  }

  lemma {:induction false} ScanFollows(c: Code, r: Runs, q: Passed)
    requires Follows(r, q)
    ensures Follows(ScanCode(c, r), PassedIn(c, q))
    decreases c
  {
    BreakFollows(r, q);
    hide Follows, EndRun, Broken;
    match c
    case Skip =>
    case Single(atom) => LiteralFollows(atom, r, q);
    case Around(pair, body) =>
      ScanFollows(body, r, q);
      BreakFollows(ScanCode(body, r), PassedIn(body, q));
    case Then(first, second) =>
      ScanFollows(first, r, q);
      ScanFollows(second, ScanCode(first, r), PassedIn(first, q));
    case Choice(_, _) =>
  }

  lemma LiteralFollows(atom: Atom, r: Runs, q: Passed)
    requires Follows(r, q)
    ensures atom.Literal? ==> Follows(Runs(r.run + [atom.c], r.best), Passed(q.run + [atom.c], q.ended))
  {
  }

  /** The literal that is found is a longest run of the code; there is none exactly
      if all runs are empty. */
  lemma MustIsLongest(c: Code)
    ensures var runs := Broken(PassedIn(c, Passed([], []))).ended;
      match Mandatory(c) {
        case Some(must) => must != [] && must in runs && forall i :: 0 <= i < |runs| ==> |runs[i]| <= |must|
        case None => forall i :: 0 <= i < |runs| ==> runs[i] == []
      }
  {
    var r, q := Runs([], []), Passed([], []);
    ScanFollows(c, r, q);
    BreakFollows(ScanCode(c, r), PassedIn(c, q));
  }

  // ----- the nesting of loops

  function PlusDepth(c: Code): nat {
    match c
    case Skip => 0
    case Single(_) => 0
    case Around(pair, body) => PlusDepth(body) + if pair.PlusPair? then 1 else 0
    case Then(first, second) => if PlusDepth(first) > PlusDepth(second) then PlusDepth(first) else PlusDepth(second)
    case Choice(branch, rest) =>
      if PlusDepth(branch) > BranchesPlusDepth(rest) then PlusDepth(branch) else BranchesPlusDepth(rest)
  }

  function BranchesPlusDepth(b: Branches): nat {
    match b
    case Last(branch) => PlusDepth(branch)
    case More(branch, others) =>
      if PlusDepth(branch) > BranchesPlusDepth(others) then PlusDepth(branch) else BranchesPlusDepth(others)
  }

  datatype Nesting = Nesting(now: int, most: int)

  function Reached(n: Nesting, depth: nat): Nesting {
    if depth == 0 || n.now + depth <= n.most then n else Nesting(n.now, n.now + depth)
  }

  /** The nesting after the operator `op`. */
  function Counted(op: Op, n: Nesting): Nesting {
    if op == PlusOpen then Nesting(n.now + 1, n.most)
    else if op == PlusClose then Nesting(n.now - 1, if n.now > n.most then n.now else n.most)
    else n
  }

  function CountFrom(strip: Strip, i: nat, n: Nesting): Nesting
    decreases |strip| - i
  {
    if i >= |strip| || strip[i].op == End then n
    else CountFrom(strip, i + 1, Counted(strip[i].op, n))
  }

  lemma CountStep(strip: Strip, i: nat, n: Nesting)
    requires i < |strip| && strip[i].op != End
    ensures CountFrom(strip, i, n) == CountFrom(strip, i + 1, Counted(strip[i].op, n))
  {
  }

  lemma {:induction false} CountPiece(p: Piece, n: Nesting)
    ensures CountFrom(p.strip, p.x, n) == CountFrom(p.strip, p.x + Size(p.c), Reached(n, PlusDepth(p.c)))
    decreases p.c, 0
  {
    assert Reached(n, 0) == n;
    hide Laid, BranchesLaid, CountFrom, Reached;
    PieceEnds(p);
    match p.c
    case Skip =>
    case Single(_) => CountStep(p.strip, p.x, n);
    case Around(_, _) => CountAround(p, n);
    case Then(_, _) => CountThen(p, n);
    case Choice(_, _) => CountChoice(p, n);
  }

  lemma {:induction false} CountThen(p: Piece, n: Nesting)
    requires p.c.Then?
    ensures CountFrom(p.strip, p.x, n) == CountFrom(p.strip, p.x + Size(p.c), Reached(n, PlusDepth(p.c)))
    decreases p.c, -1
  {
    hide Laid, BranchesLaid, CountFrom, Reached;
    var a, b := PlusDepth(p.c.first), PlusDepth(p.c.second);
    CountPiece(First(p), n);
    CountPiece(Second(p), Reached(n, a));
    ReachedBoth(n, a, b);
  }

  lemma ReachedBoth(n: Nesting, a: nat, b: nat)
    ensures Reached(Reached(n, a), b) == Reached(n, if a > b then a else b)
  {
  }

  lemma {:induction false} CountAround(p: Piece, n: Nesting)
    requires p.c.Around?
    ensures CountFrom(p.strip, p.x, n) == CountFrom(p.strip, p.x + Size(p.c), Reached(n, PlusDepth(p.c)))
    decreases p.c, -1
  {
    hide Laid, BranchesLaid, CountFrom;
    PieceEnds(p);
    var inner := Counted(p.strip[p.x].op, n);
    CountStep(p.strip, p.x, n);
    CountPiece(Body(p), inner);
    CountStep(p.strip, p.x + Size(p.c.body) + 1, Reached(inner, PlusDepth(p.c.body)));
  }

  lemma {:induction false} CountChoice(p: Piece, n: Nesting)
    requires p.c.Choice?
    ensures CountFrom(p.strip, p.x, n) == CountFrom(p.strip, p.x + Size(p.c), Reached(n, PlusDepth(p.c)))
    decreases p.c, -1
  {
    hide Laid, BranchesLaid, CountFrom, Reached;
    PieceEnds(p);
    var next := Reached(n, PlusDepth(p.c.branch));
    CountStep(p.strip, p.x, n);
    CountPiece(FirstBranch(p), n);
    CountStep(p.strip, p.x + Size(p.c.branch) + 1, next);
    CountBranches(OtherBranches(p), next);
    ReachedBoth(n, PlusDepth(p.c.branch), BranchesPlusDepth(p.c.rest));
  }

  lemma {:induction false} CountBranches(p: BranchPiece, n: Nesting)
    ensures CountFrom(p.strip, p.x, n) == CountFrom(p.strip, p.x + BranchesSize(p.b), Reached(n, BranchesPlusDepth(p.b)))
    decreases p.b, 0
  {
    hide Laid, BranchesLaid, CountFrom, Reached;
    BranchEnds(p);
    var next := Reached(n, PlusDepth(p.b.branch));
    CountStep(p.strip, p.x, n);
    CountPiece(Branch(p), n);
    CountStep(p.strip, p.x + Size(p.b.branch) + 1, next);
    if p.b.More? {
      CountBranches(LaterBranches(p), next);
      ReachedBoth(n, PlusDepth(p.b.branch), BranchesPlusDepth(p.b.others));
    }
  }

  // ----- the two scans of the compiler

  /** A whole compiled strip: an endmarker, the code, an endmarker. */
  ghost predicate IsWhole(strip: Strip, p: Piece) {
    p.strip == strip && p.x == 1 && |strip| == Size(p.c) + 2 && strip[0].op == End && strip[|strip| - 1].op == End
  }

  /** Characters and set numbers fit their operand fields; so do the distances,
      which stay inside the strip. */
  lemma {:induction false} OperandsFit(p: Piece, i: nat)
    requires p.x <= i < p.x + Size(p.c)
    ensures p.strip[i].op == Char ==> p.strip[i].opnd < 256
    ensures p.strip[i].op == AnyOf ==> p.strip[i].opnd < |p.sets|
    decreases p.c
  {
    match p.c
    case Single(_) =>
    case Around(_, body) =>
      if p.x < i <= p.x + Size(body) {
        OperandsFit(Body(p), i);
      }
    case Then(first, second) =>
      if i < p.x + Size(first) {
        OperandsFit(First(p), i);
      } else {
        OperandsFit(Second(p), i);
      }
    case Choice(branch, _) =>
      if p.x < i <= p.x + Size(branch) {
        OperandsFit(FirstBranch(p), i);
      } else if i > p.x + Size(branch) + 1 {
        BranchOperandsFit(OtherBranches(p), i);
      }
  }

  lemma {:induction false} BranchOperandsFit(p: BranchPiece, i: nat)
    requires p.x <= i < p.x + BranchesSize(p.b)
    ensures p.strip[i].op == Char ==> p.strip[i].opnd < 256
    ensures p.strip[i].op == AnyOf ==> p.strip[i].opnd < |p.sets|
    decreases p.b
  {
    if p.x < i <= p.x + Size(p.b.branch) {
      OperandsFit(Branch(p), i);
    } else if p.b.More? && i > p.x + Size(p.b.branch) + 1 {
      BranchOperandsFit(LaterBranches(p), i);
    }
  }

  /** The characters of the OCHAR operators from `a` up to `b`. */
  function Collected(strip: Strip, a: nat, b: nat): Word
    requires b <= |strip|
  {
    if b <= a then []
    else Collected(strip, a, b - 1) + CharOf(strip[b - 1])
  }

  lemma CollectedStep(strip: Strip, a: nat, b: nat)
    requires a <= b < |strip|
    ensures Collected(strip, a, b + 1) == Collected(strip, a, b) + CharOf(strip[b])
    ensures Collected(strip, a, a) == []
  {
  }

  function CharOf(s: Sop): Word {
    if s.op == Char && s.opnd < 256 then [s.opnd] else []
  }

  lemma {:induction false} CollectedGrows(strip: Strip, a: nat, b: nat, c: nat)
    requires b <= c <= |strip|
    ensures Collected(strip, a, b) <= Collected(strip, a, c)
    decreases c
  {
    if b < c {
      CollectedGrows(strip, a, b, c - 1);
    }
  }

  /** The end of the optional or choice group that begins at `i`. */
  method SkipGroup(strip: Strip, i: nat, ghost m: Machine) returns (scan: nat, bad: bool)
    requires m.strip == strip && m.lo <= i < m.hi && (strip[i].op == QuestOpen || strip[i].op == ChoiceOpen)
    ensures !bad && i < scan < m.hi && scan == SkipEnd(strip, i)
    ensures strip[scan].op == QuestClose || strip[scan].op == ChoiceClose
  {
    assert Partnered(strip, m.lo, m.hi, i);
    bad := false;
    scan := i + strip[i].opnd;
    while strip[scan].op != QuestClose && strip[scan].op != ChoiceClose
      invariant i < scan < m.hi && !bad
      invariant strip[scan].op == QuestClose || strip[scan].op == ChoiceClose || strip[scan].op == Or2
      invariant strip[i].op == QuestOpen ==> strip[scan].op == QuestClose && scan == SkipEnd(strip, i)
      invariant strip[i].op == ChoiceOpen ==> ChoiceEnd(strip, scan) == SkipEnd(strip, i)
      decreases m.hi - scan
    {
      assert Partnered(strip, m.lo, m.hi, scan);
      scan := scan + strip[scan].opnd;
      if strip[scan].op != QuestClose && strip[scan].op != ChoiceClose && strip[scan].op != Or2 {
        bad := true;
        return;
      }
    }
  }

  /** Turn the run of `mlen` characters that begins at `start` into a string. */
  method Extract(strip: Strip, start: nat, mlen: nat, ghost end: nat) returns (must: Word)
    requires start <= end <= |strip| && |Collected(strip, start, end)| == mlen
    requires CharactersFit(strip)
    ensures must == Collected(strip, start, end)
  {
    must := [];
    var scan := start;
    while |must| < mlen
      invariant start <= scan <= end && must == Collected(strip, start, scan) && |must| <= mlen
      decreases end - scan
    {
      assert scan < end;
      CollectedGrows(strip, start, scan + 1, end);
      if strip[scan].op == Char {
        must := must + [strip[scan].opnd];
      }
      scan := scan + 1;
    }
    CollectedGrows(strip, start, scan, end);
  }

  /** Characters fit their operand field. */
  ghost predicate CharactersFit(strip: Strip) {
    forall i {:trigger strip[i]} :: 0 <= i < |strip| && strip[i].op == Char ==> strip[i].opnd < 256
  }

  lemma WholeFits(strip: Strip, p: Piece)
    requires IsWhole(strip, p)
    ensures CharactersFit(strip)
  {
    forall i | 0 <= i < |strip| && strip[i].op == Char ensures strip[i].opnd < 256 {
      if 1 <= i < 1 + Size(p.c) {
        OperandsFit(p, i);
      }
    }
  }

  /** A literal, if it is one. */
  function Found(best: Word): Option<Word> {
    if best == [] then None else Some(best)
  }

  /** The longest literal every match must contain, if there is one. */
  method FindMust(strip: Strip, ghost p: Piece) returns (must: Option<Word>, bad: bool)
    requires IsWhole(strip, p)
    ensures !bad
    ensures must == Mandatory(p.c)
  {
    ScanPiece(p, Runs([], []));
    WholeFits(strip, p);
    must, bad := LongestRun(strip, Alone(p));
  }

  /** The longest run of characters that a scan of the strip finds. */
  method LongestRun(strip: Strip, ghost m: Machine) returns (must: Option<Word>, bad: bool)
    requires CharactersFit(strip) && m.strip == strip && m.lo == 1 && m.hi == |strip| - 1 && strip[m.hi].op == End
    ensures !bad
    ensures must == Found(ScanFrom(strip, 1, Runs([], [])).best)
  {
    hide ScanFrom, SkipEnd, Partnered, Collected;
    var newlen, newstart, mlen, start := 0, 0, 0, 0;
    var scan := 1;
    ghost var r, end := Runs([], []), 0;
    bad := false;
    while strip[scan].op != End
      invariant 1 <= scan < |strip|
      invariant ScanFrom(strip, scan, r) == ScanFrom(strip, 1, Runs([], []))
      invariant newlen == |r.run| && mlen == |r.best|
      invariant newlen > 0 ==> newstart <= scan && Collected(strip, newstart, scan) == r.run
      invariant mlen > 0 ==> start <= end < |strip| && Collected(strip, start, end) == r.best
      decreases |strip| - scan
    {
      var s := strip[scan];
      ghost var at, before := scan, r;
      CollectedStep(strip, if newlen == 0 then scan else newstart, scan);
      if s.op == Char {
        if newlen == 0 {
          newstart := scan;
        }
        newlen := newlen + 1;
        r := Runs(r.run + [s.opnd], r.best);
        scan := scan + 1;
      } else if s.op == PlusOpen || s.op == LeftParen || s.op == RightParen {
        scan := scan + 1;
      } else {
        if s.op == QuestOpen || s.op == ChoiceOpen {
          scan, bad := SkipGroup(strip, scan, m);
        } else {
          scan := scan + 1;
        }
        if newlen > mlen {
          start, mlen, end := newstart, newlen, at;
        }
        newlen := 0;
        r := EndRun(r);
      }
      ScanStep(strip, at, before);
    }
    ScanLast(strip, scan, r);
    if newlen > mlen {
      start, mlen, end := newstart, newlen, scan;
    }
    must := None;
    if mlen > 0 {
      var word := Extract(strip, start, mlen, end);
      must := Some(word);
    }
  }

  /** How deep loops nest; a strip with loops left open would be bad. */
  method PlusCount(strip: Strip, ghost p: Piece) returns (maxnest: int, bad: bool)
    requires IsWhole(strip, p)
    ensures !bad && maxnest == PlusDepth(p.c)
  {
    hide Laid, BranchesLaid;
    var plusnest := 0;
    maxnest := 0;
    var scan := 1;
    CountPiece(p, Nesting(0, 0));
    while strip[scan].op != End
      invariant 1 <= scan < |strip|
      invariant CountFrom(strip, scan, Nesting(plusnest, maxnest)) == CountFrom(strip, 1, Nesting(0, 0))
      decreases |strip| - scan
    {
      if strip[scan].op == PlusOpen {
        plusnest := plusnest + 1;
      } else if strip[scan].op == PlusClose {
        if plusnest > maxnest {
          maxnest := plusnest;
        }
        plusnest := plusnest - 1;
      }
      scan := scan + 1;
    }
    bad := plusnest != 0;
  }
}
