/** The states the engine reaches and the language of the code agree: the end of
    a piece of code is reached by reading a word exactly when the word is in the
    language of that code. */
module RegexMeaning {
  import opened RegexLang
  import opened RegexStrip
  import opened RegexStates

  /** The words that lead from the start of `c` to position `q` in it. */
  ghost function At(c: Code, q: nat): Language
    requires q <= Size(c)
  {
    match c
    case Skip => Epsilon()
    case Single(atom) => if q == 0 then Epsilon() else AtomLang(atom)
    case Around(pair, body) =>
      if q == 0 then if pair.PlusPair? then Star(Lang(body)) else Epsilon()
      else if q == Size(c) || (pair.QuestPair? && q == Size(c) - 1) then Lang(c)
      else if pair.PlusPair? then Concat(Star(Lang(body)), At(body, q - 1))
      else At(body, q - 1)
    case Then(first, second) =>
      if q < Size(first) then At(first, q) else Concat(Lang(first), At(second, q - Size(first)))
    case Choice(branch, rest) =>
      if q == 0 then Epsilon()
      else if q <= Size(branch) + 1 then At(branch, q - 1)
      else if q >= Size(c) - 1 then Lang(c)
      else BranchesAt(rest, q - Size(branch) - 2)
  }

  ghost function BranchesAt(b: Branches, q: nat): Language
    requires q <= BranchesSize(b)
  {
    if q == 0 then Epsilon()
    else if q <= Size(b.branch) + 1 then At(b.branch, q - 1)
    else if q >= BranchesSize(b) - 1 then BranchesLang(b)
    else BranchesAt(b.others, q - Size(b.branch) - 2)
  }

  lemma {:induction false} AtEnds(c: Code)
    ensures [] in At(c, 0)
    ensures At(c, Size(c)) == Lang(c)
  {
    match c
    case Skip =>
    case Single(_) =>
    case Around(_, body) => StarEmpty(Lang(body));
    case Then(first, second) =>
      AtEnds(first);
      AtEnds(second);
      if Size(first) == 0 {
        var e: Word := [];
        assert e + e == e;
        ConcatIntro(Lang(first), At(second, 0), e, e);
      }
    case Choice(_, _) =>
  }

  // ----- soundness: what is reached is in the language

  /** What continues every word of `a` to a word of `b`. */
  ghost function Continuations(a: Language, b: Language): Language {
    iset s: Word | ContinuesAll(a, s, b)
  }

  ghost predicate ContinuesAll(a: Language, s: Word, b: Language) {
    forall w: Word :: w in a ==> w + s in b
  }

  ghost predicate Leads(a: Language, s: Word, b: Language) {
    s in Continuations(a, b)
  }

  lemma LeadsInside(l: Language, a: Language, s: Word, b: Language)
    requires Leads(a, s, b)
    ensures Leads(Concat(l, a), s, Concat(l, b))
  {
    forall w: Word | w in Concat(l, a) ensures w + s in Concat(l, b) {
      var u, v := ConcatElim(l, a, w);
      assert w + s == u + (v + s);
      ConcatIntro(l, b, u, v + s);
    }
  }

  lemma LeadsSubset(a: Language, b: Language)
    requires a <= b
    ensures Leads(a, [], b)
  {
    forall w: Word | w in a ensures w + [] in b {
      assert w + [] == w;
    }
  }

  lemma LeadsWiden(a: Language, s: Word, b: Language, b': Language)
    requires Leads(a, s, b) && b <= b'
    ensures Leads(a, s, b')
  {
  }

  lemma BeforeEpsilon(l: Language, a: Language)
    requires [] in a
    ensures l <= Concat(l, a)
  {
    forall w: Word | w in l ensures w in Concat(l, a) {
      assert w + [] == w;
      ConcatIntro(l, a, w, []);
    }
  }

  /** A move from position `i` of a piece to position `j` of it, reading `s`. */
  ghost predicate Moves(p: Piece, i: nat, s: Word, j: int)
    requires i < Size(p.c)
  {
    MovesAt(p.strip, p.sets, p.x + i, s, p.x + j)
  }

  ghost predicate MovesAt(strip: Strip, sets: seq<CharSet>, i: nat, s: Word, j: int)
    requires i < |strip|
  {
    if s == [] then j in EmptyMoves(strip, i)
    else |s| == 1 && j == i + 1 && Consumes(strip[i], sets, Of(s[0]))
  }

  lemma {:induction false} BranchesEnd(p: BranchPiece)
    ensures p.strip[p.x].op == Or2
    ensures p.strip[p.x + BranchesSize(p.b) - 1].op == ChoiceClose
    ensures ChoiceEnd(p.strip, p.x) == p.x + BranchesSize(p.b) - 1
    decreases p.b
  {
    match p.b
    case Last(_) =>
    case More(_, _) => BranchesEnd(LaterBranches(p));
  }

  /** The moves of the three operators of a choice that are not in a branch or
      between later ones. */
  lemma ChoiceMoves(p: Piece)
    requires p.c.Choice?
    ensures var n, end := Size(p.c.branch), p.x + Size(p.c) - 1;
      && EmptyMoves(p.strip, p.x) == {p.x + 1, p.x + n + 2}
      && EmptyMoves(p.strip, p.x + n + 1) == {end}
      && EmptyMoves(p.strip, end) == {end + 1}
    ensures p.strip[p.x].op == ChoiceOpen && p.strip[p.x + Size(p.c.branch) + 1].op == Or1
    ensures p.strip[p.x + Size(p.c) - 1].op == ChoiceClose
  {
    BranchesEnd(OtherBranches(p));
  }

  lemma BranchMoves(p: BranchPiece)
    ensures var n, end := Size(p.b.branch), p.x + BranchesSize(p.b) - 1;
      if p.b.Last? then end == p.x + n + 1 && EmptyMoves(p.strip, p.x) == {p.x + 1}
      else EmptyMoves(p.strip, p.x) == {p.x + 1, p.x + n + 2} && EmptyMoves(p.strip, p.x + n + 1) == {end}
    ensures p.strip[p.x].op == Or2 && (p.b.More? ==> p.strip[p.x + Size(p.b.branch) + 1].op == Or1)
  {
    BranchesEnd(p);
    if p.b.More? {
      BranchesEnd(LaterBranches(p));
    }
  }

  lemma {:induction false} MoveSound(p: Piece, i: nat, s: Word, j: int)
    requires i < Size(p.c) && Moves(p, i, s, j)
    ensures 0 <= j <= Size(p.c) && Leads(At(p.c, i), s, At(p.c, j))
    decreases p.c, 2
  {
    match p.c
    case Single(_) => SingleSound(p, s, j);
    case Around(pair, body) => AroundSound(p, i, s, j);
    case Then(first, second) => ThenSound(p, i, s, j);
    case Choice(branch, rest) => ChoiceSound(p, i, s, j);
  }

  lemma SingleSound(p: Piece, s: Word, j: int)
    requires p.c.Single? && Moves(p, 0, s, j)
    ensures j == 1 && Leads(At(p.c, 0), s, At(p.c, 1))
  {
    assert s != [];
    forall w: Word | w in At(p.c, 0) ensures w + s in At(p.c, 1) {
      assert w + s == s;
      assert s in AtomLang(p.c.atom);
    }
  }

  lemma {:induction false} AroundSound(p: Piece, i: nat, s: Word, j: int)
    requires p.c.Around? && i < Size(p.c) && Moves(p, i, s, j)
    ensures 0 <= j <= Size(p.c) && Leads(At(p.c, i), s, At(p.c, j))
    decreases p.c, 1
  {
    hide Laid, BranchesLaid, At, Leads, EmptyMoves;
    var n := Size(p.c.body);
    if 1 <= i <= n {
      MoveSound(Body(p), i - 1, s, j - 1);
      AroundInner(p.c.pair, p.c.body, i - 1, s, j - 1);
    } else {
      AroundEdge(p, i, s, j);
    }
  }

  lemma AroundInner(pair: Pair, body: Code, i: nat, s: Word, j: nat)
    requires i < Size(body) && j <= Size(body) && Leads(At(body, i), s, At(body, j))
    ensures Leads(At(Around(pair, body), i + 1), s, At(Around(pair, body), j + 1))
  {
    AtEnds(body);
    match pair
    case ParenPair(_) =>
    case PlusPair => LeadsInside(Star(Lang(body)), At(body, i), s, At(body, j));
    case QuestPair =>
  }

  /** The two operators around a body only make empty moves. */
  lemma AroundEdge(p: Piece, i: nat, s: Word, j: int)
    requires p.c.Around? && (i == 0 || i == Size(p.c.body) + 1) && Moves(p, i, s, j)
    ensures 0 <= j <= Size(p.c) && Leads(At(p.c, i), s, At(p.c, j))
  {
    var n := Size(p.c.body);
    assert s == [];
    assert j == i + 1 || (p.c.pair.PlusPair? && i == n + 1 && j == 0) || (p.c.pair.QuestPair? && i == 0 && j == n + 1);
    AroundEdgeLanguages(p.c.pair, p.c.body, i, j);
    LeadsSubset(At(p.c, i), At(p.c, j));
  }

  lemma AroundEdgeLanguages(pair: Pair, body: Code, i: nat, j: nat)
    requires i == 0 || i == Size(body) + 1
    requires j == i + 1 || (pair.PlusPair? && i == Size(body) + 1 && j == 0) || (pair.QuestPair? && i == 0 && j == Size(body) + 1)
    ensures At(Around(pair, body), i) <= At(Around(pair, body), j)
  {
    AtEnds(body);
    match pair
    case ParenPair(_) =>
    case PlusPair => LoopEdgeLanguages(body, i, j);
    case QuestPair =>
  }

  lemma LoopEdgeLanguages(body: Code, i: nat, j: nat)
    requires i == 0 || i == Size(body) + 1
    requires j == i + 1 || (i == Size(body) + 1 && j == 0)
    ensures At(Around(PlusPair, body), i) <= At(Around(PlusPair, body), j)
  {
    hide Laid, BranchesLaid;
    var l := Lang(body);
    AtEnds(body);
    if i == 0 {
      BeforeEpsilon(Star(l), At(body, 0));
    } else {
      StarThenOne(l);
      RepsOptional(l, INFINITY);
    }
  }

  lemma {:induction false} ThenSound(p: Piece, i: nat, s: Word, j: int)
    requires p.c.Then? && i < Size(p.c) && Moves(p, i, s, j)
    ensures 0 <= j <= Size(p.c) && Leads(At(p.c, i), s, At(p.c, j))
    decreases p.c, 1
  {
    if i < Size(p.c.first) {
      MoveSound(First(p), i, s, j);
      ThenFirst(p.c, i, s, j);
    } else {
      ThenSoundSecond(p, i, s, j);
    }
  }

  lemma {:induction false} ThenSoundSecond(p: Piece, i: nat, s: Word, j: int)
    requires p.c.Then? && Size(p.c.first) <= i < Size(p.c) && Moves(p, i, s, j)
    ensures 0 <= j <= Size(p.c) && Leads(At(p.c, i), s, At(p.c, j))
    decreases p.c, 0
  {
    hide Laid, BranchesLaid, At, Leads, EmptyMoves;
    var n := Size(p.c.first);
    assert Second(p).x + (i - n) == p.x + i && Second(p).x + (j - n) == p.x + j;
    assert Moves(Second(p), i - n, s, j - n);
    MoveSound(Second(p), i - n, s, j - n);
    ThenSecond(p.c, i, s, j);
  }

  lemma AtSecond(c: Code, q: nat)
    requires c.Then? && Size(c.first) <= q <= Size(c)
    ensures At(c, q) == Concat(Lang(c.first), At(c.second, q - Size(c.first)))
  {
  }

  lemma AtFirst(c: Code, q: nat)
    requires c.Then? && q < Size(c.first)
    ensures At(c, q) == At(c.first, q)
  {
  }

  lemma ThenSecond(c: Code, i: nat, s: Word, j: nat)
    requires c.Then? && Size(c.first) <= i < Size(c) && Size(c.first) <= j <= Size(c)
    requires Leads(At(c.second, i - Size(c.first)), s, At(c.second, j - Size(c.first)))
    ensures Leads(At(c, i), s, At(c, j))
  {
    LeadsInside(Lang(c.first), At(c.second, i - Size(c.first)), s, At(c.second, j - Size(c.first)));
    AtSecond(c, i);
    AtSecond(c, j);
  }

  lemma ThenFirst(c: Code, i: nat, s: Word, j: nat)
    requires c.Then? && i < Size(c.first) && j <= Size(c.first) && Leads(At(c.first, i), s, At(c.first, j))
    ensures Leads(At(c, i), s, At(c, j))
  {
    AtFirst(c, i);
    if j < Size(c.first) {
      AtFirst(c, j);
    } else {
      AtEnds(c.first);
      AtEnds(c.second);
      AtSecond(c, j);
      BeforeEpsilon(Lang(c.first), At(c.second, 0));
      LeadsWiden(At(c, i), s, At(c.first, j), At(c, j));
    }
  }

  lemma {:induction false} ChoiceSound(p: Piece, i: nat, s: Word, j: int)
    requires p.c.Choice? && i < Size(p.c) && Moves(p, i, s, j)
    ensures 0 <= j <= Size(p.c) && Leads(At(p.c, i), s, At(p.c, j))
    decreases p.c, 1
  {
    hide Laid, BranchesLaid, At, Leads, MovesAt;
    var n := Size(p.c.branch);
    if 1 <= i <= n {
      MoveSound(FirstBranch(p), i - 1, s, j - 1);
      ChoiceFirst(p.c, i - 1, s, j - 1);
    } else if n + 2 <= i < Size(p.c) - 1 {
      BranchesSound(OtherBranches(p), i - n - 2, s, j - n - 2);
      ChoiceInner(p.c, i, s, j);
    } else {
      ChoiceEdge(p, i, s, j);
    }
  }

  lemma ChoiceFirst(c: Code, i: nat, s: Word, j: nat)
    requires c.Choice? && i < Size(c.branch) && j <= Size(c.branch) && Leads(At(c.branch, i), s, At(c.branch, j))
    ensures Leads(At(c, i + 1), s, At(c, j + 1))
  {
    hide Laid, BranchesLaid;
  }

  lemma BranchesAtEnd(b: Branches, q: nat)
    requires BranchesSize(b) - 1 <= q <= BranchesSize(b)
    ensures BranchesAt(b, q) == BranchesLang(b)
  {
    AtEnds(b.branch);
  }

  lemma ChoiceInner(c: Code, i: nat, s: Word, j: nat)
    requires c.Choice? && Size(c.branch) + 2 <= i < Size(c) - 1 && Size(c.branch) + 2 <= j <= Size(c)
    requires Leads(BranchesAt(c.rest, i - Size(c.branch) - 2), s, BranchesAt(c.rest, j - Size(c.branch) - 2))
    ensures Leads(At(c, i), s, At(c, j))
  {
    if j >= Size(c) - 1 {
      BranchesAtEnd(c.rest, j - Size(c.branch) - 2);
    }
  }

  lemma ChoiceEdge(p: Piece, i: nat, s: Word, j: int)
    requires p.c.Choice? && (i == 0 || i == Size(p.c.branch) + 1 || i == Size(p.c) - 1) && Moves(p, i, s, j)
    ensures 0 <= j <= Size(p.c) && Leads(At(p.c, i), s, At(p.c, j))
  {
    var n := Size(p.c.branch);
    ChoiceMoves(p);
    assert s == [];
    assert if i == 0 then j == 1 || j == n + 2 else if i == n + 1 then j == Size(p.c) - 1 else j == Size(p.c);
    ChoiceEdgeLanguages(p.c, i, j);
    LeadsSubset(At(p.c, i), At(p.c, j));
  }

  lemma ChoiceEdgeLanguages(c: Code, i: nat, j: nat)
    requires c.Choice? && i < j <= Size(c)
    requires if i == 0 then j == 1 || j == Size(c.branch) + 2 else
      (i == Size(c.branch) + 1 || i == Size(c) - 1) && j >= Size(c) - 1
    ensures At(c, i) <= At(c, j)
  {
    AtEnds(c.branch);
  }

  lemma BranchInner(b: Branches, i: nat, s: Word, j: nat)
    requires i <= Size(b.branch) && j <= Size(b.branch) && Leads(At(b.branch, i), s, At(b.branch, j))
    ensures Leads(BranchesAt(b, i + 1), s, BranchesAt(b, j + 1))
  {
  }

  lemma {:induction false} BranchesSound(p: BranchPiece, i: nat, s: Word, j: int)
    requires i < BranchesSize(p.b) - 1 && MovesAt(p.strip, p.sets, p.x + i, s, p.x + j)
    ensures 0 <= j <= BranchesSize(p.b) && Leads(BranchesAt(p.b, i), s, BranchesAt(p.b, j))
    decreases p.b, 0
  {
    var n := Size(p.b.branch);
    if 1 <= i <= n {
      BranchSound(p, i, s, j);
    } else if n + 2 <= i {
      LaterSound(p, i, s, j);
    } else {
      BranchesEdge(p, i, s, j);
    }
  }

  lemma {:induction false} BranchSound(p: BranchPiece, i: nat, s: Word, j: int)
    requires 1 <= i <= Size(p.b.branch) && MovesAt(p.strip, p.sets, p.x + i, s, p.x + j)
    ensures 0 <= j <= BranchesSize(p.b) && Leads(BranchesAt(p.b, i), s, BranchesAt(p.b, j))
    decreases p.b, -1
  {
    hide Laid, BranchesLaid, BranchesAt, Leads, At, EmptyMoves;
    MoveSound(Branch(p), i - 1, s, j - 1);
    BranchInner(p.b, i - 1, s, j - 1);
  }

  lemma {:induction false} LaterSound(p: BranchPiece, i: nat, s: Word, j: int)
    requires Size(p.b.branch) + 2 <= i < BranchesSize(p.b) - 1 && MovesAt(p.strip, p.sets, p.x + i, s, p.x + j)
    ensures 0 <= j <= BranchesSize(p.b) && Leads(BranchesAt(p.b, i), s, BranchesAt(p.b, j))
    decreases p.b, -1
  {
    var n := Size(p.b.branch);
    BranchesSound(LaterBranches(p), i - n - 2, s, j - n - 2);
    BranchesInner(p.b, i, s, j);
  }

  lemma BranchesInner(b: Branches, i: nat, s: Word, j: nat)
    requires b.More? && Size(b.branch) + 2 <= i < BranchesSize(b) - 1 && Size(b.branch) + 2 <= j <= BranchesSize(b)
    requires Leads(BranchesAt(b.others, i - Size(b.branch) - 2), s, BranchesAt(b.others, j - Size(b.branch) - 2))
    ensures Leads(BranchesAt(b, i), s, BranchesAt(b, j))
  {
    if j >= BranchesSize(b) - 1 {
      BranchesAtEnd(b.others, j - Size(b.branch) - 2);
    }
  }

  lemma BranchesEdge(p: BranchPiece, i: nat, s: Word, j: int)
    requires i < BranchesSize(p.b) - 1 && (i == 0 || i == Size(p.b.branch) + 1)
    requires MovesAt(p.strip, p.sets, p.x + i, s, p.x + j)
    ensures 0 <= j <= BranchesSize(p.b) && Leads(BranchesAt(p.b, i), s, BranchesAt(p.b, j))
  {
    var n := Size(p.b.branch);
    BranchMoves(p);
    assert s == [];
    assert if i == 0 then j == 1 || (p.b.More? && j == n + 2) else p.b.More? && j == BranchesSize(p.b) - 1;
    BranchesEdgeLanguages(p.b, i, j);
    LeadsSubset(BranchesAt(p.b, i), BranchesAt(p.b, j));
  }

  lemma BranchesEdgeLanguages(b: Branches, i: nat, j: nat)
    requires i < j <= BranchesSize(b)
    requires if i == 0 then j == 1 || (b.More? && j == Size(b.branch) + 2)
      else i == Size(b.branch) + 1 && j == BranchesSize(b) - 1
    ensures BranchesAt(b, i) <= BranchesAt(b, j)
  {
    AtEnds(b.branch);
  }

  /** The engine run on exactly one piece of code. */
  ghost function Alone(p: Piece): Machine {
    PieceBracketed(p);
    Range(p.strip, p.sets, p.x, p.x + Size(p.c))
  }

  /** The positions of a piece that `w` leads to. */
  ghost function Positions(p: Piece, w: Word): States {
    set q: nat | p.x <= q <= p.x + Size(p.c) && LeadsTo(p, w, q)
  }

  ghost predicate LeadsTo(p: Piece, w: Word, q: nat)
    requires p.x <= q <= p.x + Size(p.c)
  {
    w in At(p.c, q - p.x)
  }

  lemma PositionsClosed(p: Piece, w: Word)
    ensures Closed(Alone(p), Positions(p, w))
  {
    forall i: nat, j | p.x <= i < p.x + Size(p.c) && i in Positions(p, w) && j in EmptyMoves(p.strip, i)
      ensures j in Positions(p, w)
    {
      MoveSound(p, i - p.x, [], j - p.x);
      assert w + [] == w;
    }
  }

  lemma PositionsAdvance(p: Piece, w: Word, c: Byte, q: nat)
    requires q in Advance(Alone(p), Positions(p, w), Of(c))
    ensures q in Positions(p, w + [c])
  {
    MoveSound(p, q - 1 - p.x, [c], q - p.x);
  }

  lemma {:induction false} ReachSound(p: Piece, w: Word)
    ensures Reach(Alone(p), w) <= Positions(p, w)
    decreases |w|
  {
    var m := Alone(p);
    PositionsClosed(p, w);
    if w == [] {
      AtEnds(p.c);
      assert {m.lo} <= Positions(p, w);
    } else {
      var v, c := w[..|w| - 1], w[|w| - 1];
      assert w == v + [c];
      ReachSound(p, v);
      ReadOne(m, v, c);
      var seed := Advance(m, Reach(m, v), Of(c));
      forall q | q in seed ensures q in Positions(p, w) {
        assert Lets(m, Positions(p, v), Of(c), q);
        PositionsAdvance(p, v, c, q);
      }
    }
  }

  // ----- completeness: every word of the language is read to the end

  /** Any way of giving each word the states it reaches that is closed under the
      moves of a machine. */
  datatype Run = Run(m: Machine, at: imap<Word, States>)

  ghost predicate FollowsMoves(r: Run) {
    && (forall w: Word :: w in r.at && Closed(r.m, r.at[w]))
    && (forall w: Word, c: Byte :: Advance(r.m, r.at[w], Of(c)) <= r.at[w + [c]])
  }

  type Reading = r: Run | FollowsMoves(r) ghost witness Run(Range([], [], 0, 0), imap w: Word :: {})

  ghost predicate Within(r: Reading, p: Piece) {
    r.m.strip == p.strip && r.m.sets == p.sets && r.m.lo <= p.x && p.x + Size(p.c) <= r.m.hi
  }

  /** Reading `u`, then following an empty move. */
  lemma Follow(r: Reading, u: Word, i: nat, j: nat)
    requires r.m.lo <= i < r.m.hi && i in r.at[u] && j in EmptyMoves(r.m.strip, i)
    ensures j in r.at[u]
  {
    assert Closed(r.m, r.at[u]);
  }

  lemma ReadAtom(r: Reading, p: Piece, u: Word, v: Word)
    requires p.c.Single? && Within(r, p) && p.x in r.at[u] && v in Lang(p.c)
    ensures p.x + 1 in r.at[u + v]
  {
    assert v == [v[0]];
    assert Lets(r.m, r.at[u], Of(v[0]), p.x + 1);
    assert Advance(r.m, r.at[u], Of(v[0])) <= r.at[u + [v[0]]];
  }

  /** From the start of code anywhere in a range, reading one of its words leads
      to its end. */
  lemma {:induction false} ReadCode(r: Reading, p: Piece, u: Word, v: Word)
    requires Within(r, p) && p.x in r.at[u] && v in Lang(p.c)
    ensures p.x + Size(p.c) in r.at[u + v]
    decreases p.c, 1, 0
  {
    match p.c
    case Skip => assert u + v == u;
    case Single(_) => ReadAtom(r, p, u, v);
    case Around(_, _) => ReadAround(r, p, u, v);
    case Then(first, second) =>
      var v1, v2 := ConcatElim(Lang(first), Lang(second), v);
      ReadCode(r, First(p), u, v1);
      ReadCode(r, Second(p), u + v1, v2);
      assert u + v1 + v2 == u + v;
    case Choice(_, _) => ReadChoice(r, p, u, v);
  }

  lemma {:induction false} ReadChoice(r: Reading, p: Piece, u: Word, v: Word)
    requires p.c.Choice? && Within(r, p) && p.x in r.at[u] && v in Lang(p.c)
    ensures p.x + Size(p.c) in r.at[u + v]
    decreases p.c, 0, 0
  {
    hide Laid, BranchesLaid, EmptyMoves, FollowsMoves;
    var n, end := Size(p.c.branch), p.x + Size(p.c) - 1;
    ChoiceMoves(p);
    if v in Lang(p.c.branch) {
      Follow(r, u, p.x, p.x + 1);
      ReadCode(r, FirstBranch(p), u, v);
      Follow(r, u + v, p.x + n + 1, end);
    } else {
      Follow(r, u, p.x, p.x + n + 2);
      ReadBranches(r, OtherBranches(p), u, v);
    }
    Follow(r, u + v, end, end + 1);
  }

  lemma {:induction false} ReadBranches(r: Reading, p: BranchPiece, u: Word, v: Word)
    requires r.m.strip == p.strip && r.m.sets == p.sets && r.m.lo <= p.x && p.x + BranchesSize(p.b) <= r.m.hi
    requires p.x in r.at[u] && v in BranchesLang(p.b)
    ensures p.x + BranchesSize(p.b) - 1 in r.at[u + v]
    decreases p.b, 1, 0
  {
    hide Laid, BranchesLaid, EmptyMoves, FollowsMoves;
    var n, end := Size(p.b.branch), p.x + BranchesSize(p.b) - 1;
    BranchMoves(p);
    if v in Lang(p.b.branch) {
      Follow(r, u, p.x, p.x + 1);
      ReadCode(r, Branch(p), u, v);
      if p.b.More? {
        Follow(r, u + v, p.x + n + 1, end);
      }
    } else {
      Follow(r, u, p.x, p.x + n + 2);
      ReadBranches(r, LaterBranches(p), u, v);
    }
  }

  lemma {:induction false} ReadAround(r: Reading, p: Piece, u: Word, v: Word)
    requires p.c.Around? && Within(r, p) && p.x in r.at[u] && v in Lang(p.c)
    ensures p.x + Size(p.c) in r.at[u + v]
    decreases p.c, 0, v, 1
  {
    hide Laid, BranchesLaid;
    PieceEnds(p);
    var end := p.x + Size(p.c) - 1;
    var l := Lang(p.c.body);
    if p.c.pair.PlusPair? {
      var k := RepsElim(l, 1, INFINITY, v);
      ReadLoop(r, p, u, v, k);
    } else if v in l {
      Follow(r, u, p.x, p.x + 1);
      ReadCode(r, Body(p), u, v);
    } else {
      assert u + v == u;
      Follow(r, u, p.x, end);
    }
    Follow(r, u + v, end, end + 1);
  }

  /** `k` times round a loop, ending before its closing operator. */
  lemma {:induction false} ReadLoop(r: Reading, p: Piece, u: Word, v: Word, k: nat)
    requires p.c.Around? && p.c.pair.PlusPair? && Within(r, p)
    requires p.x in r.at[u] && k >= 1 && v in Power(Lang(p.c.body), k)
    ensures p.x + Size(p.c) - 1 in r.at[u + v]
    decreases p.c, -1, k
  {
    var l, end := Lang(p.c.body), p.x + Size(p.c) - 1;
    var v1, v2 := ConcatElim(l, Power(l, k - 1), v);
    Follow(r, u, p.x, p.x + 1);
    ReadCode(r, Body(p), u, v1);
    assert u + v1 + v2 == u + v;
    if k == 1 {
      assert u + v == u + v1;
    } else {
      Follow(r, u + v1, end, p.x);
      ReadLoop(r, p, u + v1, v2, k - 1);
    }
  }

  /** What the engine reaches is such a reading. */
  ghost function Reached(m: Machine): Reading {
    var r := Run(m, imap w: Word :: Reach(m, w));
    assert FollowsMoves(r) by {
      forall w: Word ensures Closed(m, Reach(m, w)) {
        ReachClosed(m, w);
      }
      forall w: Word, c: Byte ensures Advance(m, r.at[w], Of(c)) <= r.at[w + [c]] {
        ReadOne(m, w, c);
      }
    }
    r
  }

  // ----- the meaning of a range of the strip

  /** The end of code is reached by exactly the words of its language. */
  lemma ReachMeaning(p: Piece, w: Word)
    ensures Alone(p).hi in Reach(Alone(p), w) <==> w in Lang(p.c)
  {
    var m := Alone(p);
    ReachSound(p, w);
    AtEnds(p.c);
    if w in Lang(p.c) {
      ReadCode(Reached(m), p, [], w);
      assert [] + w == w;
    }
  }

  /** With restarts, the end is reached exactly if a suffix is in the language. */
  lemma ReachAnyMeaning(p: Piece, w: Word)
    ensures Alone(p).hi in ReachAny(Alone(p), w) <==> exists i :: 0 <= i <= |w| && w[i..] in Lang(p.c)
  {
    var m := Alone(p);
    ReachAnyStarts(m, w, m.hi);
    forall i | 0 <= i <= |w| ensures m.hi in Reach(m, w[i..]) <==> w[i..] in Lang(p.c) {
      ReachMeaning(p, w[i..]);
    }
  }
}
