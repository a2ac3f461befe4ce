/** When the start that a search reports is the leftmost one
    (external/regex/engine.c): the scan looks for a start only from the last
    position at which its states were those it began with, and then a match
    may be under way all the same. */
module RegexLeftmost {
  import opened Wrappers
  import opened RegexLang
  import opened RegexStrip
  import opened RegexStates
  import opened RegexMeaning
  import opened RegexSearch
  import opened RegexGuts
  import opened RegexSyntax

  ghost predicate BeginsAt(l: Language, text: Word, i: nat)
    requires i <= |text|
  {
    exists k :: i <= k <= |text| && text[i..k] in l
  }

  /** No word begins in front of the start that is reported. */
  ghost predicate Leftmost(l: Language, text: Word, o: Outcome) {
    o.SuccessAt? && o.start <= |text| ==> forall i: nat :: i < o.start ==> !BeginsAt(l, text, i)
  }

  /** Having read `v`, where no word ends, the engine is as it was at the start,
      and yet `v` from `i` on begins a word. */
  ghost predicate Forgets(m: Machine, l: Language, v: Word, i: nat, w: Word) {
    && i < |v| && ReachAny(m, v) == Fresh(m)
    && (forall k :: 0 <= k <= |v| ==> !EndsAt(l, v, 0, k))
    && v[i..] + w in l
  }

  // ----- where a scan is cold

  ghost predicate NoEndBefore(l: Language, text: Word, k: nat) {
    k <= |text| && forall j :: 0 <= j < k ==> !EndsAt(l, text, 0, j)
  }

  ghost predicate Cold(m: Machine, text: Word, k: nat) {
    k <= |text| && AlongAny(m, text, 0, k) == Fresh(m)
  }

  /** `r` tells the first end, and the last cold position up to there. */
  ghost predicate Told(m: Machine, l: Language, text: Word, k: nat, r: Report) {
    && Cold(m, text, r.cold)
    && match r.found
       case None => NoEndBefore(l, text, |text|) && !EndsAt(l, text, 0, |text|)
       case Some(next) =>
         && k < next && r.cold < next && NoEndBefore(l, text, next - 1) && EndsAt(l, text, 0, next - 1)
         && forall j :: k <= j < next && Cold(m, text, j) ==> j <= r.cold
  }

  lemma {:induction false} ScanTells(m: Machine, l: Language, text: Word, cold: nat, k: nat)
    requires cold <= k <= |text| && Cold(m, text, cold) && NoEndBefore(l, text, k)
    ensures var r := Scan(m, l, text, 0, |text|, cold, k); cold <= r.cold && Told(m, l, text, k, r)
    decreases |text| - k
  {
    hide EndsAt, AlongAny;
    var now := if AlongAny(m, text, 0, k) == Fresh(m) then k else cold;
    if !EndsAt(l, text, 0, k) && k < |text| {
      ScanTells(m, l, text, now, k + 1);
    }
  }

  ghost function WholeScan(m: Machine, l: Language, text: Word): (r: Report)
    ensures Told(m, l, text, 0, r)
  {
    AlongStart(m, text, 0);
    ScanTells(m, l, text, 0, 0);
    Scan(m, l, text, 0, |text|, 0, 0)
  }

  // ----- the exact condition

  lemma PrefixEnds(l: Language, v: Word, w: Word, k: nat)
    requires k <= |v|
    ensures EndsAt(l, v + w, 0, k) <==> EndsAt(l, v, 0, k)
  {
    if EndsAt(l, v + w, 0, k) {
      var i :| 0 <= i <= k && (v + w)[i..k] in l;
      assert (v + w)[i..k] == v[i..k];
    }
    if EndsAt(l, v, 0, k) {
      var i :| 0 <= i <= k && v[i..k] in l;
      assert (v + w)[i..k] == v[i..k];
    }
  }

  /** An engine that forgets misses the leftmost start in `v + w`. */
  lemma ForgetsMisses(m: Machine, l: Language, v: Word, i: nat, w: Word)
    requires Recognizes(m, l) && Forgets(m, l, v, i, w)
    ensures !Leftmost(l, v + w, Search(m, l, v + w, 1))
  {
    var text, n := v + w, |v + w|;
    var r := WholeScan(m, l, text);
    assert text[i..n] == v[i..] + w;
    assert EndsAt(l, text, 0, n) && BeginsAt(l, text, i);
    var e := r.found.value - 1;
    if e <= |v| {
      PrefixEnds(l, v, w, e);
      assert false;
    }
    assert text[0..|v|] == v;
    assert Cold(m, text, |v|);
    ScanFinds(m, l, text, 0, n);
    StartFromFinds(l, text, r.cold, e);
  }

  /** A start that is not the leftmost one shows what the engine forgets. */
  lemma MissForgets(m: Machine, l: Language, text: Word) returns (v: Word, i: nat, w: Word)
    requires Recognizes(m, l) && !Leftmost(l, text, Search(m, l, text, 1))
    ensures Forgets(m, l, v, i, w)
  {
    var r, o := WholeScan(m, l, text), Search(m, l, text, 1);
    var at: nat :| at < o.start && BeginsAt(l, text, at);
    var k :| at <= k <= |text| && text[at..k] in l;
    var e := r.found.value - 1;
    ScanFinds(m, l, text, 0, |text|);
    StartFromFinds(l, text, r.cold, e);
    assert at < r.cold;
    assert EndsAt(l, text, 0, k);
    assert e <= k;
    v, i, w := text[..r.cold], at, text[r.cold..k];
    assert v[i..] + w == text[at..k];
    assert text[0..r.cold] == v;
    forall j | 0 <= j <= |v| ensures !EndsAt(l, v, 0, j) {
      assert text == v + text[r.cold..];
      PrefixEnds(l, v, text[r.cold..], j);
      if EndsAt(l, text, 0, j) {
        ColdEnd(m, l, text, r.cold);
      }
    }
  }

  /** At a cold position a word ends only if the empty word is one. */
  lemma ColdEnd(m: Machine, l: Language, text: Word, k: nat)
    requires Recognizes(m, l) && Cold(m, text, k) && EndsAt(l, text, 0, k)
    ensures EndsAt(l, text, 0, 0)
  {
    MatchEnds(m, l, text, 0, k);
    assert m.hi in Reach(m, []);
    assert text[0..0] == [];
  }

  /** The reported start is the leftmost one on every text if and only if the
      engine forgets nothing. */
  lemma LeftmostExactly(m: Machine, l: Language)
    requires Recognizes(m, l)
    ensures (forall text: Word :: Leftmost(l, text, Search(m, l, text, 1))) <==> !(exists v, i, w :: Forgets(m, l, v, i, w))
  {
    if text: Word :| !Leftmost(l, text, Search(m, l, text, 1)) {
      var v, i, w := MissForgets(m, l, text);
    }
    if v, i, w :| Forgets(m, l, v, i, w) {
      ForgetsMisses(m, l, v, i, w);
    }
  }

  // ----- an expression that forgets: (()|x)y

  const X: Byte := 120
  const Y: Byte := 121

  function Inner(): Code {
    Around(ParenPair(1), Choice(Around(ParenPair(2), Skip), Last(Single(Literal(X)))))
  }

  function Example(): Code {
    Then(Inner(), Single(Literal(Y)))
  }

  lemma ExampleWords(w: Word)
    ensures w in Lang(Example()) ==> w != [] && w[|w| - 1] == Y
    ensures [X, Y] in Lang(Example())
  {
    var l, k := Lang(Inner()), Lang(Single(Literal(Y)));
    if w in Lang(Example()) {
      var u, v := ConcatElim(l, k, w);
    }
    assert Lang(Inner()) == Lang(Around(ParenPair(2), Skip)) + BranchesLang(Last(Single(Literal(X))));
    assert [X] in Lang(Single(Literal(X))) && [X] in BranchesLang(Last(Single(Literal(X))));
    assert [Y] in k && [X] + [Y] == [X, Y];
    ConcatIntro(l, k, [X], [Y]);
  }

  /** The operators of the example from position `x` on. */
  predicate ExampleAt(s: Strip, x: nat) {
    && x + 9 <= |s|
    && s[x].op == LeftParen && s[x + 1] == Sop(ChoiceOpen, 4) && s[x + 2].op == LeftParen && s[x + 3].op == RightParen
    && s[x + 4].op == Or1 && s[x + 5] == Sop(Or2, 2) && s[x + 6].op == Char && s[x + 7].op == ChoiceClose && s[x + 8].op == RightParen
  }

  lemma ChoiceOperators(p: Piece)
    requires p.c == Inner().body
    ensures var (s, x) := (p.strip, p.x);
      && Size(p.c) == 7 && x + 7 <= |s| && s[x] == Sop(ChoiceOpen, 4) && s[x + 1].op == LeftParen && s[x + 2].op == RightParen
      && s[x + 3].op == Or1 && s[x + 4] == Sop(Or2, 2) && s[x + 5].op == Char && s[x + 6].op == ChoiceClose
  {
    hide Laid, BranchesLaid;
    PieceEnds(FirstBranch(p));
    BranchEnds(OtherBranches(p));
    PieceEnds(Branch(OtherBranches(p)));
    PieceEnds(p);
  }

  lemma ExampleOperators(p: Piece)
    requires p.c == Example()
    ensures Size(p.c) == 10 && p.x + 10 <= |p.strip| && ExampleAt(p.strip, p.x) && p.strip[p.x + 9] == Sop(Char, Y)
  {
    hide Laid, BranchesLaid;
    ChoiceOperators(Body(First(p)));
    PieceEnds(First(p));
    PieceEnds(Second(p));
  }

  lemma ExampleMoves(s: Strip, x: nat)
    requires ExampleAt(s, x)
    ensures x + 1 in EmptyMoves(s, x) && x + 2 in EmptyMoves(s, x + 1) && x + 3 in EmptyMoves(s, x + 2)
    ensures x + 4 in EmptyMoves(s, x + 3) && x + 7 in EmptyMoves(s, x + 4)
  {
    assert ChoiceEnd(s, x + 7) == x + 7;
    assert ChoiceEnd(s, x + 5) == ChoiceEnd(s, x + 7);
    hide ChoiceEnd;
  }

  lemma Moved(m: Machine, x: States, p: nat, q: nat)
    requires Closed(m, x) && m.lo <= p < m.hi && p in x && q in EmptyMoves(m.strip, p)
    ensures q in x
  {
  }

  lemma ExampleReads(p: Piece, q: nat)
    requires p.c == Example() && p.x < q <= p.x + 10 <= |p.strip| && ExampleAt(p.strip, p.x) && p.strip[p.x + 9] == Sop(Char, Y)
    requires Consumes(p.strip[q - 1], p.sets, Of(X))
    ensures q == p.x + 7
  {
  }

  /** Reading an `x` leads to no state that was not there before. */
  lemma ExampleFresh(p: Piece, begun: States)
    requires p.c == Example() && begun == Fresh(Alone(p))
    ensures Advance(Alone(p), begun, Of(X)) <= begun
  {
    var m, x := Alone(p), p.x;
    ExampleOperators(p);
    assert m.hi == x + 10 && Closed(m, begun) && x in begun;
    hide Laid, BranchesLaid, EmptyMoves, Consumes, Closed, Fresh, ExampleAt;
    ExampleMoves(p.strip, x);
    Moved(m, begun, x, x + 1);
    Moved(m, begun, x + 1, x + 2);
    Moved(m, begun, x + 2, x + 3);
    Moved(m, begun, x + 3, x + 4);
    Moved(m, begun, x + 4, x + 7);
    forall q | q in Advance(m, begun, Of(X)) ensures q in begun {
      assert Lets(m, begun, Of(X), q);
      ExampleReads(p, q);
    }
  }

  /** Searching `xy` for it reports a start behind the leftmost one. */
  lemma ExampleForgets(p: Piece)
    requires p.c == Example()
    ensures Forgets(Alone(p), Lang(p.c), [X], 0, [Y])
    ensures !Leftmost(Lang(p.c), [X, Y], Search(Alone(p), Lang(p.c), [X, Y], 1))
  {
    var m, l, v: Word := Alone(p), Lang(p.c), [X];
    var begun := Fresh(m);
    ExampleFresh(p, begun);
    ReadOne(m, [], X);
    assert [] + v == v;
    assert begun + Advance(m, begun, Of(X)) == begun;
    assert ReachAny(m, v) == Closure(m, begun) == begun;
    forall k | 0 <= k <= 1 ensures !EndsAt(l, v, 0, k) {
      forall i | 0 <= i <= k ensures v[i..k] !in l {
        ExampleWords(v[i..k]);
      }
    }
    ExampleWords(v);
    assert v[0..] + [Y] == [X, Y];
    PieceRecognizes(p);
    ForgetsMisses(m, l, v, 0, [Y]);
    assert v + [Y] == [X, Y];
  }

  function One(a: Atomic): Sequence {
    Chain(Sequence.Nothing, Item(a, Once))
  }

  function Group(): Atomic {
    Nested(Either(Only(One(EmptyGroup)), One(Plain(X))))
  }

  function ExampleEre(): Ere {
    Only(Chain(One(Group()), Item(Plain(Y), Once)))
  }

  lemma OneMeans(a: Atomic)
    ensures SequenceLang(One(a)) == AtomicLang(a)
    ensures ItemLang(Item(a, Once)) == AtomicLang(a)
  {
    RepsOnce(AtomicLang(a));
    ConcatUnitLeft(AtomicLang(a));
    assert SequenceLang(Sequence.Nothing) == Epsilon();
  }

  lemma GroupMeans()
    ensures AtomicLang(Group()) == Lang(Inner())
  {
    OneMeans(EmptyGroup);
    OneMeans(Plain(X));
    hide One, ItemLang;
    var e, c := Either(Only(One(EmptyGroup)), One(Plain(X))), Inner().body;
    assert EreLang(e) == EreLang(Only(One(EmptyGroup))) + SequenceLang(One(Plain(X)));
    assert Lang(c.branch) == Epsilon() && BranchesLang(c.rest) == Singles({X});
    assert Lang(Inner()) == Lang(c) == Lang(c.branch) + BranchesLang(c.rest);
  }

  lemma ExampleMeans()
    ensures EreLang(ExampleEre()) == Lang(Example())
  {
    GroupMeans();
    OneMeans(Group());
    OneMeans(Plain(Y));
    hide One, Group, Inner, ItemLang, AtomicLang;
    var s := ExampleEre().seq1;
    assert SequenceLang(s) == Concat(SequenceLang(s.front), ItemLang(s.item));
    assert AtomicLang(Plain(Y)) == Singles({Y}) == Lang(Single(Literal(Y))) by {
      PlainMeans(Y);
    }
    assert Lang(Example()) == Concat(Lang(Inner()), Lang(Single(Literal(Y))));
  }

  lemma PlainMeans(c: Byte)
    ensures AtomicLang(Plain(c)) == Singles({c}) == Lang(Single(Literal(c)))
  {
  }

  /** The example as it is written. */
  lemma ExampleSpelled()
    ensures EreOk(ExampleEre()) && EreText(ExampleEre()) == [LPAREN, LPAREN, RPAREN, BAR, X, RPAREN, Y]
  {
    assert SequenceText(One(EmptyGroup)) == [LPAREN, RPAREN];
    assert SequenceText(One(Plain(X))) == [X];
    assert AtomText(Group()) == [LPAREN, LPAREN, RPAREN, BAR, X, RPAREN];
    assert SequenceText(One(Group())) == AtomText(Group());
    assert ItemText(Item(Plain(Y), Once)) == [Y];
    assert SequenceOk(One(EmptyGroup)) && SequenceOk(One(Plain(X)));
    assert AtomOk(Group());
    assert ItemsOk(One(Group()));
  }
}
