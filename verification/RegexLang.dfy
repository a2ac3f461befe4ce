/** Formal languages over bytes: the meaning given to regular expressions.

    A language is a possibly infinite set of words.  `Reps(a, from, to)` is the
    language of a bounded repetition, with `INFINITY` as the open upper bound
    the regular expression library uses. */
module RegexLang {

  type Byte = b: int | 0 <= b < 256
  type Word = seq<Byte>
  type Language = iset<Word>

  /** One more than the largest repetition count an expression may name. */
  const DUPMAX: int := 255
  const INFINITY: int := DUPMAX + 1

  ghost predicate IsEmpty(w: Word) {
    w == []
  }

  ghost predicate Joins(a: Language, b: Language, u: Word, v: Word, w: Word) {
    u in a && v in b && w == u + v
  }

  ghost predicate Splits(a: Language, b: Language, w: Word) {
    exists u: Word, v: Word :: Joins(a, b, u, v, w)
  }

  /** The language of the empty word alone. */
  ghost function Epsilon(): Language {
    iset w: Word | IsEmpty(w)
  }

  ghost function Concat(a: Language, b: Language): Language {
    iset w: Word | Splits(a, b, w)
  }

  ghost function Power(a: Language, k: nat): Language {
    if k == 0 then Epsilon() else Concat(a, Power(a, k - 1))
  }

  ghost predicate Repeated(a: Language, from: int, to: int, k: nat, w: Word) {
    from <= k && (to == INFINITY || k <= to) && w in Power(a, k)
  }

  ghost predicate SomeRepeat(a: Language, from: int, to: int, w: Word) {
    exists k: nat :: Repeated(a, from, to, k, w)
  }

  ghost function Reps(a: Language, from: int, to: int): Language {
    iset w: Word | SomeRepeat(a, from, to, w)
  }

  ghost function Star(a: Language): Language {
    Reps(a, 0, INFINITY)
  }

  ghost function AtLeastOnce(a: Language): Language {
    Reps(a, 1, INFINITY)
  }

  lemma ConcatIntro(a: Language, b: Language, u: Word, v: Word)
    requires u in a && v in b
    ensures u + v in Concat(a, b)
  {
    assert Joins(a, b, u, v, u + v);
  }

  lemma ConcatElim(a: Language, b: Language, w: Word) returns (u: Word, v: Word)
    requires w in Concat(a, b)
    ensures u in a && v in b && w == u + v
  {
    u, v :| Joins(a, b, u, v, w);
  }

  lemma ConcatUnitRight(a: Language)
    ensures Concat(a, Epsilon()) == a
  {
    forall w: Word | w in a ensures w in Concat(a, Epsilon()) {
      assert w + [] == w;
      ConcatIntro(a, Epsilon(), w, []);
    }
    forall w: Word | w in Concat(a, Epsilon()) ensures w in a {
      var u, v := ConcatElim(a, Epsilon(), w);
      assert u + v == u;
    }
  }

  lemma ConcatUnitLeft(a: Language)
    ensures Concat(Epsilon(), a) == a
  {
    forall w: Word | w in a ensures w in Concat(Epsilon(), a) {
      assert [] + w == w;
      ConcatIntro(Epsilon(), a, [], w);
    }
    forall w: Word | w in Concat(Epsilon(), a) ensures w in a {
      var u, v := ConcatElim(Epsilon(), a, w);
      assert u + v == v;
    }
  }

  lemma ConcatAssoc(a: Language, b: Language, c: Language)
    ensures Concat(Concat(a, b), c) == Concat(a, Concat(b, c))
  {
    forall w: Word | w in Concat(Concat(a, b), c)
      ensures w in Concat(a, Concat(b, c))
    {
      var uv, x := ConcatElim(Concat(a, b), c, w);
      var u, v := ConcatElim(a, b, uv);
      assert w == u + (v + x);
      ConcatIntro(b, c, v, x);
      ConcatIntro(a, Concat(b, c), u, v + x);
    }
    forall w: Word | w in Concat(a, Concat(b, c))
      ensures w in Concat(Concat(a, b), c)
    {
      var u, vx := ConcatElim(a, Concat(b, c), w);
      var v, x := ConcatElim(b, c, vx);
      assert w == (u + v) + x;
      ConcatIntro(a, b, u, v);
      ConcatIntro(Concat(a, b), c, u + v, x);
    }
  }

  /** One more copy may be split off on the right as well as on the left. */
  lemma {:induction false} PowerRight(a: Language, k: nat)
    ensures Power(a, k + 1) == Concat(Power(a, k), a)
  {
    if k == 0 {
      ConcatUnitLeft(a);
      ConcatUnitRight(a);
    } else {
      calc {
        Power(a, k + 1);
        Concat(a, Power(a, k));
        { PowerRight(a, k - 1); }
        Concat(a, Concat(Power(a, k - 1), a));
        { ConcatAssoc(a, Power(a, k - 1), a); }
        Concat(Power(a, k), a);
      }
    }
  }

  lemma PowerOne(a: Language)
    ensures Power(a, 1) == a
  {
    ConcatUnitRight(a);
  }

  lemma RepsIntro(a: Language, from: int, to: int, k: nat, w: Word)
    requires from <= k && (to == INFINITY || k <= to) && w in Power(a, k)
    ensures w in Reps(a, from, to)
  {
    assert Repeated(a, from, to, k, w);
  }

  lemma RepsElim(a: Language, from: int, to: int, w: Word) returns (k: nat)
    requires w in Reps(a, from, to)
    ensures from <= k && (to == INFINITY || k <= to) && w in Power(a, k)
  {
    k :| Repeated(a, from, to, k, w);
  }

  lemma RepsNone(a: Language)
    ensures Reps(a, 0, 0) == Epsilon()
  {
    forall w: Word | w in Epsilon() ensures w in Reps(a, 0, 0) {
      RepsIntro(a, 0, 0, 0, w);
    }
    forall w: Word | w in Reps(a, 0, 0) ensures w in Epsilon() {
      var k := RepsElim(a, 0, 0, w);
    }
  }

  lemma RepsOnce(a: Language)
    ensures Reps(a, 1, 1) == a
  {
    PowerOne(a);
    forall w: Word | w in a ensures w in Reps(a, 1, 1) {
      RepsIntro(a, 1, 1, 1, w);
    }
    forall w: Word | w in Reps(a, 1, 1) ensures w in a {
      var k := RepsElim(a, 1, 1, w);
    }
  }

  /** x{0,n} is x{1,n} or nothing. */
  lemma RepsOptional(a: Language, to: int)
    requires 1 <= to <= INFINITY
    ensures Reps(a, 0, to) == Reps(a, 1, to) + Epsilon()
  {
    forall w: Word | w in Reps(a, 0, to) ensures w in Reps(a, 1, to) + Epsilon() {
      var k := RepsElim(a, 0, to, w);
      if k > 0 {
        RepsIntro(a, 1, to, k, w);
      }
    }
    forall w: Word | w in Reps(a, 1, to) + Epsilon() ensures w in Reps(a, 0, to) {
      if w in Epsilon() {
        RepsIntro(a, 0, to, 0, w);
      } else {
        var k := RepsElim(a, 1, to, w);
        RepsIntro(a, 0, to, k, w);
      }
    }
  }

  /** The upper bound that is left once one copy has been taken off. */
  function OneLess(to: int): int {
    if to == INFINITY then to else to - 1
  }

  /** x{m,n} is x x{m-1,n-1}. */
  lemma RepsUnroll(a: Language, from: int, to: int)
    requires 1 <= from <= to <= INFINITY
    ensures Reps(a, from, to) == Concat(a, Reps(a, from - 1, OneLess(to)))
  {
    forall w: Word | w in Reps(a, from, to)
      ensures w in Concat(a, Reps(a, from - 1, OneLess(to)))
    {
      var k := RepsElim(a, from, to, w);
      var u, v := ConcatElim(a, Power(a, k - 1), w);
      RepsIntro(a, from - 1, OneLess(to), k - 1, v);
      ConcatIntro(a, Reps(a, from - 1, OneLess(to)), u, v);
    }
    forall w: Word | w in Concat(a, Reps(a, from - 1, OneLess(to)))
      ensures w in Reps(a, from, to)
    {
      var u, v := ConcatElim(a, Reps(a, from - 1, OneLess(to)), w);
      var k := RepsElim(a, from - 1, OneLess(to), v);
      ConcatIntro(a, Power(a, k), u, v);
      RepsIntro(a, from, to, k + 1, w);
    }
  }

  /** x{1,n} is (x|) x{1,n-1}. */
  lemma RepsOneToMany(a: Language, to: int)
    requires 2 <= to < INFINITY
    ensures Reps(a, 1, to) == Concat(a + Epsilon(), Reps(a, 1, to - 1))
  {
    RepsUnroll(a, 1, to);
    RepsOptional(a, to - 1);
    var fewer := Reps(a, 1, to - 1);
    forall w: Word | w in Reps(a, 1, to) ensures w in Concat(a + Epsilon(), fewer) {
      var u, v := ConcatElim(a, fewer + Epsilon(), w);
      if v in fewer {
        ConcatIntro(a + Epsilon(), fewer, u, v);
      } else {
        PowerOne(a);
        RepsIntro(a, 1, to - 1, 1, u);
        assert w == [] + u;
        ConcatIntro(a + Epsilon(), fewer, [], u);
      }
    }
    forall w: Word | w in Concat(a + Epsilon(), fewer) ensures w in Reps(a, 1, to) {
      var u, v := ConcatElim(a + Epsilon(), fewer, w);
      if u in a {
        ConcatIntro(a, fewer + Epsilon(), u, v);
      } else {
        assert w == v;
        var k := RepsElim(a, 1, to - 1, v);
        RepsIntro(a, 1, to, k, w);
      }
    }
  }

  lemma StarEmpty(a: Language)
    ensures [] in Star(a)
  {
    RepsIntro(a, 0, INFINITY, 0, []);
  }

  /** Any number of copies and one more is at least one copy. */
  lemma StarThenOne(a: Language)
    ensures Concat(Star(a), a) == AtLeastOnce(a)
  {
    forall w: Word | w in Concat(Star(a), a) ensures w in AtLeastOnce(a) {
      var u, v := ConcatElim(Star(a), a, w);
      var k := RepsElim(a, 0, INFINITY, u);
      PowerRight(a, k);
      ConcatIntro(Power(a, k), a, u, v);
      RepsIntro(a, 1, INFINITY, k + 1, w);
    }
    forall w: Word | w in AtLeastOnce(a) ensures w in Concat(Star(a), a) {
      var k := RepsElim(a, 1, INFINITY, w);
      PowerRight(a, k - 1);
      var u, v := ConcatElim(Power(a, k - 1), a, w);
      RepsIntro(a, 0, INFINITY, k - 1, u);
      ConcatIntro(Star(a), a, u, v);
    }
  }
}
