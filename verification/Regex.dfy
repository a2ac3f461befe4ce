/** Compiling an expression and searching text for it (external/regex/regcomp.c
    and external/regex/regexec.c). */
module Regex {
  import opened Wrappers
  import opened RegexLang
  import opened RegexStrip
  import opened RegexStates
  import opened RegexMeaning
  import opened RegexSearch
  import opened RegexMust
  import opened RegexGuts
  import opened RegexSyntax
  import opened RegexCompile
  import R = RegexReader
  import RegexLarge
  import RegexSmall

  /** The whole strip around the code of an expression. */
  lemma WholeStrip(g: Guts, c: Code) returns (p: Piece)
    requires g.strip == [Sop(End, 0)] + Encode(c) + [Sop(End, 0)] && SetsOk(c, g.sets)
    ensures p == Place(g.strip, g.sets, 1, c) && IsWhole(g.strip, p)
    ensures WellBracketed(g.strip, 1, |g.strip| - 1)
  {
    assert g.strip[1..1 + Size(c)] == Encode(c);
    EncodeLaid(c, g.strip, g.sets, 1);
    p := Place(g.strip, g.sets, 1, c);
    PieceBracketed(p);
  }

  /** `e` is a well-formed way to read the pattern. */
  predicate Spells(e: Ere, pattern: Word) {
    EreOk(e) && EreText(e) == pattern
  }

  /** regcomp with REG_EXTENDED. A pattern is accepted if and only if it has a
      well-formed reading, of which there is never more than one. */
  method Compile(pattern: Word) returns (error: Error, g: Guts, ghost p: Piece)
    ensures error == NoError <==> exists e :: Spells(e, pattern)
    ensures forall e :: Spells(e, pattern) ==> Lang(p.c) == EreLang(e)
    ensures error == NoError ==> g in GutsFor(p) && WellBracketed(g.strip, g.firststate + 1, g.laststate)
    ensures error != Assertion
  {
    hide CodeFor, GutsFor, EreText, EreOk, EreLang, Lang, Encode, SetsOk, After, WellBracketed;
    var pa := new Parser(pattern);
    pa.Emit(End, 0);
    var firststate := |pa.strip| - 1;
    ghost var s := pa.Now();
    ghost var e, code := pa.Alternatives(256);
    ParsedExactly(pattern, e, pa.error == NoError, pa.rest);
    pa.Emit(End, 0);
    error := pa.error;
    g := Guts(pa.strip, pa.sets, pa.nsub, firststate, 0, |pa.strip|, None, 0);
    p := Place([], [], 0, Skip);
    if error == NoError {
      ParsedWhole(pattern, s, e, code, g);
      var bad;
      g, bad, p := FillIn(g, code);
      if bad {
        error := Assertion;
      }
    }
  }

  /** What the parser makes of the whole pattern. */
  lemma ParsedExactly(pattern: Word, e: Ere, ok: bool, rest: Word)
    requires ok ==> rest == []
    requires R.ReadEre(pattern, 256, None) == R.Outcome(ok, e, rest)
    ensures ok <==> exists f :: Spells(f, pattern)
    ensures ok ==> forall f :: Spells(f, pattern) <==> f == e
  {
    forall f
      ensures Spells(f, pattern) <==> ok && f == e
    {
      R.ReadExact(pattern, f);
    }
    if ok {
      assert Spells(e, pattern);
    }
  }

  /** Tidy up loose ends and fill things in. */
  method FillIn(g0: Guts, ghost code: Code) returns (g: Guts, bad: bool, ghost p: Piece)
    requires g0.strip == [Sop(End, 0)] + Encode(code) + [Sop(End, 0)] && SetsOk(code, g0.sets)
    requires g0.firststate == 0 && g0.nstates == |g0.strip|
    ensures !bad && p.c == code && g in GutsFor(p)
    ensures WellBracketed(g.strip, g.firststate + 1, g.laststate)
  {
    p := WholeStrip(g0, code);
    var must, unsafe := FindMust(g0.strip, p);
    var nplus, open := PlusCount(g0.strip, p);
    g := g0.(laststate := |g0.strip| - 1, must := must, nplus := nplus);
    bad := unsafe || open;
  }

  /** The strip is the endmarkers around the code. */
  lemma ParsedWhole(pattern: Word, s: Snapshot, e: Ere, code: Code, g: Guts)
    requires s == Snapshot(pattern, [Sop(End, 0)], [])
    requires exists t: Snapshot ::
      t in After(s, EreText(e), code, EreLang(e)) && t.strip + [Sop(End, 0)] == g.strip && t.sets == g.sets
    ensures Lang(code) == EreLang(e) && SetsOk(code, g.sets)
    ensures g.strip == [Sop(End, 0)] + Encode(code) + [Sop(End, 0)]
  {
  }

  /** regexec: the representation of state sets depends on their size. */
  method Execute(g: Guts, text: Word, nmatch: nat, flags: Flags, ghost p: Piece) returns (o: Outcome)
    requires g in GutsFor(p)
    ensures o == Search(Alone(p), Lang(p.c), text, nmatch)
  {
    if g.nstates <= RegexSmall.WIDTH {
      o := RegexSmall.Matcher(g, text, nmatch, flags, p);
    } else {
      o := RegexLarge.Matcher(g, text, nmatch, flags, p);
    }
  }

  lemma SlicedWord(text: Word, so: nat, eo: nat, i: nat, k: nat)
    requires so <= eo <= |text| && i <= k <= eo - so
    ensures text[so..eo][i..k] == text[so + i..so + k]
  {
    var a, b := text[so..eo][i..k], text[so + i..so + k];
    assert forall j :: 0 <= j < k - i ==> a[j] == b[j];
  }

  /** A range of a text is searched like a text of its own. */
  lemma OccursInRange(l: Language, text: Word, so: nat, eo: nat)
    requires so <= eo <= |text|
    ensures Occurs(l, text[so..eo], 0, eo - so) <==> Occurs(l, text, so, eo)
  {
    if i, k :| 0 <= i <= k <= eo - so && text[so..eo][i..k] in l {
      SlicedWord(text, so, eo, i, k);
    }
    if i, k :| so <= i <= k <= eo && text[i..k] in l {
      SlicedWord(text, so, eo, i - so, k - so);
    }
  }

  /** The words from one start on, up to the end of the range. */
  lemma LongestInRange(l: Language, text: Word, so: nat, eo: nat, i: nat, end: nat, from: nat)
    requires so <= eo <= |text| && i <= end <= eo - so && from == so + i && text[so..eo][i..end] in l
    requires forall e :: end < e <= eo - so ==> text[so..eo][i..e] !in l
    ensures text[from..so + end] in l && forall e :: so + end < e <= eo ==> text[from..e] !in l
  {
    SlicedWord(text, so, eo, i, end);
    forall e | so + end < e <= eo ensures text[from..e] !in l {
      SlicedWord(text, so, eo, i, e - so);
    }
  }

  /** regexec with REG_STARTEND: only a range of the text is looked at, and what is
      reported counts from the start of the text; None stands for REG_INVARG. */
  method ExecuteRange(g: Guts, text: Word, so: nat, eo: nat, nmatch: nat, flags: Flags, ghost p: Piece) returns (o: Option<Outcome>)
    requires g in GutsFor(p) && so <= |text| && eo <= |text|
    ensures o.None? <==> eo < so
    ensures o.Some? ==> (o.value.NoMatch? <==> !Occurs(Lang(p.c), text, so, eo))
    ensures o.Some? && nmatch > 0 ==> !o.value.Success?
    ensures o.Some? && o.value.SuccessAt? ==>
      && so <= o.value.start <= o.value.end <= eo && text[o.value.start..o.value.end] in Lang(p.c)
      && forall e :: o.value.end < e <= eo ==> text[o.value.start..e] !in Lang(p.c)
  {
    hide GutsFor, Lang, Occurs, Search;
    if eo < so {
      return None;
    }
    var r := Execute(g, text[so..eo], nmatch, flags, p);
    PieceRecognizes(p);
    SearchExact(Alone(p), Lang(p.c), text[so..eo], nmatch);
    OccursInRange(Lang(p.c), text, so, eo);
    match r
    case SuccessAt(start, end) =>
      LongestInRange(Lang(p.c), text, so, eo, start, end, so + start);
      o := Some(SuccessAt(so + start, so + end));
    case _ =>
      o := Some(r);
  }

  /** Compiling an expression and looking for it in a text finds out whether a
      word the expression stands for is in the text. */
  method Match(pattern: Word, text: Word, flags: Flags) returns (error: Error, o: Outcome)
    ensures error == NoError <==> exists e :: Spells(e, pattern)
    ensures forall e :: Spells(e, pattern) ==> Found(o, EreLang(e), text)
  {
    hide GutsFor, EreText, EreOk, EreLang, Lang, Occurs, LongestEnd;
    var g;
    ghost var p;
    error, g, p := Compile(pattern);
    o := NoMatch;
    if error == NoError {
      o := Execute(g, text, 1, flags, p);
      PieceRecognizes(p);
      SearchExact(Alone(p), Lang(p.c), text, 1);
      if o.SuccessAt? {
        LongestEndIsLongest(Lang(p.c), text, o.start, |text|);
      }
    }
  }

  /** A range of the text is reported exactly if some word of `l` is in the text,
      and then it is the longest word that starts there. */
  ghost predicate Found(o: Outcome, l: Language, text: Word) {
    && (o.NoMatch? <==> !Occurs(l, text, 0, |text|))
    && (!o.NoMatch? ==> o.SuccessAt? && o.start <= o.end <= |text| && LongestEnd(l, text, o.start, |text|) == Some(o.end))
  }
}
