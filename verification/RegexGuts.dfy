/** A compiled expression, and what a search for it is to find: the parts of the
    matcher (external/regex/engine.c) that do not touch state sets. */
module RegexGuts {
  import opened Wrappers
  import opened RegexLang
  import opened RegexStrip
  import opened RegexStates
  import opened RegexMeaning
  import opened RegexSearch
  import opened RegexMust

  datatype Guts = Guts(
    strip: Strip,
    sets: seq<CharSet>,
    nsub: nat,
    firststate: nat,
    laststate: nat,
    nstates: nat,
    must: Option<Word>,
    nplus: int)

  /** The compiled forms of a piece of code that a whole strip consists of. */
  ghost function GutsFor(p: Piece): iset<Guts> {
    iset g: Guts |
      && IsWhole(g.strip, p) && g.sets == p.sets
      && g.firststate == 0 && g.laststate == Size(p.c) + 1 && g.nstates == |g.strip|
      && g.must == Mandatory(p.c) && g.nplus == PlusDepth(p.c)
  }

  /** The range of the strip that a search runs. */
  ghost function Engine(g: Guts, p: Piece): (m: Machine)
    requires g in GutsFor(p)
    ensures m == Alone(p) && m.strip == g.strip && m.sets == g.sets
    ensures m.lo == g.firststate + 1 && m.hi == g.laststate && m.hi < |m.strip| == g.nstates
  {
    Alone(p)
  }

  datatype Outcome = NoMatch | Success | SuccessAt(start: nat, end: nat)

  /** The first position from `i` on where a word of `l` begins, and the end of
      the longest one there. */
  ghost function StartFrom(l: Language, text: Word, i: nat): Outcome
    requires i <= |text|
    decreases |text| - i
  {
    match LongestEnd(l, text, i, |text|)
    case Some(end) => SuccessAt(i, end)
    case None => if i == |text| then NoMatch else StartFrom(l, text, i + 1)
  }

  /** What a search reports, which depends on the machine as well as on the
      language because the start is looked for from where the scan was cold. */
  ghost function Search(m: Machine, l: Language, text: Word, nmatch: nat): Outcome {
    var r := Scan(m, l, text, 0, |text|, 0, 0);
    if r.found.None? then NoMatch
    else if nmatch == 0 then Success
    else if r.cold <= |text| then StartFrom(l, text, r.cold) else NoMatch
  }

  lemma {:induction false} StartFromFinds(l: Language, text: Word, i: nat, k: nat)
    requires i <= k <= |text| && EndsAt(l, text, i, k)
    ensures var o := StartFrom(l, text, i);
      && o.SuccessAt? && i <= o.start <= o.end <= |text| && text[o.start..o.end] in l
      && (forall e :: o.end < e <= |text| ==> text[o.start..e] !in l)
      && forall j, e :: i <= j < o.start && j <= e <= |text| ==> text[j..e] !in l
    decreases |text| - i
  {
    LongestEndIsLongest(l, text, i, |text|);
    if LongestEnd(l, text, i, |text|).None? {
      assert EndsAt(l, text, i + 1, k);
      StartFromFinds(l, text, i + 1, k);
    }
  }

  /** A search succeeds exactly if some word of the language stands in the text.
      The range it reports is such a word, and none longer begins there. */
  lemma SearchExact(m: Machine, l: Language, text: Word, nmatch: nat)
    requires Recognizes(m, l)
    ensures var o := Search(m, l, text, nmatch);
      && (o.NoMatch? <==> !Occurs(l, text, 0, |text|))
      && (o.Success? ==> nmatch == 0)
      && (o.SuccessAt? ==>
           && o.start <= o.end <= |text| && text[o.start..o.end] in l
           && forall e :: o.end < e <= |text| ==> text[o.start..e] !in l)
  {
    ScanFinds(m, l, text, 0, |text|);
    FirstEndOccurs(l, text, 0, 0, |text|);
    var r := Scan(m, l, text, 0, |text|, 0, 0);
    if r.found.Some? {
      StartFromFinds(l, text, r.cold, r.found.value - 1);
    }
  }

  lemma StandsFurther(text: Word, i: nat, k: nat, s: Word, at: nat)
    requires i <= k <= |text| && StandsAt(text[i..k], s, at)
    ensures StandsAt(text, s, i + at)
  {
    var here, there := text[i..k][at..at + |s|], text[i + at..i + at + |s|];
    forall j | 0 <= j < |s| ensures here[j] == there[j] {
      assert here[j] == text[i..k][at + j];
    }
    assert here == there;
  }

  /** Text without the literal has no match. */
  lemma MustOccurs(p: Piece, text: Word, must: Word)
    requires Mandatory(p.c) == Some(must) && Occurs(Lang(p.c), text, 0, |text|)
    ensures Contains(text, must)
  {
    var i, k :| 0 <= i <= k <= |text| && text[i..k] in Lang(p.c);
    MustSound(p.c, text[i..k]);
    var at: nat :| StandsAt(text[i..k], must, at);
    StandsFurther(text, i, k, must, at);
  }

  /** Prescreening: look for the literal every match must contain. */
  method Prescreen(must: Word, text: Word) returns (found: bool)
    requires must != []
    ensures found <==> Contains(text, must)
  {
    var dp := 0;
    while dp < |text|
      invariant dp <= |text|
      invariant forall i: nat :: i < dp ==> !StandsAt(text, must, i)
    {
      if text[dp] == must[0] && |text| - dp >= |must| && text[dp..dp + |must|] == must {
        assert StandsAt(text, must, dp);
        return true;
      }
      assert dp + |must| <= |text| ==> text[dp..dp + |must|][0] == text[dp];
      dp := dp + 1;
    }
    found := false;
  }
}
