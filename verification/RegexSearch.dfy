/** What searching text for a pattern means, and the facts about reached states
    that the search loops of external/regex/engine.c rest on. */
module RegexSearch {
  import opened Wrappers
  import opened RegexLang
  import opened RegexStrip
  import opened RegexStates
  import opened RegexMeaning

  /** Flags a caller of regexec may give. */
  datatype Flags = Flags(notBol: bool, notEol: bool)

  predicate IsWordChar(c: Byte) {
    48 <= c <= 57 || 65 <= c <= 90 || c == 95 || 97 <= c <= 122
  }

  /** The character before position `p`, if any, and the one at `p`. */
  function Before(text: Word, p: nat): Option<Byte>
    requires p <= |text|
  {
    if p == 0 then None else Some(text[p - 1])
  }

  function Current(text: Word, p: nat): Option<Byte>
    requires p <= |text|
  {
    if p == |text| then None else Some(text[p])
  }

  /** The word boundary between two neighbouring characters, NOTHING if there is
      none.  Only the ends of the text count as line ends. */
  function Boundary(last: Option<Byte>, next: Option<Byte>, flags: Flags): Symbol {
    var bol, eol := last.None? && !flags.notBol, next.None? && !flags.notEol;
    var begins := ((bol && !eol) || (last.Some? && !IsWordChar(last.value))) && next.Some? && IsWordChar(next.value);
    var ends := last.Some? && IsWordChar(last.value) && ((eol && !bol) || (next.Some? && !IsWordChar(next.value)));
    if ends then EndWord else if begins then BeginWord else Nothing
  }

  /** The largest end before `p` of a word of `l` in `text` that begins at `start`. */
  ghost function LongestBefore(l: Language, text: Word, start: nat, p: nat): Option<nat>
    requires p <= |text| + 1
  {
    if p <= start then None
    else if text[start..p - 1] in l then Some(p - 1)
    else LongestBefore(l, text, start, p - 1)
  }

  /** The largest end up to `stop`. */
  ghost function LongestEnd(l: Language, text: Word, start: nat, stop: nat): Option<nat>
    requires stop <= |text|
  {
    LongestBefore(l, text, start, stop + 1)
  }

  /** Some word of `l` that begins at `from` or later ends at `k`. */
  ghost predicate EndsAt(l: Language, text: Word, from: nat, k: nat)
    requires k <= |text|
  {
    exists i :: from <= i <= k && text[i..k] in l
  }

  /** The first position from `k` up to `stop` where a word ends that begins at
      `from` or later. */
  ghost function FirstEnd(l: Language, text: Word, from: nat, k: nat, stop: nat): Option<nat>
    requires k <= stop <= |text|
    decreases stop - k
  {
    if EndsAt(l, text, from, k) then Some(k)
    else if k == stop then None
    else FirstEnd(l, text, from, k + 1, stop)
  }

  /** What a fast scan reports: one more than the position a match ended at, and
      the last position before that with no match under way. */
  datatype Report = Report(found: Option<nat>, cold: nat)

  /** Some word of `l` stands in `text` between `from` and `stop`. */
  ghost predicate Occurs(l: Language, text: Word, from: nat, stop: nat)
    requires from <= stop <= |text|
  {
    exists i, k :: from <= i <= k <= stop && text[i..k] in l
  }

  /** `LongestEnd` is an end, and no larger one is. */
  lemma {:induction false} LongestEndIsLongest(l: Language, text: Word, start: nat, stop: nat)
    requires start <= stop <= |text|
    ensures var r := LongestEnd(l, text, start, stop);
      match r {
        case None => forall k :: start <= k <= stop ==> text[start..k] !in l
        case Some(end) =>
          && start <= end <= stop && text[start..end] in l
          && forall k :: end < k <= stop ==> text[start..k] !in l
      }
    decreases stop
  {
    if text[start..stop] in l {
    } else if start == stop {
      assert LongestBefore(l, text, start, start) == None;
    } else {
      LongestEndIsLongest(l, text, start, stop - 1);
      assert LongestBefore(l, text, start, stop + 1) == LongestBefore(l, text, start, stop);
    }
  }

  /** There is a first end exactly if a word occurs. */
  lemma {:induction false} FirstEndOccurs(l: Language, text: Word, from: nat, k: nat, stop: nat)
    requires from <= k <= stop <= |text|
    requires forall j :: from <= j < k ==> !EndsAt(l, text, from, j)
    ensures FirstEnd(l, text, from, k, stop).Some? <==> Occurs(l, text, from, stop)
    ensures FirstEnd(l, text, from, k, stop).Some? ==>
      var e := FirstEnd(l, text, from, k, stop).value;
      k <= e <= stop && EndsAt(l, text, from, e) && forall j :: from <= j < e ==> !EndsAt(l, text, from, j)
    decreases stop - k
  {
    if EndsAt(l, text, from, k) {
      var i :| from <= i <= k && text[i..k] in l;
    } else if k < stop {
      FirstEndOccurs(l, text, from, k + 1, stop);
    } else if Occurs(l, text, from, stop) {
      var i, j :| from <= i <= j <= stop && text[i..j] in l;
      assert EndsAt(l, text, from, j);
    }
  }

  // ----- the states along the text

  /** The words that lead a machine to its end are those of the language. */
  ghost predicate Recognizes(m: Machine, l: Language) {
    forall w: Word {:trigger m.hi in Reach(m, w)} :: m.hi in Reach(m, w) <==> w in l
  }

  /** The engine run on exactly a piece of code recognizes the code's language:
      the meaning of any range of a strip that is the code of a subexpression. */
  lemma PieceRecognizes(p: Piece)
    ensures Recognizes(Alone(p), Lang(p.c))
  {
    forall w: Word ensures Alone(p).hi in Reach(Alone(p), w) <==> w in Lang(p.c) {
      ReachMeaning(p, w);
    }
  }

  /** The states at position `p` of a run that began at `start`, without and
      with restarts on the way. */
  ghost function Along(m: Machine, text: Word, start: nat, p: nat): States
    requires start <= p <= |text|
  {
    Reach(m, text[start..p])
  }

  ghost function AlongAny(m: Machine, text: Word, start: nat, p: nat): States
    requires start <= p <= |text|
  {
    ReachAny(m, text[start..p])
  }

  lemma AlongStart(m: Machine, text: Word, start: nat)
    requires start <= |text|
    ensures Along(m, text, start, start) == Fresh(m) && AlongAny(m, text, start, start) == Fresh(m)
  {
    assert text[start..start] == [];
  }

  lemma AlongStep(m: Machine, text: Word, start: nat, p: nat)
    requires start <= p < |text|
    ensures Along(m, text, start, p + 1) == StepStates(m, Along(m, text, start, p), Of(text[p]), {})
    ensures AlongAny(m, text, start, p + 1) == StepStates(m, AlongAny(m, text, start, p), Of(text[p]), Fresh(m))
  {
    assert text[start..p + 1] == text[start..p] + [text[p]];
    ReadStep(m, text[start..p], text[p]);
  }

  lemma AlongClosed(m: Machine, text: Word, start: nat, p: nat)
    requires start <= p <= |text|
    ensures Closed(m, Along(m, text, start, p)) && Closed(m, AlongAny(m, text, start, p))
  {
    ReachClosed(m, text[start..p]);
  }

  /** Once no state is left, none comes back. */
  lemma {:induction false} NothingLeft(m: Machine, text: Word, start: nat, p: nat, k: nat)
    requires start <= p <= k <= |text| && Along(m, text, start, p) == {}
    ensures Along(m, text, start, k) == {}
    decreases k
  {
    if p < k {
      NothingLeft(m, text, start, p, k - 1);
      NothingNext(m, text, start, k - 1);
    }
  }

  lemma NothingNext(m: Machine, text: Word, start: nat, k: nat)
    requires start <= k < |text| && Along(m, text, start, k) == {}
    ensures Along(m, text, start, k + 1) == {}
  {
    AlongStep(m, text, start, k);
    FromNothing(m, Of(text[k]));
  }

  lemma FromNothing(m: Machine, ch: Symbol)
    ensures StepStates(m, {}, ch, {}) == {}
  {
    var none: States := {};
    assert none + Advance(m, none, ch) == none;
    assert Closed(m, none);
  }

  /** Without restarts the end is reached exactly where a match from `start` ends. */
  lemma MatchFrom(m: Machine, l: Language, text: Word, start: nat, k: nat)
    requires Recognizes(m, l) && start <= k <= |text|
    ensures m.hi in Along(m, text, start, k) <==> text[start..k] in l
  {
  }

  lemma Suffix(text: Word, from: nat, i: nat, k: nat)
    requires from <= i <= k <= |text|
    ensures text[from..k][i - from..] == text[i..k]
  {
  }

  lemma EndsStarted(m: Machine, l: Language, text: Word, from: nat, k: nat)
    requires Recognizes(m, l) && from <= k <= |text| && EndsAt(l, text, from, k)
    ensures FromSomeStart(m, text[from..k], m.hi)
  {
    var i :| from <= i <= k && text[i..k] in l;
    Suffix(text, from, i, k);
    assert m.hi in Reach(m, text[i..k]);
  }

  lemma StartedEnds(m: Machine, l: Language, text: Word, from: nat, k: nat)
    requires Recognizes(m, l) && from <= k <= |text| && FromSomeStart(m, text[from..k], m.hi)
    ensures EndsAt(l, text, from, k)
  {
    var w := text[from..k];
    var i :| 0 <= i <= |w| && m.hi in Reach(m, w[i..]);
    Suffix(text, from, from + i, k);
    assert text[from + i..k] in l;
  }

  /** With restarts the end is reached exactly where some match ends. */
  lemma MatchEnds(m: Machine, l: Language, text: Word, from: nat, k: nat)
    requires Recognizes(m, l) && from <= k <= |text|
    ensures m.hi in AlongAny(m, text, from, k) <==> EndsAt(l, text, from, k)
  {
    ReachAnyStarts(m, text[from..k], m.hi);
    if EndsAt(l, text, from, k) {
      EndsStarted(m, l, text, from, k);
    } else if FromSomeStart(m, text[from..k], m.hi) {
      StartedEnds(m, l, text, from, k);
    }
  }

  /** Looking at one more end. */
  lemma LookAt(m: Machine, l: Language, text: Word, start: nat, k: nat)
    requires Recognizes(m, l) && start <= k <= |text|
    ensures LongestBefore(l, text, start, k + 1)
         == if m.hi in Along(m, text, start, k) then Some(k) else LongestBefore(l, text, start, k)
  {
    MatchFrom(m, l, text, start, k);
  }

  /** Once no state is left, no longer match follows. */
  lemma {:induction false} StopAt(m: Machine, l: Language, text: Word, start: nat, k: nat, stop: nat)
    requires Recognizes(m, l) && start <= k <= stop <= |text|
    requires k == stop || Along(m, text, start, k) == {}
    ensures LongestEnd(l, text, start, stop) == LongestBefore(l, text, start, k + 1)
    decreases stop
  {
    if k < stop {
      StopAt(m, l, text, start, k, stop - 1);
      NothingLeft(m, text, start, k, stop);
      MatchFrom(m, l, text, start, stop);
    }
  }

  /** What a scan with restarts reports from position `k` on, when no match was
      under way at `cold`. */
  ghost function Scan(m: Machine, l: Language, text: Word, start: nat, stop: nat, cold: nat, k: nat): Report
    requires start <= k <= stop <= |text|
    decreases stop - k
  {
    var now := if AlongAny(m, text, start, k) == Fresh(m) then k else cold;
    if EndsAt(l, text, start, k) then Report(Some(k + 1), now)
    else if k == stop then Report(None, now)
    else Scan(m, l, text, start, stop, now, k + 1)
  }

  /** One position of such a scan, told from the states. */
  lemma ScanOne(m: Machine, l: Language, text: Word, start: nat, stop: nat, cold: nat, now: nat, k: nat)
    requires Recognizes(m, l) && start <= k <= stop <= |text|
    requires now == if AlongAny(m, text, start, k) == Fresh(m) then k else cold
    ensures Scan(m, l, text, start, stop, cold, k)
         == if m.hi in AlongAny(m, text, start, k) then Report(Some(k + 1), now)
            else if k == stop then Report(None, now)
            else Scan(m, l, text, start, stop, now, k + 1)
  {
    MatchEnds(m, l, text, start, k);
  }

  /** The states at `p` would be the same if the scan had begun only at `cold`. */
  ghost predicate Scanned(m: Machine, text: Word, start: nat, cold: nat, p: nat) {
    start <= cold <= p <= |text| && AlongAny(m, text, start, p) == AlongAny(m, text, cold, p)
  }

  /** A match that ends while some match is under way begins no earlier than the
      last position at which none was. */
  lemma ColdEnds(m: Machine, l: Language, text: Word, start: nat, cold: nat, k: nat)
    requires Recognizes(m, l) && Scanned(m, text, start, cold, k) && EndsAt(l, text, start, k)
    ensures EndsAt(l, text, cold, k)
  {
    MatchEnds(m, l, text, start, k);
    MatchEnds(m, l, text, cold, k);
  }

  /** A scan finds the first end there is. */
  lemma {:induction false} ScanFirst(m: Machine, l: Language, text: Word, start: nat, stop: nat, cold: nat, k: nat)
    requires start <= cold <= k <= stop <= |text|
    ensures var r, e := Scan(m, l, text, start, stop, cold, k), FirstEnd(l, text, start, k, stop);
      && start <= r.cold <= stop
      && match e {
        case None => r.found.None?
        case Some(end) => r.found == Some(end + 1) && r.cold <= end <= stop
      }
    decreases stop - k
  {
    if !EndsAt(l, text, start, k) && k < stop {
      ScanFirst(m, l, text, start, stop, if AlongAny(m, text, start, k) == Fresh(m) then k else cold, k + 1);
    }
  }

  /** A match that ends at the first end there is begins at the last position with
      no match under way, or later. */
  lemma {:induction false} ScanCold(m: Machine, l: Language, text: Word, start: nat, stop: nat, cold: nat, k: nat)
    requires Recognizes(m, l) && start <= cold <= k <= stop <= |text|
    requires AlongAny(m, text, start, k) == Fresh(m) || Scanned(m, text, start, cold, k)
    ensures FirstEnd(l, text, start, k, stop).Some? ==>
      var r, end := Scan(m, l, text, start, stop, cold, k), FirstEnd(l, text, start, k, stop).value;
      end <= stop && EndsAt(l, text, r.cold, end)
    decreases stop - k
  {
    var now := if AlongAny(m, text, start, k) == Fresh(m) then k else cold;
    ColdScanned(m, text, start, cold, k);
    if EndsAt(l, text, start, k) {
      ColdEnds(m, l, text, start, now, k);
    } else if k < stop {
      AlongStep(m, text, start, k);
      AlongStep(m, text, now, k);
      ScanCold(m, l, text, start, stop, now, k + 1);
    }
  }

  lemma ColdScanned(m: Machine, text: Word, start: nat, cold: nat, k: nat)
    requires start <= cold <= k <= |text|
    requires AlongAny(m, text, start, k) == Fresh(m) || Scanned(m, text, start, cold, k)
    ensures Scanned(m, text, start, if AlongAny(m, text, start, k) == Fresh(m) then k else cold, k)
  {
    AlongStart(m, text, k);
  }

  /** A scan finds the first end there is, and a match that ends there begins at
      the position with no match under way, or later. */
  lemma ScanFinds(m: Machine, l: Language, text: Word, start: nat, stop: nat)
    requires Recognizes(m, l) && start <= stop <= |text|
    ensures var r, e := Scan(m, l, text, start, stop, start, start), FirstEnd(l, text, start, start, stop);
      && start <= r.cold <= stop && (r.found.None? <==> e.None?)
      && (e.Some? ==> r.found == Some(e.value + 1) && r.cold <= e.value <= stop && EndsAt(l, text, r.cold, e.value))
  {
    AlongStart(m, text, start);
    ScanFirst(m, l, text, start, stop, start, start);
    ScanCold(m, l, text, start, stop, start, start);
  }
}
