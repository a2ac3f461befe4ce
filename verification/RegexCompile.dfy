/** The compiler from extended regular expressions to strips
    (external/regex/regcomp.c): a recursive descent parser that emits operators,
    inserts others in front of what it has emitted, and patches operands. */
module RegexCompile {
  import opened Wrappers
  import opened RegexLang
  import opened RegexStrip
  import opened RegexSyntax
  import opened RegexReader

  /** `Unmodelled` stands for the features that are not part of this model. */
  datatype Error =
    | NoError
    | BadParen
    | EmptyBranch
    | BadRepeat
    | BadEscape
    | BadBracket
    | UnclosedBrace
    | BadBrace
    | BadRange
    | Assertion
    | Unmodelled

  /** What the parser may find wrong; `Assertion` is for what the compiler finds
      wrong with its own strip. */
  type ParseError = e: Error | e != Assertion witness NoError

  // ----- code under construction

  /** A choice whose last branch is still open: every branch so far has been
      closed by its OOR1. */
  datatype OpenChoice = FirstBranchOf(branch: Code) | NextBranchOf(before: OpenChoice, branch: Code)

  function EncodeOpen(o: OpenChoice): Strip {
    match o
    case FirstBranchOf(b) => Wrap(Sop(ChoiceOpen, Size(b) + 2), Encode(b), Sop(Or1, Size(b) + 1))
    case NextBranchOf(before, b) => EncodeOpen(before) + Wrap(Sop(Or2, Size(b) + 2), Encode(b), Sop(Or1, Size(b) + 2))
  }

  function Close(o: OpenChoice, rest: Branches): Code {
    match o
    case FirstBranchOf(b) => Choice(b, rest)
    case NextBranchOf(before, b) => Close(before, More(b, rest))
  }

  ghost function OpenLang(o: OpenChoice): Language {
    match o
    case FirstBranchOf(b) => Lang(b)
    case NextBranchOf(before, b) => OpenLang(before) + Lang(b)
  }

  ghost predicate OpenSetsOk(o: OpenChoice, sets: seq<CharSet>) {
    match o
    case FirstBranchOf(b) => SetsOk(b, sets)
    case NextBranchOf(before, b) => OpenSetsOk(before, sets) && SetsOk(b, sets)
  }

  lemma {:induction false} CloseMeaning(o: OpenChoice, rest: Branches)
    ensures Encode(Close(o, rest)) == EncodeOpen(o) + EncodeBranches(rest)
    ensures Lang(Close(o, rest)) == OpenLang(o) + BranchesLang(rest)
  {
    match o
    case FirstBranchOf(b) =>
    case NextBranchOf(before, b) =>
      CloseMeaning(before, More(b, rest));
      var w := Wrap(Sop(Or2, Size(b) + 2), Encode(b), Sop(Or1, Size(b) + 2));
      assert EncodeOpen(before) + (w + EncodeBranches(rest)) == EncodeOpen(before) + w + EncodeBranches(rest);
  }

  lemma {:induction false} CloseSets(o: OpenChoice, rest: Branches, sets: seq<CharSet>)
    requires OpenSetsOk(o, sets) && BranchSetsOk(rest, sets)
    ensures SetsOk(Close(o, rest), sets)
  {
    match o
    case FirstBranchOf(b) =>
    case NextBranchOf(before, b) => CloseSets(before, More(b, rest), sets);
  }

  lemma {:induction false} OpenSetsGrow(o: OpenChoice, sets: seq<CharSet>, more: seq<CharSet>)
    requires OpenSetsOk(o, sets) && sets <= more
    ensures OpenSetsOk(o, more)
  {
    SetsGrow(o.branch, sets, more);
    if o.NextBranchOf? {
      OpenSetsGrow(o.before, sets, more);
    }
  }

  /** The place an operator is inserted at is right after `base`. */
  lemma InsertedAt(base: Strip, s: Sop, body: Strip)
    ensures (base + body)[..|base|] + [s] + (base + body)[|base|..] == base + ([s] + body)
  {
  }

  /** Patching the operator right after `base`. */
  lemma PatchedAt(base: Strip, s: Sop, rest: Strip, s': Sop)
    ensures (base + ([s] + rest))[|base| := s'] == base + ([s'] + rest)
  {
  }

  /** Closing a branch: OOR1 after it, and the operator before it patched. */
  lemma BranchClosed(base: Strip, s: Sop, e: Strip, back: nat)
    ensures var t := base + ([s] + e) + [Sop(Or1, back)];
      t[|base| := Sop(s.op, |e| + 2)] == base + Wrap(Sop(s.op, |e| + 2), e, Sop(Or1, back))
  {
    var t := base + ([s] + e) + [Sop(Or1, back)];
    assert t == base + ([s] + (e + [Sop(Or1, back)]));
    PatchedAt(base, s, e + [Sop(Or1, back)], Sop(s.op, |e| + 2));
  }

  /** An empty last branch: OOR2, patched at once, and O_CH. */
  lemma EmptyBranchLast(base: Strip)
    ensures (base + [Sop(Or2, 0)])[|base| := Sop(Or2, 1)] + [Sop(ChoiceClose, 2)]
         == base + EncodeBranches(Last(Skip))
  {
    assert (base + [Sop(Or2, 0)])[|base| := Sop(Or2, 1)] == base + [Sop(Or2, 1)];
    assert EncodeBranches(Last(Skip)) == [Sop(Or2, 1)] + [Sop(ChoiceClose, 2)];
  }

  /** y? is emitted as (y|). */
  ghost function Optional(y: Code): Code {
    Choice(y, Last(Skip))
  }

  lemma OptionalLayout(base: Strip, y: Code)
    ensures base + Wrap(Sop(ChoiceOpen, Size(y) + 2), Encode(y), Sop(Or1, Size(y) + 1)) + EncodeBranches(Last(Skip))
         == base + Encode(Optional(y))
  {
    OptionalEncoded(y);
    AppendAssoc(base, Wrap(Sop(ChoiceOpen, Size(y) + 2), Encode(y), Sop(Or1, Size(y) + 1)), EncodeBranches(Last(Skip)));
  }

  lemma OptionalEncoded(y: Code)
    ensures Encode(Optional(y))
         == Wrap(Sop(ChoiceOpen, Size(y) + 2), Encode(y), Sop(Or1, Size(y) + 1)) + EncodeBranches(Last(Skip))
  {
    hide Encode, EncodeBranches, Wrap;
    ChoiceEncoded(Optional(y));
  }

  /** The code that stands for the words of `l`. */
  ghost function CodeFor(l: Language, sets: seq<CharSet>): iset<Code> {
    iset c: Code | SetsOk(c, sets) && Lang(c) == l
  }

  lemma EmptyFor(sets: seq<CharSet>)
    ensures Skip in CodeFor(Epsilon(), sets)
  {
  }

  lemma OptionalFor(y: Code, l: Language, sets: seq<CharSet>)
    requires y in CodeFor(l, sets)
    ensures Optional(y) in CodeFor(l + Epsilon(), sets)
  {
    var nothing := Last(Skip);
    assert BranchesLang(nothing) == Lang(Skip);
    assert BranchSetsOk(nothing, sets) == SetsOk(Skip, sets);
  }

  lemma ThenFor(x: Code, l: Language, y: Code, k: Language, sets: seq<CharSet>)
    requires x in CodeFor(l, sets) && y in CodeFor(k, sets)
    ensures Then(x, y) in CodeFor(Concat(l, k), sets)
  {
  }

  lemma PairFor(pair: Pair, x: Code, l: Language, sets: seq<CharSet>)
    requires x in CodeFor(l, sets)
    ensures Around(pair, x) in CodeFor(PairLang(pair, l), sets)
  {
  }

  lemma CodeForGrow(x: Code, l: Language, sets: seq<CharSet>, more: seq<CharSet>)
    requires x in CodeFor(l, sets) && sets <= more
    ensures x in CodeFor(l, more)
  {
    SetsGrow(x, sets, more);
  }

  /** The operand is found again inside `(x|)`. */
  lemma OptionalCopy(base: Strip, x: Code, strip: Strip)
    requires strip == base + Encode(Optional(x))
    ensures |base| + 1 + Size(x) <= |strip| && strip[|base| + 1..|base| + 1 + Size(x)] == Encode(x)
  {
    hide Encode, EncodeBranches, Wrap, Optional;
    OptionalEncoded(x);
    CopyBetween(base, Sop(ChoiceOpen, Size(x) + 2), Encode(x), Sop(Or1, Size(x) + 1), EncodeBranches(Last(Skip)), strip, Encode(Optional(x)), Size(x));
  }

  lemma CopyBetween(base: Strip, open: Sop, e: Strip, close: Sop, rest: Strip, strip: Strip, inner: Strip, n: nat)
    requires strip == base + inner && inner == Wrap(open, e, close) + rest && |e| == n
    ensures |base| + 1 + n <= |strip| && strip[|base| + 1..|base| + 1 + n] == e
  {
  }

  lemma AppendAssoc(a: Strip, b: Strip, c: Strip)
    ensures a + (b + c) == a + b + c
  {
  }

  lemma ThenLayout(base: Strip, x: Code, y: Code)
    ensures base + Encode(x) + Encode(y) == base + Encode(Then(x, y))
  {
  }

  /** How far an upper bound has to come down. */
  function Finite(to: int): int {
    if to == INFINITY then 0 else to
  }

  /** The last branch of a choice, patched and closed with O_CH. */
  lemma LastBranchClosed(base: Strip, c: Code)
    ensures (base + ([Sop(Or2, 0)] + Encode(c)))[|base| := Sop(Or2, Size(c) + 1)] + [Sop(ChoiceClose, Size(c) + 2)]
         == base + EncodeBranches(Last(c))
  {
    hide Encode, EncodeBranches, Wrap;
    LastWrapped(base, Sop(Or2, 0), Sop(Or2, Size(c) + 1), Encode(c), Sop(ChoiceClose, Size(c) + 2));
    LastEncoded(Last(c));
  }

  lemma LastWrapped(base: Strip, open: Sop, patched: Sop, e: Strip, close: Sop)
    ensures (base + ([open] + e))[|base| := patched] + [close] == base + Wrap(patched, e, close)
  {
    PatchedAt(base, open, e, patched);
    AppendAssoc(base, [patched] + e, [close]);
  }

  /** The open choices whose branches stand for the words of `l`. */
  ghost function OpenFor(l: Language, sets: seq<CharSet>): iset<OpenChoice> {
    iset o: OpenChoice | OpenSetsOk(o, sets) && OpenLang(o) == l
  }

  lemma CloseFor(o: OpenChoice, l: Language, c: Code, k: Language, sets: seq<CharSet>)
    requires o in OpenFor(l, sets) && c in CodeFor(k, sets)
    ensures Close(o, Last(c)) in CodeFor(l + k, sets)
    ensures Encode(Close(o, Last(c))) == EncodeOpen(o) + EncodeBranches(Last(c))
  {
    CloseMeaning(o, Last(c));
    CloseSets(o, Last(c), sets);
    assert BranchesLang(Last(c)) == Lang(c);
  }

  lemma OpenForGrow(o: OpenChoice, l: Language, sets: seq<CharSet>, more: seq<CharSet>)
    requires o in OpenFor(l, sets) && sets <= more
    ensures o in OpenFor(l, more)
  {
    OpenSetsGrow(o, sets, more);
  }

  // ----- meanings

  lemma StarMeaning(l: Language)
    ensures AtLeastOnce(l) + Epsilon() == Reps(l, 0, INFINITY)
  {
    RepsOptional(l, INFINITY);
  }

  lemma QuestMeaning(l: Language)
    ensures l + Epsilon() == Reps(l, 0, 1)
  {
    RepsOptional(l, 1);
    RepsOnce(l);
  }

  /** An atom with its repetition. */
  lemma ItemMade(a: Atomic, r: Repeat, y: Code, sets: seq<CharSet>)
    requires y in CodeFor(Reps(AtomicLang(a), Least(r), Most(r)), sets)
    ensures y in CodeFor(ItemLang(Item(a, r)), sets)
    ensures ItemText(Item(a, r)) == AtomText(a) + RepeatText(r)
  {
  }

  lemma OnceItem(a: Atomic, x: Code, sets: seq<CharSet>)
    requires x in CodeFor(AtomicLang(a), sets)
    ensures x in CodeFor(ItemLang(Item(a, Once)), sets)
    ensures ItemText(Item(a, Once)) == AtomText(a)
  {
    RepsOnce(AtomicLang(a));
  }

  // ----- character sets

  function With(s: CharSet, c: Byte): CharSet {
    CharSet(s.members + {c}, (s.hash + c) % 256)
  }

  function WithOption(s: CharSet, o: Option<Byte>): (r: CharSet)
    ensures r.members == s.members + OptionSet(o)
  {
    match o
    case None => s
    case Some(c) => With(s, c)
  }

  function Without(s: CharSet, c: Byte): CharSet {
    CharSet(s.members - {c}, (s.hash as int - c) % 256)
  }

  method AddSpan(s: CharSet, low: Byte, high: Byte) returns (r: CharSet)
    ensures r.members == s.members + MemberSet(Span(low, high))
  {
    r := s;
    var i := low as int;
    while i <= high
      invariant low <= i && (low <= high ==> i <= high + 1)
      invariant forall b: Byte :: b in r.members <==> b in s.members || (InSpan(low, high, b) && b < i)
      decreases 256 - i
    {
      r := With(r, i);
      i := i + 1;
    }
    assert forall b: Byte :: b in MemberSet(Span(low, high)) <==> InSpan(low, high, b);
  }

  method Invert(s: CharSet) returns (r: CharSet)
    ensures r.members == set c: Byte | c !in s.members
  {
    r := s;
    var i := 255;
    while i >= 0
      invariant -1 <= i <= 255
      invariant forall b: Byte :: b in r.members <==> (b in s.members) == (b <= i)
    {
      var c: Byte := i;
      r := if c in r.members then Without(r, c) else With(r, c);
      i := i - 1;
    }
  }

  method CountMembers(s: CharSet) returns (n: nat)
    ensures n == |s.members|
  {
    n := 0;
    var i := 0;
    ghost var counted: set<Byte> := {};
    while i < 256
      invariant 0 <= i <= 256
      invariant n == |counted| && forall b: Byte :: b in counted <==> b in s.members && b < i
    {
      var c: Byte := i;
      if c in s.members {
        n := n + 1;
        counted := counted + {c};
      }
      i := i + 1;
    }
    assert counted == s.members;
  }

  /** The first character of a set that has one. */
  method FirstMember(s: CharSet) returns (c: Byte)
    requires |s.members| == 1
    ensures s.members == {c}
  {
    var only :| only in s.members;
    assert s.members == {only} by {
      assert |s.members - {only}| == 0;
    }
    c := 0;
    while c !in s.members
      invariant c <= only
      decreases 256 - c
    {
      c := c + 1;
    }
  }

  lemma MembersAppend(ms: seq<Member>, m: Member)
    ensures MembersText(ms + [m]) == MembersText(ms) + MemberText(m)
    ensures MembersSet(ms + [m]) == MembersSet(ms) + MemberSet(m)
  {
    assert (ms + [m])[..|ms + [m]| - 1] == ms;
  }

  lemma SpanTaken(low: Byte, w: Word, v: Word, high: Byte, r: Word)
    requires w == [DASH] + v && v == [high] + r
    ensures [low] + w == MemberText(Span(low, high)) + r && w[1] == high && w[2..] == r
  {
  }

  // ----- progress of the parser

  /** The pieces of a bracketed list, read one after the other. */
  lemma BracketReads(b: BracketList, ok: bool, r0: Word, r1: Word, r2: Word, r3: Word, r4: Word)
    requires ReadInverted(r0) == (b.inverted, r1) && ReadLead(r1) == (b.lead, r2)
    requires ReadMembers(r2, []) == Outcome(ok, b.members, r3) && ReadDash(r3) == (b.trail, r4)
    ensures ReadBracket(r0) == if ok && r4 != [] && r4[0] == RBRACKET then Some((b, r4[1..])) else None
  {
    hide ReadMembers, ReadInverted, ReadLead, ReadDash;
  }

  /** The closing parenthesis is still to be read. */
  function CloseRead(ok: bool, a: Atomic, rest: Word): Got<Atomic> {
    if ok && rest != [] && rest[0] == RPAREN then Some((a, rest[1..])) else None
  }

  /** What the parser still has to read, and what it has produced. */
  datatype Snapshot = Snapshot(rest: Word, strip: Strip, sets: seq<CharSet>)

  /** The snapshots after reading `text` and emitting `code` for the words of `l`. */
  ghost function After(s: Snapshot, text: Word, code: Code, l: Language): iset<Snapshot> {
    iset t: Snapshot |
      && s.rest == text + t.rest
      && t.strip == s.strip + Encode(code)
      && code in CodeFor(l, t.sets)
      && s.sets <= t.sets
  }

  lemma AfterThen(s: Snapshot, t: Snapshot, u: Snapshot, w1: Word, c1: Code, l1: Language, w2: Word, c2: Code, l2: Language)
    requires t in After(s, w1, c1, l1) && u in After(t, w2, c2, l2)
    ensures u in After(s, w1 + w2, Then(c1, c2), Concat(l1, l2))
  {
    Took(s.rest, w1, t.rest, w2, u.rest);
    ThenLayout(s.strip, c1, c2);
    CodeForGrow(c1, l1, t.sets, u.sets);
    ThenFor(c1, l1, c2, l2, u.sets);
  }

  lemma AfterTimes(s: Snapshot, w: Word, before: Word, a: Atomic, r: Repeat, y: Code, u: Snapshot)
    requires w == AtomText(a) && s.rest == w + before && before == RepeatText(r) + u.rest
    requires u.strip == s.strip + Encode(y) && s.sets <= u.sets
    requires y in CodeFor(Reps(AtomicLang(a), Least(r), Most(r)), u.sets)
    ensures u in After(s, ItemText(Item(a, r)), y, ItemLang(Item(a, r)))
  {
    Took(s.rest, w, before, RepeatText(r), u.rest);
    ItemMade(a, r, y, u.sets);
  }

  lemma AfterNothing(s: Snapshot)
    ensures s in After(s, [], Skip, Epsilon())
  {
    EmptyFor(s.sets);
  }

  /** A parenthesised expression around what was parsed from `t` to `u`. */
  lemma AfterGroup(s: Snapshot, t: Snapshot, u: Snapshot, v: Snapshot, no: nat, w: Word, c: Code, l: Language)
    requires s.rest == [LPAREN] + t.rest && t.strip == s.strip + [Sop(LeftParen, no)] && t.sets == s.sets
    requires u in After(t, w, c, l)
    requires u.rest == [RPAREN] + v.rest && v.strip == u.strip + [Sop(RightParen, no)] && v.sets == u.sets
    ensures v in After(s, [LPAREN] + w + [RPAREN], Around(ParenPair(no), c), l)
  {
    GroupRead(w, t.rest, u.rest, v.rest);
    GroupLayout(s.strip, no, c);
    PairFor(ParenPair(no), c, l, v.sets);
  }

  lemma AfterOrdinary(s: Snapshot, t: Snapshot, w: Word, c: Byte)
    requires s.rest == w + t.rest && t.strip == s.strip + [Sop(Char, c)] && t.sets == s.sets
    ensures t in After(s, w, Single(Literal(c)), Singles({c}))
  {
  }

  lemma AfterAny(s: Snapshot, t: Snapshot)
    requires s.rest == [DOT] + t.rest && t.strip == s.strip + [Sop(Any, 0)] && t.sets == s.sets
    ensures t in After(s, AtomText(Dot), Single(AnyChar), AtomicLang(Dot))
  {
  }

  /** The snapshots after reading `text` and emitting branches that are still
      waiting for another one; its OOR2 is there, with no operand yet. */
  ghost function Opened(s: Snapshot, text: Word, o: OpenChoice, l: Language): iset<Snapshot> {
    iset t: Snapshot |
      && s.rest == text + t.rest
      && t.strip == s.strip + EncodeOpen(o) + [Sop(Or2, 0)]
      && o in OpenFor(l, t.sets)
      && s.sets <= t.sets
  }

  lemma FirstOpened(s: Snapshot, t: Snapshot, sq: Sequence, c: Code, u: Snapshot)
    requires t in After(s, SequenceText(sq), c, SequenceLang(sq)) && t.rest == [BAR] + u.rest && u.sets == t.sets
    requires u.strip == s.strip + EncodeOpen(FirstBranchOf(c)) + [Sop(Or2, 0)]
    ensures u in Opened(s, EreText(Only(sq)) + [BAR], FirstBranchOf(c), EreLang(Only(sq)))
  {
    Took(s.rest, SequenceText(sq), t.rest, [BAR], u.rest);
  }

  lemma NextOpened(s: Snapshot, b: Snapshot, t: Snapshot, left: Ere, o: OpenChoice, sq: Sequence, c: Code, u: Snapshot)
    requires b in Opened(s, EreText(left) + [BAR], o, EreLang(left)) && t in After(b, SequenceText(sq), c, SequenceLang(sq))
    requires t.rest == [BAR] + u.rest && u.sets == t.sets
    requires u.strip == s.strip + EncodeOpen(NextBranchOf(o, c)) + [Sop(Or2, 0)]
    ensures u in Opened(s, EreText(Either(left, sq)) + [BAR], NextBranchOf(o, c), EreLang(Either(left, sq)))
  {
    Took(s.rest, EreText(left) + [BAR], b.rest, SequenceText(sq), t.rest);
    Took(s.rest, EreText(Either(left, sq)), t.rest, [BAR], u.rest);
    OpenForGrow(o, EreLang(left), b.sets, t.sets);
    NextFor(o, EreLang(left), c, SequenceLang(sq), t.sets);
  }

  lemma NextFor(o: OpenChoice, l: Language, c: Code, k: Language, sets: seq<CharSet>)
    requires o in OpenFor(l, sets) && c in CodeFor(k, sets)
    ensures NextBranchOf(o, c) in OpenFor(l + k, sets)
  {
  }

  lemma LastClosed(s: Snapshot, b: Snapshot, t: Snapshot, left: Ere, o: OpenChoice, sq: Sequence, c: Code, u: Snapshot)
    requires b in Opened(s, EreText(left) + [BAR], o, EreLang(left)) && t in After(b, SequenceText(sq), c, SequenceLang(sq))
    requires u.rest == t.rest && u.sets == t.sets
    requires u.strip == s.strip + EncodeOpen(o) + EncodeBranches(Last(c))
    ensures u in After(s, EreText(Either(left, sq)), Close(o, Last(c)), EreLang(Either(left, sq)))
  {
    Took(s.rest, EreText(left) + [BAR], b.rest, SequenceText(sq), t.rest);
    OpenForGrow(o, EreLang(left), b.sets, t.sets);
    CloseFor(o, EreLang(left), c, SequenceLang(sq), t.sets);
    AppendAssoc(s.strip, EncodeOpen(o), EncodeBranches(Last(c)));
  }

  /** The strip of a further branch, seen from before its OOR2. */
  lemma NextBranchStrip(s: Snapshot, b: Snapshot, t: Snapshot, text: Word, l: Language, o: OpenChoice, w: Word, c: Code, k: Language)
    requires b in Opened(s, text, o, l) && t in After(b, w, c, k)
    ensures t.strip == s.strip + EncodeOpen(o) + ([Sop(Or2, 0)] + Encode(c))
  {
    AppendAssoc(s.strip + EncodeOpen(o), [Sop(Or2, 0)], Encode(c));
  }

  ghost function Alternative(first: bool, left: Ere, sq: Sequence): Ere {
    if first then Only(sq) else Either(left, sq)
  }

  /** The snapshots in front of a branch: the first one, or a further one with
      `left` read, `o` open, and the places that still need an operand known. */
  ghost function InFront(s: Snapshot, first: bool, left: Ere, o: OpenChoice, fwd: nat, back: nat): iset<Snapshot> {
    iset t: Snapshot |
      if first then t == s
      else t in Opened(s, EreText(left) + [BAR], o, EreLang(left)) && OpenEndsAt(s, o, fwd, back)
  }

  ghost predicate OpenEndsAt(s: Snapshot, o: OpenChoice, fwd: nat, back: nat) {
    fwd == |s.strip| + |EncodeOpen(o)| && back == fwd - 1
  }

  lemma GroupLayout(base: Strip, no: nat, x: Code)
    ensures base + [Sop(LeftParen, no)] + Encode(x) + [Sop(RightParen, no)] == base + Encode(Around(ParenPair(no), x))
  {
  }

  lemma GroupRead(w: Word, r0: Word, r1: Word, r2: Word)
    requires r0 == w + r1 && r1 == [RPAREN] + r2
    ensures [LPAREN] + r0 == [LPAREN] + w + [RPAREN] + r2
  {
    Took([LPAREN] + r0, [LPAREN], r0, w, r1);
    Took([LPAREN] + r0, [LPAREN] + w, r1, [RPAREN], r2);
  }

  /** The digits a count of `v` may be written as. */
  ghost function Numerals(v: int): iset<Word> {
    iset d: Word | AllDigits(d) && DecimalValue(d) == v
  }

  lemma NumeralAppend(d: Word, v: int, c: Byte)
    requires d in Numerals(v) && IsDigit(c)
    ensures d + [c] in Numerals(v * 10 + (c as int - 48))
  {
    assert (d + [c])[..|d + [c]| - 1] == d;
  }

  ghost function Counts(v: int): iset<Word> {
    iset d: Word | CountOk(d) && DecimalValue(d) == v
  }

  lemma NumeralCounts(d: Word, v: int)
    requires d in Numerals(v) && d != [] && v <= DUPMAX
    ensures d in Counts(v)
  {
  }

  lemma CountsBounded(d: Word, v: int)
    requires d in Counts(v)
    ensures 0 <= v <= DUPMAX
  {
    DecimalNotNegative(d);
  }

  lemma {:induction false} DecimalNotNegative(d: Word)
    requires AllDigits(d)
    ensures DecimalValue(d) >= 0
    decreases |d|
  {
    if d != [] {
      DecimalNotNegative(d[..|d| - 1]);
    }
  }

  class Parser {
    /** The expression, followed by NULs. */
    const text: Word
    var next: nat
    var end: nat
    ghost var rest: Word
    var error: ParseError
    var strip: Strip
    var sets: seq<CharSet>
    var nsub: nat

    constructor (pattern: Word)
      ensures Valid() && error == NoError && nsub == 0
      ensures Now() == Snapshot(pattern, [], [])
    {
      text := pattern + [0, 0];
      next, end, rest := 0, |pattern|, pattern;
      error := NoError;
      strip, sets, nsub := [], [], 0;
    }

    // ----- emitting

    method Emit(op: Op, opnd: nat)
      modifies this`strip
      ensures strip == if error != NoError then old(strip) else old(strip) + [Sop(op, opnd)]
    {
      if error != NoError {
        return;
      }
      strip := strip + [Sop(op, opnd)];
    }

    /** Insert an operator in front of everything from `pos` on.  Its operand is
        the distance to one beyond the current end. */
    method Insert(op: Op, pos: nat)
      requires pos <= |strip|
      modifies this`strip
      ensures strip == if error != NoError then old(strip) else old(strip[..pos] + [Sop(op, |strip| - pos + 1)] + strip[pos..])
    {
      if error != NoError {
        return;
      }
      var sn := |strip|;
      Emit(op, sn - pos + 1);
      var s := strip[sn];
      strip := strip[..pos] + [s] + strip[pos..sn];
    }

    /** Emit an operator that points back to `pos`. */
    method Astern(op: Op, pos: nat)
      requires error == NoError ==> pos <= |strip|
      modifies this`strip
      ensures strip == if error != NoError then old(strip) else old(strip + [Sop(op, |strip| - pos)])
    {
      if error != NoError {
        return;
      }
      Emit(op, |strip| - pos);
    }

    /** Complete a forward reference from `pos` to the current end. */
    method Ahead(pos: nat)
      requires error == NoError ==> pos < |strip|
      modifies this`strip
      ensures strip == if error != NoError then old(strip) else old(strip[pos := Sop(strip[pos].op, |strip| - pos)])
    {
      if error != NoError {
        return;
      }
      strip := strip[pos := Sop(strip[pos].op, |strip| - pos)];
    }

    method Duplicate(start: nat, finish: nat) returns (ret: nat)
      requires start <= finish <= |strip|
      modifies this`strip
      ensures ret == |old(strip)| && strip == old(strip + strip[start..finish])
    {
      ret := |strip|;
      if finish == start {
        return;
      }
      strip := strip + strip[start..finish];
    }

    /** End a branch: OOR1 pointing back to `prevback`, and the operator in front
        of the branch, at `prevfwd`, pointing just after that. */
    method CloseBranch(prevfwd: nat, prevback: nat, ghost base: Strip, ghost s: Sop, ghost e: Strip)
      requires error == NoError && strip == base + ([s] + e) && prevfwd == |base| && prevback <= |strip|
      modifies this`strip
      ensures strip == base + Wrap(Sop(s.op, |e| + 2), e, Sop(Or1, |base| + 1 + |e| - prevback))
    {
      BranchClosed(base, s, e, |strip| - prevback);
      Astern(Or1, prevback);
      Ahead(prevfwd);
    }

    /** The empty last branch of `(y|)`. */
    method EmptyLastBranch()
      requires error == NoError && |strip| >= 1
      modifies this`strip
      ensures strip == old(strip) + EncodeBranches(Last(Skip))
    {
      EmptyBranchLast(strip);
      Emit(Or2, 0);
      Ahead(|strip| - 1);
      Astern(ChoiceClose, |strip| - 2);
    }

    /** The rest of `(y|)`, with the OCH_ and y in place. */
    method FinishOptional(start: nat, ghost base: Strip, ghost n: nat, ghost y: Code)
      requires error == NoError && start == |base| && strip == base + ([Sop(ChoiceOpen, n)] + Encode(y))
      modifies this`strip
      ensures strip == base + Encode(Optional(y))
    {
      CloseBranch(start, start, base, Sop(ChoiceOpen, n), Encode(y));
      EmptyLastBranch();
      OptionalLayout(base, y);
    }

    /** Bounded repetition of the operand from `start` on. */
    method Repetition(start: nat, from: int, to: int, ghost base: Strip, ghost x: Code, ghost l: Language)
      returns (ghost y: Code)
      requires start == |base| && start <= |strip|
      requires error == NoError ==> strip == base + Encode(x) && x in CodeFor(l, sets)
      requires error == NoError ==> 0 <= from <= to <= INFINITY && from <= DUPMAX
      modifies this`strip
      ensures error == NoError ==> strip == base + Encode(y) && y in CodeFor(Reps(l, from, to), sets)
      ensures error == NoError && Size(x) > 0 ==> (Size(y) > 0 <==> to > 0)
      decreases from == 0, from + Finite(to), 1
    {
      y := x;
      if error != NoError {
        return;
      }
      if from == 0 && to == 0 {
        strip := strip[..start];
        y := Skip;
        EmptyFor(sets);
        RepsNone(l);
      } else if from == 0 {
        y := RepeatFromZero(start, to, base, x, l);
      } else if from == 1 && to == 1 {
        RepsOnce(l);
      } else if from == 1 && to == INFINITY {
        y := Loop(start, base, x, l);
      } else if from == 1 {
        y := RepeatOneToMany(start, to, base, x, l);
      } else {
        y := RepeatMany(start, from, to, base, x, l);
      }
    }

    /** Put a loop around the operand. */
    method Loop(start: nat, ghost base: Strip, ghost x: Code, ghost l: Language) returns (ghost y: Code)
      requires error == NoError && start == |base| && strip == base + Encode(x) && x in CodeFor(l, sets)
      modifies this`strip
      ensures strip == base + Encode(y) && y in CodeFor(AtLeastOnce(l), sets) && Size(y) > 0
    {
      InsertedAt(base, Sop(PlusOpen, |strip| - start + 1), Encode(x));
      Insert(PlusOpen, start);
      Astern(PlusClose, start);
      y := Around(PlusPair, x);
      PairFor(PlusPair, x, l, sets);
      assert strip == base + Encode(y);
    }

    /** x{0,n} as (x{1,n}|). */
    method RepeatFromZero(start: nat, to: int, ghost base: Strip, ghost x: Code, ghost l: Language) returns (ghost y: Code)
      requires error == NoError && start == |base| && strip == base + Encode(x) && x in CodeFor(l, sets)
      requires 1 <= to <= INFINITY
      modifies this`strip
      ensures strip == base + Encode(y) && y in CodeFor(Reps(l, 0, to), sets) && Size(y) > 0
      decreases true, Finite(to), 0
    {
      ghost var n := |strip| - start + 1;
      InsertedAt(base, Sop(ChoiceOpen, n), Encode(x));
      Insert(ChoiceOpen, start);
      AppendAssoc(base, [Sop(ChoiceOpen, n)], Encode(x));
      y := Repetition(start + 1, 1, to, base + [Sop(ChoiceOpen, n)], x, l);
      AppendAssoc(base, [Sop(ChoiceOpen, n)], Encode(y));
      FinishOptional(start, base, n, y);
      OptionalFor(y, Reps(l, 1, to), sets);
      RepsOptional(l, to);
      y := Optional(y);
    }

    /** x{1,n} as (x|)x{1,n-1}. */
    method RepeatOneToMany(start: nat, to: int, ghost base: Strip, ghost x: Code, ghost l: Language) returns (ghost y: Code)
      requires error == NoError && start == |base| && strip == base + Encode(x) && x in CodeFor(l, sets)
      requires 2 <= to < INFINITY
      modifies this`strip
      ensures strip == base + Encode(y) && y in CodeFor(Reps(l, 1, to), sets) && Size(y) > 0
      decreases false, 1 + Finite(to), 0
    {
      var finish := |strip|;
      InsertedAt(base, Sop(ChoiceOpen, finish - start + 1), Encode(x));
      Insert(ChoiceOpen, start);
      FinishOptional(start, base, finish - start + 1, x);
      OptionalCopy(base, x, strip);
      var copy := Duplicate(start + 1, finish + 1);
      y := Repetition(copy, 1, to - 1, base + Encode(Optional(x)), x, l);
      ThenLayout(base, Optional(x), y);
      OptionalFor(x, l, sets);
      ThenFor(Optional(x), l + Epsilon(), y, Reps(l, 1, to - 1), sets);
      RepsOneToMany(l, to);
      y := Then(Optional(x), y);
    }

    /** x{m,n} as x x{m-1,n-1}. */
    method RepeatMany(start: nat, from: int, to: int, ghost base: Strip, ghost x: Code, ghost l: Language)
      returns (ghost y: Code)
      requires error == NoError && start == |base| && strip == base + Encode(x) && x in CodeFor(l, sets)
      requires 2 <= from <= to <= INFINITY && from <= DUPMAX
      modifies this`strip
      ensures strip == base + Encode(y) && y in CodeFor(Reps(l, from, to), sets) && (Size(x) > 0 ==> Size(y) > 0)
      decreases false, from + Finite(to), 0
    {
      assert strip[start..|strip|] == Encode(x);
      var copy := Duplicate(start, |strip|);
      y := Repetition(copy, from - 1, OneLess(to), base + Encode(x), x, l);
      ThenLayout(base, x, y);
      ThenFor(x, l, y, Reps(l, from - 1, OneLess(to)), sets);
      RepsUnroll(l, from, to);
      y := Then(x, y);
    }

    // ----- scanning

    /** After an error the scanner is among the NULs, with nothing left to read,
        and may have taken one of them. */
    ghost predicate Valid()
      reads this
    {
      && next <= end + 1 < |text|
      && (error != NoError ==> rest == [])
      && rest == if next < end then text[next..end] else []
    }

    predicate More()
      requires Valid()
      reads this
      ensures More() <==> rest != []
    {
      next < end
    }

    predicate More2()
      requires Valid()
      reads this
      ensures More2() <==> |rest| >= 2
    {
      next + 1 < end
    }

    function Peek(): (c: Byte)
      requires Valid() && More()
      reads this
      ensures c == rest[0]
    {
      text[next]
    }

    function Peek2(): (c: Byte)
      requires Valid() && More2()
      reads this
      ensures c == rest[1]
    {
      text[next + 1]
    }

    predicate See(c: Byte)
      requires Valid()
      reads this
    {
      More() && Peek() == c
    }

    predicate SeeTwo(a: Byte, b: Byte)
      requires Valid()
      reads this
    {
      More2() && Peek() == a && Peek2() == b
    }

    method GetNext() returns (c: Byte)
      requires Valid() && next <= end
      modifies this`next, this`rest
      ensures Valid()
      ensures if old(rest) == [] then rest == [] else old(rest) == [c] + rest
    {
      c := text[next];
      next := next + 1;
      rest := if rest == [] then [] else rest[1..];
    }

    method Eat(c: Byte) returns (ate: bool)
      requires Valid()
      modifies this`next, this`rest
      ensures Valid()
      ensures ate == old(rest != [] && rest[0] == c)
      ensures old(rest) == (if ate then [c] else []) + rest
      ensures !ate ==> rest == old(rest)
    {
      ate := See(c);
      if ate {
        next := next + 1;
        rest := rest[1..];
      }
    }

    /** Keep the earliest error, and bring the scanner to a halt. */
    method SetError(e: ParseError)
      requires Valid() && e != NoError
      modifies this`next, this`end, this`error, this`rest
      ensures Valid() && next == end && rest == []
      ensures error == if old(error) == NoError then e else old(error)
    {
      if error == NoError {
        error := e;
      }
      end := |text| - 2;
      next := end;
      rest := [];
    }

    method Require(condition: bool, e: ParseError)
      requires Valid() && e != NoError
      modifies this`next, this`end, this`error, this`rest
      ensures Valid()
      ensures condition ==> error == old(error) && rest == old(rest)
      ensures !condition ==> error != NoError && next == end && rest == []
    {
      if !condition {
        SetError(e);
      }
    }

    // ----- parsing

    /** A repetition count. */
    method Count() returns (count: int, ghost digits: Word)
      requires Valid()
      modifies this`next, this`end, this`error, this`rest
      ensures Valid()
      ensures error == NoError ==> old(error) == NoError && old(rest) == digits + rest && digits in Counts(count)
      ensures old(error) == NoError ==> ReadDigits(old(rest), []) == Outcome(error == NoError, digits, rest)
    {
      count := 0;
      var ndigits := 0;
      digits := [];
      while More() && IsDigit(Peek()) && count <= DUPMAX
        invariant Valid() && error == old(error)
        invariant old(rest) == digits + rest
        invariant ndigits == |digits| && digits in Numerals(count)
        invariant ReadDigits(old(rest), []) == ReadDigits(rest, digits)
        decreases |rest|
      {
        ghost var before := rest;
        var c := GetNext();
        Took(old(rest), digits, before, [c], rest);
        NumeralAppend(digits, count, c);
        count := count * 10 + (c as int - 48);
        ndigits := ndigits + 1;
        digits := digits + [c];
      }
      if ndigits > 0 && count <= DUPMAX {
        NumeralCounts(digits, count);
      }
      Require(ndigits > 0 && count <= DUPMAX, BadBrace);
    }

    /** One term of a bracketed list, added to the set under construction. */
    method BracketTerm(cs: CharSet) returns (r: CharSet, ghost m: Member)
      requires Valid() && error == NoError && More() && Peek() != RBRACKET
      modifies this`next, this`end, this`error, this`rest
      ensures Valid() && |rest| < |old(rest)|
      ensures error == NoError ==> old(rest) == MemberText(m) + rest
      ensures ReadMember(old(rest)) == Outcome(error == NoError, m, rest)
      ensures error == NoError ==> r.members == cs.members + MemberSet(m)
    {
      r, m := cs, Lone(0);
      if Peek() == DASH {
        SetError(BadRange);
        return;
      }
      if SeeTwo(LBRACKET, COLON) || SeeTwo(LBRACKET, EQUALS) || SeeTwo(LBRACKET, DOT) {
        SetError(Unmodelled);
        return;
      }
      var start := GetNext();
      if See(DASH) && More2() && Peek2() != RBRACKET {
        r, m := SpanFrom(cs, start);
      } else {
        m := Lone(start);
        r := AddSpan(cs, start, start);
        assert MemberSet(Span(start, start)) == {start};
      }
    }

    /** The rest of a range whose first character has been read. */
    method SpanFrom(cs: CharSet, start: Byte) returns (r: CharSet, ghost m: Member)
      requires Valid() && error == NoError && |rest| >= 2 && rest[0] == DASH && rest[1] != RBRACKET
      requires start != DASH && start != RBRACKET
      modifies this`next, this`end, this`error, this`rest
      ensures Valid() && |rest| < |old(rest)| && m.Span?
      ensures error == NoError ==> [start] + old(rest) == MemberText(m) + rest
      ensures ReadSpan(start, old(rest)) == Outcome(error == NoError, m, rest)
      ensures error == NoError ==> r.members == cs.members + MemberSet(m)
    {
      hide MemberSet, MemberText;
      r, m := cs, Span(start, start);
      var dash := GetNext();
      if SeeTwo(LBRACKET, DOT) {
        SetError(Unmodelled);
        return;
      }
      ghost var before := rest;
      var finish := GetNext();
      m := Span(start, finish);
      SpanTaken(start, old(rest), before, finish, rest);
      Require(start <= finish, BadRange);
      r := AddSpan(cs, start, finish);
    }

    /** The members of a bracketed list, up to its end or a dash at its end. */
    method BracketMembers(cs: CharSet) returns (r: CharSet, ghost ms: seq<Member>)
      requires Valid()
      modifies this`next, this`end, this`error, this`rest
      ensures Valid()
      ensures error == NoError ==> old(error) == NoError && old(rest) == MembersText(ms) + rest
      ensures old(error) == NoError ==> ReadMembers(old(rest), []) == Outcome(error == NoError, ms, rest)
      ensures error == NoError ==> r.members == cs.members + MembersSet(ms)
    {
      r, ms := cs, [];
      assert MembersText([]) == [] && MembersSet([]) == {};
      hide ReadMember, MemberText, MembersText, MembersSet, MemberSet;
      while More() && Peek() != RBRACKET && !SeeTwo(DASH, RBRACKET)
        invariant Valid() && (error == NoError ==> old(error) == NoError)
        invariant error == NoError ==> old(rest) == MembersText(ms) + rest
        invariant old(error) == NoError ==>
          ReadMembers(old(rest), []) == if error == NoError then ReadMembers(rest, ms) else None
        invariant error == NoError ==> r.members == cs.members + MembersSet(ms)
        decreases |rest|
      {
        ghost var m;
        ghost var before := rest;
        r, m := BracketTerm(r);
        if error == NoError {
          Took(old(rest), MembersText(ms), before, MemberText(m), rest);
        }
        MembersAppend(ms, m);
        ms := ms + [m];
      }
    }

    /** freezeset: give the set a number, that of an equal set if there is one.
        The set is the last one and goes away again if it is not needed. */
    method FreezeSet() returns (no: nat)
      requires sets != []
      modifies this`sets
      ensures old(sets)[..|old(sets)| - 1] <= sets
      ensures no < |sets| && sets[no].members == old(sets)[|old(sets)| - 1].members
    {
      var last := |sets| - 1;
      var cs := sets[last];
      no := 0;
      while no < last && !(sets[no].hash == cs.hash && sets[no].members == cs.members)
        invariant no <= last
      {
        no := no + 1;
      }
      if no < last {
        sets := sets[..last];
      }
    }

    /** Emit the set under construction, which is the last one: a set of one
        character as that character. */
    method EmitSet(ghost base: seq<CharSet>) returns (ghost code: Code)
      requires error == NoError && sets != [] && base == sets[..|sets| - 1]
      modifies this`sets, this`strip
      ensures strip == old(strip) + Encode(code) && base <= sets
      ensures code in CodeFor(Singles(old(sets)[|old(sets)| - 1].members), sets) && Size(code) > 0
    {
      var cs := sets[|sets| - 1];
      var n := CountMembers(cs);
      if n == 1 {
        var c := FirstMember(cs);
        Emit(Char, c);
        sets := sets[..|sets| - 1];
        code := Single(Literal(c));
      } else {
        var no := FreezeSet();
        Emit(AnyOf, no);
        code := Single(InSet(no, cs.members));
      }
    }

    /** A bracket or a dash that stands for itself because it comes first. */
    method BracketLead() returns (lead: Option<Byte>)
      requires Valid()
      modifies this`next, this`rest
      ensures Valid() && old(rest) == OptionText(lead) + rest
      ensures (lead, rest) == ReadLead(old(rest))
    {
      var ate := Eat(RBRACKET);
      if ate {
        return Some(RBRACKET);
      }
      lead := OptionalDash();
    }

    method OptionalDash() returns (dash: Option<Byte>)
      requires Valid()
      modifies this`next, this`rest
      ensures Valid() && old(rest) == OptionText(dash) + rest
      ensures (dash, rest) == ReadDash(old(rest))
    {
      var ate := Eat(DASH);
      dash := if ate then Some(DASH) else None;
    }

    /** A bracketed list, after its opening bracket. */
    method Bracketed() returns (ghost b: BracketList, ghost code: Code)
      requires Valid() && error == NoError
      modifies this`next, this`end, this`error, this`rest, this`sets, this`strip
      ensures Valid()
      ensures error == NoError ==> Size(code) > 0
      ensures ReadBracket(old(rest)) == Outcome(error == NoError, b, rest)
      ensures error == NoError ==> Now() in After(old(Unread(LBRACKET)), BracketText(b), code, Singles(BracketSet(b)))
    {
      sets := sets + [CharSet({}, 0)];
      var inverted, cs;
      b, inverted, cs := BracketBody();
      code := Skip;
      if error != NoError {
        sets := sets[..|sets| - 1];
        return;
      }
      if inverted {
        cs := Invert(cs);
      }
      sets := sets[..|sets| - 1] + [cs];
      assert sets[..|sets| - 1] == old(sets);
      code := EmitSet(old(sets));
    }

    /** What is written in a bracketed list, and the set it lists. */
    method BracketBody() returns (ghost b: BracketList, inverted: bool, cs: CharSet)
      requires Valid() && error == NoError
      modifies this`next, this`end, this`error, this`rest
      ensures Valid()
      ensures error == NoError ==> [LBRACKET] + old(rest) == BracketText(b) + rest
      ensures error == NoError ==> cs.members == ListedSet(b) && inverted == b.inverted
      ensures ReadBracket(old(rest)) == Outcome(error == NoError, b, rest)
    {
      hide ReadBracket, ReadMembers, MembersText, ReadLead, ReadDash, OptionText, BracketText, MembersSet, OptionSet, WithOption;
      ghost var r0 := rest;
      inverted := Eat(CARET);
      ghost var r1 := rest;
      var lead := BracketLead();
      ghost var r2 := rest;
      cs := WithOption(CharSet({}, 0), lead);
      assert cs.members == OptionSet(lead);
      ghost var ms;
      cs, ms := BracketMembers(cs);
      ghost var r3 := rest;
      var trail := OptionalDash();
      cs := WithOption(cs, trail);
      ghost var r4 := rest;
      b := BracketList(inverted, lead, ms, trail);
      BracketReads(b, error == NoError, r0, r1, r2, r3, r4);
      var closed := Eat(RBRACKET);
      if error == NoError && closed {
        BracketPieces(b, r0, r1, r2, r3, r4, rest);
      }
      Require(closed, BadBracket);
    }

    /** A bypass around the operand. */
    method Bypass(start: nat, ghost base: Strip, ghost x: Code, ghost l: Language) returns (ghost y: Code)
      requires error == NoError && start == |base| && strip == base + Encode(x) && x in CodeFor(l, sets)
      modifies this`strip
      ensures strip == base + Encode(y) && y in CodeFor(l + Epsilon(), sets) && Size(y) > 0
    {
      InsertedAt(base, Sop(QuestOpen, |strip| - start + 1), Encode(x));
      Insert(QuestOpen, start);
      Astern(QuestClose, start);
      y := Around(QuestPair, x);
      PairFor(QuestPair, x, l, sets);
      assert strip == base + Encode(y);
    }

    /** A counted repetition, after its opening brace. */
    method Counted(start: nat, ghost base: Strip, ghost x: Code, ghost l: Language) returns (ghost r: Repeat, ghost y: Code)
      requires Valid() && error == NoError
      requires start == |base| && strip == base + Encode(x) && x in CodeFor(l, sets)
      modifies this`next, this`end, this`error, this`rest, this`strip
      ensures Valid()
      ensures error == NoError ==> [LBRACE] + old(rest) == RepeatText(r) + rest
      ensures ReadCounted(old(rest)) == Outcome(error == NoError, r, rest)
      ensures error == NoError && Size(x) > 0 ==> (Size(y) > 0 <==> Most(r) > 0)
      ensures error == NoError ==> strip == base + Encode(y) && y in CodeFor(Reps(l, Least(r), Most(r)), sets)
    {
      var count, count2;
      count, count2, r := Bounds();
      ghost var before := rest;
      y := Repetition(start, count, count2, base, x, l);
      var ate := Eat(RBRACE);
      if error == NoError {
        Took([LBRACE] + old(rest), BoundsText(r), before, if ate then [RBRACE] else [], rest);
      }
      if !ate {
        while More() && Peek() != RBRACE
          invariant Valid()
          decreases |rest|
        {
          var c := GetNext();
        }
        Require(More(), UnclosedBrace);
        SetError(BadBrace);
      }
    }

    /** The bounds of a counted repetition. */
    method Bounds() returns (count: int, count2: int, ghost r: Repeat)
      requires Valid()
      modifies this`next, this`end, this`error, this`rest
      ensures Valid()
      ensures error == NoError ==> old(error) == NoError && IsCounted(r)
      ensures old(error) == NoError ==> ReadBounds(old(rest)) == Outcome(error == NoError, r, rest)
      ensures error == NoError ==> 0 <= count == Least(r) <= DUPMAX && count <= count2 == Most(r) <= INFINITY
      ensures error == NoError ==> [LBRACE] + old(rest) == BoundsText(r) + rest
    {
      hide ReadDigits, ReadUpper, DecimalValue;
      ghost var all, min := [LBRACE] + rest, [];
      ghost var r0 := rest;
      count, min := Count();
      r := Exactly(min);
      count2 := count;
      if error == NoError {
        CountsBounded(min, count);
        Took(all, [LBRACE], r0, min, rest);
      }
      ghost var r1 := rest;
      var ate := Eat(COMMA);
      if ate {
        Took(all, [LBRACE] + min, r1, [COMMA], rest);
        count2, r := UpperBound(count, min);
      }
    }

    /** The upper bound after the comma. */
    method UpperBound(count: int, ghost min: Word) returns (count2: int, ghost r: Repeat)
      requires Valid() && error == NoError && min in Counts(count)
      modifies this`next, this`end, this`error, this`rest
      ensures Valid()
      ensures error == NoError ==> IsCounted(r)
      ensures ReadUpper(old(rest), min) == Outcome(error == NoError, r, rest)
      ensures error == NoError ==> count == Least(r) && count <= count2 == Most(r) <= INFINITY
      ensures error == NoError ==> [LBRACE] + min + [COMMA] + old(rest) == BoundsText(r) + rest
    {
      hide ReadDigits, DecimalValue;
      CountsBounded(min, count);
      if More() && IsDigit(Peek()) {
        ghost var max;
        ghost var before := rest;
        count2, max := Count();
        Require(count <= count2, BadBrace);
        r := Between(min, max);
        if error == NoError {
          CountsBounded(max, count2);
          Took([LBRACE] + min + [COMMA] + before, [LBRACE] + min + [COMMA], before, max, rest);
        }
      } else {
        count2 := INFINITY;
        r := AtLeast(min);
      }
    }

    /** The repetition operator `c`, which has been read, applied to the operand
        from `start` on. */
    method Times(c: Byte, start: nat, ghost base: Strip, ghost x: Code, ghost l: Language) returns (ghost r: Repeat, ghost y: Code)
      requires Valid() && error == NoError && (c == STAR || c == PLUS || c == QUEST || c == LBRACE)
      requires start == |base| && strip == base + Encode(x) && x in CodeFor(l, sets)
      modifies this`next, this`end, this`error, this`rest, this`strip
      ensures Valid()
      ensures error == NoError ==> [c] + old(rest) == RepeatText(r) + rest
      ensures ReadRepeat(c, old(rest)) == Outcome(error == NoError, r, rest)
      ensures error == NoError && Size(x) > 0 ==> (Size(y) > 0 <==> Most(r) > 0)
      ensures error == NoError ==> strip == base + Encode(y) && y in CodeFor(Reps(l, Least(r), Most(r)), sets)
    {
      hide CodeFor, Encode, ReadCounted, BoundsText, DecimalValue;
      if c == STAR {
        r := Star;
        y := Loop(start, base, x, l);
        y := Bypass(start, base, y, AtLeastOnce(l));
        StarMeaning(l);
      } else if c == PLUS {
        r := Plus;
        y := Loop(start, base, x, l);
      } else if c == QUEST {
        r := Quest;
        InsertedAt(base, Sop(ChoiceOpen, |strip| - start + 1), Encode(x));
        Insert(ChoiceOpen, start);
        FinishOptional(start, base, |strip| - start, x);
        y := Optional(x);
        OptionalFor(x, l, sets);
        QuestMeaning(l);
      } else {
        r, y := Counted(start, base, x, l);
      }
    }

    /** Whether a repetition operator comes next. */
    predicate SeeRepeat()
      requires Valid()
      reads this
      ensures SeeRepeat() <==> StartsRepeat(rest)
    {
      More() && (Peek() == STAR || Peek() == PLUS || Peek() == QUEST || (Peek() == LBRACE && More2() && IsDigit(Peek2())))
    }

    ghost function Now(): Snapshot
      reads this
    {
      Snapshot(rest, strip, sets)
    }

    /** The state before the character `c` was read. */
    ghost function Unread(c: Byte): Snapshot
      reads this
    {
      Snapshot([c] + rest, strip, sets)
    }

    /** One atom, possibly followed by a repetition operator. */
    method Expression() returns (ghost item: Item, ghost code: Code)
      requires Valid() && error == NoError && More()
      modifies this
      ensures Valid() && (error == NoError ==> |rest| < |old(rest)|)
      ensures error == NoError ==> Now() in After(old(Now()), ItemText(item), code, ItemLang(item))
      ensures ReadItem(old(rest)) == Outcome(error == NoError, item, rest)
      ensures error == NoError ==> (Size(code) > 0 <==> Emits(item))
      decreases |rest|, 0
    {
      var pos := |strip|;
      ghost var s := Now();
      var c := GetNext();
      assert Unread(c) == s;
      ghost var a;
      a, code := Atom(c);
      item := Item(a, Once);
      if error == NoError {
        item, code := Postfix(pos, s, a, code);
      }
    }

    /** The repetition operator after an atom, if there is one. */
    method Postfix(pos: nat, ghost s: Snapshot, ghost a: Atomic, ghost x: Code) returns (ghost item: Item, ghost code: Code)
      requires Valid() && error == NoError && pos == |s.strip|
      requires Now() in After(s, AtomText(a), x, AtomicLang(a)) && Size(x) > 0
      modifies this`next, this`end, this`error, this`rest, this`strip
      ensures Valid() && (error == NoError ==> |rest| <= |old(rest)|)
      ensures error == NoError ==> Now() in After(s, ItemText(item), code, ItemLang(item))
      ensures ReadPostfix(a, old(rest)) == Outcome(error == NoError, item, rest)
      ensures error == NoError ==> (Size(code) > 0 <==> Emits(item))
    {
      item, code := Item(a, Once), x;
      OnceItem(a, x, sets);
      if !SeeRepeat() {
        return;
      }
      ghost var before := rest;
      var c := GetNext();
      ghost var r;
      r, code := Times(c, pos, s.strip, x, AtomicLang(a));
      item := Item(a, r);
      if error == NoError {
        AfterTimes(s, AtomText(a), before, a, r, code, Now());
      }
      if SeeRepeat() {
        SetError(BadRepeat);
      }
    }

    /** The atom that begins with `c`, which has been read. */
    method Atom(c: Byte) returns (ghost a: Atomic, ghost code: Code)
      requires Valid() && error == NoError
      modifies this
      ensures Valid()
      ensures error == NoError ==> Now() in After(old(Unread(c)), AtomText(a), code, AtomicLang(a)) && Size(code) > 0
      ensures ReadAtom(c, old(rest)) == Outcome(error == NoError, a, rest)
      decreases |rest|, 7
    {
      hide ReadBracket, ReadGroup, BracketText, EreText, EreLang, BracketSet, CodeFor;
      a, code := Dot, Skip;
      ghost var s := Unread(c);
      if c == LPAREN {
        a, code := GroupAtom();
      } else if c == RPAREN {
        SetError(BadParen);
      } else if c == CARET || c == DOLLAR {
        SetError(Unmodelled);
      } else if c == BAR {
        SetError(EmptyBranch);
      } else if c == STAR || c == PLUS || c == QUEST {
        SetError(BadRepeat);
      } else if c == DOT {
        Emit(Any, 0);
        code := Single(AnyChar);
        AfterAny(s, Now());
      } else if c == LBRACKET {
        ghost var b;
        b, code := Bracketed();
        a := Bracket(b);
      } else if c == BACKSLASH {
        a, code := EscapedAtom();
      } else {
        a, code := PlainAtom(c);
      }
    }

    method EscapedAtom() returns (ghost a: Atomic, ghost code: Code)
      requires Valid() && error == NoError
      modifies this`next, this`end, this`error, this`rest, this`strip
      ensures Valid()
      ensures error == NoError ==> Now() in After(old(Unread(BACKSLASH)), AtomText(a), code, AtomicLang(a)) && Size(code) > 0
      ensures ReadAtom(BACKSLASH, old(rest)) == Outcome(error == NoError, a, rest)
    {
      ghost var s := Unread(BACKSLASH);
      Require(More(), BadEscape);
      ghost var before := rest;
      var d := GetNext();
      a := Escaped(d);
      if error == NoError {
        Took(s.rest, [BACKSLASH], before, [d], rest);
        assert [BACKSLASH] + [d] == [BACKSLASH, d];
      }
      code := Ordinary(s, [BACKSLASH, d], d);
    }

    method PlainAtom(c: Byte) returns (ghost a: Atomic, ghost code: Code)
      requires Valid() && error == NoError && !IsSpecial(c)
      modifies this`next, this`end, this`error, this`rest, this`strip
      ensures Valid()
      ensures error == NoError ==> Now() in After(old(Unread(c)), AtomText(a), code, AtomicLang(a)) && Size(code) > 0
      ensures ReadAtom(c, old(rest)) == Outcome(error == NoError, a, rest)
    {
      ghost var s := Unread(c);
      if c == LBRACE {
        Require(!More() || !IsDigit(Peek()), BadRepeat);
      }
      a := Plain(c);
      code := Ordinary(s, [c], c);
    }

    /** A character that stands for itself, written as `w`. */
    method Ordinary(ghost s: Snapshot, ghost w: Word, c: Byte) returns (ghost code: Code)
      requires error == NoError ==> s == Snapshot(w + rest, strip, sets)
      modifies this`strip
      ensures error == NoError ==> Now() in After(s, w, code, Singles({c}))
      ensures Size(code) > 0
    {
      Emit(Char, c);
      code := Single(Literal(c));
      if error == NoError {
        AfterOrdinary(s, Now(), w, c);
      }
    }

    /** A parenthesised subexpression, after its opening parenthesis. */
    method GroupAtom() returns (ghost a: Atomic, ghost code: Code)
      requires Valid() && error == NoError
      modifies this
      ensures Valid()
      ensures error == NoError ==> Now() in After(old(Unread(LPAREN)), AtomText(a), code, AtomicLang(a)) && Size(code) > 0
      ensures ReadGroup(old(rest)) == Outcome(error == NoError, a, rest)
      decreases |rest|, 6
    {
      ghost var s := Unread(LPAREN);
      Require(More(), BadParen);
      nsub := nsub + 1;
      var subno := nsub;
      Emit(LeftParen, subno);
      ghost var t, w := Now(), [];
      a, w, code := GroupBody();
      code := CloseGroup(subno, s, t, w, code, AtomicLang(a));
    }

    /** The end of a parenthesised subexpression. */
    method CloseGroup(subno: nat, ghost s: Snapshot, ghost t: Snapshot, ghost w: Word, ghost c: Code, ghost l: Language)
      returns (ghost code: Code)
      requires Valid()
      requires error == NoError ==> s.rest == [LPAREN] + t.rest && t.strip == s.strip + [Sop(LeftParen, subno)] && t.sets == s.sets
      requires error == NoError ==> Now() in After(t, w, c, l)
      modifies this`next, this`end, this`error, this`rest, this`strip
      ensures Valid()
      ensures error == NoError ==> old(error) == NoError && Now() in After(s, [LPAREN] + w + [RPAREN], code, l)
      ensures Size(code) > 0
      ensures old(error) == NoError ==> (error == NoError <==> old(rest) != [] && old(rest)[0] == RPAREN)
      ensures error == NoError ==> old(rest) == [RPAREN] + rest
    {
      hide After;
      ghost var u := Now();
      code := Around(ParenPair(subno), c);
      Emit(RightParen, subno);
      var ate := Eat(RPAREN);
      if error == NoError && ate {
        AfterGroup(s, t, u, Now(), subno, w, c, l);
      }
      Require(ate, BadParen);
    }

    /** What is between the parentheses: nothing, or an expression. */
    method GroupBody() returns (ghost a: Atomic, ghost w: Word, ghost code: Code)
      requires Valid()
      modifies this
      ensures Valid()
      ensures error == NoError ==> old(error) == NoError && Now() in After(old(Now()), w, code, AtomicLang(a))
      ensures error == NoError ==> AtomText(a) == [LPAREN] + w + [RPAREN]
      ensures old(error) == NoError && old(rest) != [] ==> ReadGroup(old(rest)) == CloseRead(error == NoError, a, rest)
      decreases |rest|, 5
    {
      a, w, code := EmptyGroup, [], Skip;
      AfterNothing(Now());
      if !See(RPAREN) {
        ghost var e;
        e, code := Alternatives(RPAREN as int);
        a, w := Nested(e), EreText(e);
      }
    }

    /** A bunch of concatenated expressions, up to a bar or the character `stop`. */
    method Concatenation(stop: int) returns (ghost sq: Sequence, ghost code: Code)
      requires Valid()
      modifies this
      ensures Valid() && |rest| <= |old(rest)|
      ensures error == NoError ==> old(error) == NoError
      ensures old(error) == NoError ==> ReadBranch(old(rest), stop) == Outcome(error == NoError, sq, rest)
      ensures error == NoError ==> Now() in After(old(Now()), SequenceText(sq), code, SequenceLang(sq))
      ensures error == NoError ==> rest == [] || rest[0] == BAR || rest[0] as int == stop
      decreases |rest|, 3, 0
    {
      hide ReadItem, CodeFor, ItemText, ItemLang, Emits;
      var conc := |strip|;
      ghost var s := Now();
      sq, code := Nothing, Skip;
      AfterNothing(s);
      while More() && Peek() != BAR && Peek() as int != stop
        invariant Valid() && |rest| <= |old(rest)|
        invariant error == NoError ==> old(error) == NoError && (Size(code) > 0 <==> SomeEmits(sq))
        invariant old(error) == NoError ==>
          ReadSequence(old(rest), stop, Nothing) == if error == NoError then ReadSequence(rest, stop, sq) else None
        invariant error == NoError ==> Now() in After(s, SequenceText(sq), code, SequenceLang(sq))
        decreases |rest|
      {
        ghost var t := Now();
        ghost var item, c;
        item, c := Expression();
        if error == NoError {
          AfterThen(s, t, Now(), SequenceText(sq), code, SequenceLang(sq), ItemText(item), c, ItemLang(item));
        }
        sq, code := Chain(sq, item), Then(code, c);
      }
      Require(|strip| != conc, EmptyBranch);
    }

    /** The first bar of a choice: open the choice in front of its first branch. */
    method OpenFirst(conc: nat, ghost base: Strip, ghost c: Code) returns (prevfwd: nat, prevback: nat)
      requires error == NoError && conc == |base| && strip == base + Encode(c)
      modifies this`strip
      ensures strip == base + EncodeOpen(FirstBranchOf(c)) + [Sop(Or2, 0)]
      ensures prevfwd == |base| + |EncodeOpen(FirstBranchOf(c))| && prevback == prevfwd - 1
    {
      ghost var n := |strip| - conc + 1;
      InsertedAt(base, Sop(ChoiceOpen, n), Encode(c));
      Insert(ChoiceOpen, conc);
      CloseBranch(conc, conc, base, Sop(ChoiceOpen, n), Encode(c));
      assert strip == base + EncodeOpen(FirstBranchOf(c));
      prevback := |strip| - 1;
      prevfwd := |strip|;
      Emit(Or2, 0);
    }

    /** A further bar: close the branch before it and open the next one. */
    method OpenNext(fwd: nat, back: nat, ghost base: Strip, ghost o: OpenChoice, ghost c: Code) returns (prevfwd: nat, prevback: nat)
      requires error == NoError && fwd == |base| + |EncodeOpen(o)| && back == fwd - 1
      requires strip == base + EncodeOpen(o) + ([Sop(Or2, 0)] + Encode(c))
      modifies this`strip
      ensures strip == base + EncodeOpen(NextBranchOf(o, c)) + [Sop(Or2, 0)]
      ensures prevfwd == |base| + |EncodeOpen(NextBranchOf(o, c))| && prevback == prevfwd - 1
    {
      CloseBranch(fwd, back, base + EncodeOpen(o), Sop(Or2, 0), Encode(c));
      AppendAssoc(base, EncodeOpen(o), Wrap(Sop(Or2, Size(c) + 2), Encode(c), Sop(Or1, Size(c) + 2)));
      prevback := |strip| - 1;
      prevfwd := |strip|;
      Emit(Or2, 0);
    }

    /** Tail-end fixups. */
    method CloseLast(fwd: nat, back: nat, ghost before: Strip, ghost c: Code)
      requires error == NoError ==> fwd == |before| && back == fwd - 1 && strip == before + ([Sop(Or2, 0)] + Encode(c))
      modifies this`strip
      ensures error == NoError ==> strip == before + EncodeBranches(Last(c))
    {
      LastBranchClosed(before, c);
      Ahead(fwd);
      Astern(ChoiceClose, back);
    }

    /** A bar has been read: open the choice or close the branch before the bar. */
    method AnotherBranch(first: bool, conc: nat, fwd: nat, back: nat,
      ghost s: Snapshot, ghost b: Snapshot, ghost t: Snapshot, ghost left: Ere, ghost o: OpenChoice, ghost sq: Sequence, ghost c: Code)
      returns (prevfwd: nat, prevback: nat, ghost o': OpenChoice)
      requires error == NoError && t == Snapshot([BAR] + rest, strip, sets)
      requires t in After(b, SequenceText(sq), c, SequenceLang(sq))
      requires b in InFront(s, first, left, o, fwd, back) && conc == |b.strip|
      modifies this`strip
      ensures Now() in InFront(s, false, Alternative(first, left, sq), o', prevfwd, prevback)
    {
      if first {
        o' := FirstBranchOf(c);
        prevfwd, prevback := OpenFirst(conc, s.strip, c);
        FirstOpened(s, t, sq, c, Now());
      } else {
        o' := NextBranchOf(o, c);
        NextBranchStrip(s, b, t, EreText(left) + [BAR], EreLang(left), o, SequenceText(sq), c, SequenceLang(sq));
        prevfwd, prevback := OpenNext(fwd, back, s.strip, o, c);
        NextOpened(s, b, t, left, o, sq, c, Now());
      }
    }

    /** Tail-end fixups after the last of several branches. */
    method LastOfBranches(fwd: nat, back: nat,
      ghost s: Snapshot, ghost b: Snapshot, ghost left: Ere, ghost o: OpenChoice, ghost sq: Sequence, ghost c: Code)
      returns (ghost code: Code)
      requires error == NoError ==> Now() in After(b, SequenceText(sq), c, SequenceLang(sq))
      requires error == NoError ==> b in InFront(s, false, left, o, fwd, back)
      modifies this`strip
      ensures error == NoError ==> Now() in After(s, EreText(Either(left, sq)), code, EreLang(Either(left, sq)))
    {
      ghost var t := Now();
      if error == NoError {
        NextBranchStrip(s, b, t, EreText(left) + [BAR], EreLang(left), o, SequenceText(sq), c, SequenceLang(sq));
      }
      CloseLast(fwd, back, s.strip + EncodeOpen(o), c);
      if error == NoError {
        LastClosed(s, b, t, left, o, sq, c, Now());
      }
      code := Close(o, Last(c));
    }

    /** One branch, and the bar behind it if there is one. */
    method OneBranch(stop: int) returns (bar: bool, ghost sq: Sequence, ghost code: Code, ghost t: Snapshot)
      requires Valid()
      modifies this
      ensures Valid() && |rest| <= |old(rest)| && (bar ==> |rest| < |old(rest)|)
      ensures error == NoError ==> old(error) == NoError
      ensures old(error) == NoError ==> ReadBranch(old(rest), stop) == Outcome(error == NoError, sq, t.rest)
      ensures error == NoError ==> t in After(old(Now()), SequenceText(sq), code, SequenceLang(sq))
      ensures bar ==> error == NoError && t == Snapshot([BAR] + rest, strip, sets)
      ensures error == NoError && !bar ==> t == Now() && (rest == [] || (rest[0] as int == stop && rest[0] != BAR))
      decreases |rest|, 3, 1
    {
      sq, code := Concatenation(stop);
      t := Now();
      bar := Eat(BAR);
    }

    /** Concatenation and alternation, up to the character `stop`. */
    method Alternatives(stop: int) returns (ghost e: Ere, ghost code: Code)
      requires Valid()
      modifies this
      ensures Valid()
      ensures error == NoError ==> old(error) == NoError && (rest == [] || rest[0] as int == stop)
      ensures error == NoError ==> Now() in After(old(Now()), EreText(e), code, EreLang(e))
      ensures old(error) == NoError ==> ReadEre(old(rest), stop, None) == Outcome(error == NoError, e, rest)
      decreases |rest|, 4
    {
      hide ReadBranch, CodeFor, SequenceText, SequenceLang, Encode;
      ghost var s := Now();
      var first := true;
      var prevfwd: nat, prevback: nat := 0, 0;
      ghost var left, o := Only(Nothing), FirstBranchOf(Skip);
      while true
        invariant Valid() && |rest| <= |old(rest)| && (error == NoError ==> old(error) == NoError)
        invariant error == NoError ==> Now() in InFront(s, first, left, o, prevfwd, prevback)
        invariant old(error) == NoError ==> error == NoError
        invariant old(error) == NoError ==> ReadEre(old(rest), stop, None) == ReadEre(rest, stop, if first then None else Some(left))
        decreases |rest|
      {
        var conc := |strip|;
        ghost var b, sq, t := Now(), Nothing, Now();
        var bar;
        bar, sq, code, t := OneBranch(stop);
        e := Alternative(first, left, sq);
        if !bar {
          if !first {
            code := LastOfBranches(prevfwd, prevback, s, b, left, o, sq, code);
          }
          return;
        }
        prevfwd, prevback, o := AnotherBranch(first, conc, prevfwd, prevback, s, b, t, left, o, sq, code);
        first := false;
        left := e;
      }
    }
  }
}
