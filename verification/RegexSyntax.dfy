/** Extended regular expressions: their written form and their meaning.

    The syntax trees keep exactly what was written, so `EreText` gives back the
    expression; the language functions say which words it stands for. */
module RegexSyntax {
  import opened Wrappers
  import opened RegexLang
  import opened RegexStrip

  datatype Ere = Only(seq1: Sequence) | Either(left: Ere, right: Sequence)
  datatype Sequence = Nothing | Chain(front: Sequence, item: Item)
  datatype Item = Item(atom: Atomic, times: Repeat)
  datatype Atomic =
    | EmptyGroup
    | Nested(ere: Ere)
    | Dot
    | Escaped(c: Byte)
    | Plain(c: Byte)
    | Bracket(bracket: BracketList)

  /** `[^]a-z...-]`: an optional circumflex, an optional leading bracket or dash,
      the members, and an optional dash at the end. */
  datatype BracketList = BracketList(inverted: bool, lead: Option<Byte>, members: seq<Member>, trail: Option<Byte>)
  datatype Member = Lone(c: Byte) | Span(low: Byte, high: Byte)

  /** What may follow an atom; the digits of a count are kept as written. */
  datatype Repeat = Once | Star | Plus | Quest | Exactly(min: Word) | AtLeast(min: Word) | Between(min: Word, max: Word)

  const LPAREN: Byte := 40
  const RPAREN: Byte := 41
  const STAR: Byte := 42
  const PLUS: Byte := 43
  const COMMA: Byte := 44
  const DASH: Byte := 45
  const DOT: Byte := 46
  const COLON: Byte := 58
  const EQUALS: Byte := 61
  const QUEST: Byte := 63
  const LBRACKET: Byte := 91
  const BACKSLASH: Byte := 92
  const RBRACKET: Byte := 93
  const CARET: Byte := 94
  const DOLLAR: Byte := 36
  const LBRACE: Byte := 123
  const BAR: Byte := 124
  const RBRACE: Byte := 125

  predicate IsDigit(c: Byte) {
    48 <= c <= 57
  }

  // ----- the written form

  function EreText(e: Ere): Word {
    match e
    case Only(s) => SequenceText(s)
    case Either(left, right) => EreText(left) + [BAR] + SequenceText(right)
  }

  function SequenceText(s: Sequence): Word {
    match s
    case Nothing => []
    case Chain(front, item) => SequenceText(front) + ItemText(item)
  }

  function ItemText(i: Item): Word {
    AtomText(i.atom) + RepeatText(i.times)
  }

  function AtomText(a: Atomic): Word {
    match a
    case EmptyGroup => [LPAREN, RPAREN]
    case Nested(e) => [LPAREN] + EreText(e) + [RPAREN]
    case Dot => [DOT]
    case Escaped(c) => [BACKSLASH, c]
    case Plain(c) => [c]
    case Bracket(b) => BracketText(b)
  }

  function BracketText(b: BracketList): Word {
    [LBRACKET] + (if b.inverted then [CARET] else []) + OptionText(b.lead) + MembersText(b.members) +
    OptionText(b.trail) + [RBRACKET]
  }

  function OptionText(o: Option<Byte>): Word {
    match o
    case None => []
    case Some(c) => [c]
  }

  function MemberText(m: Member): Word {
    match m
    case Lone(c) => [c]
    case Span(low, high) => [low, DASH, high]
  }

  function MembersText(ms: seq<Member>): Word {
    if ms == [] then [] else MembersText(ms[..|ms| - 1]) + MemberText(ms[|ms| - 1])
  }

  function RepeatText(r: Repeat): Word {
    match r
    case Once => []
    case Star => [STAR]
    case Plus => [PLUS]
    case Quest => [QUEST]
    case _ => BoundsText(r) + [RBRACE]
  }

  /** A counted repetition up to its closing brace. */
  function BoundsText(r: Repeat): Word {
    match r
    case Exactly(min) => [LBRACE] + min
    case AtLeast(min) => [LBRACE] + min + [COMMA]
    case Between(min, max) => [LBRACE] + min + [COMMA] + max
    case _ => []
  }

  predicate IsCounted(r: Repeat) {
    r.Exactly? || r.AtLeast? || r.Between?
  }

  // ----- the meaning

  function DecimalValue(digits: Word): int {
    if digits == [] then 0 else DecimalValue(digits[..|digits| - 1]) * 10 + (digits[|digits| - 1] as int - 48)
  }

  function Least(r: Repeat): int {
    match r
    case Once => 1
    case Star => 0
    case Plus => 1
    case Quest => 0
    case Exactly(min) => DecimalValue(min)
    case AtLeast(min) => DecimalValue(min)
    case Between(min, _) => DecimalValue(min)
  }

  function Most(r: Repeat): int {
    match r
    case Once => 1
    case Star => INFINITY
    case Plus => INFINITY
    case Quest => 1
    case Exactly(min) => DecimalValue(min)
    case AtLeast(_) => INFINITY
    case Between(_, max) => DecimalValue(max)
  }

  predicate InSpan(low: Byte, high: Byte, b: Byte) {
    low <= b <= high
  }

  function MemberSet(m: Member): set<Byte> {
    match m
    case Lone(c) => {c}
    case Span(low, high) => set b: Byte | InSpan(low, high, b)
  }

  function MembersSet(ms: seq<Member>): set<Byte> {
    if ms == [] then {} else MembersSet(ms[..|ms| - 1]) + MemberSet(ms[|ms| - 1])
  }

  function ListedSet(b: BracketList): set<Byte> {
    OptionSet(b.lead) + MembersSet(b.members) + OptionSet(b.trail)
  }

  function OptionSet(o: Option<Byte>): set<Byte> {
    match o
    case None => {}
    case Some(c) => {c}
  }

  function BracketSet(b: BracketList): set<Byte> {
    if b.inverted then (set c: Byte | c !in ListedSet(b)) else ListedSet(b)
  }

  ghost function EreLang(e: Ere): Language {
    match e
    case Only(s) => SequenceLang(s)
    case Either(left, right) => EreLang(left) + SequenceLang(right)
  }

  ghost function SequenceLang(s: Sequence): Language {
    match s
    case Nothing => Epsilon()
    case Chain(front, item) => Concat(SequenceLang(front), ItemLang(item))
  }

  ghost function ItemLang(i: Item): Language {
    Reps(AtomicLang(i.atom), Least(i.times), Most(i.times))
  }

  ghost function AtomicLang(a: Atomic): Language {
    match a
    case EmptyGroup => Epsilon()
    case Nested(e) => EreLang(e)
    case Dot => AnySingle()
    case Escaped(c) => Singles({c})
    case Plain(c) => Singles({c})
    case Bracket(b) => Singles(BracketSet(b))
  }

  // ----- what counts as well written

  predicate AllDigits(digits: Word) {
    forall i :: 0 <= i < |digits| ==> IsDigit(digits[i])
  }

  predicate CountOk(digits: Word) {
    digits != [] && AllDigits(digits) && DecimalValue(digits) <= DUPMAX
  }

  predicate RepeatOk(r: Repeat) {
    match r
    case Once => true
    case Star => true
    case Plus => true
    case Quest => true
    case Exactly(min) => CountOk(min)
    case AtLeast(min) => CountOk(min)
    case Between(min, max) => CountOk(min) && CountOk(max) && DecimalValue(min) <= DecimalValue(max)
  }

  predicate MemberOk(m: Member) {
    match m
    case Lone(c) => c != RBRACKET && c != DASH
    case Span(low, high) => low != RBRACKET && low != DASH && high != RBRACKET && low <= high
  }

  function FirstOf(m: Member): Byte {
    if m.Lone? then m.c else m.low
  }

  /** `n` may follow `m`: together they do not open a collating symbol, an
      equivalence class or a character class. */
  predicate MayFollow(m: Member, n: Member) {
    match m
    case Lone(c) => c == LBRACKET ==> FirstOf(n) != COLON && FirstOf(n) != EQUALS && FirstOf(n) != DOT
    case Span(_, high) => high == LBRACKET ==> FirstOf(n) != DOT
  }

  predicate MembersOk(ms: seq<Member>) {
    && (forall i :: 0 <= i < |ms| ==> MemberOk(ms[i]))
    && (forall i :: 0 < i < |ms| ==> MayFollow(ms[i - 1], ms[i]))
  }

  /** A closing bracket or a dash right at the start is the lead. A list that is
      not inverted does not start with a circumflex. */
  predicate BracketOk(b: BracketList) {
    && (b.lead.Some? ==> b.lead.value == RBRACKET || b.lead.value == DASH)
    && (b.trail.Some? ==> b.trail.value == DASH)
    && MembersOk(b.members)
    && (b.lead.None? ==> b.members != [] && (b.inverted || FirstOf(b.members[0]) != CARET))
  }

  /** The characters that mean something else than themselves. */
  predicate IsSpecial(c: Byte) {
    c in {LPAREN, RPAREN, CARET, DOLLAR, BAR, STAR, PLUS, QUEST, DOT, LBRACKET, BACKSLASH}
  }

  /** The text begins with a repetition operator. */
  predicate StartsRepeat(w: Word) {
    w != [] && (w[0] == STAR || w[0] == PLUS || w[0] == QUEST || (w[0] == LBRACE && |w| >= 2 && IsDigit(w[1])))
  }

  predicate StartsDigit(w: Word) {
    w != [] && IsDigit(w[0])
  }

  /** A brace that stands for itself, with nothing of its own behind it. */
  predicate IsBrace(i: Item) {
    i == Item(Plain(LBRACE), Once)
  }

  /** An item that stands for something else than the empty word alone. */
  predicate Emits(i: Item) {
    Most(i.times) > 0
  }

  predicate SomeEmits(s: Sequence) {
    s.Chain? && (SomeEmits(s.front) || Emits(s.item))
  }

  predicate EreOk(e: Ere)
    decreases e, 0
  {
    match e
    case Only(s) => SequenceOk(s)
    case Either(left, right) => EreOk(left) && SequenceOk(right)
  }

  /** A branch has an item that is not repeated zero times. */
  predicate SequenceOk(s: Sequence)
    decreases s, 1
  {
    SomeEmits(s) && ItemsOk(s)
  }

  /** A brace before a digit is not a character that stands for itself. */
  predicate ItemsOk(s: Sequence)
    decreases s, 0
  {
    match s
    case Nothing => true
    case Chain(front, item) =>
      && ItemsOk(front) && AtomOk(item.atom) && RepeatOk(item.times)
      && (front.Chain? && IsBrace(front.item) ==> !(item.atom.Plain? && IsDigit(item.atom.c)))
  }

  predicate AtomOk(a: Atomic)
    decreases a, 0
  {
    match a
    case EmptyGroup => true
    case Nested(e) => EreOk(e)
    case Dot => true
    case Escaped(_) => true
    case Plain(c) => !IsSpecial(c)
    case Bracket(b) => BracketOk(b)
  }
}
