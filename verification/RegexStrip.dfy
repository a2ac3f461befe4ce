/** The strip: the flat sequence of operators a regular expression is compiled
    to (external/regex/regex2.h), the tree-shaped code it lays out, and the
    bracketing discipline its relative operands obey. */
module RegexStrip {
  import opened RegexLang

  /** The operators, in the order of regex2.h: OEND, OCHAR, OANY, OANYOF,
      OPLUS_, O_PLUS, OQUEST_, O_QUEST, OLPAREN, ORPAREN, OCH_, OOR1, OOR2, O_CH. */
  datatype Op =
    | End
    | Char
    | Any
    | AnyOf
    | PlusOpen
    | PlusClose
    | QuestOpen
    | QuestClose
    | LeftParen
    | RightParen
    | ChoiceOpen
    | Or1
    | Or2
    | ChoiceClose

  datatype Sop = Sop(op: Op, opnd: nat)

  type Strip = seq<Sop>

  /** A character set with the additive hash that speeds up comparing sets. */
  datatype CharSet = CharSet(members: set<Byte>, hash: Byte)

  /** What consumes exactly one character. */
  datatype Atom = Literal(c: Byte) | AnyChar | InSet(no: nat, members: set<Byte>)

  /** The operator pairs with one body between them. */
  datatype Pair = ParenPair(no: nat) | PlusPair | QuestPair

  /** Code as a tree.  `rest` and `others` nest to the right, so that each
      `Branches` ends with the operator that closes the whole choice. */
  datatype Code =
    | Skip
    | Single(atom: Atom)
    | Around(pair: Pair, body: Code)
    | Then(first: Code, second: Code)
    | Choice(branch: Code, rest: Branches)
  datatype Branches =
    | Last(branch: Code)
    | More(branch: Code, others: Branches)

  // ----- layout

  /** How many operators code takes up. */
  function Size(c: Code): nat {
    match c
    case Skip => 0
    case Single(_) => 1
    case Around(_, body) => Size(body) + 2
    case Then(first, second) => Size(first) + Size(second)
    case Choice(branch, rest) => Size(branch) + 2 + BranchesSize(rest)
  }

  function BranchesSize(b: Branches): (n: nat)
    ensures n >= 2
  {
    match b
    case Last(branch) => Size(branch) + 2
    case More(branch, others) => Size(branch) + 2 + BranchesSize(others)
  }

  function AtomSop(a: Atom): Sop {
    match a
    case Literal(ch) => Sop(Char, ch)
    case AnyChar => Sop(Any, 0)
    case InSet(no, _) => Sop(AnyOf, no)
  }

  /** The opening operator of a pair around `n` others. */
  function Opening(p: Pair, n: nat): Sop {
    match p
    case ParenPair(no) => Sop(LeftParen, no)
    case PlusPair => Sop(PlusOpen, n + 1)
    case QuestPair => Sop(QuestOpen, n + 1)
  }

  function Closing(p: Pair, n: nat): Sop {
    match p
    case ParenPair(no) => Sop(RightParen, no)
    case PlusPair => Sop(PlusClose, n + 1)
    case QuestPair => Sop(QuestClose, n + 1)
  }

  function Wrap(open: Sop, body: Strip, close: Sop): Strip {
    [open] + body + [close]
  }

  /** The operators code is written as, each operand being the distance to the
      partner the operator names. */
  function Encode(c: Code): (s: Strip)
    ensures |s| == Size(c)
    decreases c, 1
  {
    match c
    case Skip => []
    case Single(atom) => [AtomSop(atom)]
    case Around(pair, body) => EncodeAround(pair, body)
    case Then(first, second) => EncodeThen(first, second)
    case Choice(branch, rest) => EncodeChoice(branch, rest)
  }

  function EncodeAround(pair: Pair, body: Code): (s: Strip)
    ensures |s| == Size(body) + 2
    decreases body, 2
  {
    Wrap(Opening(pair, Size(body)), Encode(body), Closing(pair, Size(body)))
  }

  function EncodeThen(first: Code, second: Code): (s: Strip)
    ensures |s| == Size(first) + Size(second)
    decreases Then(first, second), 0
  {
    Encode(first) + Encode(second)
  }

  function EncodeChoice(branch: Code, rest: Branches): (s: Strip)
    ensures |s| == Size(branch) + 2 + BranchesSize(rest)
    decreases Choice(branch, rest), 0
  {
    Wrap(Sop(ChoiceOpen, Size(branch) + 2), Encode(branch), Sop(Or1, Size(branch) + 1)) + EncodeBranches(rest)
  }

  function EncodeBranches(b: Branches): (s: Strip)
    ensures |s| == BranchesSize(b)
    decreases b, 1
  {
    match b
    case Last(branch) => EncodeLast(branch)
    case More(branch, others) => EncodeMore(branch, others)
  }

  function EncodeLast(branch: Code): (s: Strip)
    ensures |s| == Size(branch) + 2
    decreases branch, 2
  {
    Wrap(Sop(Or2, Size(branch) + 1), Encode(branch), Sop(ChoiceClose, Size(branch) + 2))
  }

  function EncodeMore(branch: Code, others: Branches): (s: Strip)
    ensures |s| == Size(branch) + 2 + BranchesSize(others)
    decreases More(branch, others), 0
  {
    Wrap(Sop(Or2, Size(branch) + 2), Encode(branch), Sop(Or1, Size(branch) + 2)) + EncodeBranches(others)
  }

  /** The set a set operand names has the members the code says. */
  ghost predicate SetOperandOk(a: Atom, sets: seq<CharSet>) {
    a.InSet? ==> a.no < |sets| && sets[a.no].members == a.members
  }

  /** The operators around a body of size `n`. */
  ghost predicate Ends(strip: Strip, x: nat, n: nat, open: Sop, close: Sop) {
    x + n + 2 <= |strip| && strip[x] == open && strip[x + n + 1] == close
  }

  /** Code laid out in a strip from position `x` on. */
  ghost predicate Laid(c: Code, strip: Strip, sets: seq<CharSet>, x: nat) {
    && x + Size(c) <= |strip|
    && match c {
      case Skip => true
      case Single(atom) => strip[x] == AtomSop(atom) && SetOperandOk(atom, sets)
      case Around(pair, body) =>
        && Ends(strip, x, Size(body), Opening(pair, Size(body)), Closing(pair, Size(body)))
        && Laid(body, strip, sets, x + 1)
      case Then(first, second) =>
        Laid(first, strip, sets, x) && Laid(second, strip, sets, x + Size(first))
      case Choice(branch, rest) =>
        && Ends(strip, x, Size(branch), Sop(ChoiceOpen, Size(branch) + 2), Sop(Or1, Size(branch) + 1))
        && Laid(branch, strip, sets, x + 1)
        && BranchesLaid(rest, strip, sets, x + Size(branch) + 2)
    }
  }

  ghost predicate BranchesLaid(b: Branches, strip: Strip, sets: seq<CharSet>, x: nat) {
    && x + BranchesSize(b) <= |strip|
    && Laid(b.branch, strip, sets, x + 1)
    && match b {
      case Last(branch) =>
        Ends(strip, x, Size(branch), Sop(Or2, Size(branch) + 1), Sop(ChoiceClose, Size(branch) + 2))
      case More(branch, others) =>
        && Ends(strip, x, Size(branch), Sop(Or2, Size(branch) + 2), Sop(Or1, Size(branch) + 2))
        && BranchesLaid(others, strip, sets, x + Size(branch) + 2)
    }
  }

  /** Code that is laid out somewhere, and its parts. */
  datatype Place = Place(strip: Strip, sets: seq<CharSet>, x: nat, c: Code)
  datatype BranchPlace = BranchPlace(strip: Strip, sets: seq<CharSet>, x: nat, b: Branches)

  type Piece = p: Place | Laid(p.c, p.strip, p.sets, p.x) ghost witness Place([], [], 0, Skip)
  type BranchPiece = p: BranchPlace | BranchesLaid(p.b, p.strip, p.sets, p.x)
    ghost witness BranchPlace([Sop(Or2, 1), Sop(ChoiceClose, 2)], [], 0, Last(Skip))

  ghost function Body(p: Piece): Piece
    requires p.c.Around?
  {
    Place(p.strip, p.sets, p.x + 1, p.c.body)
  }

  ghost function First(p: Piece): Piece
    requires p.c.Then?
  {
    Place(p.strip, p.sets, p.x, p.c.first)
  }

  ghost function Second(p: Piece): Piece
    requires p.c.Then?
  {
    Place(p.strip, p.sets, p.x + Size(p.c.first), p.c.second)
  }

  ghost function FirstBranch(p: Piece): Piece
    requires p.c.Choice?
  {
    Place(p.strip, p.sets, p.x + 1, p.c.branch)
  }

  ghost function OtherBranches(p: Piece): BranchPiece
    requires p.c.Choice?
  {
    BranchPlace(p.strip, p.sets, p.x + Size(p.c.branch) + 2, p.c.rest)
  }

  ghost function Branch(p: BranchPiece): Piece {
    Place(p.strip, p.sets, p.x + 1, p.b.branch)
  }

  ghost function LaterBranches(p: BranchPiece): BranchPiece
    requires p.b.More?
  {
    BranchPlace(p.strip, p.sets, p.x + Size(p.b.branch) + 2, p.b.others)
  }

  /** The operators around the first of the branches. */
  lemma BranchEnds(p: BranchPiece)
    ensures p.x + Size(p.b.branch) + 2 <= p.x + BranchesSize(p.b) <= |p.strip|
    ensures var n := Size(p.b.branch);
      if p.b.Last? then Ends(p.strip, p.x, n, Sop(Or2, n + 1), Sop(ChoiceClose, n + 2))
      else Ends(p.strip, p.x, n, Sop(Or2, n + 2), Sop(Or1, n + 2))
  {
  }

  /** The operators around the first branch of a choice, and around a pair. */
  lemma PieceEnds(p: Piece)
    ensures p.x + Size(p.c) <= |p.strip|
    ensures p.c.Around? ==> Ends(p.strip, p.x, Size(p.c.body), Opening(p.c.pair, Size(p.c.body)), Closing(p.c.pair, Size(p.c.body)))
    ensures p.c.Choice? ==>
      Ends(p.strip, p.x, Size(p.c.branch), Sop(ChoiceOpen, Size(p.c.branch) + 2), Sop(Or1, Size(p.c.branch) + 1))
    ensures p.c.Single? ==> p.strip[p.x] == AtomSop(p.c.atom)
  {
  }

  ghost predicate PartAt(strip: Strip, x: nat, s: Strip) {
    x + |s| <= |strip| && forall i {:trigger s[i]} :: 0 <= i < |s| ==> strip[x + i] == s[i]
  }

  /** What stands in a strip from position `x` on. */
  ghost function Parts(strip: Strip, x: nat): iset<Strip> {
    iset s: Strip | PartAt(strip, x, s)
  }

  ghost predicate Holds(strip: Strip, x: nat, s: Strip) {
    s in Parts(strip, x)
  }

  lemma HoldsFits(strip: Strip, x: nat, s: Strip)
    requires Holds(strip, x, s)
    ensures x + |s| <= |strip|
  {
  }

  lemma HoldsOne(strip: Strip, x: nat, s: Sop)
    requires Holds(strip, x, [s])
    ensures x < |strip| && strip[x] == s
  {
    assert [s][0] == s;
  }

  lemma HoldsSplit(strip: Strip, x: nat, s: Strip, t: Strip)
    requires Holds(strip, x, s + t)
    ensures Holds(strip, x, s) && Holds(strip, x + |s|, t)
  {
    assert forall i :: 0 <= i < |s| ==> (s + t)[i] == s[i];
    assert forall i :: 0 <= i < |t| ==> (s + t)[|s| + i] == t[i];
  }

  lemma HoldsWrap(strip: Strip, x: nat, open: Sop, body: Strip, close: Sop)
    requires Holds(strip, x, Wrap(open, body, close))
    ensures Ends(strip, x, |body|, open, close) && Holds(strip, x + 1, body)
  {
    HoldsSplit(strip, x, [open] + body, [close]);
    HoldsSplit(strip, x, [open], body);
    HoldsOne(strip, x, open);
    HoldsOne(strip, x + 1 + |body|, close);
  }

  lemma HoldsWrapThen(strip: Strip, x: nat, open: Sop, body: Strip, close: Sop, rest: Strip)
    requires Holds(strip, x, Wrap(open, body, close) + rest)
    ensures Ends(strip, x, |body|, open, close) && Holds(strip, x + 1, body)
    ensures Holds(strip, x + |body| + 2, rest)
  {
    HoldsSplit(strip, x, Wrap(open, body, close), rest);
    HoldsWrap(strip, x, open, body, close);
  }

  /** Finding the operators of `Encode(c)` is finding `c` laid out. */
  lemma {:induction false} EncodeLaid(c: Code, strip: Strip, sets: seq<CharSet>, x: nat)
    requires Holds(strip, x, Encode(c)) && SetsOk(c, sets)
    ensures Laid(c, strip, sets, x)
    decreases c, 1
  {
    match c
    case Skip => HoldsFits(strip, x, []);
    case Single(atom) => HoldsOne(strip, x, AtomSop(atom));
    case Around(_, _) => AroundEncodeLaid(c, strip, sets, x);
    case Then(_, _) => ThenEncodeLaid(c, strip, sets, x);
    case Choice(_, _) => ChoiceEncodeLaid(c, strip, sets, x);
  }

  lemma AroundEncoded(c: Code)
    requires c.Around?
    ensures Encode(c) == Wrap(Opening(c.pair, Size(c.body)), Encode(c.body), Closing(c.pair, Size(c.body)))
  {
  }

  lemma {:induction false} AroundEncodeLaid(c: Code, strip: Strip, sets: seq<CharSet>, x: nat)
    requires c.Around? && Holds(strip, x, Encode(c)) && SetsOk(c, sets)
    ensures Laid(c, strip, sets, x)
    decreases c, 0
  {
    var n := Size(c.body);
    AroundEncoded(c);
    HoldsWrap(strip, x, Opening(c.pair, n), Encode(c.body), Closing(c.pair, n));
    EncodeLaid(c.body, strip, sets, x + 1);
  }

  lemma ThenEncoded(c: Code)
    requires c.Then?
    ensures Encode(c) == Encode(c.first) + Encode(c.second)
  {
  }

  lemma {:induction false} ThenEncodeLaid(c: Code, strip: Strip, sets: seq<CharSet>, x: nat)
    requires c.Then? && Holds(strip, x, Encode(c)) && SetsOk(c, sets)
    ensures Laid(c, strip, sets, x)
    decreases c, 0
  {
    ThenEncoded(c);
    HoldsSplit(strip, x, Encode(c.first), Encode(c.second));
    EncodeLaid(c.first, strip, sets, x);
    EncodeLaid(c.second, strip, sets, x + Size(c.first));
  }

  lemma {:induction false} ChoiceEncodeLaid(c: Code, strip: Strip, sets: seq<CharSet>, x: nat)
    requires c.Choice? && Holds(strip, x, Encode(c)) && SetsOk(c, sets)
    ensures Laid(c, strip, sets, x)
    decreases c, 0
  {
    ChoiceParts(c, strip, x);
    EncodeLaid(c.branch, strip, sets, x + 1);
    BranchesEncodeLaid(c.rest, strip, sets, x + Size(c.branch) + 2);
  }

  lemma ChoiceParts(c: Code, strip: Strip, x: nat)
    requires c.Choice? && Holds(strip, x, Encode(c))
    ensures Ends(strip, x, Size(c.branch), Sop(ChoiceOpen, Size(c.branch) + 2), Sop(Or1, Size(c.branch) + 1))
    ensures Holds(strip, x + 1, Encode(c.branch)) && Holds(strip, x + Size(c.branch) + 2, EncodeBranches(c.rest))
  {
    hide Encode, EncodeBranches, Wrap, Holds;
    var n := Size(c.branch);
    ChoiceEncoded(c);
    HoldsWrapThen(strip, x, Sop(ChoiceOpen, n + 2), Encode(c.branch), Sop(Or1, n + 1), EncodeBranches(c.rest));
  }

  lemma ChoiceEncoded(c: Code)
    requires c.Choice?
    ensures Encode(c)
         == Wrap(Sop(ChoiceOpen, Size(c.branch) + 2), Encode(c.branch), Sop(Or1, Size(c.branch) + 1)) + EncodeBranches(c.rest)
  {
  }

  lemma LastEncoded(b: Branches)
    requires b.Last?
    ensures EncodeBranches(b)
         == Wrap(Sop(Or2, Size(b.branch) + 1), Encode(b.branch), Sop(ChoiceClose, Size(b.branch) + 2))
  {
  }

  lemma MoreEncoded(b: Branches)
    requires b.More?
    ensures EncodeBranches(b)
         == Wrap(Sop(Or2, Size(b.branch) + 2), Encode(b.branch), Sop(Or1, Size(b.branch) + 2)) + EncodeBranches(b.others)
  {
  }

  lemma {:induction false} BranchesEncodeLaid(b: Branches, strip: Strip, sets: seq<CharSet>, x: nat)
    requires Holds(strip, x, EncodeBranches(b)) && BranchSetsOk(b, sets)
    ensures BranchesLaid(b, strip, sets, x)
    decreases b, 0
  {
    if b.Last? {
      LastEncodeLaid(b, strip, sets, x);
    } else {
      MoreEncodeLaid(b, strip, sets, x);
    }
  }

  lemma {:induction false} LastEncodeLaid(b: Branches, strip: Strip, sets: seq<CharSet>, x: nat)
    requires b.Last? && Holds(strip, x, EncodeBranches(b)) && BranchSetsOk(b, sets)
    ensures BranchesLaid(b, strip, sets, x)
    decreases b, -1
  {
    LastParts(b, strip, x);
    EncodeLaid(b.branch, strip, sets, x + 1);
  }

  lemma {:induction false} MoreEncodeLaid(b: Branches, strip: Strip, sets: seq<CharSet>, x: nat)
    requires b.More? && Holds(strip, x, EncodeBranches(b)) && BranchSetsOk(b, sets)
    ensures BranchesLaid(b, strip, sets, x)
    decreases b, -1
  {
    MoreParts(b, strip, x);
    EncodeLaid(b.branch, strip, sets, x + 1);
    BranchesEncodeLaid(b.others, strip, sets, x + Size(b.branch) + 2);
  }

  lemma LastParts(b: Branches, strip: Strip, x: nat)
    requires b.Last? && Holds(strip, x, EncodeBranches(b))
    ensures Ends(strip, x, Size(b.branch), Sop(Or2, Size(b.branch) + 1), Sop(ChoiceClose, Size(b.branch) + 2))
    ensures Holds(strip, x + 1, Encode(b.branch))
  {
    var n := Size(b.branch);
    LastEncoded(b);
    HoldsWrap(strip, x, Sop(Or2, n + 1), Encode(b.branch), Sop(ChoiceClose, n + 2));
  }

  lemma MoreParts(b: Branches, strip: Strip, x: nat)
    requires b.More? && Holds(strip, x, EncodeBranches(b))
    ensures Ends(strip, x, Size(b.branch), Sop(Or2, Size(b.branch) + 2), Sop(Or1, Size(b.branch) + 2))
    ensures Holds(strip, x + 1, Encode(b.branch)) && Holds(strip, x + Size(b.branch) + 2, EncodeBranches(b.others))
  {
    var n := Size(b.branch);
    MoreEncoded(b);
    HoldsWrapThen(strip, x, Sop(Or2, n + 2), Encode(b.branch), Sop(Or1, n + 2), EncodeBranches(b.others));
  }

  // ----- the words a piece of code stands for

  ghost predicate OneIn(s: set<Byte>, w: Word) {
    |w| == 1 && w[0] in s
  }

  ghost predicate OneChar(w: Word) {
    |w| == 1
  }

  ghost function Singles(s: set<Byte>): Language {
    iset w: Word | OneIn(s, w)
  }

  ghost function AnySingle(): Language {
    iset w: Word | OneChar(w)
  }

  ghost function AtomLang(a: Atom): Language {
    match a
    case Literal(ch) => Singles({ch})
    case AnyChar => AnySingle()
    case InSet(_, members) => Singles(members)
  }

  ghost function PairLang(p: Pair, l: Language): Language {
    match p
    case ParenPair(_) => l
    case PlusPair => AtLeastOnce(l)
    case QuestPair => l + Epsilon()
  }

  ghost function Lang(c: Code): Language {
    match c
    case Skip => Epsilon()
    case Single(atom) => AtomLang(atom)
    case Around(pair, body) => PairLang(pair, Lang(body))
    case Then(first, second) => Concat(Lang(first), Lang(second))
    case Choice(branch, rest) => Lang(branch) + BranchesLang(rest)
  }

  ghost function BranchesLang(b: Branches): Language {
    match b
    case Last(branch) => Lang(branch)
    case More(branch, others) => Lang(branch) + BranchesLang(others)
  }

  /** Every set operand names a set with the members the code says. */
  ghost predicate SetsOk(c: Code, sets: seq<CharSet>) {
    match c
    case Skip => true
    case Single(atom) => SetOperandOk(atom, sets)
    case Around(_, body) => SetsOk(body, sets)
    case Then(first, second) => SetsOk(first, sets) && SetsOk(second, sets)
    case Choice(branch, rest) => SetsOk(branch, sets) && BranchSetsOk(rest, sets)
  }

  ghost predicate BranchSetsOk(b: Branches, sets: seq<CharSet>) {
    match b
    case Last(branch) => SetsOk(branch, sets)
    case More(branch, others) => SetsOk(branch, sets) && BranchSetsOk(others, sets)
  }

  lemma SetsGrow(c: Code, sets: seq<CharSet>, more: seq<CharSet>)
    requires SetsOk(c, sets) && sets <= more
    ensures SetsOk(c, more)
  {
    match c
    case Choice(branch, rest) => SetsGrow(branch, sets, more); BranchSetsGrow(rest, sets, more);
    case _ =>
  }

  lemma BranchSetsGrow(b: Branches, sets: seq<CharSet>, more: seq<CharSet>)
    requires BranchSetsOk(b, sets) && sets <= more
    ensures BranchSetsOk(b, more)
  {
    SetsGrow(b.branch, sets, more);
    match b
    case Last(_) =>
    case More(_, others) => BranchSetsGrow(others, sets, more);
  }

  // ----- bracketing

  /** The operator at `i` and its partners name each other, all of them within
      `lo <= . < hi`. */
  predicate Partnered(strip: Strip, lo: nat, hi: nat, i: nat)
    requires lo <= i < hi <= |strip|
  {
    var s := strip[i];
    var n := s.opnd;
    match s.op
    case End => false
    case Char => true
    case Any => true
    case AnyOf => true
    case LeftParen => true
    case RightParen => true
    case PlusOpen => i + n < hi && strip[i + n] == Sop(PlusClose, n)
    case PlusClose => lo <= i - n && strip[i - n] == Sop(PlusOpen, n)
    case QuestOpen => i + n < hi && strip[i + n] == Sop(QuestClose, n)
    case QuestClose => lo <= i - n && strip[i - n] == Sop(QuestOpen, n)
    case ChoiceOpen =>
      2 <= n && i + n < hi && strip[i + n].op == Or2 && strip[i + n - 1] == Sop(Or1, n - 1)
    case Or1 =>
      && i + 1 < hi && strip[i + 1].op == Or2
      && 1 <= n && lo <= i - n
      && (strip[i - n] == Sop(ChoiceOpen, n + 1) ||
          (strip[i - n].op == Or1 && strip[i - n + 1] == Sop(Or2, n)))
    case Or2 =>
      && lo < i && strip[i - 1].op == Or1
      && 1 <= n && i + n < hi
      && (strip[i + n] == Sop(ChoiceClose, n + 1) ||
          (strip[i + n].op == Or2 && strip[i + n - 1] == Sop(Or1, n)))
    case ChoiceClose =>
      2 <= n && lo <= i - n && strip[i - n].op == Or1 && strip[i - n + 1] == Sop(Or2, n - 1)
  }

  /** The operators from `a` to `b` have their partners between `lo` and `hi`. */
  ghost predicate Bracketed(strip: Strip, lo: nat, hi: nat, a: nat, b: nat) {
    lo <= a <= b <= hi <= |strip| && forall i :: a <= i < b ==> Partnered(strip, lo, hi, i)
  }

  ghost predicate WellBracketed(strip: Strip, lo: nat, hi: nat) {
    Bracketed(strip, lo, hi, lo, hi)
  }

  lemma BracketedWiden(strip: Strip, lo: nat, hi: nat, a: nat, b: nat, lo': nat, hi': nat)
    requires Bracketed(strip, lo, hi, a, b) && lo' <= lo && hi <= hi' <= |strip|
    ensures Bracketed(strip, lo', hi', a, b)
  {
    forall i | a <= i < b ensures Partnered(strip, lo', hi', i) {
      assert Partnered(strip, lo, hi, i);
    }
  }

  lemma BracketedJoin(strip: Strip, lo: nat, hi: nat, a: nat, b: nat, c: nat)
    requires Bracketed(strip, lo, hi, a, b) && Bracketed(strip, lo, hi, b, c)
    ensures Bracketed(strip, lo, hi, a, c)
  {
  }

  lemma BracketedAppend(strip: Strip, lo: nat, hi: nat, a: nat, m: nat, lo': nat)
    requires Bracketed(strip, lo, hi, a, m) && Bracketed(strip, lo', hi, m, hi) && lo <= lo'
    ensures Bracketed(strip, lo, hi, a, hi)
  {
    BracketedWiden(strip, lo', hi, m, hi, lo, hi);
    BracketedJoin(strip, lo, hi, a, m, hi);
  }

  lemma BracketedOne(strip: Strip, lo: nat, hi: nat, i: nat)
    requires lo <= i < hi <= |strip| && Partnered(strip, lo, hi, i)
    ensures Bracketed(strip, lo, hi, i, i + 1)
  {
  }

  /** A body between two operators that are partnered themselves. */
  lemma BetweenBracketed(strip: Strip, x: nat, y: nat, lo: nat, hi: nat)
    requires WellBracketed(strip, x + 1, y)
    requires Bracketed(strip, lo, hi, x, x + 1) && Bracketed(strip, lo, hi, y, y + 1)
    ensures Bracketed(strip, lo, hi, x, y + 1)
  {
    BracketedWiden(strip, x + 1, y, x + 1, y, lo, hi);
    BracketedJoin(strip, lo, hi, x, x + 1, y);
    BracketedJoin(strip, lo, hi, x, y, y + 1);
  }

  lemma PairBracketed(pair: Pair, strip: Strip, x: nat, n: nat)
    requires Ends(strip, x, n, Opening(pair, n), Closing(pair, n))
    requires WellBracketed(strip, x + 1, x + n + 1)
    ensures WellBracketed(strip, x, x + n + 2)
  {
    BracketedOne(strip, x, x + n + 2, x);
    BracketedOne(strip, x, x + n + 2, x + n + 1);
    BetweenBracketed(strip, x, x + n + 1, x, x + n + 2);
  }

  lemma ThenBracketed(strip: Strip, x: nat, m: nat, y: nat)
    requires WellBracketed(strip, x, m) && WellBracketed(strip, m, y)
    ensures WellBracketed(strip, x, y)
  {
    BracketedWiden(strip, x, m, x, m, x, y);
    BracketedAppend(strip, x, y, x, m, m);
  }

  lemma FirstBranchBracketed(strip: Strip, x: nat, n: nat, hi: nat)
    requires Ends(strip, x, n, Sop(ChoiceOpen, n + 2), Sop(Or1, n + 1))
    requires WellBracketed(strip, x + 1, x + n + 1)
    requires x + n + 2 < hi <= |strip| && strip[x + n + 2].op == Or2 && Bracketed(strip, x + n + 1, hi, x + n + 2, hi)
    ensures WellBracketed(strip, x, hi)
  {
    BracketedOne(strip, x, hi, x);
    BracketedOne(strip, x, hi, x + n + 1);
    BetweenBracketed(strip, x, x + n + 1, x, hi);
    BracketedAppend(strip, x, hi, x, x + n + 2, x + n + 1);
  }

  lemma MiddleBranchBracketed(strip: Strip, x: nat, n: nat, hi: nat)
    requires 1 <= x <= |strip| && strip[x - 1].op == Or1 && Ends(strip, x, n, Sop(Or2, n + 2), Sop(Or1, n + 2))
    requires WellBracketed(strip, x + 1, x + n + 1)
    requires x + n + 2 < hi <= |strip| && strip[x + n + 2].op == Or2 && Bracketed(strip, x + n + 1, hi, x + n + 2, hi)
    ensures Bracketed(strip, x - 1, hi, x, hi)
  {
    BracketedOne(strip, x - 1, hi, x);
    BracketedOne(strip, x - 1, hi, x + n + 1);
    BetweenBracketed(strip, x, x + n + 1, x - 1, hi);
    BracketedAppend(strip, x - 1, hi, x, x + n + 2, x + n + 1);
  }

  lemma LastBranchBracketed(strip: Strip, x: nat, n: nat)
    requires 1 <= x <= |strip| && strip[x - 1].op == Or1
    requires Ends(strip, x, n, Sop(Or2, n + 1), Sop(ChoiceClose, n + 2))
    requires WellBracketed(strip, x + 1, x + n + 1)
    ensures Bracketed(strip, x - 1, x + n + 2, x, x + n + 2)
  {
    BracketedOne(strip, x - 1, x + n + 2, x);
    BracketedOne(strip, x - 1, x + n + 2, x + n + 1);
    BetweenBracketed(strip, x, x + n + 1, x - 1, x + n + 2);
  }

  /** Code laid out anywhere in a strip is well bracketed there. */
  lemma {:induction false} PieceBracketed(p: Piece)
    ensures WellBracketed(p.strip, p.x, p.x + Size(p.c))
    decreases p.c
  {
    hide Laid, BranchesLaid, Partnered;
    PieceEnds(p);
    match p.c
    case Skip =>
    case Single(_) => BracketedOne(p.strip, p.x, p.x + 1, p.x);
    case Around(pair, body) =>
      PieceBracketed(Body(p));
      PairBracketed(pair, p.strip, p.x, Size(body));
    case Then(first, second) =>
      PieceBracketed(First(p));
      PieceBracketed(Second(p));
      ThenBracketed(p.strip, p.x, p.x + Size(first), p.x + Size(p.c));
    case Choice(branch, rest) =>
      PieceBracketed(FirstBranch(p));
      BranchPieceBracketed(OtherBranches(p));
      FirstBranchBracketed(p.strip, p.x, Size(branch), p.x + Size(p.c));
  }

  /** The same for the branches after the first, which begin right after the
      OOR1 of the branch before them. */
  lemma {:induction false} BranchPieceBracketed(p: BranchPiece)
    requires 1 <= p.x && p.strip[p.x - 1].op == Or1
    ensures p.strip[p.x].op == Or2
    ensures Bracketed(p.strip, p.x - 1, p.x + BranchesSize(p.b), p.x, p.x + BranchesSize(p.b))
    decreases p.b
  {
    hide Laid, BranchesLaid, Bracketed, Partnered;
    BranchEnds(p);
    PieceBracketed(Branch(p));
    match p.b
    case Last(branch) =>
      LastBranchBracketed(p.strip, p.x, Size(branch));
    case More(branch, others) =>
      BranchPieceBracketed(LaterBranches(p));
      MiddleBranchBracketed(p.strip, p.x, Size(branch), p.x + BranchesSize(p.b));
  }
}
