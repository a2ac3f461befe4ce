/** How an extended regular expression is to be read: a text has at most one
    well-formed tree, and these functions find it. */
module RegexReader {
  import opened Wrappers
  import opened RegexLang
  import opened RegexSyntax

  /** What has been read, and the text behind it; None if the text is wrong. */
  type Got<+T> = Option<(T, Word)>

  function Outcome<T>(ok: bool, x: T, rest: Word): Got<T> {
    if ok then Some((x, rest)) else None
  }

  // ----- the reader

  /** The digits of a count, of which no more are taken once it is too large. */
  function ReadDigits(w: Word, sofar: Word): (r: Got<Word>)
    ensures r.Some? ==> sofar + w == r.value.0 + r.value.1 && |r.value.1| <= |w|
    decreases |w|
  {
    if w != [] && IsDigit(w[0]) && DecimalValue(sofar) <= DUPMAX then ReadDigits(w[1..], sofar + [w[0]])
    else if sofar != [] && DecimalValue(sofar) <= DUPMAX then Some((sofar, w))
    else None
  }

  function ReadUpper(w: Word, min: Word): (r: Got<Repeat>)
    ensures r.Some? ==> |r.value.1| <= |w|
  {
    if StartsDigit(w) then
      match ReadDigits(w, [])
      case None => None
      case Some((max, r)) => if DecimalValue(min) <= DecimalValue(max) then Some((Between(min, max), r)) else None
    else Some((AtLeast(min), w))
  }

  /** The bounds of a counted repetition, behind the opening brace. */
  function ReadBounds(w: Word): (r: Got<Repeat>)
    ensures r.Some? ==> |r.value.1| <= |w|
  {
    match ReadDigits(w, [])
    case None => None
    case Some((min, r)) => if r != [] && r[0] == COMMA then ReadUpper(r[1..], min) else Some((Exactly(min), r))
  }

  function ReadCounted(w: Word): (r: Got<Repeat>)
    ensures r.Some? ==> |r.value.1| <= |w|
  {
    match ReadBounds(w)
    case None => None
    case Some((t, r)) => if r != [] && r[0] == RBRACE then Some((t, r[1..])) else None
  }

  /** A repetition operator. */
  function ReadRepeat(c: Byte, w: Word): (r: Got<Repeat>)
    ensures r.Some? ==> |r.value.1| <= |w|
  {
    if c == STAR then Some((Star, w))
    else if c == PLUS then Some((Plus, w))
    else if c == QUEST then Some((Quest, w))
    else ReadCounted(w)
  }

  function ReadSpan(low: Byte, w: Word): (r: Got<Member>)
    requires |w| >= 2
    ensures r.Some? ==> |r.value.1| < |w|
  {
    if w[1] == LBRACKET && |w| >= 3 && w[2] == DOT then None
    else if low <= w[1] then Some((Span(low, w[1]), w[2..]))
    else None
  }

  function ReadMember(w: Word): (r: Got<Member>)
    requires w != []
    ensures r.Some? ==> |r.value.1| < |w|
  {
    if w[0] == DASH then None
    else if w[0] == LBRACKET && |w| >= 2 && (w[1] == COLON || w[1] == EQUALS || w[1] == DOT) then None
    else if |w| >= 3 && w[1] == DASH && w[2] != RBRACKET then ReadSpan(w[0], w[1..])
    else Some((Lone(w[0]), w[1..]))
  }

  function ReadMembers(w: Word, sofar: seq<Member>): (r: Got<seq<Member>>)
    ensures r.Some? ==> |r.value.1| <= |w|
    decreases |w|
  {
    if w == [] || w[0] == RBRACKET || (w[0] == DASH && |w| >= 2 && w[1] == RBRACKET) then Some((sofar, w))
    else match ReadMember(w)
      case None => None
      case Some((m, r)) => ReadMembers(r, sofar + [m])
  }

  /** A closing bracket or a dash that comes first. */
  function ReadLead(w: Word): (r: (Option<Byte>, Word))
    ensures |r.1| <= |w|
  {
    if w != [] && (w[0] == RBRACKET || w[0] == DASH) then (Some(w[0]), w[1..]) else (None, w)
  }

  function ReadDash(w: Word): (r: (Option<Byte>, Word))
    ensures |r.1| <= |w|
  {
    if w != [] && w[0] == DASH then (Some(w[0]), w[1..]) else (None, w)
  }

  function ReadInverted(w: Word): (r: (bool, Word))
    ensures |r.1| <= |w|
  {
    if w != [] && w[0] == CARET then (true, w[1..]) else (false, w)
  }

  /** A bracketed list, behind the opening bracket. */
  function ReadBracket(w: Word): (r: Got<BracketList>)
    ensures r.Some? ==> |r.value.1| < |w|
  {
    var (inverted, r) := ReadInverted(w);
    var (lead, s) := ReadLead(r);
    match ReadMembers(s, [])
    case None => None
    case Some((ms, t)) =>
      var (trail, u) := ReadDash(t);
      if u != [] && u[0] == RBRACKET then Some((BracketList(inverted, lead, ms, trail), u[1..])) else None
  }

  /** The atom that begins with `c`, with `w` behind it. */
  function ReadAtom(c: Byte, w: Word): (r: Got<Atomic>)
    ensures r.Some? ==> |r.value.1| <= |w|
    decreases |w|, 5
  {
    if c == LPAREN then ReadGroup(w)
    else if c == DOT then Some((Dot, w))
    else if c == LBRACKET then
      match ReadBracket(w)
      case None => None
      case Some((b, r)) => Some((Bracket(b), r))
    else if c == BACKSLASH then
      if w == [] then None else Some((Escaped(w[0]), w[1..]))
    else if IsSpecial(c) || (c == LBRACE && StartsDigit(w)) then None
    else Some((Plain(c), w))
  }

  /** A group, behind the opening parenthesis. */
  function ReadGroup(w: Word): (r: Got<Atomic>)
    ensures r.Some? ==> |r.value.1| <= |w|
    decreases |w|, 4
  {
    if w == [] then None
    else if w[0] == RPAREN then Some((EmptyGroup, w[1..]))
    else match ReadEre(w, RPAREN as int, None)
      case None => None
      case Some((e, r)) => if r != [] && r[0] == RPAREN then Some((Nested(e), r[1..])) else None
  }

  function ReadItem(w: Word): (r: Got<Item>)
    requires w != []
    ensures r.Some? ==> |r.value.1| < |w|
    decreases |w|, 0
  {
    match ReadAtom(w[0], w[1..])
    case None => None
    case Some((a, r)) => ReadPostfix(a, r)
  }

  /** What may follow an atom. */
  function ReadPostfix(a: Atomic, w: Word): (r: Got<Item>)
    ensures r.Some? ==> |r.value.1| <= |w|
  {
    if !StartsRepeat(w) then Some((Item(a, Once), w))
    else match ReadRepeat(w[0], w[1..])
      case None => None
      case Some((t, r)) => if StartsRepeat(r) then None else Some((Item(a, t), r))
  }

  /** A branch, up to a bar or the character `stop`. */
  function ReadSequence(w: Word, stop: int, front: Sequence): (r: Got<Sequence>)
    ensures r.Some? ==> |r.value.1| <= |w|
    ensures r.Some? ==> r.value.1 == [] || r.value.1[0] == BAR || r.value.1[0] as int == stop
    decreases |w|, 1
  {
    if w == [] || w[0] == BAR || w[0] as int == stop then Some((front, w))
    else match ReadItem(w)
      case None => None
      case Some((i, r)) => ReadSequence(r, stop, Chain(front, i))
  }

  /** A branch, which must stand for more than the empty word of `x{0}`. */
  function ReadBranch(w: Word, stop: int): (r: Got<Sequence>)
    ensures r.Some? ==> |r.value.1| <= |w|
    ensures r.Some? ==> r.value.1 == [] || r.value.1[0] == BAR || r.value.1[0] as int == stop
    decreases |w|, 2
  {
    match ReadSequence(w, stop, Nothing)
    case None => None
    case Some((s, r)) => if SomeEmits(s) then Some((s, r)) else None
  }

  /** Another branch behind those already read. */
  function Joined(before: Option<Ere>, s: Sequence): Ere {
    match before
    case None => Only(s)
    case Some(e) => Either(e, s)
  }

  /** An expression up to the character `stop`, behind the branches already read. */
  function ReadEre(w: Word, stop: int, before: Option<Ere>): (r: Got<Ere>)
    ensures r.Some? ==> |r.value.1| <= |w|
    ensures r.Some? ==> r.value.1 == [] || r.value.1[0] as int == stop
    decreases |w|, 3
  {
    match ReadBranch(w, stop)
    case None => None
    case Some((s, r)) =>
      if r != [] && r[0] == BAR then ReadEre(r[1..], stop, Some(Joined(before, s)))
      else Some((Joined(before, s), r))
  }

  // ----- what is read is well formed

  lemma Took(all: Word, first: Word, between: Word, second: Word, left: Word)
    requires all == first + between && between == second + left
    ensures all == first + second + left
  {
  }

  lemma {:induction false} DigitsSound(w: Word, sofar: Word)
    requires AllDigits(sofar) && ReadDigits(w, sofar).Some?
    ensures CountOk(ReadDigits(w, sofar).value.0)
    decreases |w|
  {
    if w != [] && IsDigit(w[0]) && DecimalValue(sofar) <= DUPMAX {
      DigitsSound(w[1..], sofar + [w[0]]);
    }
  }

  lemma UpperSound(w: Word, min: Word)
    requires CountOk(min) && ReadUpper(w, min).Some?
    ensures var (t, r) := ReadUpper(w, min).value;
      RepeatOk(t) && IsCounted(t) && [LBRACE] + min + [COMMA] + w == BoundsText(t) + r
  {
    if StartsDigit(w) {
      DigitsSound(w, []);
      var (max, r) := ReadDigits(w, []).value;
      Took([LBRACE] + min + [COMMA] + w, [LBRACE] + min + [COMMA], w, max, r);
    }
  }

  lemma BoundsSound(w: Word)
    requires ReadBounds(w).Some?
    ensures var (t, r) := ReadBounds(w).value; RepeatOk(t) && IsCounted(t) && [LBRACE] + w == BoundsText(t) + r
  {
    DigitsSound(w, []);
    var (min, r) := ReadDigits(w, []).value;
    Took([LBRACE] + w, [LBRACE], w, min, r);
    if r != [] && r[0] == COMMA {
      UpperSound(r[1..], min);
      Took([LBRACE] + w, [LBRACE] + min, r, [COMMA], r[1..]);
    }
  }

  lemma RepeatSound(c: Byte, w: Word)
    requires (c == STAR || c == PLUS || c == QUEST || c == LBRACE) && ReadRepeat(c, w).Some?
    ensures var (t, r) := ReadRepeat(c, w).value; RepeatOk(t) && t != Once && [c] + w == RepeatText(t) + r
  {
    if c == LBRACE {
      BoundsSound(w);
      var (t, r) := ReadBounds(w).value;
      Took([c] + w, BoundsText(t), r, [RBRACE], r[1..]);
    }
  }

  lemma MemberSound(w: Word)
    requires w != [] && w[0] != RBRACKET && ReadMember(w).Some?
    ensures var (m, r) := ReadMember(w).value; MemberOk(m) && w == MemberText(m) + r && FirstOf(m) == w[0]
  {
  }

  /** `w` may stand behind the members. */
  ghost predicate Follows(ms: seq<Member>, w: Word) {
    ms != [] && w != [] && w[0] != RBRACKET && w[0] != DASH ==> forall n :: MemberOk(n) && FirstOf(n) == w[0] ==> MayFollow(ms[|ms| - 1], n)
  }

  lemma MemberFollowed(ms: seq<Member>, w: Word)
    requires w != [] && w[0] != RBRACKET && ReadMember(w).Some?
    ensures Follows(ms + [ReadMember(w).value.0], ReadMember(w).value.1)
  {
  }

  lemma MembersOkMore(ms: seq<Member>, m: Member, w: Word)
    requires MembersOk(ms) && MemberOk(m) && Follows(ms, w) && w != [] && FirstOf(m) == w[0]
    ensures MembersOk(ms + [m])
  {
  }

  lemma MembersTextMore(ms: seq<Member>, m: Member)
    ensures MembersText(ms + [m]) == MembersText(ms) + MemberText(m)
  {
    assert (ms + [m])[..|ms + [m]| - 1] == ms;
  }

  lemma {:induction false} MembersSound(w: Word, sofar: seq<Member>)
    requires MembersOk(sofar) && Follows(sofar, w) && ReadMembers(w, sofar).Some?
    ensures var (ms, r) := ReadMembers(w, sofar).value;
      MembersOk(ms) && MembersText(sofar) + w == MembersText(ms) + r && sofar <= ms && (|ms| > |sofar| ==> w != [] && FirstOf(ms[|sofar|]) == w[0])
    decreases |w|
  {
    if !(w == [] || w[0] == RBRACKET || (w[0] == DASH && |w| >= 2 && w[1] == RBRACKET)) {
      var (m, r) := ReadMember(w).value;
      hide ReadMember, MemberText, MembersText, MembersOk, Follows;
      MemberSound(w);
      MemberFollowed(sofar, w);
      MembersTextMore(sofar, m);
      MembersOkMore(sofar, m, w);
      MembersSound(r, sofar + [m]);
      Took(MembersText(sofar) + w, MembersText(sofar), w, MemberText(m), r);
    }
  }

  lemma BracketPieces(b: BracketList, r0: Word, r1: Word, r2: Word, r3: Word, r4: Word, r5: Word)
    requires r0 == (if b.inverted then [CARET] else []) + r1 && r1 == OptionText(b.lead) + r2
    requires r2 == MembersText(b.members) + r3 && r3 == OptionText(b.trail) + r4 && r4 == [RBRACKET] + r5
    ensures [LBRACKET] + r0 == BracketText(b) + r5
  {
    var all, caret := [LBRACKET] + r0, if b.inverted then [CARET] else [];
    Took(all, [LBRACKET], r0, caret, r1);
    Took(all, [LBRACKET] + caret, r1, OptionText(b.lead), r2);
    Took(all, [LBRACKET] + caret + OptionText(b.lead), r2, MembersText(b.members), r3);
    Took(all, [LBRACKET] + caret + OptionText(b.lead) + MembersText(b.members), r3, OptionText(b.trail), r4);
    Took(all, [LBRACKET] + caret + OptionText(b.lead) + MembersText(b.members) + OptionText(b.trail), r4, [RBRACKET], r5);
  }

  lemma NoMembers(w: Word)
    ensures MembersText([]) + w == w && MembersOk([]) && Follows([], w)
  {
  }

  lemma BracketSound(w: Word)
    requires ReadBracket(w).Some?
    ensures var (b, r) := ReadBracket(w).value; BracketOk(b) && [LBRACKET] + w == BracketText(b) + r
  {
    hide ReadMember, MembersText, MemberOk, MayFollow;
    var (inverted, r) := ReadInverted(w);
    var (lead, s) := ReadLead(r);
    NoMembers(s);
    MembersSound(s, []);
    var (ms, t) := ReadMembers(s, []).value;
    var (trail, u) := ReadDash(t);
    var b := BracketList(inverted, lead, ms, trail);
    BracketPieces(b, w, r, s, t, u, u[1..]);
  }

  // ----- atoms, items, branches and expressions

  lemma {:induction false} AtomSound(c: Byte, w: Word)
    requires ReadAtom(c, w).Some?
    ensures var (a, r) := ReadAtom(c, w).value;
      AtomOk(a) && [c] + w == AtomText(a) + r && (a.Plain? ==> a.c == c) && (a == Plain(LBRACE) ==> !StartsDigit(r))
    decreases |w|, 4
  {
    if c == LPAREN {
      GroupSound(w);
    } else if c == LBRACKET {
      BracketSound(w);
    } else if c == BACKSLASH {
      Took([c] + w, [c], w, [w[0]], w[1..]);
    }
  }

  lemma {:induction false} GroupSound(w: Word)
    requires ReadGroup(w).Some?
    ensures var (a, r) := ReadGroup(w).value; !a.Plain? && AtomOk(a) && [LPAREN] + w == AtomText(a) + r
    decreases |w|, 3
  {
    if w[0] != RPAREN {
      EreSound(w, RPAREN as int, None);
      var (e, r) := ReadEre(w, RPAREN as int, None).value;
      Took([LPAREN] + w, [LPAREN], w, EreText(e), r);
      Took([LPAREN] + w, [LPAREN] + EreText(e), r, [RPAREN], r[1..]);
    } else {
      assert w == [RPAREN] + w[1..];
    }
  }

  lemma {:induction false} ItemSound(w: Word)
    requires w != [] && ReadItem(w).Some?
    ensures var (i, r) := ReadItem(w).value;
      && AtomOk(i.atom) && RepeatOk(i.times) && w == ItemText(i) + r
      && (i.atom.Plain? ==> i.atom.c == w[0]) && (IsBrace(i) ==> !StartsDigit(r))
    decreases |w|, 0
  {
    hide AtomText, RepeatText, ReadAtom, ReadPostfix, RepeatOk;
    AtomSound(w[0], w[1..]);
    assert [w[0]] + w[1..] == w;
    var (a, r) := ReadAtom(w[0], w[1..]).value;
    PostfixSound(w, a, r);
  }

  lemma PostfixSound(w: Word, a: Atomic, r: Word)
    requires w == AtomText(a) + r && (a == Plain(LBRACE) ==> !StartsDigit(r)) && ReadPostfix(a, r).Some?
    ensures var (i, v) := ReadPostfix(a, r).value;
      i.atom == a && RepeatOk(i.times) && w == ItemText(i) + v && (IsBrace(i) ==> !StartsDigit(v))
  {
    if StartsRepeat(r) {
      hide AtomText, RepeatText, ReadRepeat, RepeatOk;
      RepeatSound(r[0], r[1..]);
      var (t, v) := ReadRepeat(r[0], r[1..]).value;
      assert [r[0]] + r[1..] == r;
      Took(w, AtomText(a), r, RepeatText(t), v);
    } else {
      assert AtomText(a) + RepeatText(Once) == AtomText(a);
    }
  }

  lemma {:induction false} SequenceSound(w: Word, stop: int, front: Sequence)
    requires ItemsOk(front) && (front.Chain? && IsBrace(front.item) ==> !StartsDigit(w)) && ReadSequence(w, stop, front).Some?
    ensures var (s, r) := ReadSequence(w, stop, front).value; ItemsOk(s) && SequenceText(front) + w == SequenceText(s) + r
    decreases |w|, 1
  {
    if !(w == [] || w[0] == BAR || w[0] as int == stop) {
      ItemSound(w);
      var (i, r) := ReadItem(w).value;
      SequenceSound(r, stop, Chain(front, i));
      Took(SequenceText(front) + w, SequenceText(front), w, ItemText(i), r);
    }
  }

  function BeforeText(before: Option<Ere>): Word {
    match before
    case None => []
    case Some(e) => EreText(e) + [BAR]
  }

  lemma JoinedText(before: Option<Ere>, s: Sequence)
    ensures EreText(Joined(before, s)) == BeforeText(before) + SequenceText(s)
    ensures BeforeText(Some(Joined(before, s))) == EreText(Joined(before, s)) + [BAR]
    ensures (before.Some? ==> EreOk(before.value)) && SequenceOk(s) ==> EreOk(Joined(before, s))
  {
  }

  /** What is read is a well-formed expression with that text. */
  lemma {:induction false} EreSound(w: Word, stop: int, before: Option<Ere>)
    requires (before.Some? ==> EreOk(before.value)) && ReadEre(w, stop, before).Some?
    ensures var (e, r) := ReadEre(w, stop, before).value; EreOk(e) && BeforeText(before) + w == EreText(e) + r
    decreases |w|, 2
  {
    SequenceSound(w, stop, Nothing);
    var (s, r) := ReadSequence(w, stop, Nothing).value;
    var e := Joined(before, s);
    assert w == SequenceText(s) + r;
    hide ReadSequence, SequenceText, SomeEmits, ItemsOk;
    Took(BeforeText(before) + w, BeforeText(before), w, SequenceText(s), r);
    JoinedText(before, s);
    hide EreText, BeforeText;
    if r != [] && r[0] == BAR {
      Took(BeforeText(before) + w, EreText(e), r, [BAR], r[1..]);
      EreSound(r[1..], stop, Some(e));
    }
  }

  // ----- every well-formed expression is read

  lemma {:induction false} PrefixValue(d: Word, k: nat)
    requires AllDigits(d) && k <= |d|
    ensures 0 <= DecimalValue(d[..k]) <= DecimalValue(d)
    decreases |d|
  {
    if k < |d| {
      PrefixValue(d[..|d| - 1], k);
      assert d[..|d| - 1][..k] == d[..k];
    } else if d != [] {
      PrefixValue(d[..|d| - 1], |d| - 1);
      assert d[..k] == d;
      assert d[..|d| - 1][..|d| - 1] == d[..|d| - 1];
    }
  }

  lemma {:induction false} DigitsRead(d: Word, k: nat, w: Word)
    requires CountOk(d) && k <= |d| && !StartsDigit(w)
    ensures ReadDigits(d[k..] + w, d[..k]) == Some((d, w))
    decreases |d| - k
  {
    PrefixValue(d, k);
    if k < |d| {
      var v := d[k..] + w;
      assert v[0] == d[k] && v[1..] == d[k + 1..] + w && d[..k] + [d[k]] == d[..k + 1];
      DigitsRead(d, k + 1, w);
    } else {
      assert d[k..] + w == w && d[..k] == d;
    }
  }

  lemma CountRead(d: Word, w: Word)
    requires CountOk(d) && !StartsDigit(w)
    ensures ReadDigits(d + w, []) == Some((d, w))
  {
    DigitsRead(d, 0, w);
    assert d[0..] == d && d[..0] == [];
  }

  lemma BoundsRead(min: Word, t: Repeat, rest: Word, w: Word)
    requires CountOk(min) && ReadUpper(rest, min) == Some((t, w))
    ensures ReadBounds(min + ([COMMA] + rest)) == Some((t, w))
  {
    hide ReadDigits, ReadUpper;
    CountRead(min, [COMMA] + rest);
    assert ([COMMA] + rest)[1..] == rest;
  }

  lemma UpperRead(min: Word, max: Word, w: Word)
    requires CountOk(max) && DecimalValue(min) <= DecimalValue(max) && !StartsDigit(w)
    ensures ReadUpper(max + w, min) == Some((Between(min, max), w))
  {
    hide ReadDigits, DecimalValue;
    CountRead(max, w);
  }

  lemma CountedRead(t: Repeat, w: Word)
    requires RepeatOk(t) && IsCounted(t)
    ensures ReadCounted((BoundsText(t) + [RBRACE] + w)[1..]) == Some((t, w))
  {
    var brace := [RBRACE] + w;
    assert (BoundsText(t) + [RBRACE] + w)[1..] == BoundsTail(t, brace) by {
      TailRight(t, w);
    }
    assert ReadBounds(BoundsTail(t, brace)) == Some((t, brace)) by {
      TailRead(t, brace);
    }
    assert brace[1..] == w && brace[0] == RBRACE;
    hide ReadBounds, BoundsText, BoundsTail, RepeatOk;
  }

  /** What stands behind the opening brace, if `rest` comes after the bounds. */
  function BoundsTail(t: Repeat, rest: Word): Word {
    match t
    case Exactly(min) => min + rest
    case AtLeast(min) => min + ([COMMA] + rest)
    case Between(min, max) => min + ([COMMA] + (max + rest))
    case _ => rest
  }

  lemma TailRight(t: Repeat, w: Word)
    requires IsCounted(t)
    ensures (BoundsText(t) + [RBRACE] + w)[1..] == BoundsTail(t, [RBRACE] + w)
  {
  }

  lemma TailRead(t: Repeat, rest: Word)
    requires RepeatOk(t) && IsCounted(t) && rest != [] && rest[0] == RBRACE
    ensures ReadBounds(BoundsTail(t, rest)) == Some((t, rest))
  {
    hide ReadDigits, ReadUpper, DecimalValue;
    match t
    case Exactly(min) => CountRead(min, rest);
    case AtLeast(min) =>
      NoUpper(rest, min);
      BoundsRead(min, t, rest, rest);
    case Between(min, max) =>
      UpperRead(min, max, rest);
      BoundsRead(min, t, max + rest, rest);
  }

  lemma NoUpper(w: Word, min: Word)
    requires !StartsDigit(w)
    ensures ReadUpper(w, min) == Some((AtLeast(min), w))
  {
  }

  lemma RepeatRead(t: Repeat, w: Word)
    requires RepeatOk(t) && t != Once
    ensures var v := RepeatText(t) + w; StartsRepeat(v) && !StartsDigit(v) && ReadRepeat(v[0], v[1..]) == Some((t, w))
  {
    if IsCounted(t) {
      CountedRead(t, w);
    }
  }

  // ----- bracketed lists are read

  /** `v` may stand right behind the member `m`: another member that may follow
      it, a dash at the end of the list, or the end. */
  predicate Behind(m: Member, v: Word) {
    && v != []
    && (v[0] == DASH ==> |v| >= 2 && v[1] == RBRACKET)
    && match m
       case Lone(c) => c == LBRACKET ==> v[0] != COLON && v[0] != EQUALS && v[0] != DOT
       case Span(_, high) => high == LBRACKET ==> v[0] != DOT
  }

  lemma MemberRead(m: Member, v: Word)
    requires MemberOk(m) && Behind(m, v)
    ensures ReadMember(MemberText(m) + v) == Some((m, v))
  {
    var w := MemberText(m) + v;
    match m
    case Lone(c) => assert w[1..] == v;
    case Span(low, high) => assert w[1..][2..] == v && w[1..][1] == high;
  }

  /** The text of a member may stand behind the one in front of it. */
  lemma MemberBehind(ms: seq<Member>, i: nat, v: Word)
    requires MembersOk(ms) && 0 < i < |ms|
    ensures Behind(ms[i - 1], MemberText(ms[i]) + v)
  {
    assert MemberOk(ms[i]) && MayFollow(ms[i - 1], ms[i]);
    assert (MemberText(ms[i]) + v)[0] == FirstOf(ms[i]);
  }

  lemma MembersStep(m: Member, v: Word, sofar: seq<Member>)
    requires MemberOk(m) && Behind(m, v)
    ensures ReadMembers(MemberText(m) + v, sofar) == ReadMembers(v, sofar + [m])
  {
    MemberRead(m, v);
    assert (MemberText(m) + v)[0] == FirstOf(m);
  }

  lemma {:induction false} MembersRead(ms: seq<Member>, n: nat, v: Word)
    requires MembersOk(ms) && n <= |ms| && (n > 0 ==> Behind(ms[n - 1], v))
    ensures ReadMembers(MembersText(ms[..n]) + v, []) == ReadMembers(v, ms[..n])
    decreases n
  {
    if n == 0 {
      assert MembersText(ms[..0]) + v == v;
    } else {
      hide MemberText, Behind, ReadMembers, MemberOk, MayFollow;
      var start, m := ms[..n - 1], ms[n - 1];
      var w := MemberText(m) + v;
      assert ms[..n][..n - 1] == start && start + [m] == ms[..n];
      if n > 1 {
        MemberBehind(ms, n - 1, v);
      }
      MembersRead(ms, n - 1, w);
      MembersStep(m, v, start);
      Grouped(MembersText(start), MemberText(m), v);
    }
  }

  lemma Grouped(a: Word, b: Word, c: Word)
    ensures a + b + c == a + (b + c)
  {
  }

  lemma BracketRead(b: BracketList, w: Word)
    requires BracketOk(b)
    ensures ReadBracket((BracketText(b) + w)[1..]) == Some((b, w))
  {
    hide ReadMembers, ReadInverted, ReadLead, ReadDash, MembersText, MemberOk, MayFollow, FirstOf, Behind;
    var close := [RBRACKET] + w;
    var t := OptionText(b.trail) + close;
    var s := MembersText(b.members) + t;
    var r := OptionText(b.lead) + s;
    var all := (if b.inverted then [CARET] else []) + r;
    BracketTail(b, close, t, s, r, all, w);
    DashRead(b, close, t);
    assert b.members[..|b.members|] == b.members;
    MembersRead(b.members, |b.members|, t);
    BracketStart(b, t, s, r, all);
    assert close[1..] == w && close[0] == RBRACKET;
  }

  lemma BracketTail(b: BracketList, close: Word, t: Word, s: Word, r: Word, all: Word, w: Word)
    requires close == [RBRACKET] + w && t == OptionText(b.trail) + close && s == MembersText(b.members) + t
    requires r == OptionText(b.lead) + s && all == (if b.inverted then [CARET] else []) + r
    ensures (BracketText(b) + w)[1..] == all
  {
    hide MembersText, OptionText;
    BracketPieces(b, all, r, s, t, close, w);
    assert ([LBRACKET] + all)[1..] == all;
  }

  lemma DashRead(b: BracketList, close: Word, t: Word)
    requires BracketOk(b) && close != [] && close[0] == RBRACKET && t == OptionText(b.trail) + close
    ensures ReadMembers(t, b.members) == Some((b.members, t)) && ReadDash(t) == (b.trail, close)
    ensures b.members != [] ==> Behind(b.members[|b.members| - 1], t)
  {
    if b.trail.Some? {
      assert t[1..] == close && t[0] == DASH;
    } else {
      assert t == close;
    }
  }

  lemma BracketStart(b: BracketList, t: Word, s: Word, r: Word, all: Word)
    requires BracketOk(b) && s == MembersText(b.members) + t
    requires r == OptionText(b.lead) + s && all == (if b.inverted then [CARET] else []) + r
    ensures ReadInverted(all) == (b.inverted, r) && ReadLead(r) == (b.lead, s)
  {
    if b.lead.None? {
      MembersFirst(b.members);
      assert r == s;
      assert MemberOk(b.members[0]);
    } else {
      assert r[1..] == s;
    }
    if b.inverted {
      assert all[1..] == r;
    } else {
      assert all == r;
    }
  }

  lemma {:induction false} MembersFirst(ms: seq<Member>)
    requires ms != []
    ensures MembersText(ms) != [] && MembersText(ms)[0] == FirstOf(ms[0])
  {
    if |ms| > 1 {
      MembersFirst(ms[..|ms| - 1]);
    } else {
      assert ms[..0] == [];
      assert MembersText(ms) == MemberText(ms[0]);
    }
  }

  // ----- atoms, items, branches and expressions are read

  lemma AtomFirst(a: Atomic)
    ensures AtomText(a) != []
    ensures AtomOk(a) ==> AtomText(a)[0] != BAR && AtomText(a)[0] != RPAREN
    ensures AtomOk(a) ==> AtomText(a)[0] != STAR && AtomText(a)[0] != PLUS && AtomText(a)[0] != QUEST
    ensures AtomOk(a) && AtomText(a)[0] == LBRACE ==> a == Plain(LBRACE)
    ensures AtomOk(a) && IsDigit(AtomText(a)[0]) ==> a.Plain? && IsDigit(a.c)
  {
  }

  lemma {:induction false} AtomRead(a: Atomic, w: Word)
    requires AtomOk(a) && (a == Plain(LBRACE) ==> !StartsDigit(w))
    ensures AtomText(a) != [] && ReadAtom(AtomText(a)[0], AtomText(a)[1..] + w) == Some((a, w))
    decreases a, 0
  {
    hide ReadBracket, MembersText, ReadEre, EreText, BracketOk, SequenceOk;
    match a
    case EmptyGroup =>
      assert AtomText(a)[1..] + w == [RPAREN] + w;
      assert ([RPAREN] + w)[1..] == w;
    case Nested(e) =>
      var v := EreText(e) + ([RPAREN] + w);
      assert AtomText(a)[1..] + w == v;
      EreFirst(e);
      EreReadOn(e, [RPAREN] + w, RPAREN as int);
      assert ([RPAREN] + w)[1..] == w;
    case Dot => assert AtomText(a)[1..] + w == w;
    case Escaped(c) => assert AtomText(a)[1..] + w == [c] + w && ([c] + w)[1..] == w;
    case Plain(c) => assert AtomText(a)[1..] + w == w;
    case Bracket(b) =>
      BracketRead(b, w);
      assert AtomText(a)[1..] + w == (BracketText(b) + w)[1..];
  }

  lemma {:induction false} EreFirst(e: Ere)
    requires EreOk(e)
    ensures EreText(e) != [] && EreText(e)[0] != RPAREN
  {
    match e
    case Only(s) => SequenceFirst(s);
    case Either(left, right) => EreFirst(left);
  }

  lemma {:induction false} SequenceFirst(s: Sequence)
    requires ItemsOk(s) && s.Chain?
    ensures SequenceText(s) != [] && SequenceText(s)[0] != RPAREN
  {
    if s.front.Chain? {
      SequenceFirst(s.front);
    } else {
      AtomFirst(s.item.atom);
      assert SequenceText(s) == ItemText(s.item);
    }
  }

  lemma {:induction false} ItemRead(i: Item, w: Word)
    requires AtomOk(i.atom) && RepeatOk(i.times) && !StartsRepeat(w) && (IsBrace(i) ==> !StartsDigit(w))
    ensures ItemText(i) != [] && ReadItem(ItemText(i) + w) == Some((i, w))
    decreases i.atom, 1
  {
    hide AtomText, ReadAtom, ReadRepeat, AtomOk, RepeatOk, StartsRepeat, ReadPostfix;
    var rest := RepeatText(i.times) + w;
    AtomFirst(i.atom);
    PostfixRead(i, w, rest);
    AtomRead(i.atom, rest);
    Headed(AtomText(i.atom), RepeatText(i.times), w);
  }

  lemma Headed(a: Word, b: Word, w: Word)
    requires a != []
    ensures (a + b + w)[0] == a[0] && (a + b + w)[1..] == a[1..] + (b + w)
  {
  }

  lemma PostfixRead(i: Item, w: Word, rest: Word)
    requires RepeatOk(i.times) && !StartsRepeat(w) && (IsBrace(i) ==> !StartsDigit(w)) && rest == RepeatText(i.times) + w
    ensures ReadPostfix(i.atom, rest) == Some((i, w)) && (i.atom == Plain(LBRACE) ==> !StartsDigit(rest))
  {
    if i.times == Once {
      assert rest == w;
    } else {
      hide RepeatText, ReadRepeat, RepeatOk;
      RepeatRead(i.times, w);
    }
  }

  /** What may stand behind a branch that ends with the sequence `s`. */
  predicate MayStand(s: Sequence, w: Word) {
    !StartsRepeat(w) && (s.Chain? && IsBrace(s.item) ==> !StartsDigit(w))
  }

  lemma ItemStands(front: Sequence, i: Item, w: Word)
    requires ItemsOk(Chain(front, i)) && MayStand(Chain(front, i), w)
    ensures MayStand(front, ItemText(i) + w)
  {
    AtomFirst(i.atom);
    Headed(AtomText(i.atom), RepeatText(i.times), w);
    if i.atom == Plain(LBRACE) {
      BraceStands(i, w);
    }
    hide AtomText, RepeatText, AtomOk, RepeatOk;
  }

  lemma BraceStands(i: Item, w: Word)
    requires i.atom == Plain(LBRACE) && RepeatOk(i.times) && (IsBrace(i) ==> !StartsDigit(w))
    ensures !StartsRepeat(ItemText(i) + w)
  {
    Headed(AtomText(i.atom), RepeatText(i.times), w);
    if i.times != Once {
      RepeatRead(i.times, w);
    }
    assert AtomText(i.atom)[1..] + (RepeatText(i.times) + w) == RepeatText(i.times) + w;
    hide RepeatText, RepeatOk, ReadRepeat;
  }

  lemma {:induction false} SequenceRead(s: Sequence, w: Word, stop: int)
    requires ItemsOk(s) && MayStand(s, w) && (stop == RPAREN as int || stop == 256)
    ensures ReadSequence(SequenceText(s) + w, stop, Nothing) == ReadSequence(w, stop, s)
    decreases s, 0
  {
    match s
    case Nothing => assert SequenceText(s) + w == w;
    case Chain(front, i) =>
      hide ReadItem, ReadSequence, AtomText, RepeatText, AtomOk, RepeatOk, StartsRepeat, StartsDigit;
      var v := ItemText(i) + w;
      ItemStands(front, i, w);
      SequenceRead(front, v, stop);
      ItemRead(i, w);
      SequenceStep(front, i, w, stop);
      Grouped(SequenceText(front), ItemText(i), w);
  }

  lemma SequenceStep(front: Sequence, i: Item, w: Word, stop: int)
    requires AtomOk(i.atom) && (stop == RPAREN as int || stop == 256)
    requires ItemText(i) != [] && ReadItem(ItemText(i) + w) == Some((i, w))
    ensures ReadSequence(ItemText(i) + w, stop, front) == ReadSequence(w, stop, Chain(front, i))
  {
    hide ReadItem;
    AtomFirst(i.atom);
    assert (ItemText(i) + w)[0] == AtomText(i.atom)[0];
  }

  /** Reading goes on behind an expression. */
  function Onward(e: Ere, w: Word, stop: int): Got<Ere> {
    if w != [] && w[0] == BAR then ReadEre(w[1..], stop, Some(e)) else Some((e, w))
  }

  lemma BranchRead(s: Sequence, w: Word, stop: int, before: Option<Ere>)
    requires SequenceOk(s) && (stop == RPAREN as int || stop == 256)
    requires w == [] || w[0] == BAR || w[0] as int == stop
    requires ReadSequence(SequenceText(s) + w, stop, Nothing) == ReadSequence(w, stop, s)
    ensures ReadEre(SequenceText(s) + w, stop, before) == Onward(Joined(before, s), w, stop)
  {
  }

  lemma {:induction false} EreReadOn(e: Ere, w: Word, stop: int)
    requires EreOk(e) && (stop == RPAREN as int || stop == 256)
    requires w == [] || w[0] == BAR || w[0] as int == stop
    ensures ReadEre(EreText(e) + w, stop, None) == Onward(e, w, stop)
    decreases e
  {
    match e
    case Only(s) =>
      SequenceRead(s, w, stop);
      BranchRead(s, w, stop, None);
    case Either(left, s) =>
      var v := [BAR] + (SequenceText(s) + w);
      assert EreText(e) + w == EreText(left) + v;
      EreReadOn(left, v, stop);
      assert v[1..] == SequenceText(s) + w;
      SequenceRead(s, w, stop);
      BranchRead(s, w, stop, Some(left));
  }

  // ----- the grammar is unambiguous

  /** A text that is read to its end. */
  function Read(pattern: Word): Option<Ere> {
    match ReadEre(pattern, 256, None)
    case Some((e, r)) => if r == [] then Some(e) else None
    case None => None
  }

  /** The reader finds a tree exactly if there is a well-formed one, and then that one. */
  lemma ReadExact(pattern: Word, e: Ere)
    ensures Read(pattern) == Some(e) <==> EreOk(e) && EreText(e) == pattern
  {
    if Read(pattern) == Some(e) {
      EreSound(pattern, 256, None);
      assert BeforeText(None) + pattern == pattern && EreText(e) + [] == EreText(e);
    }
    if EreOk(e) && EreText(e) == pattern {
      EreReadOn(e, [], 256);
      assert EreText(e) + [] == pattern;
    }
  }

  /** A text has at most one well-formed tree. */
  lemma Unambiguous(e: Ere, f: Ere)
    requires EreOk(e) && EreOk(f) && EreText(e) == EreText(f)
    ensures e == f
  {
    ReadExact(EreText(e), e);
    ReadExact(EreText(f), f);
  }
}
