/** The nodes of an AVL tree (src-api/common/avl.h), and the shapes their tree
    pointers form. */
module AvlShape {
  /** A node.  `next` and `previous` are its list entity, the rest belongs to the
      tree.  Keys are compared as integers. */
  class AvlNode {
    var next: AvlNode?
    var previous: AvlNode?
    var parent: AvlNode?
    var left: AvlNode?
    var right: AvlNode?
    const key: int
    var balance: int
    var follower: bool

    constructor (key: int)
      ensures this.key == key
    {
      this.key := key;
    }
  }

  /** A tree as a value: its nodes and the balances they store. */
  datatype Shape = Leaf | Bin(left: Shape, node: AvlNode, balance: int, right: Shape)

  /** The tree around a subtree, from the subtree's parent up to the root. */
  datatype Context =
    | Top
    | LeftOf(up: Context, node: AvlNode, balance: int, right: Shape)
    | RightOf(up: Context, left: Shape, node: AvlNode, balance: int)

  function Plug(c: Context, s: Shape): Shape {
    match c
    case Top => s
    case LeftOf(up, n, b, r) => Plug(up, Bin(s, n, b, r))
    case RightOf(up, l, n, b) => Plug(up, Bin(l, n, b, s))
  }

  ghost function Nodes(s: Shape): set<AvlNode> {
    match s
    case Leaf => {}
    case Bin(l, n, _, r) => Nodes(l) + {n} + Nodes(r)
  }

  ghost function ContextNodes(c: Context): set<AvlNode> {
    match c
    case Top => {}
    case LeftOf(up, n, _, r) => ContextNodes(up) + {n} + Nodes(r)
    case RightOf(up, l, n, _) => ContextNodes(up) + {n} + Nodes(l)
  }

  /** No node is in two places. */
  ghost predicate Apart(s: Shape) {
    match s
    case Leaf => true
    case Bin(l, n, _, r) =>
      Apart(l) && Apart(r) && n !in Nodes(l) && n !in Nodes(r) && Nodes(l) !! Nodes(r)
  }

  ghost predicate ContextApart(c: Context) {
    match c
    case Top => true
    case LeftOf(up, n, _, r) =>
      ContextApart(up) && Apart(r) && n !in ContextNodes(up) && n !in Nodes(r) && ContextNodes(up) !! Nodes(r)
    case RightOf(up, l, n, _) =>
      ContextApart(up) && Apart(l) && n !in ContextNodes(up) && n !in Nodes(l) && ContextNodes(up) !! Nodes(l)
  }

  function Child(s: Shape): AvlNode? {
    if s.Leaf? then null else s.node
  }

  function Parent(c: Context): AvlNode? {
    if c.Top? then null else c.node
  }

  /** The root of the whole tree when `child` is at the hole. */
  function RootOver(c: Context, child: AvlNode?): AvlNode? {
    match c
    case Top => child
    case LeftOf(up, n, _, _) => RootOver(up, n)
    case RightOf(up, _, n, _) => RootOver(up, n)
  }

  // ----- the tree pointers form a shape

  /** How many nodes of the shape do not hold the pointers and the balance that
      it says, `up` being the parent of its root. */
  ghost function Flaws(s: Shape, up: AvlNode?): nat
    reads Nodes(s)`parent, Nodes(s)`left, Nodes(s)`right, Nodes(s)`balance
  {
    match s
    case Leaf => 0
    case Bin(l, n, b, r) =>
      Flaws(l, n) + Flaws(r, n) +
      if n.parent == up && n.balance == b && n.left == Child(l) && n.right == Child(r) then 0 else 1
  }

  ghost predicate Linked(s: Shape, up: AvlNode?)
    reads Nodes(s)`parent, Nodes(s)`left, Nodes(s)`right, Nodes(s)`balance
  {
    Flaws(s, up) == 0
  }

  /** The same for the tree around a hole with `child` in it. */
  ghost function ContextFlaws(c: Context, child: AvlNode?): nat
    reads ContextNodes(c)`parent, ContextNodes(c)`left, ContextNodes(c)`right, ContextNodes(c)`balance
  {
    match c
    case Top => 0
    case LeftOf(up, n, b, r) =>
      Flaws(r, n) + ContextFlaws(up, n) +
      if n.parent == Parent(up) && n.balance == b && n.left == child && n.right == Child(r) then 0 else 1
    case RightOf(up, l, n, b) =>
      Flaws(l, n) + ContextFlaws(up, n) +
      if n.parent == Parent(up) && n.balance == b && n.left == Child(l) && n.right == child then 0 else 1
  }

  ghost predicate ContextLinked(c: Context, child: AvlNode?)
    reads ContextNodes(c)`parent, ContextNodes(c)`left, ContextNodes(c)`right, ContextNodes(c)`balance
  {
    ContextFlaws(c, child) == 0
  }

  /** A context and a subtree make up one tree of distinct nodes. */
  ghost predicate Fit(c: Context, s: Shape) {
    ContextApart(c) && Apart(s) && ContextNodes(c) !! Nodes(s)
  }

  // ----- the nodes in order

  function Inorder(s: Shape): seq<AvlNode> {
    match s
    case Leaf => []
    case Bin(l, n, _, r) => Inorder(l) + [n] + Inorder(r)
  }

  function Earlier(c: Context): seq<AvlNode> {
    match c
    case Top => []
    case LeftOf(up, _, _, _) => Earlier(up)
    case RightOf(up, l, n, _) => Earlier(up) + Inorder(l) + [n]
  }

  function Later(c: Context): seq<AvlNode> {
    match c
    case Top => []
    case LeftOf(up, n, _, r) => [n] + Inorder(r) + Later(up)
    case RightOf(up, _, _, _) => Later(up)
  }

  lemma Regroup<T>(a: seq<T>, b: seq<T>, c: seq<T>, d: seq<T>, e: seq<T>)
    ensures a + (b + c + d) + e == a + b + (c + d + e)
    ensures a + (b + c + d) + e == a + b + c + d + e
    ensures a + b + (c + d + e) == a + b + c + d + e
  {
  }

  lemma {:induction false} PlugInorder(c: Context, s: Shape)
    ensures Inorder(Plug(c, s)) == Earlier(c) + Inorder(s) + Later(c)
  {
    match c
    case Top => assert [] + Inorder(s) + [] == Inorder(s);
    case LeftOf(up, n, b, r) =>
      PlugInorder(up, Bin(s, n, b, r));
      Regroup(Earlier(up), Inorder(s), [n], Inorder(r), Later(up));
    case RightOf(up, l, n, b) =>
      PlugInorder(up, Bin(l, n, b, s));
      Regroup(Earlier(up), Inorder(l), [n], Inorder(s), Later(up));
  }

  // ----- heights and balances

  function Max(a: int, b: int): int {
    if a > b then a else b
  }

  function Height(s: Shape): nat {
    match s
    case Leaf => 0
    case Bin(l, _, _, r) => 1 + Max(Height(l), Height(r))
  }

  /** The height over subtrees of heights `l` and `r`, if `b` is the balance to
      store there and is at most one; -1 otherwise. */
  function LevelOver(l: int, b: int, r: int): int {
    if l >= 0 && r >= 0 && b == r - l && -1 <= b <= 1 then 1 + Max(l, r) else -1
  }

  /** The height of a shape in which every node stores the difference of heights
      below it, and none is more than one; -1 for any other shape. */
  function Level(s: Shape): int {
    match s
    case Leaf => 0
    case Bin(l, _, b, r) => LevelOver(Level(l), b, Level(r))
  }

  predicate Balanced(s: Shape) {
    Level(s) >= 0
  }

  /** The height of the whole when a shape of height `h` is at the hole. */
  function ContextLevel(c: Context, h: int): int {
    match c
    case Top => h
    case LeftOf(up, _, b, r) => ContextLevel(up, LevelOver(h, b, Level(r)))
    case RightOf(up, l, _, b) => ContextLevel(up, LevelOver(Level(l), b, h))
  }

  lemma {:induction false} LevelIsHeight(s: Shape)
    requires Balanced(s)
    ensures Level(s) == Height(s)
  {
    if s.Bin? {
      LevelIsHeight(s.left);
      LevelIsHeight(s.right);
    }
  }

  lemma {:induction false} PlugLevel(c: Context, s: Shape)
    ensures Level(Plug(c, s)) == ContextLevel(c, Level(s))
  {
    match c
    case Top =>
    case LeftOf(up, n, b, r) => PlugLevel(up, Bin(s, n, b, r));
    case RightOf(up, l, n, b) => PlugLevel(up, Bin(l, n, b, s));
  }

  lemma {:induction false} NoLevel(c: Context)
    ensures ContextLevel(c, -1) == -1
  {
    match c
    case Top =>
    case LeftOf(up, _, _, _) => NoLevel(up);
    case RightOf(up, _, _, _) => NoLevel(up);
  }

  // ----- rotations

  /** What a rotation to the right stores as balances in the node that goes down
      and in the one that comes up. */
  function DownRight(node: int, left: int): int {
    if left < 0 then node + 1 - left else node + 1
  }

  function UpRight(node: int, left: int): int {
    if DownRight(node, left) > 0 then left + 1 + DownRight(node, left) else left + 1
  }

  function DownLeft(node: int, right: int): int {
    if right > 0 then node - 1 - right else node - 1
  }

  function UpLeft(node: int, right: int): int {
    if DownLeft(node, right) < 0 then right - 1 + DownLeft(node, right) else right - 1
  }

  function RotatedRight(s: Shape): Shape
    requires s.Bin? && s.left.Bin?
  {
    var l := s.left;
    Bin(l.left, l.node, UpRight(s.balance, l.balance), Bin(l.right, s.node, DownRight(s.balance, l.balance), s.right))
  }

  function RotatedLeft(s: Shape): Shape
    requires s.Bin? && s.right.Bin?
  {
    var r := s.right;
    Bin(Bin(s.left, s.node, DownLeft(s.balance, r.balance), r.left), r.node, UpLeft(s.balance, r.balance), r.right)
  }

  /** Rotations keep the nodes and their order. */
  lemma RightKeeps(s: Shape)
    requires s.Bin? && s.left.Bin?
    ensures Inorder(RotatedRight(s)) == Inorder(s)
  {
    var l := s.left;
    Regroup(Inorder(l.left), [l.node], Inorder(l.right), [s.node], Inorder(s.right));
  }

  lemma LeftKeeps(s: Shape)
    requires s.Bin? && s.right.Bin?
    ensures Inorder(RotatedLeft(s)) == Inorder(s)
  {
    var r := s.right;
    Regroup(Inorder(s.left), [s.node], Inorder(r.left), [r.node], Inorder(r.right));
  }

  /** A double rotation. */
  function RotatedLeftRight(s: Shape): Shape
    requires s.Bin? && s.left.Bin? && s.left.right.Bin?
  {
    RotatedRight(s.(left := RotatedLeft(s.left)))
  }

  function RotatedRightLeft(s: Shape): Shape
    requires s.Bin? && s.right.Bin? && s.right.left.Bin?
  {
    RotatedLeft(s.(right := RotatedRight(s.right)))
  }

  lemma LeftRightKeeps(s: Shape)
    requires s.Bin? && s.left.Bin? && s.left.right.Bin?
    ensures Inorder(RotatedLeftRight(s)) == Inorder(s)
  {
    LeftKeeps(s.left);
    RightKeeps(s.(left := RotatedLeft(s.left)));
  }

  lemma RightLeftKeeps(s: Shape)
    requires s.Bin? && s.right.Bin? && s.right.left.Bin?
    ensures Inorder(RotatedRightLeft(s)) == Inorder(s)
  {
    RightKeeps(s.right);
    LeftKeeps(s.(right := RotatedRight(s.right)));
  }

  /** The subtree is out of balance by one too much on a side, below it all is well. */
  predicate LeftHeavy(s: Shape) {
    s.Bin? && s.left.Bin? && Balanced(s.left) && Balanced(s.right) && s.balance == Level(s.right) - Level(s.left) == -2
  }

  predicate RightHeavy(s: Shape) {
    s.Bin? && s.right.Bin? && Balanced(s.left) && Balanced(s.right) && s.balance == Level(s.right) - Level(s.left) == 2
  }

  /** One rotation, or a rotation below it first, brings the balance back. */
  lemma RightRebalances(s: Shape)
    requires LeftHeavy(s) && s.left.balance <= 0
    ensures Level(RotatedRight(s)) == if s.left.balance == 0 then Level(s.left) + 1 else Level(s.left)
  {
  }

  lemma LeftRebalances(s: Shape)
    requires RightHeavy(s) && s.right.balance >= 0
    ensures Level(RotatedLeft(s)) == if s.right.balance == 0 then Level(s.right) + 1 else Level(s.right)
  {
  }

  lemma LeftRightRebalances(s: Shape)
    requires LeftHeavy(s) && s.left.balance > 0
    ensures s.left.right.Bin? && Level(RotatedLeftRight(s)) == Level(s.left)
  {
    assert Level(s.left.right) > Level(s.left.left);
    assert Level(Leaf) == 0;
  }

  lemma RightLeftRebalances(s: Shape)
    requires RightHeavy(s) && s.right.balance < 0
    ensures s.right.left.Bin? && Level(RotatedRightLeft(s)) == Level(s.right)
  {
    assert Level(s.right.left) > Level(s.right.right);
    assert Level(Leaf) == 0;
  }
}
