/** Pointer surgery on AVL trees: rotations and replacing nodes
    (src-api/common/avl.c). */
module AvlLinks {
  import opened AvlShape

  class AvlTree {
    /** The list head: only its list pointers are used. */
    const head: AvlNode
    var root: AvlNode?
    var count: nat
    var allowDups: bool
    /** The shape of the tree, and the list. */
    ghost var shape: Shape
    ghost var list: seq<AvlNode>

    /** avl_init */
    constructor (allowDups: bool)
      ensures root == null && count == 0 && this.allowDups == allowDups && fresh(head)
      ensures shape == Leaf && list == [] && head.next == head.previous == head
    {
      head := new AvlNode(0);
      root, count, this.allowDups := null, 0, allowDups;
      shape, list := Leaf, [];
      new;
      head.next, head.previous := head, head;
    }
  }

  ghost function Spots(c: Context, s: Shape): set<AvlNode> {
    ContextNodes(c) + Nodes(s)
  }

  /** The tree pointers form `s` in the context `c`. */
  ghost predicate Standing(tree: AvlTree, c: Context, s: Shape)
    reads tree`root, Spots(c, s)`parent, Spots(c, s)`left, Spots(c, s)`right, Spots(c, s)`balance
  {
    tree.root == RootOver(c, Child(s)) && Fit(c, s) && ContextLinked(c, Child(s)) && Linked(s, Parent(c))
  }

  // ----- a tree taken apart around two nodes

  /** A context and three subtrees, with the nodes they are linked to. */
  datatype Parts = Parts(
    c: Context, child: AvlNode?,
    a: Shape, aUp: AvlNode?,
    m: Shape, mUp: AvlNode?,
    d: Shape, dUp: AvlNode?)

  ghost function PartsNodes(p: Parts): set<AvlNode> {
    ContextNodes(p.c) + Nodes(p.a) + Nodes(p.m) + Nodes(p.d)
  }

  ghost predicate Scattered(p: Parts) {
    && ContextApart(p.c) && Apart(p.a) && Apart(p.m) && Apart(p.d)
    && ContextNodes(p.c) !! Nodes(p.a) && ContextNodes(p.c) !! Nodes(p.m) && ContextNodes(p.c) !! Nodes(p.d)
    && Nodes(p.a) !! Nodes(p.m) && Nodes(p.a) !! Nodes(p.d) && Nodes(p.m) !! Nodes(p.d)
  }

  ghost function PartsFlaws(p: Parts): nat
    reads PartsNodes(p)`parent, PartsNodes(p)`left, PartsNodes(p)`right, PartsNodes(p)`balance
  {
    ContextFlaws(p.c, p.child) + Flaws(p.a, p.aUp) + Flaws(p.m, p.mUp) + Flaws(p.d, p.dUp)
  }

  /** Two nodes that are in none of the parts. */
  ghost predicate AwayFrom(a: AvlNode, b: AvlNode, p: Parts) {
    a != b && a !in PartsNodes(p) && b !in PartsNodes(p)
  }

  /** The child `up` of a node becomes its parent. */
  method Exchange(node: AvlNode, up: AvlNode, parent: AvlNode?, ghost p: Parts)
    requires AwayFrom(node, up, p) && PartsFlaws(p) == 0
    modifies node`parent, up`parent
    ensures node.parent == up && up.parent == parent && PartsFlaws(p) == 0
  {
    up.parent := parent;
    node.parent := up;
  }

  /** Put `child` where `node` was, below the parent or at the root. */
  method SetLink(tree: AvlTree, parent: AvlNode?, node: AvlNode, child: AvlNode?, ghost c: Context)
    requires parent == Parent(c) && tree.root == RootOver(c, node) && node !in ContextNodes(c)
    requires ContextApart(c) && ContextFlaws(c, node) == 0
    modifies tree`root, ContextNodes(c)`left, ContextNodes(c)`right
    ensures tree.root == RootOver(c, child) && ContextFlaws(c, child) == 0
  {
    if parent == null {
      tree.root := child;
    } else if parent.left == node {
      parent.left := child;
    } else {
      parent.right := child;
    }
  }

  method SetChild(tree: AvlTree, parent: AvlNode?, node: AvlNode, child: AvlNode?, ghost p: Parts)
    requires parent == Parent(p.c) && tree.root == RootOver(p.c, node) && node !in ContextNodes(p.c)
    requires Scattered(p) && p.child == node && PartsFlaws(p) == 0
    modifies tree`root, ContextNodes(p.c)`left, ContextNodes(p.c)`right
    ensures tree.root == RootOver(p.c, child) && PartsFlaws(p.(child := child)) == 0
  {
    hide ContextFlaws, Flaws, RootOver, Apart, ContextApart;
    assert allocated(Nodes(p.a)) && allocated(Nodes(p.m)) && allocated(Nodes(p.d));
    SetLink(tree, parent, node, child, p.c);
  }

  /** Tell the root of the middle part about its new parent. */
  method Adopt(child: AvlNode?, parent: AvlNode?, ghost p: Parts)
    requires Scattered(p) && child == Child(p.m) && PartsFlaws(p) == 0
    modifies Nodes(p.m)`parent
    ensures PartsFlaws(p.(mUp := parent)) == 0
  {
    if child != null {
      child.parent := parent;
    }
  }

  /** The same for the outer parts. */
  method AdoptLeft(child: AvlNode?, parent: AvlNode?, ghost p: Parts)
    requires Scattered(p) && child == Child(p.a) && PartsFlaws(p) == 0
    modifies Nodes(p.a)`parent
    ensures PartsFlaws(p.(aUp := parent)) == 0
  {
    if child != null {
      child.parent := parent;
    }
  }

  method AdoptRight(child: AvlNode?, parent: AvlNode?, ghost p: Parts)
    requires Scattered(p) && child == Child(p.d) && PartsFlaws(p) == 0
    modifies Nodes(p.d)`parent
    ensures PartsFlaws(p.(dUp := parent)) == 0
  {
    if child != null {
      child.parent := parent;
    }
  }

  ghost function RightParts(c: Context, s: Shape): Parts
    requires s.Bin? && s.left.Bin?
  {
    Parts(c, s.node, s.left.left, s.left.node, s.left.right, s.left.node, s.right, s.node)
  }

  /** What a node and its left child are linked to. */
  lemma TakeApartRight(c: Context, s: Shape)
    requires s.Bin? && s.left.Bin? && Fit(c, s) && Linked(s, Parent(c)) && ContextLinked(c, s.node)
    ensures var (l, n) := (s.left, s.node);
      && n.parent == Parent(c) && n.left == l.node && n.right == Child(s.right) && n.balance == s.balance
      && l.node.parent == n && l.node.left == Child(l.left) && l.node.right == Child(l.right) && l.node.balance == l.balance
    ensures PartsFlaws(RightParts(c, s)) == 0
    ensures Scattered(RightParts(c, s)) && AwayFrom(s.node, s.left.node, RightParts(c, s))
  {
    assert Linked(s.left, s.node) && Linked(s.right, s.node);
    assert Apart(s.left) && Nodes(s.left) == Nodes(s.left.left) + {s.left.node} + Nodes(s.left.right);
    assert Nodes(s.left) <= Nodes(s);
  }

  lemma RotatedRightFits(c: Context, s: Shape)
    requires s.Bin? && s.left.Bin? && Fit(c, s)
    ensures Fit(c, RotatedRight(s)) && Nodes(RotatedRight(s)) == Nodes(s)
  {
    assert Apart(s.left) && Nodes(s.left) == Nodes(s.left.left) + {s.left.node} + Nodes(s.left.right);
    assert Apart(RotatedRight(s).right);
  }

  /** Putting together what a rotation has turned round. */
  lemma PutTogetherRight(c: Context, s: Shape)
    requires s.Bin? && s.left.Bin? && Fit(c, s)
    requires PartsFlaws(RightParts(c, s).(child := s.left.node, mUp := s.node)) == 0
    requires var (l, n) := (s.left, s.node);
      && n.parent == l.node && n.left == Child(l.right) && n.right == Child(s.right)
      && n.balance == DownRight(s.balance, l.balance)
      && l.node.parent == Parent(c) && l.node.left == Child(l.left) && l.node.right == n
      && l.node.balance == UpRight(s.balance, l.balance)
    ensures Fit(c, RotatedRight(s)) && Linked(RotatedRight(s), Parent(c)) && ContextLinked(c, s.left.node)
  {
    assert Linked(RotatedRight(s).right, s.left.node);
    RotatedRightFits(c, s);
  }

  method BalanceRight(node: AvlNode, left: AvlNode, ghost p: Parts)
    requires AwayFrom(node, left, p) && PartsFlaws(p) == 0
    modifies node`balance, left`balance
    ensures node.balance == old(DownRight(node.balance, left.balance))
    ensures left.balance == old(UpRight(node.balance, left.balance))
    ensures PartsFlaws(p) == 0
  {
    node.balance := node.balance + 1;
    if left.balance < 0 {
      node.balance := node.balance - left.balance;
    }
    left.balance := left.balance + 1;
    if node.balance > 0 {
      left.balance := left.balance + node.balance;
    }
  }

  /** The subtree between the two nodes changes hands. */
  method HandOverRight(node: AvlNode, left: AvlNode, ghost p: Parts)
    requires Scattered(p) && left.right == Child(p.m) && AwayFrom(node, left, p) && PartsFlaws(p) == 0
    modifies node`left, left`right, Nodes(p.m)`parent
    ensures node.left == old(left.right) && left.right == node
    ensures PartsFlaws(p.(mUp := node)) == 0
  {
    node.left := left.right;
    left.right := node;
    Adopt(node.left, node, p);
  }

  method RotateRight(tree: AvlTree, node: AvlNode, ghost c: Context, ghost s: Shape)
    requires s.Bin? && s.left.Bin? && node == s.node && Standing(tree, c, s)
    modifies tree`root, Spots(c, s)`parent, Spots(c, s)`left, Spots(c, s)`right, Spots(c, s)`balance
    ensures Standing(tree, c, RotatedRight(s))
  {
    hide Flaws, ContextFlaws, RootOver, ContextApart;
    TakeApartRight(c, s);
    var left, parent := node.left, node.parent;
    ghost var p := RightParts(c, s);
    Exchange(node, left, parent, p);
    SetChild(tree, parent, node, left, p);
    p := p.(child := left);
    HandOverRight(node, left, p);
    p := p.(mUp := node);
    BalanceRight(node, left, p);
    PutTogetherRight(c, s);
  }
  ghost function LeftParts(c: Context, s: Shape): Parts
    requires s.Bin? && s.right.Bin?
  {
    Parts(c, s.node, s.left, s.node, s.right.left, s.right.node, s.right.right, s.right.node)
  }

  /** What a node and its right child are linked to. */
  lemma TakeApartLeft(c: Context, s: Shape)
    requires s.Bin? && s.right.Bin? && Fit(c, s) && Linked(s, Parent(c)) && ContextLinked(c, s.node)
    ensures var (l, n) := (s.right, s.node);
      && n.parent == Parent(c) && n.right == l.node && n.left == Child(s.left) && n.balance == s.balance
      && l.node.parent == n && l.node.right == Child(l.right) && l.node.left == Child(l.left) && l.node.balance == l.balance
    ensures PartsFlaws(LeftParts(c, s)) == 0
    ensures Scattered(LeftParts(c, s)) && AwayFrom(s.node, s.right.node, LeftParts(c, s))
  {
    assert Linked(s.right, s.node) && Linked(s.left, s.node);
    assert Apart(s.right) && Nodes(s.right) == Nodes(s.right.right) + {s.right.node} + Nodes(s.right.left);
    assert Nodes(s.right) <= Nodes(s);
  }

  lemma RotatedLeftFits(c: Context, s: Shape)
    requires s.Bin? && s.right.Bin? && Fit(c, s)
    ensures Fit(c, RotatedLeft(s)) && Nodes(RotatedLeft(s)) == Nodes(s)
  {
    assert Apart(s.right) && Nodes(s.right) == Nodes(s.right.right) + {s.right.node} + Nodes(s.right.left);
    assert Apart(RotatedLeft(s).left);
  }

  /** Putting together what a rotation has turned round. */
  lemma PutTogetherLeft(c: Context, s: Shape)
    requires s.Bin? && s.right.Bin? && Fit(c, s)
    requires PartsFlaws(LeftParts(c, s).(child := s.right.node, mUp := s.node)) == 0
    requires var (l, n) := (s.right, s.node);
      && n.parent == l.node && n.right == Child(l.left) && n.left == Child(s.left)
      && n.balance == DownLeft(s.balance, l.balance)
      && l.node.parent == Parent(c) && l.node.right == Child(l.right) && l.node.left == n
      && l.node.balance == UpLeft(s.balance, l.balance)
    ensures Fit(c, RotatedLeft(s)) && Linked(RotatedLeft(s), Parent(c)) && ContextLinked(c, s.right.node)
  {
    assert Linked(RotatedLeft(s).left, s.right.node);
    RotatedLeftFits(c, s);
  }

  method BalanceLeft(node: AvlNode, right: AvlNode, ghost p: Parts)
    requires AwayFrom(node, right, p) && PartsFlaws(p) == 0
    modifies node`balance, right`balance
    ensures node.balance == old(DownLeft(node.balance, right.balance))
    ensures right.balance == old(UpLeft(node.balance, right.balance))
    ensures PartsFlaws(p) == 0
  {
    node.balance := node.balance - 1;
    if right.balance > 0 {
      node.balance := node.balance - right.balance;
    }
    right.balance := right.balance - 1;
    if node.balance < 0 {
      right.balance := right.balance + node.balance;
    }
  }

  /** The subtree between the two nodes changes hands. */
  method HandOverLeft(node: AvlNode, right: AvlNode, ghost p: Parts)
    requires Scattered(p) && right.left == Child(p.m) && AwayFrom(node, right, p) && PartsFlaws(p) == 0
    modifies node`right, right`left, Nodes(p.m)`parent
    ensures node.right == old(right.left) && right.left == node
    ensures PartsFlaws(p.(mUp := node)) == 0
  {
    node.right := right.left;
    right.left := node;
    Adopt(node.right, node, p);
  }

  method RotateLeft(tree: AvlTree, node: AvlNode, ghost c: Context, ghost s: Shape)
    requires s.Bin? && s.right.Bin? && node == s.node && Standing(tree, c, s)
    modifies tree`root, Spots(c, s)`parent, Spots(c, s)`left, Spots(c, s)`right, Spots(c, s)`balance
    ensures Standing(tree, c, RotatedLeft(s))
  {
    hide Flaws, ContextFlaws, RootOver, ContextApart;
    TakeApartLeft(c, s);
    var right, parent := node.right, node.parent;
    ghost var p := LeftParts(c, s);
    Exchange(node, right, parent, p);
    SetChild(tree, parent, node, right, p);
    p := p.(child := right);
    HandOverLeft(node, right, p);
    p := p.(mUp := node);
    BalanceLeft(node, right, p);
    PutTogetherLeft(c, s);
  }

  // ----- replacing a node

  ghost function NodeParts(c: Context, s: Shape): Parts
    requires s.Bin?
  {
    Parts(c, s.node, s.left, s.node, Leaf, null, s.right, s.node)
  }

  lemma TakeApart(tree: AvlTree, c: Context, s: Shape)
    requires s.Bin? && Standing(tree, c, s)
    ensures Scattered(NodeParts(c, s)) && s.node !in PartsNodes(NodeParts(c, s)) && PartsFlaws(NodeParts(c, s)) == 0
    ensures s.node.parent == Parent(c) && s.node.left == Child(s.left) && s.node.right == Child(s.right)
    ensures s.node.balance == s.balance
    ensures Spots(c, s) == PartsNodes(NodeParts(c, s)) + {s.node}
  {
  }

  method CopyLinks(node: AvlNode, substitute: AvlNode, ghost p: Parts)
    requires AwayFrom(node, substitute, p) && PartsFlaws(p) == 0
    modifies substitute`parent, substitute`left, substitute`right, substitute`balance
    ensures substitute.parent == node.parent && substitute.left == node.left && substitute.right == node.right
    ensures substitute.balance == node.balance && PartsFlaws(p) == 0
  {
    substitute.balance := node.balance;
    substitute.parent := node.parent;
    substitute.left := node.left;
    substitute.right := node.right;
  }

  lemma PutTogether(c: Context, s: Shape, n: AvlNode)
    requires s.Bin? && Fit(c, s) && n !in Spots(c, s)
    requires n.parent == Parent(c) && n.left == Child(s.left) && n.right == Child(s.right) && n.balance == s.balance
    requires PartsFlaws(NodeParts(c, s).(child := n, aUp := n, dUp := n)) == 0
    ensures Fit(c, s.(node := n)) && ContextLinked(c, n) && Linked(s.(node := n), Parent(c))
    ensures Spots(c, s.(node := n)) == Spots(c, s) - {s.node} + {n}
  {
  }

  /** A node from outside takes the place of a node in the tree. */
  method TakePlace(tree: AvlTree, node: AvlNode, substitute: AvlNode, ghost c: Context, ghost s: Shape)
    requires s.Bin? && node == s.node && Standing(tree, c, s) && substitute !in Spots(c, s)
    modifies tree`root, substitute`parent, substitute`left, substitute`right, substitute`balance
    modifies Spots(c, s)`parent, Spots(c, s)`left, Spots(c, s)`right
    ensures Standing(tree, c, s.(node := substitute))
    ensures Spots(c, s.(node := substitute)) == Spots(c, s) - {node} + {substitute}
  {
    TakeApart(tree, c, s);
    ghost var p := NodeParts(c, s);
    CopyLinks(node, substitute, p);
    AdoptLeft(substitute.left, substitute, p);
    p := p.(aUp := substitute);
    AdoptRight(substitute.right, substitute, p);
    p := p.(dUp := substitute);
    SetChild(tree, node.parent, node, substitute, p);
    PutTogether(c, s, substitute);
  }

  /** A node with at most one child is taken out: its parent gets the child. */
  method Splice(tree: AvlTree, node: AvlNode, child: AvlNode?, ghost c: Context, ghost s: Shape, ghost rest: Shape)
    requires s.Bin? && node == s.node && Standing(tree, c, s) && child == Child(rest)
    requires (s.left == Leaf && rest == s.right) || (s.right == Leaf && rest == s.left)
    modifies tree`root, Spots(c, s)`parent, Spots(c, s)`left, Spots(c, s)`right
    ensures Standing(tree, c, rest) && Spots(c, rest) == Spots(c, s) - {node}
  {
    TakeApart(tree, c, s);
    var parent := node.parent;
    ghost var p := Parts(c, node, Leaf, null, rest, node, Leaf, null);
    Adopt(child, parent, p);
    SetChild(tree, parent, node, child, p.(mUp := parent));
  }

  // ----- adding a node

  /** A new node becomes the left child of a node that had none. */
  method AttachLeft(tree: AvlTree, node: AvlNode, entity: AvlNode, balance: int, ghost c: Context, ghost s: Shape)
    requires s.Bin? && node == s.node && s.left == Leaf && Standing(tree, c, s) && entity !in Spots(c, s)
    requires entity.parent == node && entity.left == null && entity.right == null && entity.balance == 0
    modifies node`balance, node`left
    ensures Standing(tree, c, s.(left := Bin(Leaf, entity, 0, Leaf), balance := balance))
    ensures Spots(c, s.(left := Bin(Leaf, entity, 0, Leaf), balance := balance)) == Spots(c, s) + {entity}
  {
    node.balance := balance;
    node.left := entity;
    assert Flaws(Bin(Leaf, entity, 0, Leaf), node) == 0;
    assert Apart(Bin(Leaf, entity, 0, Leaf)) && Nodes(Bin(Leaf, entity, 0, Leaf)) == {entity};
  }

  method AttachRight(tree: AvlTree, node: AvlNode, entity: AvlNode, balance: int, ghost c: Context, ghost s: Shape)
    requires s.Bin? && node == s.node && s.right == Leaf && Standing(tree, c, s) && entity !in Spots(c, s)
    requires entity.parent == node && entity.left == null && entity.right == null && entity.balance == 0
    modifies node`balance, node`right
    ensures Standing(tree, c, s.(right := Bin(Leaf, entity, 0, Leaf), balance := balance))
    ensures Spots(c, s.(right := Bin(Leaf, entity, 0, Leaf), balance := balance)) == Spots(c, s) + {entity}
  {
    node.balance := balance;
    node.right := entity;
    assert Flaws(Bin(Leaf, entity, 0, Leaf), node) == 0;
    assert Apart(Bin(Leaf, entity, 0, Leaf)) && Nodes(Bin(Leaf, entity, 0, Leaf)) == {entity};
  }
}
