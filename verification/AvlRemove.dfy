/** Removing nodes from the tree and rebalancing it (src-api/common/avl.c). */
module AvlRemove {
  import opened AvlShape
  import opened AvlLinks
  import opened AvlPaths

  /** The levels when a left subtree has shrunk by one. */
  lemma LeftShorter(c: Context, s: Shape)
    requires c.LeftOf? && Balanced(s) && ContextLevel(c, Level(s) + 1) >= 0
    ensures var w := Over(c, s, c.balance + 1);
      if w.balance == 0 then Balanced(w) && ContextLevel(c.up, Level(w) + 1) >= 0
      else if w.balance == 1 then ContextLevel(c.up, Level(w)) >= 0
      else RightHeavy(w) && ContextLevel(c.up, Level(w.right) + 1) >= 0
  {
    NoLevel(c.up);
  }

  lemma RightShorter(c: Context, s: Shape)
    requires c.RightOf? && Balanced(s) && ContextLevel(c, Level(s) + 1) >= 0
    ensures var w := Over(c, s, c.balance - 1);
      if w.balance == 0 then Balanced(w) && ContextLevel(c.up, Level(w) + 1) >= 0
      else if w.balance == -1 then ContextLevel(c.up, Level(w)) >= 0
      else LeftHeavy(w) && ContextLevel(c.up, Level(w.left) + 1) >= 0
  {
    NoLevel(c.up);
  }

  /** The subtree at `node` has shrunk by one. */
  method PostRemove(tree: AvlTree, node: AvlNode, ghost c: Context, ghost s: Shape) returns (ghost t: Shape)
    requires Standing(tree, c, s) && s.Bin? && node == s.node && Balanced(s)
    requires ContextLevel(c, Level(s) + 1) >= 0
    modifies tree`root, Spots(c, s)`parent, Spots(c, s)`left, Spots(c, s)`right, Spots(c, s)`balance
    ensures Rebalanced(tree, t, Spots(c, s), Order(c, s))
    decreases c, 2
  {
    var parent := node.parent;
    if parent == null {
      t := s;
      Done(tree, c, s);
      return;
    }
    if node == parent.left {
      t := LeftShrunk(tree, parent, c, s);
    } else {
      t := RightShrunk(tree, parent, c, s);
    }
  }

  /** The left subtree of `parent` has shrunk by one. */
  method LeftShrunk(tree: AvlTree, parent: AvlNode, ghost c: Context, ghost s: Shape) returns (ghost t: Shape)
    requires Standing(tree, c, s) && Balanced(s)
    requires c.LeftOf? && parent == c.node && ContextLevel(c, Level(s) + 1) >= 0
    modifies tree`root, Spots(c, s)`parent, Spots(c, s)`left, Spots(c, s)`right, Spots(c, s)`balance
    ensures Rebalanced(tree, t, Spots(c, s), Order(c, s))
    decreases c, 1
  {
    hide Fit, ContextApart, Apart, Linked, ContextLinked, Flaws, ContextFlaws, Level, ContextLevel, Inorder, Earlier, Later, Plug;
    LeftShorter(c, s);
    ghost var w := Over(c, s, c.balance + 1);
    OverInorder(c, s, w.balance);
    Shift(tree, parent, 1, c, s);
    if parent.balance == 0 {
      t := PostRemove(tree, parent, c.up, w);
      return;
    }
    if parent.balance == 1 {
      t := Plug(c.up, w);
      Done(tree, c.up, w);
      return;
    }
    t := RightTooHigh(tree, parent, c.up, w);
  }

  /** The right subtree that remains is two levels higher than the left one. */
  method RightTooHigh(tree: AvlTree, parent: AvlNode, ghost c: Context, ghost s: Shape) returns (ghost t: Shape)
    requires Standing(tree, c, s) && RightHeavy(s) && parent == s.node
    requires ContextLevel(c, Level(s.right) + 1) >= 0
    modifies tree`root, Spots(c, s)`parent, Spots(c, s)`left, Spots(c, s)`right, Spots(c, s)`balance
    ensures Rebalanced(tree, t, Spots(c, s), Order(c, s))
    decreases c, 3
  {
    assert Flaws(s.right, s.node) == 0;
    hide ContextApart, ContextLinked, ContextFlaws, Apart, ContextLevel, Inorder, Earlier, Later, Plug;
    if parent.right.balance == 0 {
      ghost var r := RotatedLeft(s);
      LeftRebalances(s);
      LeftKeeps(s);
      RotatedLeftFits(c, s);
      RotateLeft(tree, parent, c, s);
      t := Plug(c, r);
      Done(tree, c, r);
      return;
    }
    if parent.right.balance == 1 {
      ghost var r := RotatedLeft(s);
      LeftRebalances(s);
      LeftKeeps(s);
      RotatedLeftFits(c, s);
      RotateLeft(tree, parent, c, s);
      assert Flaws(r.left, r.node) == 0;
      t := PostRemove(tree, parent.parent, c, r);
      return;
    }
    RightLeftRebalances(s);
    RightLeftKeeps(s);
    ghost var r := RotatedRightLeft(s);
    RotateRightChildThenLeft(tree, parent, c, s);
    assert Flaws(r.left, r.node) == 0;
    t := PostRemove(tree, parent.parent, c, r);
  }

  /** Rotate at the right child first, then at the node itself. */
  method RotateRightChildThenLeft(tree: AvlTree, node: AvlNode, ghost c: Context, ghost s: Shape)
    requires s.Bin? && s.right.Bin? && s.right.left.Bin? && node == s.node && Standing(tree, c, s)
    modifies tree`root, Spots(c, s)`parent, Spots(c, s)`left, Spots(c, s)`right, Spots(c, s)`balance
    ensures Standing(tree, c, RotatedRightLeft(s))
    ensures Nodes(RotatedRightLeft(s)) == Nodes(s)
  {
    ghost var below := RightOf(c, s.left, s.node, s.balance);
    MoveDown(tree, below, s.right);
    RotateRight(tree, node.right, below, s.right);
    ghost var t := RotatedRight(s.right);
    RotatedRightFits(below, s.right);
    MoveUp(tree, below, t);
    RotatedLeftFits(c, s.(right := t));
    RotateLeft(tree, node, c, s.(right := t));
  }

  /** The right subtree of `parent` has shrunk by one. */
  method RightShrunk(tree: AvlTree, parent: AvlNode, ghost c: Context, ghost s: Shape) returns (ghost t: Shape)
    requires Standing(tree, c, s) && Balanced(s)
    requires c.RightOf? && parent == c.node && ContextLevel(c, Level(s) + 1) >= 0
    modifies tree`root, Spots(c, s)`parent, Spots(c, s)`left, Spots(c, s)`right, Spots(c, s)`balance
    ensures Rebalanced(tree, t, Spots(c, s), Order(c, s))
    decreases c, 1
  {
    hide Fit, ContextApart, Apart, Linked, ContextLinked, Flaws, ContextFlaws, Level, ContextLevel, Inorder, Earlier, Later, Plug;
    RightShorter(c, s);
    ghost var w := Over(c, s, c.balance - 1);
    OverInorder(c, s, w.balance);
    Shift(tree, parent, -1, c, s);
    if parent.balance == 0 {
      t := PostRemove(tree, parent, c.up, w);
      return;
    }
    if parent.balance == -1 {
      t := Plug(c.up, w);
      Done(tree, c.up, w);
      return;
    }
    t := LeftTooHigh(tree, parent, c.up, w);
  }

  /** The left subtree that remains is two levels higher than the right one. */
  method LeftTooHigh(tree: AvlTree, parent: AvlNode, ghost c: Context, ghost s: Shape) returns (ghost t: Shape)
    requires Standing(tree, c, s) && LeftHeavy(s) && parent == s.node
    requires ContextLevel(c, Level(s.left) + 1) >= 0
    modifies tree`root, Spots(c, s)`parent, Spots(c, s)`left, Spots(c, s)`right, Spots(c, s)`balance
    ensures Rebalanced(tree, t, Spots(c, s), Order(c, s))
    decreases c, 3
  {
    assert Flaws(s.left, s.node) == 0;
    hide ContextApart, ContextLinked, ContextFlaws, Apart, ContextLevel, Inorder, Earlier, Later, Plug;
    if parent.left.balance == 0 {
      ghost var r := RotatedRight(s);
      RightRebalances(s);
      RightKeeps(s);
      RotatedRightFits(c, s);
      RotateRight(tree, parent, c, s);
      t := Plug(c, r);
      Done(tree, c, r);
      return;
    }
    if parent.left.balance == -1 {
      ghost var r := RotatedRight(s);
      RightRebalances(s);
      RightKeeps(s);
      RotatedRightFits(c, s);
      RotateRight(tree, parent, c, s);
      assert Flaws(r.right, r.node) == 0;
      t := PostRemove(tree, parent.parent, c, r);
      return;
    }
    LeftRightRebalances(s);
    LeftRightKeeps(s);
    ghost var r := RotatedLeftRight(s);
    RotateLeftChildThenRight(tree, parent, c, s);
    assert Flaws(r.right, r.node) == 0;
    t := PostRemove(tree, parent.parent, c, r);
  }

  /** Rotate at the left child first, then at the node itself. */
  method RotateLeftChildThenRight(tree: AvlTree, node: AvlNode, ghost c: Context, ghost s: Shape)
    requires s.Bin? && s.left.Bin? && s.left.right.Bin? && node == s.node && Standing(tree, c, s)
    modifies tree`root, Spots(c, s)`parent, Spots(c, s)`left, Spots(c, s)`right, Spots(c, s)`balance
    ensures Standing(tree, c, RotatedLeftRight(s))
    ensures Nodes(RotatedLeftRight(s)) == Nodes(s)
  {
    ghost var below := LeftOf(c, s.node, s.balance, s.right);
    MoveDown(tree, below, s.left);
    RotateLeft(tree, node.left, below, s.left);
    ghost var t := RotatedLeft(s.left);
    RotatedLeftFits(below, s.left);
    MoveUp(tree, below, t);
    RotatedRightFits(c, s.(left := t));
    RotateRight(tree, node, c, s.(left := t));
  }

  // ----- taking a node out of the tree

  /** The left-most node of a subtree. */
  method LocalMin(tree: AvlTree, start: AvlNode, ghost c0: Context, ghost s0: Shape)
    returns (node: AvlNode, ghost c: Context, ghost s: Shape)
    requires Standing(tree, c0, s0) && s0.Bin? && start == s0.node
    ensures Standing(tree, c, s) && s.Bin? && node == s.node && s.left == Leaf && Spots(c, s) == Spots(c0, s0)
    ensures Order(c, s) == Order(c0, s0) && Earlier(c) == Earlier(c0)
    ensures ContextLevel(c, Level(s)) == ContextLevel(c0, Level(s0))
  {
    node, c, s := start, c0, s0;
    while node.left != null
      invariant Standing(tree, c, s) && s.Bin? && node == s.node && Spots(c, s) == Spots(c0, s0)
      invariant Order(c, s) == Order(c0, s0) && Earlier(c) == Earlier(c0)
      invariant ContextLevel(c, Level(s)) == ContextLevel(c0, Level(s0))
      decreases s
    {
      ghost var below := LeftOf(c, s.node, s.balance, s.right);
      MoveDown(tree, below, s.left);
      OverInorder(below, s.left, s.balance);
      node := node.left;
      c, s := below, s.left;
    }
  }

  ghost function Without(c: Context, s: Shape): seq<AvlNode>
    requires s.Bin?
  {
    Earlier(c) + (Inorder(s.left) + Inorder(s.right)) + Later(c)
  }

  lemma RestLevel(c: Context, s: Shape, rest: Shape)
    requires s.Bin? && ContextLevel(c, Level(s)) >= 0
    requires (s.left == Leaf && rest == s.right) || (s.right == Leaf && rest == s.left)
    ensures Balanced(rest) && ContextLevel(c, Level(rest) + 1) >= 0 && Order(c, rest) == Without(c, s)
  {
    NoLevel(c);
    assert Inorder(s.left) + Inorder(s.right) == Inorder(rest);
  }

  /** A node with at most one child: the child takes its place. */
  method RemoveOuter(tree: AvlTree, node: AvlNode, child: AvlNode?, ghost c: Context, ghost s: Shape, ghost rest: Shape)
    returns (ghost t: Shape)
    requires s.Bin? && node == s.node && Standing(tree, c, s) && ContextLevel(c, Level(s)) >= 0
    requires child == Child(rest) && ((s.left == Leaf && rest == s.right) || (s.right == Leaf && rest == s.left))
    modifies tree`root, Spots(c, s)`parent, Spots(c, s)`left, Spots(c, s)`right, Spots(c, s)`balance
    ensures Rebalanced(tree, t, Spots(c, s) - {node}, Without(c, s))
  {
    RestLevel(c, s, rest);
    TakeApart(tree, c, s);
    var parent := node.parent;
    var wasLeft := parent != null && parent.left == node;
    Splice(tree, node, child, c, s, rest);
    if parent == null {
      t := rest;
      Done(tree, c, rest);
    } else if child != null {
      t := PostRemove(tree, child, c, rest);
    } else if wasLeft {
      t := LeftShrunk(tree, parent, c, rest);
    } else {
      t := RightShrunk(tree, parent, c, rest);
    }
  }

  /** _avl_remove_worker */
  method RemoveWorker(tree: AvlTree, node: AvlNode, ghost c: Context, ghost s: Shape) returns (ghost t: Shape)
    requires s.Bin? && node == s.node && Standing(tree, c, s) && ContextLevel(c, Level(s)) >= 0 && Rising(Order(c, s))
    modifies tree`root, Spots(c, s)`parent, Spots(c, s)`left, Spots(c, s)`right, Spots(c, s)`balance
    ensures Rebalanced(tree, t, Spots(c, s) - {node}, Without(c, s))
    decreases s.left.Bin? && s.right.Bin?, 1
  {
    TakeApart(tree, c, s);
    if node.left == null && node.right == null {
      t := RemoveOuter(tree, node, null, c, s, Leaf);
    } else if node.left == null {
      t := RemoveOuter(tree, node, node.right, c, s, s.right);
    } else if node.right == null {
      t := RemoveOuter(tree, node, node.left, c, s, s.left);
    } else {
      t := RemoveInner(tree, node, c, s);
    }
  }

  /** A node with two children: the next node leaves its own place and takes the
      one of the node, which rotations may have moved. */
  method RemoveInner(tree: AvlTree, node: AvlNode, ghost c: Context, ghost s: Shape) returns (ghost t: Shape)
    requires s.Bin? && node == s.node && Standing(tree, c, s) && ContextLevel(c, Level(s)) >= 0 && Rising(Order(c, s))
    requires s.left.Bin? && s.right.Bin?
    modifies tree`root, Spots(c, s)`parent, Spots(c, s)`left, Spots(c, s)`right, Spots(c, s)`balance
    ensures Rebalanced(tree, t, Spots(c, s) - {node}, Without(c, s))
    decreases true, 0
  {
    var min;
    ghost var rest;
    min, t, rest := RemoveNext(tree, node, c, s);
    OrderWithout(c, s, min, rest);
    t := Substitute(tree, node, min, t, Earlier(c) + Inorder(s.left), rest);
  }

  lemma Around<T>(e: seq<T>, l: seq<T>, n: seq<T>, r: seq<T>, t: seq<T>)
    ensures e + (l + n + r) + t == e + l + n + (r + t)
    ensures e + (l + r) + t == e + l + (r + t)
  {
  }

  lemma Cancel<T>(e: seq<T>, x: seq<T>, y: seq<T>)
    requires e + x == e + y
    ensures x == y
  {
    assert x == (e + x)[|e|..] && y == (e + y)[|e|..];
  }

  lemma Join<T>(a: seq<T>, b: seq<T>, c: seq<T>)
    ensures a + (b + c) == a + b + c
  {
  }

  lemma OrderWithout(c: Context, s: Shape, min: AvlNode, rest: seq<AvlNode>)
    requires s.Bin? && Rising(Order(c, s)) && Inorder(s.right) + Later(c) == [min] + rest
    ensures Without(c, s) == Earlier(c) + Inorder(s.left) + [min] + rest
    ensures Rising(Earlier(c) + Inorder(s.left) + [s.node] + rest)
  {
    var pre := Earlier(c) + Inorder(s.left);
    Around(Earlier(c), Inorder(s.left), [s.node], Inorder(s.right), Later(c));
    Join(pre, [min], rest);
    Join(pre + [s.node], [min], rest);
    RisingSkip(pre + [s.node], min, rest);
  }

  lemma RisingSkip(a: seq<AvlNode>, n: AvlNode, b: seq<AvlNode>)
    requires Rising(a + [n] + b)
    ensures Rising(a + b)
  {
    var all, some := a + [n] + b, a + b;
    forall i, j | 0 <= i < j < |some| ensures some[i].key < some[j].key {
      var i', j' := if i < |a| then i else i + 1, if j < |a| then j else j + 1;
      assert some[i] == all[i'] && some[j] == all[j'];
    }
  }

  /** Take the node that comes after `node` out of its right subtree. */
  method RemoveNext(tree: AvlTree, node: AvlNode, ghost c: Context, ghost s: Shape)
    returns (min: AvlNode, ghost t: Shape, ghost rest: seq<AvlNode>)
    requires s.Bin? && node == s.node && Standing(tree, c, s) && ContextLevel(c, Level(s)) >= 0 && Rising(Order(c, s))
    requires s.left.Bin? && s.right.Bin?
    modifies tree`root, Spots(c, s)`parent, Spots(c, s)`left, Spots(c, s)`right, Spots(c, s)`balance
    ensures Rebalanced(tree, t, Spots(c, s) - {min}, Earlier(c) + Inorder(s.left) + [node] + rest)
    ensures Inorder(s.right) + Later(c) == [min] + rest && min in Spots(c, s) && min != node
    decreases true, -1
  {
    ghost var below := RightOf(c, s.left, s.node, s.balance);
    TakeApart(tree, c, s);
    MoveDown(tree, below, s.right);
    OverInorder(below, s.right, s.balance);
    ghost var cm, sm;
    min, cm, sm := LocalMin(tree, node.right, below, s.right);
    rest := Inorder(sm.right) + Later(cm);
    MinOrder(below, s.right, cm, sm);
    assert min in Nodes(sm) && node in ContextNodes(below);
    t := RemoveWorker(tree, min, cm, sm);
  }

  lemma MinOrder(c: Context, s: Shape, cm: Context, sm: Shape)
    requires Order(cm, sm) == Order(c, s) && Earlier(cm) == Earlier(c) && sm.Bin? && sm.left == Leaf
    ensures Inorder(s) + Later(c) == [sm.node] + (Inorder(sm.right) + Later(cm))
    ensures Without(cm, sm) == Earlier(c) + (Inorder(sm.right) + Later(cm))
  {
    var e := Earlier(c);
    var r, t := Inorder(sm.right), Later(cm);
    assert Inorder(sm) == [] + [sm.node] + r && [] + r == r;
    Around(e, [], [sm.node], r, t);
    Join(e, [sm.node], r + t);
    Join(e, Inorder(s), Later(c));
    assert e + [] == e;
    Cancel(e, Inorder(s) + Later(c), [sm.node] + (r + t));
  }

  /** A node outside the tree takes the place of one inside, wherever that is. */
  method Substitute(tree: AvlTree, node: AvlNode, min: AvlNode, ghost t0: Shape, ghost a: seq<AvlNode>, ghost b: seq<AvlNode>)
    returns (ghost t: Shape)
    requires Rebalanced(tree, t0, Nodes(t0), a + [node] + b) && Rising(a + [node] + b)
    requires node in Nodes(t0) && min !in Nodes(t0)
    modifies tree`root, min`parent, min`left, min`right, min`balance
    modifies Nodes(t0)`parent, Nodes(t0)`left, Nodes(t0)`right
    ensures Rebalanced(tree, t, Nodes(t0) - {node} + {min}, a + [min] + b)
  {
    ghost var c, s := FindPath(tree, Top, t0, node);
    SubstituteOrder(c, s, min, a, b);
    TakePlace(tree, node, min, c, s);
    t := Plug(c, s.(node := min));
    Done(tree, c, s.(node := min));
  }

  lemma SubstituteOrder(c: Context, s: Shape, n: AvlNode, a: seq<AvlNode>, b: seq<AvlNode>)
    requires s.Bin? && Order(c, s) == a + [s.node] + b && Rising(a + [s.node] + b)
    ensures Order(c, s.(node := n)) == a + [n] + b
  {
    var a', b' := Earlier(c) + Inorder(s.left), Inorder(s.right) + Later(c);
    assert Order(c, s) == a' + [s.node] + b';
    PivotUnique(a, s.node, b, a', b');
    assert Order(c, s.(node := n)) == a' + [n] + b';
  }
}
