/** Moving the point of view up and down an AVL tree, and double rotations
    (src-api/common/avl.c). */
module AvlPaths {
  import opened AvlShape
  import opened AvlLinks

  // ----- moving the point of view along a path

  /** The subtree one level up, with `b` as the balance of its root. */
  function Over(c: Context, s: Shape, b: int): Shape
    requires !c.Top?
  {
    if c.LeftOf? then Bin(s, c.node, b, c.right) else Bin(c.left, c.node, b, s)
  }

  lemma MoveUp(tree: AvlTree, c: Context, s: Shape)
    requires !c.Top? && Standing(tree, c, s)
    ensures Standing(tree, c.up, Over(c, s, c.balance)) && Spots(c.up, Over(c, s, c.balance)) == Spots(c, s)
  {
    assert Flaws(Over(c, s, c.balance), Parent(c.up)) == 0;
  }

  lemma MoveDown(tree: AvlTree, c: Context, s: Shape)
    requires !c.Top? && Standing(tree, c.up, Over(c, s, c.balance))
    ensures Standing(tree, c, s) && Spots(c.up, Over(c, s, c.balance)) == Spots(c, s)
  {
    assert Flaws(Over(c, s, c.balance), Parent(c.up)) == 0;
  }

  lemma {:induction false} WholeStanding(tree: AvlTree, c: Context, s: Shape)
    requires Standing(tree, c, s)
    ensures Standing(tree, Top, Plug(c, s)) && Nodes(Plug(c, s)) == Spots(c, s)
    decreases c
  {
    if !c.Top? {
      MoveUp(tree, c, s);
      WholeStanding(tree, c.up, Over(c, s, c.balance));
    }
  }

  /** The whole tree when what is left to do is done. */
  lemma Done(tree: AvlTree, c: Context, s: Shape)
    requires Standing(tree, c, s) && ContextLevel(c, Level(s)) >= 0
    ensures Standing(tree, Top, Plug(c, s)) && Balanced(Plug(c, s)) && Nodes(Plug(c, s)) == Spots(c, s)
    ensures Inorder(Plug(c, s)) == Earlier(c) + Inorder(s) + Later(c)
  {
    WholeStanding(tree, c, s);
    PlugLevel(c, s);
    PlugInorder(c, s);
  }

  lemma OverInorder(c: Context, s: Shape, b: int)
    requires !c.Top?
    ensures Earlier(c.up) + Inorder(Over(c, s, b)) + Later(c.up) == Earlier(c) + Inorder(s) + Later(c)
  {
    if c.LeftOf? {
      Regroup(Earlier(c.up), Inorder(s), [c.node], Inorder(c.right), Later(c.up));
    } else {
      Regroup(Earlier(c.up), Inorder(c.left), [c.node], Inorder(s), Later(c.up));
    }
  }

  /** Change the balance of the parent, and look from there. */
  method Shift(tree: AvlTree, parent: AvlNode, change: int, ghost c: Context, ghost s: Shape)
    requires !c.Top? && parent == c.node && Standing(tree, c, s)
    modifies parent`balance
    ensures parent.balance == c.balance + change
    ensures Standing(tree, c.up, Over(c, s, c.balance + change))
    ensures Spots(c.up, Over(c, s, c.balance + change)) == Spots(c, s)
  {
    MoveUp(tree, c, s);
    parent.balance := parent.balance + change;
    assert Flaws(Over(c, s, c.balance + change), Parent(c.up)) == 0;
  }

  /** What is known once a change below has been taken care of. */
  ghost predicate Rebalanced(tree: AvlTree, t: Shape, nodes: set<AvlNode>, order: seq<AvlNode>)
    reads tree`root, Nodes(t)`parent, Nodes(t)`left, Nodes(t)`right, Nodes(t)`balance
  {
    Standing(tree, Top, t) && Balanced(t) && Nodes(t) == nodes && Inorder(t) == order
  }

  ghost function Order(c: Context, s: Shape): seq<AvlNode> {
    Earlier(c) + Inorder(s) + Later(c)
  }

  // ----- double rotations

  /** Rotate below the left child first, then at the node itself. */
  method RotateLeftRight(tree: AvlTree, node: AvlNode, ghost c: Context, ghost s: Shape)
    requires s.Bin? && s.left.Bin? && s.left.right.Bin? && node == s.left.node && Standing(tree, c, s)
    modifies tree`root, Spots(c, s)`parent, Spots(c, s)`left, Spots(c, s)`right, Spots(c, s)`balance
    ensures Standing(tree, c, RotatedLeftRight(s))
    ensures Nodes(RotatedLeftRight(s)) == Nodes(s)
  {
    ghost var below := LeftOf(c, s.node, s.balance, s.right);
    MoveDown(tree, below, s.left);
    RotateLeft(tree, node, below, s.left);
    ghost var t := RotatedLeft(s.left);
    RotatedLeftFits(below, s.left);
    assert Flaws(t.left, t.node) == 0;
    assert node.parent == t.node && t.node.parent == s.node;
    MoveUp(tree, below, t);
    RotatedRightFits(c, s.(left := t));
    RotateRight(tree, node.parent.parent, c, s.(left := t));
  }
  /** Rotate below the right child first, then at the node itself. */
  method RotateRightLeft(tree: AvlTree, node: AvlNode, ghost c: Context, ghost s: Shape)
    requires s.Bin? && s.right.Bin? && s.right.left.Bin? && node == s.right.node && Standing(tree, c, s)
    modifies tree`root, Spots(c, s)`parent, Spots(c, s)`left, Spots(c, s)`right, Spots(c, s)`balance
    ensures Standing(tree, c, RotatedRightLeft(s))
    ensures Nodes(RotatedRightLeft(s)) == Nodes(s)
  {
    ghost var below := RightOf(c, s.left, s.node, s.balance);
    MoveDown(tree, below, s.right);
    RotateRight(tree, node, below, s.right);
    ghost var t := RotatedRight(s.right);
    RotatedRightFits(below, s.right);
    assert Flaws(t.right, t.node) == 0;
    assert node.parent == t.node && t.node.parent == s.node;
    MoveUp(tree, below, t);
    RotatedLeftFits(c, s.(right := t));
    RotateLeft(tree, node.parent.parent, c, s.(right := t));
  }

  // ----- looking for a node

  /** Keys rise strictly. */
  ghost predicate Rising(nodes: seq<AvlNode>) {
    forall i, j :: 0 <= i < j < |nodes| ==> nodes[i].key < nodes[j].key
  }

  /** The way from a subtree down to one of its nodes. */
  lemma {:induction false} FindPath(tree: AvlTree, c: Context, s: Shape, n: AvlNode) returns (c': Context, s': Shape)
    requires Standing(tree, c, s) && n in Nodes(s)
    ensures Standing(tree, c', s') && s'.Bin? && s'.node == n && Spots(c', s') == Spots(c, s)
    ensures Order(c', s') == Order(c, s) && ContextLevel(c', Level(s')) == ContextLevel(c, Level(s))
    decreases s
  {
    if s.node == n {
      c', s' := c, s;
    } else if n in Nodes(s.left) {
      var below := LeftOf(c, s.node, s.balance, s.right);
      MoveDown(tree, below, s.left);
      OverInorder(below, s.left, s.balance);
      c', s' := FindPath(tree, below, s.left, n);
    } else {
      var below := RightOf(c, s.left, s.node, s.balance);
      MoveDown(tree, below, s.right);
      OverInorder(below, s.right, s.balance);
      c', s' := FindPath(tree, below, s.right, n);
    }
  }

  /** A sequence splits at a node in one way. */
  lemma PivotUnique(a: seq<AvlNode>, n: AvlNode, b: seq<AvlNode>, a': seq<AvlNode>, b': seq<AvlNode>)
    requires a + [n] + b == a' + [n] + b' && Rising(a + [n] + b)
    ensures a == a' && b == b'
  {
    var all := a + [n] + b;
    assert all[|a|] == n && all[|a'|] == n;
    assert |a| == |a'|;
    assert a == all[..|a|] && a' == all[..|a'|];
    assert b == all[|a| + 1..] && b' == all[|a'| + 1..];
  }
}
