/** Rebalancing an AVL tree after an insertion (src-api/common/avl.c). */
module AvlInsert {
  import opened AvlShape
  import opened AvlLinks
  import opened AvlPaths

  /** The levels when a left subtree has grown by one. */
  lemma LeftGrown(c: Context, s: Shape)
    requires c.LeftOf? && Balanced(s) && ContextLevel(c, Level(s) - 1) >= 0
    ensures var w := Over(c, s, c.balance - 1);
      if w.balance == 0 then ContextLevel(c.up, Level(w)) >= 0
      else if w.balance == -1 then Balanced(w) && ContextLevel(c.up, Level(w) - 1) >= 0
      else s.Bin? && LeftHeavy(w) && ContextLevel(c.up, Level(s)) >= 0
  {
    NoLevel(c.up);
  }

  lemma RightGrown(c: Context, s: Shape)
    requires c.RightOf? && Balanced(s) && ContextLevel(c, Level(s) - 1) >= 0
    ensures var w := Over(c, s, c.balance + 1);
      if w.balance == 0 then ContextLevel(c.up, Level(w)) >= 0
      else if w.balance == 1 then Balanced(w) && ContextLevel(c.up, Level(w) - 1) >= 0
      else s.Bin? && RightHeavy(w) && ContextLevel(c.up, Level(s)) >= 0
  {
    NoLevel(c.up);
  }

  /** A left subtree that has grown is two levels higher than the right one. */
  method LeftTooHigh(tree: AvlTree, node: AvlNode, parent: AvlNode, ghost c: Context, ghost s: Shape) returns (ghost t: Shape)
    requires Standing(tree, c, s) && LeftHeavy(s) && node == s.left.node && parent == s.node && s.left.balance != 0
    requires ContextLevel(c, Level(s.left)) >= 0
    modifies tree`root, Spots(c, s)`parent, Spots(c, s)`left, Spots(c, s)`right, Spots(c, s)`balance
    ensures Rebalanced(tree, t, Spots(c, s), Order(c, s))
  {
    assert Flaws(s.left, s.node) == 0;
    if node.balance == -1 {
      RightRebalances(s);
      RightKeeps(s);
      RotatedRightFits(c, s);
      RotateRight(tree, parent, c, s);
      t := Plug(c, RotatedRight(s));
      Done(tree, c, RotatedRight(s));
      return;
    }
    LeftRightRebalances(s);
    LeftRightKeeps(s);
    RotateLeftRight(tree, node, c, s);
    t := Plug(c, RotatedLeftRight(s));
    Done(tree, c, RotatedLeftRight(s));
  }

  /** A right subtree that has grown is two levels higher than the left one. */
  method RightTooHigh(tree: AvlTree, node: AvlNode, parent: AvlNode, ghost c: Context, ghost s: Shape) returns (ghost t: Shape)
    requires Standing(tree, c, s) && RightHeavy(s) && node == s.right.node && parent == s.node && s.right.balance != 0
    requires ContextLevel(c, Level(s.right)) >= 0
    modifies tree`root, Spots(c, s)`parent, Spots(c, s)`left, Spots(c, s)`right, Spots(c, s)`balance
    ensures Rebalanced(tree, t, Spots(c, s), Order(c, s))
  {
    assert Flaws(s.right, s.node) == 0;
    if node.balance == 1 {
      LeftRebalances(s);
      LeftKeeps(s);
      RotatedLeftFits(c, s);
      RotateLeft(tree, parent, c, s);
      t := Plug(c, RotatedLeft(s));
      Done(tree, c, RotatedLeft(s));
      return;
    }
    RightLeftRebalances(s);
    RightLeftKeeps(s);
    RotateRightLeft(tree, node, c, s);
    t := Plug(c, RotatedRightLeft(s));
    Done(tree, c, RotatedRightLeft(s));
  }

  /** The subtree at `node` has grown by one. */
  method PostInsert(tree: AvlTree, node: AvlNode, ghost c: Context, ghost s: Shape) returns (ghost t: Shape)
    requires Standing(tree, c, s) && s.Bin? && node == s.node && Balanced(s) && s.balance != 0
    requires ContextLevel(c, Level(s) - 1) >= 0
    modifies tree`root, Spots(c, s)`parent, Spots(c, s)`left, Spots(c, s)`right, Spots(c, s)`balance
    ensures Rebalanced(tree, t, Spots(c, s), Order(c, s))
    decreases c, 1
  {
    var parent := node.parent;
    if parent == null {
      t := s;
      Done(tree, c, s);
      return;
    }
    if node == parent.left {
      t := LeftInserted(tree, node, parent, c, s);
    } else {
      t := RightInserted(tree, node, parent, c, s);
    }
  }

  method LeftInserted(tree: AvlTree, node: AvlNode, parent: AvlNode, ghost c: Context, ghost s: Shape) returns (ghost t: Shape)
    requires Standing(tree, c, s) && s.Bin? && node == s.node && Balanced(s) && s.balance != 0
    requires c.LeftOf? && parent == c.node && ContextLevel(c, Level(s) - 1) >= 0
    modifies tree`root, Spots(c, s)`parent, Spots(c, s)`left, Spots(c, s)`right, Spots(c, s)`balance
    ensures Rebalanced(tree, t, Spots(c, s), Order(c, s))
    decreases c, 0
  {
    hide Fit, ContextApart, Apart, Linked, ContextLinked, Flaws, ContextFlaws, Level, ContextLevel, Inorder, Earlier, Later, Plug;
    LeftGrown(c, s);
    ghost var w := Over(c, s, c.balance - 1);
    OverInorder(c, s, w.balance);
    Shift(tree, parent, -1, c, s);
    if parent.balance == 0 {
      t := Plug(c.up, w);
      Done(tree, c.up, w);
      return;
    }
    if parent.balance == -1 {
      t := PostInsert(tree, parent, c.up, w);
      return;
    }
    t := LeftTooHigh(tree, node, parent, c.up, w);
  }
  method RightInserted(tree: AvlTree, node: AvlNode, parent: AvlNode, ghost c: Context, ghost s: Shape) returns (ghost t: Shape)
    requires Standing(tree, c, s) && s.Bin? && node == s.node && Balanced(s) && s.balance != 0
    requires c.RightOf? && parent == c.node && ContextLevel(c, Level(s) - 1) >= 0
    modifies tree`root, Spots(c, s)`parent, Spots(c, s)`left, Spots(c, s)`right, Spots(c, s)`balance
    ensures Rebalanced(tree, t, Spots(c, s), Order(c, s))
    decreases c, 0
  {
    hide Fit, ContextApart, Apart, Linked, ContextLinked, Flaws, ContextFlaws, Level, ContextLevel, Inorder, Earlier, Later, Plug;
    RightGrown(c, s);
    ghost var w := Over(c, s, c.balance + 1);
    OverInorder(c, s, w.balance);
    Shift(tree, parent, 1, c, s);
    if parent.balance == 0 {
      t := Plug(c.up, w);
      Done(tree, c.up, w);
      return;
    }
    if parent.balance == 1 {
      t := PostInsert(tree, parent, c.up, w);
      return;
    }
    t := RightTooHigh(tree, node, parent, c.up, w);
  }
}
