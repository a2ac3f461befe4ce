/** What a valid AVL tree is, and looking up keys in it (src-api/common/avl.c). */
module AvlFind {
  import opened AvlShape
  import opened AvlLinks
  import opened AvlList
  import opened AvlPaths
  import opened AvlOrder

  /** The counter of a tree has 32 bits. */
  const WRAP: nat := 0x1_0000_0000

  ghost predicate Mismarked(list: seq<AvlNode>, i: nat)
    requires i < |list|
    reads Elements(list)`follower
  {
    list[i].follower == Leads(list, i)
  }

  /** The nodes that are marked as followers but lead, or the other way round. */
  ghost function Mismarks(list: seq<AvlNode>): set<nat>
    reads Elements(list)`follower
  {
    set i: nat | i < |list| && Mismarked(list, i)
  }

  ghost predicate Flagged(list: seq<AvlNode>)
    reads Elements(list)`follower
  {
    Mismarks(list) == {}
  }

  lemma AllMarked(list: seq<AvlNode>)
    requires Flagged(list)
    ensures forall i {:trigger list[i].follower} :: 0 <= i < |list| ==> (list[i].follower <==> !Leads(list, i))
  {
    forall i | 0 <= i < |list| ensures list[i].follower <==> !Leads(list, i) {
      assert i !in Mismarks(list);
    }
  }

  ghost predicate AllLead(list: seq<AvlNode>) {
    forall i :: 0 <= i < |list| ==> Leads(list, i)
  }

  /** The list pointers form the list, and the counter counts it. */
  ghost predicate Counted(tree: AvlTree)
    reads tree`list, tree`count, Members(tree.head, tree.list)`next, Members(tree.head, tree.list)`previous
  {
    Ring(tree.head, tree.list) && tree.count == |tree.list| % WRAP
  }

  /** The list is sorted and marked, without followers if there may be none. */
  ghost predicate Ordered(list: seq<AvlNode>, allowDups: bool)
    reads Elements(list)`follower
  {
    Sorted(list) && Flagged(list) && (allowDups || AllLead(list))
  }

  ghost predicate ListValid(tree: AvlTree)
    reads tree`list, tree`count, tree`allowDups
    reads Members(tree.head, tree.list)`next, Members(tree.head, tree.list)`previous, Elements(tree.list)`follower
  {
    Counted(tree) && Ordered(tree.list, tree.allowDups)
  }

  ghost predicate TreeValid(tree: AvlTree)
    reads tree`root, tree`shape, tree`list
    reads Nodes(tree.shape)`parent, Nodes(tree.shape)`left, Nodes(tree.shape)`right, Nodes(tree.shape)`balance
  {
    Standing(tree, Top, tree.shape) && Balanced(tree.shape) && Inorder(tree.shape) == Leaders(tree.list)
  }

  /** The pointers form a balanced tree whose nodes in order are the leaders of
      the sorted list. */
  ghost predicate Valid(tree: AvlTree)
    reads tree, Members(tree.head, tree.list), Nodes(tree.shape)
  {
    ListValid(tree) && TreeValid(tree)
  }

  lemma {:induction false} NodesInorder(s: Shape)
    ensures Nodes(s) == Elements(Inorder(s))
  {
    if s.Bin? {
      NodesInorder(s.left);
      NodesInorder(s.right);
    }
  }

  /** The tree's nodes are in the list, with the leaders' keys rising. */
  lemma TreeNodes(tree: AvlTree)
    requires TreeValid(tree) && Ordered(tree.list, tree.allowDups)
    ensures Nodes(tree.shape) <= Elements(tree.list) && Rising(Order(Top, tree.shape))
    ensures Order(Top, tree.shape) == Leaders(tree.list)
  {
    NodesInorder(tree.shape);
    forall n | n in Nodes(tree.shape) ensures n in tree.list {
      var k := LeaderIndex(tree.list, n);
    }
    LeadersRising(tree.list);
    assert [] + Inorder(tree.shape) + [] == Inorder(tree.shape);
  }

  /** _avl_find_rec: the lookup ends at the key, or at the node that the key would
      be a child of.  The second result is the comparison with that node. */
  function FindRec(node: AvlNode, key: int, ghost s: Shape): (AvlNode, int)
    requires s.Bin? && node == s.node && Linked(s, node.parent)
    reads Nodes(s)`parent, Nodes(s)`left, Nodes(s)`right, Nodes(s)`balance
    decreases s
  {
    var diff := key - node.key;
    assert Linked(s.left, s.node) && Linked(s.right, s.node);
    if diff < 0 && node.left != null then
      assert node.left == s.left.node && s.left.node in Nodes(s);
      FindRec(node.left, key, s.left)
    else if diff > 0 && node.right != null then
      assert node.right == s.right.node && s.right.node in Nodes(s);
      FindRec(node.right, key, s.right)
    else (node, diff)
  }

  /** How many nodes the lookup compares the key with. */
  ghost function Comparisons(s: Shape, key: int): nat
    requires s.Bin?
  {
    1 +
    if key < s.node.key && s.left.Bin? then Comparisons(s.left, key)
    else if key > s.node.key && s.right.Bin? then Comparisons(s.right, key)
    else 0
  }

  /** Where the lookup ends. */
  ghost function Descend(c: Context, s: Shape, key: int): (r: (Context, Shape))
    requires s.Bin?
    ensures r.1.Bin?
    decreases s
  {
    if key < s.node.key && s.left.Bin? then Descend(LeftOf(c, s.node, s.balance, s.right), s.left, key)
    else if key > s.node.key && s.right.Bin? then Descend(RightOf(c, s.left, s.node, s.balance), s.right, key)
    else (c, s)
  }

  /** A lookup ends at a node between whose neighbours in order the key belongs. */
  ghost predicate Landed(c: Context, s: Shape, key: int) {
    && s.Bin? && Below(Earlier(c), key) && Above(Later(c), key)
    && (key < s.node.key ==> s.left == Leaf) && (key > s.node.key ==> s.right == Leaf)
  }

  lemma {:induction false} DescendLands(c: Context, s: Shape, key: int)
    requires s.Bin? && Rising(Order(c, s)) && Below(Earlier(c), key) && Above(Later(c), key)
    ensures Landed(Descend(c, s, key).0, Descend(c, s, key).1, key)
    ensures Order(Descend(c, s, key).0, Descend(c, s, key).1) == Order(c, s)
    ensures ContextLevel(Descend(c, s, key).0, Level(Descend(c, s, key).1)) == ContextLevel(c, Level(s))
    decreases s
  {
    if key < s.node.key && s.left.Bin? {
      var below := LeftOf(c, s.node, s.balance, s.right);
      OverInorder(below, s.left, s.balance);
      LaterAbove(c, s, key);
      DescendLands(below, s.left, key);
    } else if key > s.node.key && s.right.Bin? {
      var below := RightOf(c, s.left, s.node, s.balance);
      OverInorder(below, s.right, s.balance);
      EarlierBelow(c, s, key);
      DescendLands(below, s.right, key);
    }
  }

  /** The lookup on the pointers ends there. */
  lemma {:induction false} FindRecDescends(tree: AvlTree, c: Context, s: Shape, key: int)
    requires s.Bin? && Standing(tree, c, s)
    ensures s.node.parent == Parent(c)
    ensures Standing(tree, Descend(c, s, key).0, Descend(c, s, key).1)
    ensures Spots(Descend(c, s, key).0, Descend(c, s, key).1) == Spots(c, s)
    ensures FindRec(s.node, key, s) == (Descend(c, s, key).1.node, key - Descend(c, s, key).1.node.key)
    decreases s
  {
    if key < s.node.key && s.left.Bin? {
      var below := LeftOf(c, s.node, s.balance, s.right);
      MoveDown(tree, below, s.left);
      FindRecDescends(tree, below, s.left, key);
    } else if key > s.node.key && s.right.Bin? {
      var below := RightOf(c, s.left, s.node, s.balance);
      MoveDown(tree, below, s.right);
      FindRecDescends(tree, below, s.right, key);
    }
  }

  lemma OrderAround(c: Context, s: Shape)
    requires s.Bin?
    ensures Order(c, s) == (Earlier(c) + Inorder(s.left)) + [s.node] + (Inorder(s.right) + Later(c))
  {
    Regroup(Earlier(c), Inorder(s.left), [s.node], Inorder(s.right), Later(c));
    var a, b, d := Earlier(c) + Inorder(s.left) + [s.node], Inorder(s.right), Later(c);
    assert a + b + d == a + (b + d);
  }

  lemma LaterAbove(c: Context, s: Shape, key: int)
    requires s.Bin? && Rising(Order(c, s)) && key < s.node.key
    ensures Above([s.node] + Inorder(s.right) + Later(c), key)
  {
    OrderAround(c, s);
    var a, b := Earlier(c) + Inorder(s.left), Inorder(s.right) + Later(c);
    RisingParts(a, s.node, b);
    assert [s.node] + Inorder(s.right) + Later(c) == [s.node] + b;
  }

  lemma EarlierBelow(c: Context, s: Shape, key: int)
    requires s.Bin? && Rising(Order(c, s)) && key > s.node.key
    ensures Below(Earlier(c) + Inorder(s.left) + [s.node], key)
  {
    OrderAround(c, s);
    RisingParts(Earlier(c) + Inorder(s.left), s.node, Inorder(s.right) + Later(c));
  }

  /** Where a lookup ended, the key splits the nodes in two. */
  lemma SearchSplit(c: Context, s: Shape, key: int, diff: int) returns (p: seq<AvlNode>, q: seq<AvlNode>)
    requires Landed(c, s, key) && Rising(Order(c, s)) && diff == key - s.node.key != 0
    ensures Order(c, s) == p + q && Below(p, key) && Above(q, key)
    ensures if diff < 0 then p == Earlier(c) && q != [] && q[0] == s.node else q == Later(c) && p != [] && p[|p| - 1] == s.node
    ensures if diff < 0 then q == [s.node] + (Inorder(s.right) + Later(c)) else p == Earlier(c) + Inorder(s.left) + [s.node]
  {
    OrderAround(c, s);
    if diff < 0 {
      p, q := Earlier(c), [s.node] + (Inorder(s.right) + Later(c));
      LaterAbove(c, s, key);
      assert [s.node] + Inorder(s.right) + Later(c) == q;
      assert Earlier(c) + [] == Earlier(c);
      assert p + [s.node] + (Inorder(s.right) + Later(c)) == p + q;
    } else {
      p, q := Earlier(c) + Inorder(s.left) + [s.node], Later(c);
      EarlierBelow(c, s, key);
      assert [] + Later(c) == Later(c);
    }
  }

  // ----- linear scans of the list

  function FirstEqual(list: seq<AvlNode>, key: int): AvlNode? {
    if list == [] then null else if list[0].key == key then list[0] else FirstEqual(list[1..], key)
  }

  function FirstAtLeast(list: seq<AvlNode>, key: int): AvlNode? {
    if list == [] then null else if list[0].key >= key then list[0] else FirstAtLeast(list[1..], key)
  }

  function LastAtMost(list: seq<AvlNode>, key: int): AvlNode? {
    if list == [] then null
    else if list[|list| - 1].key <= key then list[|list| - 1]
    else LastAtMost(list[..|list| - 1], key)
  }

  lemma {:induction false} FirstEqualIs(list: seq<AvlNode>, key: int, k: nat)
    requires k <= |list| && (k < |list| ==> list[k].key == key)
    requires forall j :: 0 <= j < k ==> list[j].key != key
    ensures FirstEqual(list, key) == if k < |list| then list[k] else null
    decreases k
  {
    if k > 0 {
      FirstEqualIs(list[1..], key, k - 1);
    }
  }

  lemma {:induction false} FirstAtLeastIs(list: seq<AvlNode>, key: int, k: nat)
    requires k <= |list| && (k < |list| ==> list[k].key >= key)
    requires forall j :: 0 <= j < k ==> list[j].key < key
    ensures FirstAtLeast(list, key) == if k < |list| then list[k] else null
    decreases k
  {
    if k > 0 {
      FirstAtLeastIs(list[1..], key, k - 1);
    }
  }

  lemma {:induction false} LastAtMostIs(list: seq<AvlNode>, key: int, k: nat)
    requires k <= |list| && (k > 0 ==> list[k - 1].key <= key)
    requires forall j :: k <= j < |list| ==> list[j].key > key
    ensures LastAtMost(list, key) == if k > 0 then list[k - 1] else null
    decreases |list|
  {
    if k < |list| {
      LastAtMostIs(list[..|list| - 1], key, k);
    }
  }

  /** What the list pointers of the element at `k` tell. */
  lemma RingAt(head: AvlNode, list: seq<AvlNode>, k: nat)
    requires Ring(head, list) && k < |list|
    ensures IsFirst(head, list[k]) <==> k == 0
    ensures IsLast(head, list[k]) <==> k == |list| - 1
    ensures k + 1 < |list| ==> list[k].next == list[k + 1]
    ensures k > 0 ==> list[k].previous == list[k - 1]
  {
    AllJoined(head, list);
    assert Joined(Spot(head, list, 0), Spot(head, list, 1));
    assert Joined(Spot(head, list, |list|), Spot(head, list, |list| + 1));
    assert Joined(Spot(head, list, k), Spot(head, list, k + 1));
    assert Joined(Spot(head, list, k + 1), Spot(head, list, k + 2));
  }

  lemma LeaderAt(list: seq<AvlNode>, c: Context, s: Shape) returns (k: nat)
    requires s.Bin? && Order(c, s) == Leaders(list)
    ensures k < |list| && list[k] == s.node && Leads(list, k)
  {
    OrderAround(c, s);
    k := LeaderIndex(list, s.node);
  }

  /** Whether the key is in the list shows where the lookup ended. */
  lemma EqualIs(list: seq<AvlNode>, c: Context, s: Shape, k: nat, key: int)
    requires Landed(c, s, key) && Order(c, s) == Leaders(list) && Rising(Order(c, s)) && Sorted(list)
    requires k < |list| && list[k] == s.node && Leads(list, k)
    ensures FirstEqual(list, key) == if key == s.node.key then s.node else null
  {
    if key == s.node.key {
      FirstEqualIs(list, key, k);
    } else {
      var p, q := SearchSplit(c, s, key, key - s.node.key);
      forall j | 0 <= j < |list| ensures list[j].key != key {
        KeyMissing(list, p, q, key, j);
      }
      FirstEqualIs(list, key, |list|);
    }
  }

  /** What the lookup finds in a tree. */
  lemma LookupFinds(tree: AvlTree, key: int) returns (c: Context, s: Shape, k: nat)
    requires Valid(tree) && tree.root != null
    ensures tree.shape.Bin? && tree.root == tree.shape.node && Linked(tree.shape, tree.root.parent)
    ensures c == Descend(Top, tree.shape, key).0 && s == Descend(Top, tree.shape, key).1
    ensures Landed(c, s, key) && Standing(tree, c, s) && Spots(c, s) == Nodes(tree.shape)
    ensures Order(c, s) == Leaders(tree.list) && Rising(Order(c, s)) && ContextLevel(c, Level(s)) >= 0
    ensures FindRec(tree.root, key, tree.shape) == (s.node, key - s.node.key)
    ensures k < |tree.list| && tree.list[k] == s.node && Leads(tree.list, k)
    ensures FirstEqual(tree.list, key) == if key == s.node.key then s.node else null
  {
    TreeNodes(tree);
    c, s := Descend(Top, tree.shape, key).0, Descend(Top, tree.shape, key).1;
    DescendLands(Top, tree.shape, key);
    FindRecDescends(tree, Top, tree.shape, key);
    k := LeaderAt(tree.list, c, s);
    EqualIs(tree.list, c, s, k, key);
  }

  /** avl_find */
  method Find(tree: AvlTree, key: int) returns (found: AvlNode?)
    requires Valid(tree)
    ensures found == FirstEqual(tree.list, key)
  {
    if tree.root == null {
      EmptyTree(tree);
      return null;
    }
    ghost var c, s, k := LookupFinds(tree, key);
    var (node, diff) := FindRec(tree.root, key, tree.shape);
    found := if diff == 0 then node else null;
  }

  lemma EmptyTree(tree: AvlTree)
    requires Valid(tree) && tree.root == null
    ensures tree.list == []
  {
    LeadersRising(tree.list);
  }

  /** avl_find_lessequal */
  method FindLessEqual(tree: AvlTree, key: int) returns (found: AvlNode?)
    requires Valid(tree)
    ensures found == LastAtMost(tree.list, key)
  {
    if tree.root == null {
      EmptyTree(tree);
      return null;
    }
    ghost var c, s, k := LookupFinds(tree, key);
    var (node, diff) := FindRec(tree.root, key, tree.shape);
    found, k := GoLeft(tree, key, node, diff, k);
    if found != null {
      found := LastToTheRight(tree, key, found, k);
    }
  }

  /** Go left as long as the key is less than the node's. */
  method GoLeft(tree: AvlTree, key: int, start: AvlNode, diff0: int, ghost k0: nat) returns (node: AvlNode?, ghost k: nat)
    requires Ring(tree.head, tree.list) && Ordered(tree.list, tree.allowDups) && k0 < |tree.list| && start == tree.list[k0] && diff0 == key - start.key
    ensures k < |tree.list|
    ensures if node == null then LastAtMost(tree.list, key) == null else node == tree.list[k] && node.key <= key
  {
    var diff := diff0;
    node, k := start, k0;
    while diff < 0
      invariant k < |tree.list| && node == tree.list[k] && diff == key - node.key
      decreases k
    {
      RingAt(tree.head, tree.list, k);
      if IsFirst(tree.head, node) {
        LastAtMostIs(tree.list, key, 0);
        node := null;
        return;
      }
      node := node.previous;
      k := k - 1;
      diff := key - node.key;
    }
  }

  /** Go right as long as the key is not less than the next node's. */
  method LastToTheRight(tree: AvlTree, key: int, start: AvlNode, ghost k0: nat) returns (node: AvlNode)
    requires Ring(tree.head, tree.list) && Ordered(tree.list, tree.allowDups) && k0 < |tree.list| && start == tree.list[k0] && start.key <= key
    ensures node == LastAtMost(tree.list, key)
  {
    ghost var k: nat := k0;
    var next: AvlNode, diff: int := start, key - start.key;
    node := start;
    while diff >= 0
      invariant k < |tree.list| && next == tree.list[k] && diff == key - next.key
      invariant diff < 0 ==> k > 0 && node == tree.list[k - 1] && node.key <= key
      decreases |tree.list| - k
    {
      node := next;
      RingAt(tree.head, tree.list, k);
      if IsLast(tree.head, node) {
        LastAtMostIs(tree.list, key, |tree.list|);
        return;
      }
      next := node.next;
      k := k + 1;
      diff := key - next.key;
    }
    LastAtMostIs(tree.list, key, k);
  }

  /** avl_find_greaterequal */
  method FindGreaterEqual(tree: AvlTree, key: int) returns (found: AvlNode?)
    requires Valid(tree)
    ensures found == FirstAtLeast(tree.list, key)
  {
    if tree.root == null {
      EmptyTree(tree);
      return null;
    }
    ghost var c, s, k := LookupFinds(tree, key);
    var (node, diff) := FindRec(tree.root, key, tree.shape);
    found, k := GoRight(tree, key, node, diff, k);
    if found != null {
      found := FirstToTheLeft(tree, key, found, k);
    }
  }

  /** Go right as long as the key is larger than the node's. */
  method GoRight(tree: AvlTree, key: int, start: AvlNode, diff0: int, ghost k0: nat) returns (node: AvlNode?, ghost k: nat)
    requires Ring(tree.head, tree.list) && Ordered(tree.list, tree.allowDups) && k0 < |tree.list| && start == tree.list[k0] && diff0 == key - start.key
    ensures k < |tree.list|
    ensures if node == null then FirstAtLeast(tree.list, key) == null else node == tree.list[k] && node.key >= key
  {
    var diff := diff0;
    node, k := start, k0;
    while diff > 0
      invariant k < |tree.list| && node == tree.list[k] && diff == key - node.key
      decreases |tree.list| - k
    {
      RingAt(tree.head, tree.list, k);
      if IsLast(tree.head, node) {
        FirstAtLeastIs(tree.list, key, |tree.list|);
        node := null;
        return;
      }
      node := node.next;
      k := k + 1;
      diff := key - node.key;
    }
  }

  /** Go left as long as the key is not larger than the next node's. */
  method FirstToTheLeft(tree: AvlTree, key: int, start: AvlNode, ghost k0: nat) returns (node: AvlNode)
    requires Ring(tree.head, tree.list) && Ordered(tree.list, tree.allowDups) && k0 < |tree.list| && start == tree.list[k0] && start.key >= key
    ensures node == FirstAtLeast(tree.list, key)
  {
    ghost var k: nat := k0;
    var next: AvlNode, diff: int := start, key - start.key;
    node := start;
    while diff <= 0
      invariant k < |tree.list| && next == tree.list[k] && diff == key - next.key
      invariant diff > 0 ==> k + 1 < |tree.list| && node == tree.list[k + 1] && node.key >= key
      decreases k
    {
      node := next;
      RingAt(tree.head, tree.list, k);
      if IsFirst(tree.head, node) {
        FirstAtLeastIs(tree.list, key, 0);
        return;
      }
      next := node.previous;
      k := k - 1;
      diff := key - next.key;
    }
    FirstAtLeastIs(tree.list, key, k + 1);
  }
}
