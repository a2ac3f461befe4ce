/** Inserting into and removing from an AVL tree (src-api/common/avl.c). */
module Avl {
  import opened AvlShape
  import opened AvlLinks
  import opened AvlList
  import opened AvlPaths
  import opened AvlOrder
  import opened AvlFind
  import opened AvlInsert
  import opened AvlRemove
  import opened AvlRuns

  /** avl_init */
  method Create(allowDups: bool) returns (tree: AvlTree)
    ensures fresh(tree) && Valid(tree) && tree.list == [] && tree.allowDups == allowDups
  {
    tree := new AvlTree(allowDups);
    assert Joined(Spot(tree.head, [], 0), Spot(tree.head, [], 1));
    assert Gaps(tree.head, tree.list) == {} && Mismarks(tree.list) == {};
    assert Flaws(tree.shape, null) == 0;
  }

  // ----- where a new node goes in the list

  lemma BeforeLeader(list: seq<AvlNode>, p: seq<AvlNode>, q: seq<AvlNode>, key: int, k: nat)
    requires Sorted(list) && Leaders(list) == p + q && Below(p, key) && Above(q, key)
    requires k < |list| && Leads(list, k) && q != [] && q[0] == list[k]
    ensures Position(list, key) == k && Below(list[..k], key) && Above(list[k..], key)
  {
    if k > 0 {
      var n := LeaderOf(list, k - 1);
      LeadersRising(list);
      var all := p + q;
      var i :| 0 <= i < |all| && all[i] == n;
      assert all[|p|] == list[k];
      assert i < |p| && all[i] == p[i];
    }
    SortedParts(list, k, key);
    PositionIs(list, key, k);
  }

  lemma AfterFollowers(list: seq<AvlNode>, p: seq<AvlNode>, q: seq<AvlNode>, key: int, e: nat)
    requires Sorted(list) && Leaders(list) == p + q && Below(p, key) && Above(q, key)
    requires e < |list| && (e + 1 < |list| ==> Leads(list, e + 1))
    requires p != [] && p[|p| - 1].key == list[e].key
    ensures Position(list, key) == e + 1 && Below(list[..e + 1], key) && Above(list[e + 1..], key)
  {
    if e + 1 < |list| {
      var n := LeaderOf(list, e + 1);
      LeadersRising(list);
      var all := p + q;
      var i :| 0 <= i < |all| && all[i] == n;
      assert all[|p| - 1] == p[|p| - 1];
      assert i >= |p| && all[i] == q[i - |p|];
    }
    SortedParts(list, e + 1, key);
    PositionIs(list, key, e + 1);
  }

  /** Flags stay right when the new node's flag is. */
  lemma FlagsInserted(list: seq<AvlNode>, i: nat, n: AvlNode)
    requires Sorted(list) && i <= |list| && Flagged(list)
    requires i == 0 || list[i - 1].key <= n.key
    requires i == |list| || list[i].key > n.key
    requires n.follower <==> i > 0 && list[i - 1].key == n.key
    ensures Flagged(Inserted(list, i, n))
  {
    AllMarked(list);
    var longer := Inserted(list, i, n);
    forall j | 0 <= j < |longer| ensures longer[j].follower <==> !Leads(longer, j) {
      if j < i {
        assert Leads(longer, j) == Leads(list, j);
      } else if j > i + 1 {
        assert Leads(longer, j) == Leads(list, j - 1);
      } else if j == i + 1 {
        assert Leads(longer, j) && Leads(list, i);
      }
    }
  }

  /** Flags stay right when the node behind the removed one has the right flag. */
  lemma FlagsRemoved(list: seq<AvlNode>, i: nat)
    requires Sorted(list) && i < |list|
    requires forall j :: 0 <= j < |list| && j != i ==>
      (list[j].follower <==> !Leads(list, j) && !(j == i + 1 && Leads(list, i)))
    ensures Flagged(Removed(list, i))
  {
    var shorter := Removed(list, i);
    forall j | 0 <= j < |shorter| ensures shorter[j].follower <==> !Leads(shorter, j) {
      if j < i {
        assert Leads(shorter, j) == Leads(list, j);
      } else if j > i {
        assert Leads(shorter, j) == Leads(list, j + 1);
      } else {
        assert shorter[j] == list[i + 1];
      }
    }
  }

  // ----- inserting

  /** Where a node belongs in a list, and that it is marked right. */
  ghost predicate Fitting(list: seq<AvlNode>, i: nat, n: AvlNode)
    reads n`follower
  {
    && i <= |list| && (i == 0 || list[i - 1].key <= n.key) && (i == |list| || list[i].key > n.key)
    && (n.follower <==> i > 0 && list[i - 1].key == n.key)
  }

  lemma AllLeadInserted(list: seq<AvlNode>, i: nat, n: AvlNode)
    requires AllLead(list) && Fitting(list, i, n) && !n.follower
    ensures AllLead(Inserted(list, i, n))
  {
    var longer := Inserted(list, i, n);
    forall j | 0 <= j < |longer| ensures Leads(longer, j) {
      if j < i {
        assert Leads(list, j);
      } else if j > i + 1 {
        assert Leads(list, j - 1);
      }
    }
  }

  /** _avl_insert_before */
  method InsertBefore(tree: AvlTree, position: AvlNode, entity: AvlNode, ghost k: nat)
    requires Counted(tree) && k < |tree.list| && position == tree.list[k] && entity !in Members(tree.head, tree.list)
    modifies tree`count, tree`list, entity`next, entity`previous
    modifies Members(tree.head, tree.list)`next, Members(tree.head, tree.list)`previous
    ensures Counted(tree) && tree.list == Inserted(old(tree.list), k, entity)
  {
    AddBefore(position, entity, tree.head, tree.list, k);
    tree.count := (tree.count + 1) % WRAP;
    tree.list := Inserted(tree.list, k, entity);
  }

  /** _avl_insert_after */
  method InsertAfter(tree: AvlTree, position: AvlNode, entity: AvlNode, ghost k: nat)
    requires Counted(tree) && k < |tree.list| && position == tree.list[k] && entity !in Members(tree.head, tree.list)
    modifies tree`count, tree`list, entity`next, entity`previous
    modifies Members(tree.head, tree.list)`next, Members(tree.head, tree.list)`previous
    ensures Counted(tree) && tree.list == Inserted(old(tree.list), k + 1, entity)
  {
    AddAfter(position, entity, tree.head, tree.list, k);
    tree.count := (tree.count + 1) % WRAP;
    tree.list := Inserted(tree.list, k + 1, entity);
  }

  lemma OrderedInserted(list: seq<AvlNode>, i: nat, n: AvlNode, allowDups: bool)
    requires Ordered(list, allowDups) && Fitting(list, i, n) && (allowDups || !n.follower)
    ensures Ordered(Inserted(list, i, n), allowDups)
  {
    InsertedSorted(list, i, n);
    FlagsInserted(list, i, n);
    if !allowDups {
      AllLeadInserted(list, i, n);
    }
  }

  /** The last follower of the leader at `k`, or the leader itself. */
  method LastWithKey(tree: AvlTree, node: AvlNode, ghost k: nat) returns (last: AvlNode, ghost e: nat)
    requires Ring(tree.head, tree.list) && Flagged(tree.list) && k < |tree.list| && node == tree.list[k]
    ensures k <= e < |tree.list| && last == tree.list[e] && last.key == node.key
    ensures e + 1 < |tree.list| ==> Leads(tree.list, e + 1)
  {
    last, e := node, k;
    AllMarked(tree.list);
    RingAt(tree.head, tree.list, e);
    while !IsLast(tree.head, last)
      invariant k <= e < |tree.list| && last == tree.list[e] && last.key == node.key
      invariant IsLast(tree.head, last) <==> e == |tree.list| - 1
      decreases |tree.list| - e
    {
      RingAt(tree.head, tree.list, e);
      var next := last.next;
      if !next.follower {
        break;
      }
      last := next;
      e := e + 1;
      RingAt(tree.head, tree.list, e);
    }
  }

  lemma LeftLevels(c: Context, s: Shape, n: AvlNode)
    requires s.Bin? && s.left == Leaf && ContextLevel(c, Level(s)) >= 0
    ensures 0 <= s.balance <= 1
    ensures s.balance == 1 ==> ContextLevel(c, Level(s.(left := Bin(Leaf, n, 0, Leaf), balance := 0))) >= 0
    ensures s.balance == 0 ==>
      var t := s.(left := Bin(Leaf, n, 0, Leaf), balance := -1);
      Balanced(t) && ContextLevel(c, Level(t) - 1) >= 0
  {
    NoLevel(c);
    assert Level(Bin(Leaf, n, 0, Leaf)) == 1;
  }

  lemma RightLevels(c: Context, s: Shape, n: AvlNode)
    requires s.Bin? && s.right == Leaf && ContextLevel(c, Level(s)) >= 0
    ensures -1 <= s.balance <= 0
    ensures s.balance == -1 ==> ContextLevel(c, Level(s.(right := Bin(Leaf, n, 0, Leaf), balance := 0))) >= 0
    ensures s.balance == 0 ==>
      var t := s.(right := Bin(Leaf, n, 0, Leaf), balance := 1);
      Balanced(t) && ContextLevel(c, Level(t) - 1) >= 0
  {
    NoLevel(c);
    assert Level(Bin(Leaf, n, 0, Leaf)) == 1;
  }

  lemma LeftOrder(c: Context, s: Shape, n: AvlNode, b: int)
    requires s.Bin? && s.left == Leaf
    ensures Order(c, s.(left := Bin(Leaf, n, 0, Leaf), balance := b))
         == Earlier(c) + [n] + ([s.node] + (Inorder(s.right) + Later(c)))
  {
    var t := s.(left := Bin(Leaf, n, 0, Leaf), balance := b);
    OrderAround(c, t);
    assert Inorder(t.left) == [] + [n] + [] == [n];
    Join(Earlier(c) + [n], [s.node], Inorder(s.right) + Later(c));
  }

  lemma RightOrder(c: Context, s: Shape, n: AvlNode, b: int)
    requires s.Bin? && s.right == Leaf
    ensures Order(c, s.(right := Bin(Leaf, n, 0, Leaf), balance := b))
         == Earlier(c) + Inorder(s.left) + [s.node] + [n] + Later(c)
  {
    var t := s.(right := Bin(Leaf, n, 0, Leaf), balance := b);
    OrderAround(c, t);
    assert Inorder(t.right) == [] + [n] + [] == [n];
    Join(Earlier(c) + Inorder(s.left) + [s.node], [n], Later(c));
  }

  /** A place in the tree for a node with a new key: where the lookup ended, on
      which side, and how the key splits the nodes. */
  ghost predicate Place(tree: AvlTree, entity: AvlNode, c: Context, s: Shape)
    reads tree`root, entity`parent, entity`left, entity`right, entity`balance
    reads Spots(c, s)`parent, Spots(c, s)`left, Spots(c, s)`right, Spots(c, s)`balance
  {
    && s.Bin? && Standing(tree, c, s) && ContextLevel(c, Level(s)) >= 0 && entity !in Spots(c, s)
    && entity.parent == s.node && entity.left == null && entity.right == null && entity.balance == 0
  }

  /** The node fills up the shorter side below `node`. */
  method FillLeft(tree: AvlTree, node: AvlNode, entity: AvlNode, ghost c: Context, ghost s: Shape) returns (ghost t: Shape)
    requires Place(tree, entity, c, s) && node == s.node && s.left == Leaf && s.balance == 1
    modifies node`left, node`balance
    ensures Rebalanced(tree, t, Spots(c, s) + {entity}, Earlier(c) + [entity] + ([s.node] + (Inorder(s.right) + Later(c))))
  {
    LeftLevels(c, s, entity);
    LeftOrder(c, s, entity, 0);
    t := s.(left := Bin(Leaf, entity, 0, Leaf), balance := 0);
    AttachLeft(tree, node, entity, 0, c, s);
    Done(tree, c, t);
    t := Plug(c, t);
  }

  /** The node makes the side below `node` longer than the other one. */
  method GrowLeft(tree: AvlTree, node: AvlNode, entity: AvlNode, ghost c: Context, ghost s: Shape) returns (ghost t: Shape)
    requires Place(tree, entity, c, s) && node == s.node && s.left == Leaf && s.balance == 0
    modifies tree`root, entity`parent, entity`left, entity`right, entity`balance
    modifies Spots(c, s)`parent, Spots(c, s)`left, Spots(c, s)`right, Spots(c, s)`balance
    ensures Rebalanced(tree, t, Spots(c, s) + {entity}, Earlier(c) + [entity] + ([s.node] + (Inorder(s.right) + Later(c))))
  {
    LeftLevels(c, s, entity);
    LeftOrder(c, s, entity, -1);
    t := s.(left := Bin(Leaf, entity, 0, Leaf), balance := -1);
    AttachLeft(tree, node, entity, -1, c, s);
    t := PostInsert(tree, node, c, t);
  }

  method FillRight(tree: AvlTree, node: AvlNode, entity: AvlNode, ghost c: Context, ghost s: Shape) returns (ghost t: Shape)
    requires Place(tree, entity, c, s) && node == s.node && s.right == Leaf && s.balance == -1
    modifies node`right, node`balance
    ensures Rebalanced(tree, t, Spots(c, s) + {entity}, Earlier(c) + Inorder(s.left) + [s.node] + [entity] + Later(c))
  {
    RightLevels(c, s, entity);
    RightOrder(c, s, entity, 0);
    t := s.(right := Bin(Leaf, entity, 0, Leaf), balance := 0);
    AttachRight(tree, node, entity, 0, c, s);
    Done(tree, c, t);
    t := Plug(c, t);
  }

  method GrowRight(tree: AvlTree, node: AvlNode, entity: AvlNode, ghost c: Context, ghost s: Shape) returns (ghost t: Shape)
    requires Place(tree, entity, c, s) && node == s.node && s.right == Leaf && s.balance == 0
    modifies tree`root, entity`parent, entity`left, entity`right, entity`balance
    modifies Spots(c, s)`parent, Spots(c, s)`left, Spots(c, s)`right, Spots(c, s)`balance
    ensures Rebalanced(tree, t, Spots(c, s) + {entity}, Earlier(c) + Inorder(s.left) + [s.node] + [entity] + Later(c))
  {
    RightLevels(c, s, entity);
    RightOrder(c, s, entity, 1);
    t := s.(right := Bin(Leaf, entity, 0, Leaf), balance := 1);
    AttachRight(tree, node, entity, 1, c, s);
    t := PostInsert(tree, node, c, t);
  }

  /** What the list has to be after an insertion, and its leaders. */
  ghost predicate Listed(tree: AvlTree, before: seq<AvlNode>, entity: AvlNode, leaders: seq<AvlNode>)
    reads tree`list, tree`count, tree`allowDups
    reads Members(tree.head, tree.list)`next, Members(tree.head, tree.list)`previous, Elements(tree.list)`follower
  {
    && ListValid(tree) && Leaders(tree.list) == leaders
    && tree.list == Inserted(before, Position(before, entity.key), entity)
  }

  lemma NewLeader(list: seq<AvlNode>, i: nat, n: AvlNode, p: seq<AvlNode>, q: seq<AvlNode>, allowDups: bool)
    requires Ordered(list, allowDups) && i <= |list| && !n.follower
    requires Leaders(list) == p + q && Below(p, n.key) && Above(q, n.key)
    requires Below(list[..i], n.key) && Above(list[i..], n.key)
    ensures Leaders(Inserted(list, i, n)) == p + [n] + q && Ordered(Inserted(list, i, n), allowDups)
  {
    LeadersInserted(list, i, n, p, q);
    FitsBetween(list, i, n);
    OrderedInserted(list, i, n, allowDups);
  }

  lemma NewFollower(list: seq<AvlNode>, i: nat, n: AvlNode)
    requires Ordered(list, true) && 0 < i <= |list| && n.follower
    requires list[i - 1].key == n.key && (i < |list| ==> Leads(list, i))
    ensures Leaders(Inserted(list, i, n)) == Leaders(list) && Ordered(Inserted(list, i, n), true)
    ensures Position(list, n.key) == i
  {
    var a, b := list[..i], list[i..];
    assert list == a + b;
    FollowerIgnored(a, n, b);
    OrderedInserted(list, i, n, true);
    PositionIs(list, n.key, i);
  }

  method PutBefore(tree: AvlTree, node: AvlNode, entity: AvlNode, ghost k: nat, ghost p: seq<AvlNode>, ghost q: seq<AvlNode>)
    requires ListValid(tree) && entity !in Members(tree.head, tree.list) && !entity.follower
    requires k < |tree.list| && node == tree.list[k] && Leads(tree.list, k)
    requires Leaders(tree.list) == p + q && Below(p, entity.key) && Above(q, entity.key) && q != [] && q[0] == node
    modifies tree`count, tree`list, entity`next, entity`previous
    modifies Members(tree.head, tree.list)`next, Members(tree.head, tree.list)`previous
    ensures Listed(tree, old(tree.list), entity, p + [entity] + q)
  {
    BeforeLeader(tree.list, p, q, entity.key, k);
    NewLeader(tree.list, k, entity, p, q, tree.allowDups);
    ghost var longer := Inserted(tree.list, k, entity);
    assert allocated(Elements(longer));
    InsertBefore(tree, node, entity, k);
    assert Mismarks(longer) == {};
  }

  method PutAfter(tree: AvlTree, last: AvlNode, entity: AvlNode, ghost e: nat, ghost p: seq<AvlNode>, ghost q: seq<AvlNode>)
    requires ListValid(tree) && entity !in Members(tree.head, tree.list) && !entity.follower
    requires e < |tree.list| && last == tree.list[e] && (e + 1 < |tree.list| ==> Leads(tree.list, e + 1))
    requires Leaders(tree.list) == p + q && Below(p, entity.key) && Above(q, entity.key)
    requires p != [] && p[|p| - 1].key == last.key
    modifies tree`count, tree`list, entity`next, entity`previous
    modifies Members(tree.head, tree.list)`next, Members(tree.head, tree.list)`previous
    ensures Listed(tree, old(tree.list), entity, p + [entity] + q)
  {
    AfterFollowers(tree.list, p, q, entity.key, e);
    NewLeader(tree.list, e + 1, entity, p, q, tree.allowDups);
    ghost var longer := Inserted(tree.list, e + 1, entity);
    assert allocated(Elements(longer));
    InsertAfter(tree, last, entity, e);
    assert Mismarks(longer) == {};
  }

  lemma FitsBetween(list: seq<AvlNode>, i: nat, n: AvlNode)
    requires i <= |list| && Below(list[..i], n.key) && Above(list[i..], n.key) && !n.follower
    ensures Fitting(list, i, n)
  {
    assert i > 0 ==> list[..i][i - 1] == list[i - 1];
    assert i < |list| ==> list[i..][0] == list[i];
  }

  /** A node with a key that is in the tree already. */
  method PutFollower(tree: AvlTree, last: AvlNode, entity: AvlNode, ghost e: nat)
    requires ListValid(tree) && entity !in Members(tree.head, tree.list) && entity.follower && tree.allowDups
    requires e < |tree.list| && last == tree.list[e] && (e + 1 < |tree.list| ==> Leads(tree.list, e + 1))
    requires last.key == entity.key
    modifies tree`count, tree`list, entity`next, entity`previous
    modifies Members(tree.head, tree.list)`next, Members(tree.head, tree.list)`previous
    ensures Listed(tree, old(tree.list), entity, Leaders(old(tree.list)))
  {
    NewFollower(tree.list, e + 1, entity);
    ghost var longer := Inserted(tree.list, e + 1, entity);
    assert allocated(Elements(longer));
    InsertAfter(tree, last, entity, e);
    assert Mismarks(longer) == {};
  }

  method ClearLinks(entity: AvlNode)
    modifies entity`parent, entity`left, entity`right, entity`balance, entity`follower
    ensures entity.parent == null && entity.left == null && entity.right == null && entity.balance == 0 && !entity.follower
  {
    entity.parent := null;
    entity.left := null;
    entity.right := null;
    entity.balance := 0;
    entity.follower := false;
  }

  /** The first node of an empty tree. */
  method InsertFirst(tree: AvlTree, entity: AvlNode)
    requires Valid(tree) && tree.root == null && entity !in Members(tree.head, tree.list) && !entity.follower
    requires entity.parent == null && entity.left == null && entity.right == null && entity.balance == 0
    modifies tree`root, tree`count, tree`shape, tree`list, entity`next, entity`previous
    modifies Members(tree.head, tree.list)`next, Members(tree.head, tree.list)`previous
    ensures Valid(tree) && old(tree.list) == [] && tree.list == [entity]
  {
    EmptyTree(tree);
    AddHead(tree.head, entity, tree.list);
    tree.root := entity;
    tree.count := 1;
    assert Inserted(tree.list, 0, entity) == [entity];
    tree.list := [entity];
    tree.shape := Bin(Leaf, entity, 0, Leaf);
    LeadersOne(entity);
    assert Flaws(tree.shape, null) == 0;
    assert [] + [entity] + [] == [entity];
  }

  /** A new node to the left of a leader, which stays as high or grows. */
  method InsertLeft(tree: AvlTree, node: AvlNode, entity: AvlNode, fills: bool,
    ghost c: Context, ghost s: Shape, ghost k: nat, ghost q: seq<AvlNode>)
    requires ListValid(tree) && entity !in Members(tree.head, tree.list) && !entity.follower
    requires k < |tree.list| && node == tree.list[k] && Leads(tree.list, k)
    requires Leaders(tree.list) == Earlier(c) + q && Below(Earlier(c), entity.key) && Above(q, entity.key)
    requires Place(tree, entity, c, s) && node == s.node && s.left == Leaf && s.balance == (if fills then 1 else 0)
    requires q == [s.node] + (Inorder(s.right) + Later(c))
    modifies tree`root, tree`count, tree`shape, tree`list
    modifies entity`next, entity`previous, entity`parent, entity`left, entity`right, entity`balance
    modifies Members(tree.head, tree.list)`next, Members(tree.head, tree.list)`previous
    modifies Spots(c, s)`parent, Spots(c, s)`left, Spots(c, s)`right, Spots(c, s)`balance
    ensures Valid(tree) && tree.list == Inserted(old(tree.list), Position(old(tree.list), entity.key), entity)
  {
    hide Distinct, Gaps, Sorted, Leaders, Mismarks, Flaws, ContextFlaws, Inorder, ContextLevel, Earlier, Later, Position, Plug, Level, Below, Above;
    assert allocated(Spots(c, s));
    PutBefore(tree, node, entity, k, Earlier(c), q);
    if fills {
      FillLeftIn(tree, node, entity, c, s);
    } else {
      GrowLeftIn(tree, node, entity, c, s);
    }
  }

  method FillLeftIn(tree: AvlTree, node: AvlNode, entity: AvlNode, ghost c: Context, ghost s: Shape)
    requires ListValid(tree) && Place(tree, entity, c, s) && node == s.node && s.left == Leaf && s.balance == 1
    requires Leaders(tree.list) == Earlier(c) + [entity] + ([s.node] + (Inorder(s.right) + Later(c)))
    modifies tree`root, tree`shape, entity`parent, entity`left, entity`right, entity`balance
    modifies Spots(c, s)`parent, Spots(c, s)`left, Spots(c, s)`right, Spots(c, s)`balance
    ensures Valid(tree) && tree.list == old(tree.list)
  {
    hide Distinct, Sorted, Leaders, ContextFlaws, Inorder, ContextLevel, Earlier, Later, Position, Plug, Level, Apart, ContextApart;
    assert allocated(Members(tree.head, tree.list)) && allocated(Elements(tree.list));
    ghost var t := FillLeft(tree, node, entity, c, s);
    assert Gaps(tree.head, tree.list) == {} && Mismarks(tree.list) == {};
    tree.shape := t;
  }

  method GrowLeftIn(tree: AvlTree, node: AvlNode, entity: AvlNode, ghost c: Context, ghost s: Shape)
    requires ListValid(tree) && Place(tree, entity, c, s) && node == s.node && s.left == Leaf && s.balance == 0
    requires Leaders(tree.list) == Earlier(c) + [entity] + ([s.node] + (Inorder(s.right) + Later(c)))
    modifies tree`root, tree`shape, entity`parent, entity`left, entity`right, entity`balance
    modifies Spots(c, s)`parent, Spots(c, s)`left, Spots(c, s)`right, Spots(c, s)`balance
    ensures Valid(tree) && tree.list == old(tree.list)
  {
    hide Distinct, Sorted, Leaders, ContextFlaws, Inorder, ContextLevel, Earlier, Later, Position, Plug, Level, Apart, ContextApart;
    assert allocated(Members(tree.head, tree.list)) && allocated(Elements(tree.list));
    ghost var t := GrowLeft(tree, node, entity, c, s);
    assert Gaps(tree.head, tree.list) == {} && Mismarks(tree.list) == {};
    tree.shape := t;
  }

  /** The same to the right, behind all nodes with that leader's key. */
  method InsertRight(tree: AvlTree, node: AvlNode, last: AvlNode, entity: AvlNode, fills: bool,
    ghost c: Context, ghost s: Shape, ghost e: nat, ghost p: seq<AvlNode>)
    requires ListValid(tree) && entity !in Members(tree.head, tree.list) && !entity.follower
    requires e < |tree.list| && last == tree.list[e] && last.key == node.key && (e + 1 < |tree.list| ==> Leads(tree.list, e + 1))
    requires Leaders(tree.list) == p + Later(c) && Below(p, entity.key) && Above(Later(c), entity.key)
    requires Place(tree, entity, c, s) && node == s.node && s.right == Leaf && s.balance == (if fills then -1 else 0)
    requires p == Earlier(c) + Inorder(s.left) + [s.node]
    modifies tree`root, tree`count, tree`shape, tree`list
    modifies entity`next, entity`previous, entity`parent, entity`left, entity`right, entity`balance
    modifies Members(tree.head, tree.list)`next, Members(tree.head, tree.list)`previous
    modifies Spots(c, s)`parent, Spots(c, s)`left, Spots(c, s)`right, Spots(c, s)`balance
    ensures Valid(tree) && tree.list == Inserted(old(tree.list), Position(old(tree.list), entity.key), entity)
  {
    hide Distinct, Gaps, Sorted, Leaders, Mismarks, Flaws, ContextFlaws, Inorder, ContextLevel, Earlier, Later, Position, Plug, Level, Below, Above;
    assert allocated(Spots(c, s));
    PutAfter(tree, last, entity, e, p, Later(c));
    if fills {
      FillRightIn(tree, node, entity, c, s);
    } else {
      GrowRightIn(tree, node, entity, c, s);
    }
  }

  method FillRightIn(tree: AvlTree, node: AvlNode, entity: AvlNode, ghost c: Context, ghost s: Shape)
    requires ListValid(tree) && Place(tree, entity, c, s) && node == s.node && s.right == Leaf && s.balance == -1
    requires Leaders(tree.list) == Earlier(c) + Inorder(s.left) + [s.node] + [entity] + Later(c)
    modifies tree`root, tree`shape, entity`parent, entity`left, entity`right, entity`balance
    modifies Spots(c, s)`parent, Spots(c, s)`left, Spots(c, s)`right, Spots(c, s)`balance
    ensures Valid(tree) && tree.list == old(tree.list)
  {
    hide Distinct, Sorted, Leaders, ContextFlaws, Inorder, ContextLevel, Earlier, Later, Position, Plug, Level, Apart, ContextApart;
    assert allocated(Members(tree.head, tree.list)) && allocated(Elements(tree.list));
    ghost var t := FillRight(tree, node, entity, c, s);
    assert Gaps(tree.head, tree.list) == {} && Mismarks(tree.list) == {};
    tree.shape := t;
  }

  method GrowRightIn(tree: AvlTree, node: AvlNode, entity: AvlNode, ghost c: Context, ghost s: Shape)
    requires ListValid(tree) && Place(tree, entity, c, s) && node == s.node && s.right == Leaf && s.balance == 0
    requires Leaders(tree.list) == Earlier(c) + Inorder(s.left) + [s.node] + [entity] + Later(c)
    modifies tree`root, tree`shape, entity`parent, entity`left, entity`right, entity`balance
    modifies Spots(c, s)`parent, Spots(c, s)`left, Spots(c, s)`right, Spots(c, s)`balance
    ensures Valid(tree) && tree.list == old(tree.list)
  {
    hide Distinct, Sorted, Leaders, ContextFlaws, Inorder, ContextLevel, Earlier, Later, Position, Plug, Level, Apart, ContextApart;
    assert allocated(Members(tree.head, tree.list)) && allocated(Elements(tree.list));
    ghost var t := GrowRight(tree, node, entity, c, s);
    assert Gaps(tree.head, tree.list) == {} && Mismarks(tree.list) == {};
    tree.shape := t;
  }

  /** A node with a new key: the balance of the node the lookup ended at tells
      the side, unless it is even. */
  method InsertNew(tree: AvlTree, node: AvlNode, last: AvlNode, entity: AvlNode, diff: int, ghost e: nat)
    requires Valid(tree) && entity !in Members(tree.head, tree.list) && !entity.follower
    requires entity.parent == null && entity.left == null && entity.right == null && entity.balance == 0
    requires tree.shape.Bin? && node == Descend(Top, tree.shape, entity.key).1.node && diff == entity.key - node.key != 0
    requires e < |tree.list| && last == tree.list[e] && last.key == node.key && (e + 1 < |tree.list| ==> Leads(tree.list, e + 1))
    modifies tree`root, tree`count, tree`shape, tree`list
    modifies entity`next, entity`previous, entity`parent, entity`left, entity`right, entity`balance
    modifies Members(tree.head, tree.list)`next, Members(tree.head, tree.list)`previous
    modifies Nodes(tree.shape)`parent, Nodes(tree.shape)`left, Nodes(tree.shape)`right, Nodes(tree.shape)`balance
    ensures Valid(tree) && tree.list == Inserted(old(tree.list), Position(old(tree.list), entity.key), entity)
  {
    hide Distinct, Gaps, Sorted, Mismarks, Flaws, ContextFlaws, Inorder, Position, Plug, Level, Below, Above, Inserted;
    ghost var c, s, k := LookupFinds(tree, entity.key);
    TreeNodes(tree);
    ghost var p, q := SearchSplit(c, s, entity.key, diff);
    SideLevels(c, s, diff);
    TakeApart(tree, c, s);
    entity.parent := node;
    if node.balance == 1 {
      InsertLeft(tree, node, entity, true, c, s, k, q);
    } else if node.balance == -1 {
      InsertRight(tree, node, last, entity, true, c, s, e, p);
    } else if diff < 0 {
      InsertLeft(tree, node, entity, false, c, s, k, q);
    } else {
      InsertRight(tree, node, last, entity, false, c, s, e, p);
    }
  }

  lemma SideLevels(c: Context, s: Shape, diff: int)
    requires s.Bin? && ContextLevel(c, Level(s)) >= 0 && diff != 0
    requires (diff < 0 ==> s.left == Leaf) && (diff > 0 ==> s.right == Leaf)
    ensures if diff < 0 then 0 <= s.balance <= 1 else -1 <= s.balance <= 0
  {
    if diff < 0 {
      LeftLevels(c, s, s.node);
    } else {
      RightLevels(c, s, s.node);
    }
  }

  /** avl_insert: 0 if the node was inserted, -1 if its key is there already and
      may not be there twice. */
  method Insert(tree: AvlTree, entity: AvlNode) returns (result: int)
    requires Valid(tree) && entity !in Members(tree.head, tree.list)
    modifies tree`root, tree`count, tree`shape, tree`list, entity
    modifies Members(tree.head, tree.list)`next, Members(tree.head, tree.list)`previous
    modifies Nodes(tree.shape)`parent, Nodes(tree.shape)`left, Nodes(tree.shape)`right, Nodes(tree.shape)`balance
    ensures Valid(tree)
    ensures result == if Refused(old(tree.list), entity, tree.allowDups) then -1 else 0
    ensures tree.list == After(old(tree.list), Add(entity), tree.allowDups)
  {
    TreeNodes(tree);
    ClearLinks(entity);
    if tree.root == null {
      InsertFirst(tree, entity);
      return 0;
    }
    result := InsertBelow(tree, entity);
  }

  method InsertBelow(tree: AvlTree, entity: AvlNode) returns (result: int)
    requires Valid(tree) && tree.root != null && entity !in Members(tree.head, tree.list) && !entity.follower
    requires entity.parent == null && entity.left == null && entity.right == null && entity.balance == 0
    modifies tree`root, tree`count, tree`shape, tree`list, entity
    modifies Members(tree.head, tree.list)`next, Members(tree.head, tree.list)`previous
    modifies Nodes(tree.shape)`parent, Nodes(tree.shape)`left, Nodes(tree.shape)`right, Nodes(tree.shape)`balance
    ensures Valid(tree)
    ensures result == if Refused(old(tree.list), entity, tree.allowDups) then -1 else 0
    ensures tree.list == After(old(tree.list), Add(entity), tree.allowDups)
  {
    hide Distinct, Sorted, Flaws, ContextFlaws, Inorder, Position, Plug, Level, Inserted;
    ghost var c, s, k := LookupFinds(tree, entity.key);
    TreeNodes(tree);
    var (node, cmp) := FindRec(tree.root, entity.key, tree.shape);
    var last: AvlNode;
    ghost var e;
    assert allocated(Members(tree.head, tree.list)) && allocated(Elements(tree.list)) && allocated(Spots(c, s));
    last, e := LastWithKey(tree, node, k);
    assert Gaps(tree.head, tree.list) == {} && Mismarks(tree.list) == {};
    var diff := entity.key - node.key;
    result := 0;
    if diff == 0 {
      if !tree.allowDups {
        return -1;
      }
      InsertFollower(tree, last, entity, e);
      return;
    }
    InsertNew(tree, node, last, entity, diff, e);
  }

  method InsertFollower(tree: AvlTree, last: AvlNode, entity: AvlNode, ghost e: nat)
    requires Valid(tree) && entity !in Members(tree.head, tree.list) && tree.allowDups
    requires e < |tree.list| && last == tree.list[e] && (e + 1 < |tree.list| ==> Leads(tree.list, e + 1))
    requires last.key == entity.key
    modifies tree`count, tree`list, entity`next, entity`previous, entity`follower
    modifies Members(tree.head, tree.list)`next, Members(tree.head, tree.list)`previous
    ensures Valid(tree) && tree.list == Inserted(old(tree.list), Position(old(tree.list), entity.key), entity)
  {
    hide Distinct, Sorted, Leaders, ContextFlaws, Inorder, ContextLevel, Earlier, Later, Position, Plug, Level, Apart, ContextApart;
    assert entity !in Elements(tree.list);
    entity.follower := true;
    assert Mismarks(tree.list) == {};
    ghost var shape := tree.shape;
    assert allocated(Nodes(shape));
    PutFollower(tree, last, entity, e);
    assert Flaws(shape, null) == 0;
  }

  // ----- removing

  lemma AllLeadRemoved(list: seq<AvlNode>, k: nat)
    requires Sorted(list) && AllLead(list) && k < |list|
    ensures AllLead(Removed(list, k))
  {
    var shorter := Removed(list, k);
    forall j | 0 <= j < |shorter| ensures Leads(shorter, j) {
      if j < k {
        assert Leads(list, j);
      } else {
        assert Leads(list, j + 1) && Leads(list, k);
      }
    }
  }

  /** What the list will be in order when the node at `k` goes. */
  lemma OrderedRemoved(list: seq<AvlNode>, k: nat, allowDups: bool)
    requires Sorted(list) && (allowDups || AllLead(list)) && k < |list|
    requires forall j :: 0 <= j < |list| && j != k ==>
      (list[j].follower <==> !Leads(list, j) && !(j == k + 1 && Leads(list, k)))
    ensures Ordered(Removed(list, k), allowDups)
  {
    SortedRemoved(list, k);
    FlagsRemoved(list, k);
    if !allowDups {
      AllLeadRemoved(list, k);
    }
  }

  /** The tree and the flags are as they have to be once the node at `k` leaves
      the list. */
  ghost predicate ReadyToDrop(tree: AvlTree, k: nat)
    reads tree`root, tree`shape, tree`list, tree`count, tree`allowDups
    reads Members(tree.head, tree.list)`next, Members(tree.head, tree.list)`previous, Elements(tree.list)`follower
    reads Nodes(tree.shape)`parent, Nodes(tree.shape)`left, Nodes(tree.shape)`right, Nodes(tree.shape)`balance
  {
    && Counted(tree) && k < |tree.list| && Mismarks(Removed(tree.list, k)) == {}
    && Sorted(Removed(tree.list, k)) && (tree.allowDups || AllLead(Removed(tree.list, k)))
    && Standing(tree, Top, tree.shape) && Balanced(tree.shape) && Inorder(tree.shape) == Leaders(Removed(tree.list, k))
  }

  lemma CountDown(n: nat)
    requires n > 0
    ensures (n % WRAP + WRAP - 1) % WRAP == (n - 1) % WRAP
  {
  }

  /** _avl_remove */
  method RemoveFromList(tree: AvlTree, node: AvlNode, ghost k: nat)
    requires Counted(tree) && k < |tree.list| && node == tree.list[k]
    modifies tree`count, tree`list, Members(tree.head, tree.list)`next, Members(tree.head, tree.list)`previous
    ensures Counted(tree) && tree.list == Removed(old(tree.list), k)
    ensures node.next == null && node.previous == null
  {
    AvlList.Remove(node, tree.head, tree.list, k);
    CountDown(|tree.list|);
    tree.count := (tree.count + WRAP - 1) % WRAP;
    tree.list := Removed(tree.list, k);
  }

  method DropFromList(tree: AvlTree, node: AvlNode, ghost k: nat)
    requires ReadyToDrop(tree, k) && node == tree.list[k]
    modifies tree`count, tree`list, Members(tree.head, tree.list)`next, Members(tree.head, tree.list)`previous
    ensures Valid(tree) && tree.list == Removed(old(tree.list), k)
    ensures node.next == null && node.previous == null
  {
    ghost var shorter, shape := Removed(tree.list, k), tree.shape;
    assert allocated(Elements(shorter)) && allocated(Nodes(shape));
    RemoveFromList(tree, node, k);
    assert Mismarks(shorter) == {} && Flaws(shape, null) == 0;
  }

  lemma LeaderIn(list: seq<AvlNode>, k: nat)
    requires k < |list| && Leads(list, k)
    ensures list[k] in Leaders(list)
  {
    var a, n, rest := list[..k], list[k], list[k + 1..];
    assert list == a + ([n] + rest);
    var others := FirstLeads(n, n, rest);
    LeadersAppend(a, [n] + rest);
    assert n in [n] + others;
  }

  lemma FollowerOutside(list: seq<AvlNode>, k: nat)
    requires Distinct(list) && k < |list| && !Leads(list, k)
    ensures list[k] !in Leaders(list)
  {
    if list[k] in Leaders(list) {
      var j := LeaderIndex(list, list[k]);
    }
  }

  /** How the leaders change when a follower is promoted. */
  lemma Promotion(tree: AvlTree, k: nat) returns (a: seq<AvlNode>, b: seq<AvlNode>)
    requires Valid(tree) && k + 1 < |tree.list| && Leads(tree.list, k) && !Leads(tree.list, k + 1)
    ensures Rebalanced(tree, tree.shape, Nodes(tree.shape), a + [tree.list[k]] + b) && Rising(a + [tree.list[k]] + b)
    ensures tree.list[k] in Nodes(tree.shape) && tree.list[k + 1] !in Nodes(tree.shape)
    ensures Leaders(Removed(tree.list, k)) == a + [tree.list[k + 1]] + b
  {
    a, b := LeadersPromote(tree.list, k);
    TreeNodes(tree);
    LeaderIn(tree.list, k);
    FollowerOutside(tree.list, k + 1);
    NodesInorder(tree.shape);
    LeadersRising(tree.list);
  }

  /** The list in order after a leader goes whose follower has been unmarked. */
  lemma UnmarkedRemoved(list: seq<AvlNode>, k: nat)
    requires Sorted(list) && k + 1 < |list| && Leads(list, k) && !list[k + 1].follower
    requires forall j {:trigger list[j].follower} :: 0 <= j < |list| && j != k + 1 ==> (list[j].follower <==> !Leads(list, j))
    ensures Ordered(Removed(list, k), true)
  {
    OrderedRemoved(list, k, true);
  }

  /** The first follower takes the place of its leader in the tree. */
  method PromoteFollower(tree: AvlTree, node: AvlNode, next: AvlNode, ghost k: nat)
    requires Valid(tree) && k + 1 < |tree.list| && node == tree.list[k] && next == tree.list[k + 1]
    requires Leads(tree.list, k) && !Leads(tree.list, k + 1) && tree.allowDups
    modifies tree`root, tree`shape, next`follower, next`parent, next`left, next`right, next`balance
    modifies Nodes(tree.shape)`parent, Nodes(tree.shape)`left, Nodes(tree.shape)`right
    ensures ReadyToDrop(tree, k) && tree.list == old(tree.list)
  {
    ghost var a, b := Promotion(tree, k);
    AllMarked(tree.list);
    next.follower := false;
    UnmarkedRemoved(tree.list, k);
    TakeOver(tree, node, next, k, a, b);
  }

  method TakeOver(tree: AvlTree, node: AvlNode, next: AvlNode, ghost k: nat, ghost a: seq<AvlNode>, ghost b: seq<AvlNode>)
    requires Counted(tree) && k < |tree.list| && Ordered(Removed(tree.list, k), tree.allowDups)
    requires Rebalanced(tree, tree.shape, Nodes(tree.shape), a + [node] + b) && Rising(a + [node] + b)
    requires node in Nodes(tree.shape) && next !in Nodes(tree.shape)
    requires Leaders(Removed(tree.list, k)) == a + [next] + b
    modifies tree`root, tree`shape, next`parent, next`left, next`right, next`balance
    modifies Nodes(tree.shape)`parent, Nodes(tree.shape)`left, Nodes(tree.shape)`right
    ensures ReadyToDrop(tree, k)
  {
    hide Distinct, Sorted, Leaders, ContextFlaws, Inorder, ContextLevel, Earlier, Later, Position, Plug, Level, Apart, ContextApart;
    ghost var list, shorter := tree.list, Removed(tree.list, k);
    assert allocated(Elements(shorter)) && allocated(Members(tree.head, list));
    ghost var t := Substitute(tree, node, next, tree.shape, a, b);
    assert Mismarks(shorter) == {} && Gaps(tree.head, list) == {};
    tree.shape := t;
  }

  /** How the leaders change when one without followers goes. */
  lemma Departure(tree: AvlTree, k: nat) returns (c: Context, s: Shape)
    requires Valid(tree) && k < |tree.list| && Leads(tree.list, k) && (k + 1 < |tree.list| ==> Leads(tree.list, k + 1))
    ensures s.Bin? && s.node == tree.list[k] && Standing(tree, c, s) && Spots(c, s) == Nodes(tree.shape)
    ensures ContextLevel(c, Level(s)) >= 0 && Rising(Order(c, s)) && Without(c, s) == Leaders(Removed(tree.list, k))
    ensures Ordered(Removed(tree.list, k), tree.allowDups)
  {
    AllMarked(tree.list);
    OrderedRemoved(tree.list, k, tree.allowDups);
    var a, b := LeadersDrop(tree.list, k);
    TreeNodes(tree);
    LeaderIn(tree.list, k);
    NodesInorder(tree.shape);
    c, s := FindPath(tree, Top, tree.shape, tree.list[k]);
    WithoutIs(c, s, a, b);
  }

  /** A leader without followers leaves the tree. */
  method TakeOut(tree: AvlTree, node: AvlNode, ghost k: nat)
    requires Valid(tree) && k < |tree.list| && node == tree.list[k]
    requires Leads(tree.list, k) && (k + 1 < |tree.list| ==> Leads(tree.list, k + 1))
    modifies tree`root, tree`shape
    modifies Nodes(tree.shape)`parent, Nodes(tree.shape)`left, Nodes(tree.shape)`right, Nodes(tree.shape)`balance
    ensures ReadyToDrop(tree, k) && tree.list == old(tree.list)
  {
    ghost var c, s := Departure(tree, k);
    Withdraw(tree, node, k, c, s);
  }

  method Withdraw(tree: AvlTree, node: AvlNode, ghost k: nat, ghost c: Context, ghost s: Shape)
    requires Counted(tree) && k < |tree.list| && Ordered(Removed(tree.list, k), tree.allowDups)
    requires s.Bin? && s.node == node && Standing(tree, c, s) && Spots(c, s) == Nodes(tree.shape)
    requires ContextLevel(c, Level(s)) >= 0 && Rising(Order(c, s)) && Without(c, s) == Leaders(Removed(tree.list, k))
    modifies tree`root, tree`shape
    modifies Nodes(tree.shape)`parent, Nodes(tree.shape)`left, Nodes(tree.shape)`right, Nodes(tree.shape)`balance
    ensures ReadyToDrop(tree, k)
  {
    hide Distinct, Sorted, Leaders, ContextFlaws, Inorder, ContextLevel, Earlier, Later, Position, Plug, Level, Apart, ContextApart;
    ghost var list, shorter := tree.list, Removed(tree.list, k);
    assert allocated(Elements(shorter)) && allocated(Members(tree.head, list));
    ghost var t := RemoveWorker(tree, node, c, s);
    assert Mismarks(shorter) == {} && Gaps(tree.head, list) == {};
    tree.shape := t;
  }

  lemma WithoutIs(c: Context, s: Shape, a: seq<AvlNode>, b: seq<AvlNode>)
    requires s.Bin? && Order(c, s) == a + [s.node] + b && Rising(Order(c, s))
    ensures Without(c, s) == a + b
  {
    OrderAround(c, s);
    PivotUnique(a, s.node, b, Earlier(c) + Inorder(s.left), Inorder(s.right) + Later(c));
    Around(Earlier(c), Inorder(s.left), [s.node], Inorder(s.right), Later(c));
  }

  /** A follower is in the list only. */
  lemma FollowerReady(tree: AvlTree, k: nat)
    requires Valid(tree) && k < |tree.list| && !Leads(tree.list, k)
    ensures ReadyToDrop(tree, k)
  {
    AllMarked(tree.list);
    OrderedRemoved(tree.list, k, tree.allowDups);
    LeadersRemoveFollower(tree.list, k);
  }

  /** avl_remove */
  method Remove(tree: AvlTree, node: AvlNode)
    requires Valid(tree) && node in tree.list
    modifies tree`root, tree`count, tree`shape, tree`list
    modifies Members(tree.head, tree.list)
    ensures Valid(tree) && tree.list == After(old(tree.list), Take(node), tree.allowDups)
    ensures node.next == null && node.previous == null
  {
    ghost var k := IndexOf(tree.list, node);
    TreeNodes(tree);
    AllMarked(tree.list);
    RingAt(tree.head, tree.list, k);
    if !node.follower {
      if tree.allowDups && !IsLast(tree.head, node) && node.next.follower {
        PromoteFollower(tree, node, node.next, k);
      } else {
        TakeOut(tree, node, k);
      }
    } else {
      FollowerReady(tree, k);
    }
    DropFromList(tree, node, k);
  }
}
