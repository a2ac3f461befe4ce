/** What an AVL tree's list is after any sequence of insertions and removals, and
    how deep a lookup goes. */
module AvlRuns {
  import opened AvlShape
  import opened AvlLinks
  import opened AvlList
  import opened AvlOrder
  import opened AvlFind

  datatype Operation = Add(node: AvlNode) | Take(node: AvlNode)

  function IndexOf(list: seq<AvlNode>, n: AvlNode): (k: nat)
    requires n in list
    ensures k < |list| && list[k] == n
  {
    if list[0] == n then 0 else 1 + IndexOf(list[1..], n)
  }

  predicate Refused(list: seq<AvlNode>, n: AvlNode, allowDups: bool) {
    !allowDups && FirstEqual(list, n.key) != null
  }

  /** The list after an operation on a tree with that list. */
  function After(list: seq<AvlNode>, op: Operation, allowDups: bool): seq<AvlNode> {
    match op
    case Add(n) => if Refused(list, n, allowDups) then list else Inserted(list, Position(list, n.key), n)
    case Take(n) => if n in list then Removed(list, IndexOf(list, n)) else list
  }

  /** The list after a run on an empty tree. */
  function Run(ops: seq<Operation>, allowDups: bool): seq<AvlNode> {
    if ops == [] then [] else After(Run(ops[..|ops| - 1], allowDups), ops[|ops| - 1], allowDups)
  }

  /** The nodes that a run leaves in a tree, in the order they were inserted. */
  function Survivors(ops: seq<Operation>, allowDups: bool): seq<AvlNode> {
    if ops == [] then [] else Survive(Survivors(ops[..|ops| - 1], allowDups), ops[|ops| - 1], allowDups)
  }

  /** What an operation does to the nodes that are left, in the order they were
      inserted. */
  function Survive(s: seq<AvlNode>, op: Operation, allowDups: bool): seq<AvlNode> {
    match op
    case Add(n) => if Refused(s, n, allowDups) then s else s + [n]
    case Take(n) => if n in s then Removed(s, IndexOf(s, n)) else s
  }

  /** The nodes of a sequence that have a key. */
  function WithKey(list: seq<AvlNode>, key: int): seq<AvlNode> {
    if list == [] then []
    else WithKey(list[..|list| - 1], key) + if list[|list| - 1].key == key then [list[|list| - 1]] else []
  }

  lemma {:induction false} WithKeyAppend(a: seq<AvlNode>, b: seq<AvlNode>, key: int)
    ensures WithKey(a + b, key) == WithKey(a, key) + WithKey(b, key)
    decreases |b|
  {
    if b == [] {
      assert a + b == a;
    } else {
      WithKeyAppend(a, b[..|b| - 1], key);
      assert (a + b)[..|a + b| - 1] == a + b[..|b| - 1];
    }
  }

  lemma WithKeyOne(n: AvlNode, key: int)
    ensures WithKey([n], key) == if n.key == key then [n] else []
  {
    assert [n][..0] == [] && WithKey([], key) == [];
  }

  lemma WithKeyAround(a: seq<AvlNode>, n: AvlNode, b: seq<AvlNode>, key: int)
    ensures WithKey(a + [n] + b, key) == WithKey(a, key) + (if n.key == key then [n] else []) + WithKey(b, key)
    ensures WithKey(a + b, key) == WithKey(a, key) + WithKey(b, key)
  {
    WithKeyAppend(a, b, key);
    WithKeyAppend(a, [n], key);
    WithKeyOne(n, key);
    WithKeyAppend(a + [n], b, key);
  }

  lemma {:induction false} WithoutKey(list: seq<AvlNode>, key: int)
    requires forall i :: 0 <= i < |list| ==> list[i].key != key
    ensures WithKey(list, key) == []
    decreases |list|
  {
    if list != [] {
      WithoutKey(list[..|list| - 1], key);
    }
  }

  lemma {:induction false} WithKeyIn(list: seq<AvlNode>, n: AvlNode, key: int)
    ensures n in WithKey(list, key) <==> n in list && n.key == key
    decreases |list|
  {
    if list != [] {
      var front := list[..|list| - 1];
      WithKeyIn(front, n, key);
      assert n in list <==> n in front || n == list[|list| - 1];
    }
  }

  /** The position splits a sorted list. */
  lemma {:induction false} PositionSplits(list: seq<AvlNode>, key: int)
    requires Sorted(list)
    ensures forall i :: 0 <= i < Position(list, key) ==> list[i].key <= key
    ensures forall i :: Position(list, key) <= i < |list| ==> list[i].key > key
    decreases |list|
  {
    if list != [] && list[|list| - 1].key > key {
      PositionSplits(list[..|list| - 1], key);
    }
  }

  /** A node is inserted behind all nodes with its key. */
  lemma InsertedWithKey(list: seq<AvlNode>, n: AvlNode, key: int)
    requires Sorted(list)
    ensures WithKey(Inserted(list, Position(list, n.key), n), key) == WithKey(list, key) + if n.key == key then [n] else []
  {
    PositionSplits(list, n.key);
    var p := Position(list, n.key);
    assert list == list[..p] + list[p..];
    if key == n.key {
      WithoutKey(list[p..], key);
    }
    WithKeyAround(list[..p], n, list[p..], key);
  }

  lemma PositionSorted(list: seq<AvlNode>, n: AvlNode)
    requires Sorted(list)
    ensures Sorted(Inserted(list, Position(list, n.key), n))
  {
    PositionSplits(list, n.key);
    InsertedSorted(list, Position(list, n.key), n);
  }

  lemma {:induction false} IndexOfFirst(list: seq<AvlNode>, n: AvlNode)
    requires n in list
    ensures n !in list[..IndexOf(list, n)]
  {
    if list[0] != n {
      IndexOfFirst(list[1..], n);
      assert list[..IndexOf(list, n)] == [list[0]] + list[1..][..IndexOf(list[1..], n)];
    }
  }

  /** A sequence splits at the first place a node is at in one way. */
  lemma FirstUnique(a: seq<AvlNode>, n: AvlNode, b: seq<AvlNode>, a': seq<AvlNode>, b': seq<AvlNode>)
    requires a + [n] + b == a' + [n] + b' && n !in a && n !in a'
    ensures a == a' && b == b'
  {
    var all := a + [n] + b;
    assert all[|a|] == n && all[|a'|] == n;
    assert |a| == |a'|;
    assert a == all[..|a|] && a' == all[..|a'|];
    assert b == all[|a| + 1..] && b' == all[|a'| + 1..];
  }

  /** What removing a node does to the nodes of a key. */
  lemma TakenWithKey(list: seq<AvlNode>, n: AvlNode, key: int) returns (a: seq<AvlNode>, b: seq<AvlNode>)
    requires n in list
    ensures WithKey(list, key) == a + (if n.key == key then [n] else []) + b
    ensures WithKey(Removed(list, IndexOf(list, n)), key) == a + b && n !in a
  {
    var i := IndexOf(list, n);
    a, b := WithKey(list[..i], key), WithKey(list[i + 1..], key);
    assert list == list[..i] + [n] + list[i + 1..];
    WithKeyAround(list[..i], n, list[i + 1..], key);
    IndexOfFirst(list, n);
    WithKeyIn(list[..i], n, key);
  }

  /** Two sequences with the same nodes of a key still have after the same node is
      removed from both. */
  lemma RemovedSame(list: seq<AvlNode>, s: seq<AvlNode>, n: AvlNode, key: int)
    requires n in list && n in s && WithKey(list, key) == WithKey(s, key)
    ensures WithKey(Removed(list, IndexOf(list, n)), key) == WithKey(Removed(s, IndexOf(s, n)), key)
  {
    var a, b := TakenWithKey(list, n, key);
    var a', b' := TakenWithKey(s, n, key);
    if n.key == key {
      FirstUnique(a, n, b, a', b');
    } else {
      assert a + [] + b == a + b && a' + [] + b' == a' + b';
    }
  }

  lemma {:induction false} RefusedWithKey(list: seq<AvlNode>, key: int)
    ensures FirstEqual(list, key) != null <==> WithKey(list, key) != []
  {
    if list != [] {
      RefusedWithKey(list[1..], key);
      WithKeyAppend([list[0]], list[1..], key);
      WithKeyOne(list[0], key);
      assert list == [list[0]] + list[1..];
    }
  }

  /** After any run the list is the stable sort of the surviving nodes: sorted by
      key, with the nodes of each key in the order they were inserted. */
  lemma {:induction false} RunStable(ops: seq<Operation>, allowDups: bool, key: int)
    ensures Sorted(Run(ops, allowDups))
    ensures WithKey(Run(ops, allowDups), key) == WithKey(Survivors(ops, allowDups), key)
    decreases |ops|
  {
    if ops != [] {
      var front, op := ops[..|ops| - 1], ops[|ops| - 1];
      RunStable(front, allowDups, key);
      RunStable(front, allowDups, op.node.key);
      StepStable(Run(front, allowDups), Survivors(front, allowDups), op, allowDups, key);
    }
  }

  lemma StepStable(list: seq<AvlNode>, s: seq<AvlNode>, op: Operation, allowDups: bool, key: int)
    requires Sorted(list) && WithKey(list, key) == WithKey(s, key) && WithKey(list, op.node.key) == WithKey(s, op.node.key)
    ensures Sorted(After(list, op, allowDups))
    ensures WithKey(After(list, op, allowDups), key) == WithKey(Survive(s, op, allowDups), key)
  {
    var n := op.node;
    match op
    case Add(_) =>
      RefusedWithKey(list, n.key);
      RefusedWithKey(s, n.key);
      PositionSorted(list, n);
      InsertedWithKey(list, n, key);
      WithKeyAppend(s, [n], key);
      WithKeyOne(n, key);
    case Take(_) =>
      WithKeyIn(list, n, n.key);
      WithKeyIn(s, n, n.key);
      if n in list {
        RemovedSame(list, s, n, key);
        SortedRemoved(list, IndexOf(list, n));
      }
  }

  // ----- the depth of lookups

  function Fibonacci(n: nat): nat {
    if n < 2 then n else Fibonacci(n - 1) + Fibonacci(n - 2)
  }

  lemma {:induction false} FibonacciRises(n: nat)
    ensures n > 0 ==> Fibonacci(n) > 0 && Fibonacci(n - 1) <= Fibonacci(n)
  {
    if n > 1 {
      FibonacciRises(n - 1);
    }
  }

  lemma {:induction false} ComparisonsBounded(s: Shape, key: int)
    requires s.Bin?
    ensures Comparisons(s, key) <= Height(s)
    decreases s
  {
    if key < s.node.key && s.left.Bin? {
      ComparisonsBounded(s.left, key);
    } else if key > s.node.key && s.right.Bin? {
      ComparisonsBounded(s.right, key);
    }
  }

  /** Two trees of neighbouring heights below a node. */
  lemma SparseStep(h: nat, k: nat, n: nat, m: nat)
    requires -1 <= h - k <= 1 && n + 1 >= Fibonacci(h + 2) && m + 1 >= Fibonacci(k + 2)
    ensures n + m + 2 >= Fibonacci(1 + Max(h, k) + 2)
  {
    FibonacciRises(h + 2);
    FibonacciRises(k + 2);
  }

  /** A balanced tree has at least as many nodes as the sparsest of its height. */
  lemma {:induction false} SparsestTree(s: Shape)
    requires Balanced(s)
    ensures |Inorder(s)| + 1 >= Fibonacci(Height(s) + 2)
  {
    if s.Bin? {
      SparsestTree(s.left);
      SparsestTree(s.right);
      LevelIsHeight(s.left);
      LevelIsHeight(s.right);
      SparseStep(Height(s.left), Height(s.right), |Inorder(s.left)|, |Inorder(s.right)|);
    }
  }

  /** How many comparisons a lookup in a tree takes, by the number of keys. */
  lemma LookupDepth(tree: AvlTree, key: int)
    requires Valid(tree) && tree.shape.Bin?
    ensures Fibonacci(Comparisons(tree.shape, key) + 2) <= |Leaders(tree.list)| + 1
  {
    ComparisonsBounded(tree.shape, key);
    SparsestTree(tree.shape);
    FibonacciMonotone(Comparisons(tree.shape, key) + 2, Height(tree.shape) + 2);
  }

  lemma {:induction false} FibonacciMonotone(m: nat, n: nat)
    requires m <= n
    ensures Fibonacci(m) <= Fibonacci(n)
    decreases n
  {
    if m < n {
      FibonacciMonotone(m, n - 1);
      FibonacciRises(n);
    }
  }
}
