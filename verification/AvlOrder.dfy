/** The order of an AVL tree's list: sorted by key, equal keys in the order they
    were inserted, the first of each key being the one in the tree. */
module AvlOrder {
  import opened AvlShape
  import opened AvlList
  import opened AvlPaths

  ghost predicate Sorted(list: seq<AvlNode>) {
    forall i, j :: 0 <= i <= j < |list| ==> list[i].key <= list[j].key
  }

  /** No neighbour before it has the same key. */
  predicate Leads(list: seq<AvlNode>, i: nat)
    requires i < |list|
  {
    i == 0 || list[i - 1].key != list[i].key
  }

  /** The list without its followers. */
  function Leaders(list: seq<AvlNode>): seq<AvlNode> {
    if list == [] then []
    else Leaders(list[..|list| - 1]) + if Leads(list, |list| - 1) then [list[|list| - 1]] else []
  }

  ghost predicate Below(nodes: seq<AvlNode>, key: int) {
    forall i :: 0 <= i < |nodes| ==> nodes[i].key < key
  }

  ghost predicate Above(nodes: seq<AvlNode>, key: int) {
    forall i :: 0 <= i < |nodes| ==> nodes[i].key > key
  }

  /** Where a new node goes: behind every node whose key is not larger. */
  function Position(list: seq<AvlNode>, key: int): (p: nat)
    ensures p <= |list|
  {
    if list == [] then 0
    else if list[|list| - 1].key <= key then |list|
    else Position(list[..|list| - 1], key)
  }

  lemma {:induction false} PositionIs(list: seq<AvlNode>, key: int, i: nat)
    requires Sorted(list) && i <= |list|
    requires i == 0 || list[i - 1].key <= key
    requires i == |list| || list[i].key > key
    ensures Position(list, key) == i
    decreases |list|
  {
    if i < |list| {
      var front := list[..|list| - 1];
      assert list[|list| - 1].key > key;
      PositionIs(front, key, i);
    }
  }

  // ----- leaders

  lemma {:induction false} LeadersAppend(a: seq<AvlNode>, b: seq<AvlNode>)
    requires a == [] || b == [] || a[|a| - 1].key != b[0].key
    ensures Leaders(a + b) == Leaders(a) + Leaders(b)
    decreases |b|
  {
    if b == [] {
      assert a + b == a;
    } else {
      var front := b[..|b| - 1];
      LeadersAppend(a, front);
      assert (a + b)[..|a + b| - 1] == a + front;
      assert Leads(a + b, |a + b| - 1) == Leads(b, |b| - 1);
    }
  }

  /** Leaders are in the list, in front of the nodes with their key. */
  lemma {:induction false} LeaderIndex(list: seq<AvlNode>, n: AvlNode) returns (k: nat)
    requires n in Leaders(list)
    ensures k < |list| && list[k] == n && Leads(list, k)
    decreases |list|
  {
    k := |list| - 1;
    if list[k] != n || !Leads(list, k) {
      k := LeaderIndex(list[..|list| - 1], n);
    }
  }

  /** Every node has a leader with its key. */
  lemma {:induction false} LeaderOf(list: seq<AvlNode>, j: nat) returns (n: AvlNode)
    requires j < |list|
    ensures n in Leaders(list) && n.key == list[j].key
    decreases |list|, j
  {
    if j < |list| - 1 {
      n := LeaderOf(list[..|list| - 1], j);
    } else if Leads(list, j) {
      n := list[j];
    } else {
      n := LeaderOf(list[..|list| - 1], j - 1);
    }
  }

  lemma LeadersFollower(list: seq<AvlNode>, n: AvlNode)
    requires list != [] && list[|list| - 1].key == n.key
    ensures Leaders(list + [n]) == Leaders(list)
  {
    var longer := list + [n];
    assert longer[..|longer| - 1] == list;
    assert !Leads(longer, |longer| - 1);
  }

  lemma {:induction false} LeadersRising(list: seq<AvlNode>)
    requires Sorted(list)
    ensures Rising(Leaders(list))
    ensures list != [] ==> Leaders(list) != [] && Leaders(list)[|Leaders(list)| - 1].key == list[|list| - 1].key
    decreases |list|
  {
    if list != [] {
      LeadersRising(list[..|list| - 1]);
    }
  }

  lemma RisingParts(a: seq<AvlNode>, n: AvlNode, b: seq<AvlNode>)
    requires Rising(a + [n] + b)
    ensures Below(a, n.key) && Above(b, n.key)
  {
    var all := a + [n] + b;
    assert all[|a|] == n;
    forall i | 0 <= i < |a| ensures a[i].key < n.key {
      assert all[i] == a[i];
    }
    forall i | 0 <= i < |b| ensures b[i].key > n.key {
      assert all[|a| + 1 + i] == b[i];
    }
  }

  /** A key that splits a sequence splits it in one way. */
  lemma SplitUnique(p: seq<AvlNode>, q: seq<AvlNode>, p': seq<AvlNode>, q': seq<AvlNode>, key: int)
    requires p + q == p' + q' && Below(p, key) && Above(q, key) && Below(p', key) && Above(q', key)
    ensures p == p' && q == q'
  {
    SplitNoLater(p, q, p', q', key);
    SplitNoLater(p', q', p, q, key);
    var all := p + q;
    assert p == all[..|p|] && p' == all[..|p'|];
    assert q == all[|p|..] && q' == all[|p'|..];
  }

  lemma SplitNoLater(p: seq<AvlNode>, q: seq<AvlNode>, p': seq<AvlNode>, q': seq<AvlNode>, key: int)
    requires p + q == p' + q' && Above(q, key) && Below(p', key)
    ensures |p'| <= |p|
  {
    var all := p + q;
    var middle := if |p| < |p'| then all[|p|].key else key;
    assert middle >= key;
    assert middle <= key;
  }

  // ----- inserting and removing

  lemma KeyMissing(list: seq<AvlNode>, p: seq<AvlNode>, q: seq<AvlNode>, key: int, j: nat)
    requires Leaders(list) == p + q && Below(p, key) && Above(q, key) && j < |list|
    ensures list[j].key != key
  {
    var n := LeaderOf(list, j);
    assert n in p || n in q;
  }

  lemma {:induction false} BelowLeaders(list: seq<AvlNode>, key: int)
    requires Below(list, key)
    ensures Below(Leaders(list), key)
    decreases |list|
  {
    if list != [] {
      BelowLeaders(list[..|list| - 1], key);
    }
  }

  lemma {:induction false} AboveLeaders(list: seq<AvlNode>, key: int)
    requires Above(list, key)
    ensures Above(Leaders(list), key)
    decreases |list|
  {
    if list != [] {
      AboveLeaders(list[..|list| - 1], key);
    }
  }

  lemma SortedParts(list: seq<AvlNode>, i: nat, key: int)
    requires Sorted(list) && i <= |list|
    requires i == 0 || list[i - 1].key < key
    requires i == |list| || list[i].key > key
    ensures Below(list[..i], key) && Above(list[i..], key)
  {
  }

  lemma InsertedSorted(list: seq<AvlNode>, i: nat, n: AvlNode)
    requires Sorted(list) && i <= |list|
    requires i == 0 || list[i - 1].key <= n.key
    requires i == |list| || list[i].key >= n.key
    ensures Sorted(Inserted(list, i, n))
  {
  }

  lemma SortedRemoved(list: seq<AvlNode>, k: nat)
    requires Sorted(list) && k < |list|
    ensures Sorted(Removed(list, k))
  {
  }

  /** A new key: the node becomes a leader where the key splits the leaders. */
  lemma LeadersInserted(list: seq<AvlNode>, i: nat, n: AvlNode, p: seq<AvlNode>, q: seq<AvlNode>)
    requires i <= |list| && Leaders(list) == p + q && Below(p, n.key) && Above(q, n.key)
    requires Below(list[..i], n.key) && Above(list[i..], n.key)
    ensures Leaders(Inserted(list, i, n)) == p + [n] + q
  {
    var a, b := list[..i], list[i..];
    assert list == a + b;
    LeadersInsertedBetween(a, n, b, p, q);
  }

  lemma LeadersInsertedBetween(a: seq<AvlNode>, n: AvlNode, b: seq<AvlNode>, p: seq<AvlNode>, q: seq<AvlNode>)
    requires Leaders(a + b) == p + q && Below(p, n.key) && Above(q, n.key) && Below(a, n.key) && Above(b, n.key)
    ensures Leaders(a + [n] + b) == p + [n] + q
  {
    LeadersAppend(a, b);
    BelowLeaders(a, n.key);
    AboveLeaders(b, n.key);
    SplitUnique(p, q, Leaders(a), Leaders(b), n.key);
    LeadersBetween(a, n, b);
  }

  lemma LeadersBetween(a: seq<AvlNode>, n: AvlNode, b: seq<AvlNode>)
    requires a == [] || a[|a| - 1].key != n.key
    requires b == [] || b[0].key != n.key
    ensures Leaders(a + [n] + b) == Leaders(a) + [n] + Leaders(b)
  {
    LeadersAppend(a, [n]);
    LeadersOne(n);
    LeadersAppend(a + [n], b);
  }

  lemma LeadersOne(n: AvlNode)
    ensures Leaders([n]) == [n]
  {
    assert [n][..0] == [];
    assert Leaders([]) == [];
  }

  /** A node behind one with its key makes no difference to the leaders. */
  lemma {:induction false} FollowerIgnored(a: seq<AvlNode>, n: AvlNode, b: seq<AvlNode>)
    requires a != [] && a[|a| - 1].key == n.key
    ensures Leaders(a + [n] + b) == Leaders(a + b)
    decreases |b|
  {
    if b == [] {
      LeadersFollower(a, n);
      assert a + [n] + b == a + [n] && a + b == a;
    } else {
      var front, last := b[..|b| - 1], b[|b| - 1];
      FollowerIgnored(a, n, front);
      LeadersStep(a + [n] + front, last);
      LeadersStep(a + front, last);
      assert a + [n] + b == a + [n] + front + [last] && a + b == a + front + [last];
    }
  }

  lemma LeadersStep(list: seq<AvlNode>, n: AvlNode)
    requires list != []
    ensures Leaders(list + [n]) == Leaders(list) + if list[|list| - 1].key != n.key then [n] else []
  {
    var longer := list + [n];
    assert longer[..|longer| - 1] == list;
    assert longer[|longer| - 1] == n && longer[|longer| - 2] == list[|list| - 1];
  }

  /** The first node leads; another one with its key would in its place. */
  lemma {:induction false} FirstLeads(x: AvlNode, y: AvlNode, rest: seq<AvlNode>) returns (others: seq<AvlNode>)
    requires x.key == y.key
    ensures Leaders([x] + rest) == [x] + others && Leaders([y] + rest) == [y] + others
    decreases |rest|
  {
    hide Leaders;
    if rest == [] {
      LeadersOne(x);
      LeadersOne(y);
      assert [x] + rest == [x] && [y] + rest == [y];
      others := [];
    } else {
      var front, last := rest[..|rest| - 1], rest[|rest| - 1];
      others := FirstLeads(x, y, front);
      LeadersStep([x] + front, last);
      LeadersStep([y] + front, last);
      assert [x] + rest == [x] + front + [last] && [y] + rest == [y] + front + [last];
      var key := if front == [] then x.key else front[|front| - 1].key;
      others := others + if key != last.key then [last] else [];
    }
  }

  /** A follower goes: the leaders stay the same. */
  lemma LeadersRemoveFollower(list: seq<AvlNode>, i: nat)
    requires i < |list| && !Leads(list, i)
    ensures Leaders(Removed(list, i)) == Leaders(list)
  {
    assert list == list[..i] + [list[i]] + list[i + 1..];
    FollowerIgnored(list[..i], list[i], list[i + 1..]);
  }

  /** A leader with a follower goes: the follower leads instead. */
  lemma LeadersPromote(list: seq<AvlNode>, i: nat) returns (a: seq<AvlNode>, b: seq<AvlNode>)
    requires i + 1 < |list| && Leads(list, i) && list[i].key == list[i + 1].key
    ensures Leaders(list) == a + [list[i]] + b && Leaders(Removed(list, i)) == a + [list[i + 1]] + b
  {
    var x, y, rest := list[i], list[i + 1], list[i + 2..];
    a := Leaders(list[..i]);
    b := FirstLeads(x, y, rest);
    FollowerIgnored([x], y, rest);
    LeadersAppend(list[..i], [x] + [y] + rest);
    LeadersAppend(list[..i], [y] + rest);
    assert list == list[..i] + ([x] + [y] + rest);
    assert Removed(list, i) == list[..i] + ([y] + rest);
    assert a + ([x] + b) == a + [x] + b && a + ([y] + b) == a + [y] + b;
  }

  /** A leader without followers goes. */
  lemma LeadersDrop(list: seq<AvlNode>, i: nat) returns (a: seq<AvlNode>, b: seq<AvlNode>)
    requires Sorted(list) && i < |list| && Leads(list, i) && (i + 1 < |list| ==> Leads(list, i + 1))
    ensures Leaders(list) == a + [list[i]] + b && Leaders(Removed(list, i)) == a + b
  {
    a, b := Leaders(list[..i]), Leaders(list[i + 1..]);
    assert list == list[..i] + [list[i]] + list[i + 1..];
    LeadersBetween(list[..i], list[i], list[i + 1..]);
    LeadersAppend(list[..i], list[i + 1..]);
  }
}
