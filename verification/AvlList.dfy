/** Rings of list entities (src-api/common/list.h): the head and the elements are
    linked forward and backward in a circle. */
module AvlList {
  import opened AvlShape

  ghost function Elements(list: seq<AvlNode>): set<AvlNode> {
    set n | n in list
  }

  ghost function Members(head: AvlNode, list: seq<AvlNode>): set<AvlNode> {
    {head} + Elements(list)
  }

  /** The head is in front of the first element and after the last one. */
  function Spot(head: AvlNode, list: seq<AvlNode>, i: nat): AvlNode
    requires i <= |list| + 1
  {
    if i == 0 || i == |list| + 1 then head else list[i - 1]
  }

  ghost predicate Distinct(list: seq<AvlNode>) {
    forall i, j :: 0 <= i < j < |list| ==> list[i] != list[j]
  }

  ghost predicate Joined(a: AvlNode, b: AvlNode)
    reads a`next, b`previous
  {
    a.next == b && b.previous == a
  }

  ghost predicate Gap(head: AvlNode, list: seq<AvlNode>, i: nat)
    requires i <= |list|
    reads Members(head, list)`next, Members(head, list)`previous
  {
    !Joined(Spot(head, list, i), Spot(head, list, i + 1))
  }

  /** Where two neighbours do not point at each other. */
  ghost function Gaps(head: AvlNode, list: seq<AvlNode>): set<nat>
    reads Members(head, list)`next, Members(head, list)`previous
  {
    set i: nat | i <= |list| && Gap(head, list, i)
  }

  ghost predicate Ring(head: AvlNode, list: seq<AvlNode>)
    reads Members(head, list)`next, Members(head, list)`previous
  {
    head !in list && Distinct(list) && Gaps(head, list) == {}
  }

  /** Without gaps all neighbours point at each other. */
  lemma AllJoined(head: AvlNode, list: seq<AvlNode>)
    requires Gaps(head, list) == {}
    ensures forall i {:trigger Spot(head, list, i)} :: 0 <= i <= |list| ==> Joined(Spot(head, list, i), Spot(head, list, i + 1))
  {
    forall i: nat | i <= |list| ensures Joined(Spot(head, list, i), Spot(head, list, i + 1)) {
      assert i !in Gaps(head, list);
    }
  }

  lemma SpotsDiffer(head: AvlNode, list: seq<AvlNode>, i: nat, j: nat)
    requires head !in list && Distinct(list) && i < j <= |list| + 1
    ensures j <= |list| || 0 < i ==> Spot(head, list, i) != Spot(head, list, j)
  {
  }

  function Inserted(list: seq<AvlNode>, i: nat, n: AvlNode): seq<AvlNode>
    requires i <= |list|
  {
    list[..i] + [n] + list[i..]
  }

  function Removed(list: seq<AvlNode>, i: nat): seq<AvlNode>
    requires i < |list|
  {
    list[..i] + list[i + 1..]
  }

  lemma SpotInserted(head: AvlNode, list: seq<AvlNode>, i: nat, n: AvlNode, k: nat)
    requires i <= |list| && k <= |list| + 2
    ensures Spot(head, Inserted(list, i, n), k)
         == if k <= i then Spot(head, list, k) else if k == i + 1 then n else Spot(head, list, k - 1)
  {
  }

  lemma InsertedDistinct(head: AvlNode, list: seq<AvlNode>, i: nat, n: AvlNode)
    requires head !in list && Distinct(list) && i <= |list| && n !in Members(head, list)
    ensures head !in Inserted(list, i, n) && Distinct(Inserted(list, i, n))
    ensures Members(head, Inserted(list, i, n)) == Members(head, list) + {n} && |Inserted(list, i, n)| == |list| + 1
  {
    forall m ensures m in Inserted(list, i, n) <==> m in list || m == n {
      assert m in list <==> m in list[..i] + list[i..] by {
        assert list == list[..i] + list[i..];
      }
    }
  }

  /** __list_add: put `entity` between two neighbours. */
  method Add(previous: AvlNode, next: AvlNode, entity: AvlNode, ghost head: AvlNode, ghost list: seq<AvlNode>, ghost i: nat)
    requires Ring(head, list) && i <= |list| && entity !in Members(head, list)
    requires previous == Spot(head, list, i) && next == Spot(head, list, i + 1)
    modifies previous`next, next`previous, entity`next, entity`previous
    ensures Ring(head, Inserted(list, i, entity))
  {
    AllJoined(head, list);
    entity.next := next;
    entity.previous := previous;
    next.previous := entity;
    previous.next := entity;
    InsertedDistinct(head, list, i, entity);
    ghost var longer := Inserted(list, i, entity);
    forall k: nat | k <= |list| + 1 ensures Joined(Spot(head, longer, k), Spot(head, longer, k + 1)) {
      hide Ring, Gaps, Distinct;
      SpotInserted(head, list, i, entity, k);
      SpotInserted(head, list, i, entity, k + 1);
      if k < i {
        SpotsDiffer(head, list, k, i);
        SpotsDiffer(head, list, k + 1, i + 1);
      } else if k > i + 1 {
        SpotsDiffer(head, list, i, k - 1);
        SpotsDiffer(head, list, i + 1, k);
      }
    }
  }

  method AddHead(head: AvlNode, entity: AvlNode, ghost list: seq<AvlNode>)
    requires Ring(head, list) && entity !in Members(head, list)
    modifies Members(head, list)`next, Members(head, list)`previous, entity`next, entity`previous
    ensures Ring(head, Inserted(list, 0, entity))
  {
    AllJoined(head, list);
    assert Spot(head, list, 0) == head;
    Add(head, head.next, entity, head, list, 0);
  }

  method AddBefore(before: AvlNode, entity: AvlNode, ghost head: AvlNode, ghost list: seq<AvlNode>, ghost i: nat)
    requires Ring(head, list) && i < |list| && before == list[i] && entity !in Members(head, list)
    modifies Members(head, list)`next, Members(head, list)`previous, entity`next, entity`previous
    ensures Ring(head, Inserted(list, i, entity))
  {
    AllJoined(head, list);
    assert Joined(Spot(head, list, i), Spot(head, list, i + 1));
    Add(before.previous, before, entity, head, list, i);
  }

  method AddAfter(after: AvlNode, entity: AvlNode, ghost head: AvlNode, ghost list: seq<AvlNode>, ghost i: nat)
    requires Ring(head, list) && i < |list| && after == list[i] && entity !in Members(head, list)
    modifies Members(head, list)`next, Members(head, list)`previous, entity`next, entity`previous
    ensures Ring(head, Inserted(list, i + 1, entity))
  {
    AllJoined(head, list);
    assert Spot(head, list, i + 1) == after;
    Add(after, after.next, entity, head, list, i + 1);
  }

  lemma SpotRemoved(head: AvlNode, list: seq<AvlNode>, i: nat, k: nat)
    requires i < |list| && k <= |list|
    ensures Spot(head, Removed(list, i), k) == if k <= i then Spot(head, list, k) else Spot(head, list, k + 1)
  {
  }

  lemma RemovedDistinct(head: AvlNode, list: seq<AvlNode>, i: nat)
    requires head !in list && Distinct(list) && i < |list|
    ensures head !in Removed(list, i) && Distinct(Removed(list, i)) && list[i] !in Removed(list, i)
    ensures Members(head, Removed(list, i)) == Members(head, list) - {list[i]}
  {
    forall m ensures m in Removed(list, i) <==> m in list && m != list[i] {
      assert m in list ==> m in list[..i] || m == list[i] || m in list[i + 1..];
    }
  }

  /** list_remove: link the neighbours and clear the pointers of the entity. */
  method Remove(entity: AvlNode, ghost head: AvlNode, ghost list: seq<AvlNode>, ghost i: nat)
    requires Ring(head, list) && i < |list| && entity == list[i]
    modifies Members(head, list)`next, Members(head, list)`previous
    ensures Ring(head, Removed(list, i))
    ensures entity.next == null && entity.previous == null
  {
    AllJoined(head, list);
    assert Joined(Spot(head, list, i), Spot(head, list, i + 1)) && Joined(Spot(head, list, i + 1), Spot(head, list, i + 2));
    entity.previous.next := entity.next;
    entity.next.previous := entity.previous;
    entity.next, entity.previous := null, null;
    RemovedDistinct(head, list, i);
    forall k: nat | k <= |list| - 1
      ensures Joined(Spot(head, Removed(list, i), k), Spot(head, Removed(list, i), k + 1))
    {
      SpotRemoved(head, list, i, k);
      SpotRemoved(head, list, i, k + 1);
      if k < i {
        SpotsDiffer(head, list, k, i);
        SpotsDiffer(head, list, k + 1, i + 2);
      } else if k > i {
        SpotsDiffer(head, list, i, k + 1);
        SpotsDiffer(head, list, i + 2, k + 2);
      }
    }
  }

  predicate IsFirst(head: AvlNode, entity: AvlNode)
    reads head`next
  {
    head.next == entity
  }

  predicate IsLast(head: AvlNode, entity: AvlNode)
    reads head`previous
  {
    head.previous == entity
  }
}
