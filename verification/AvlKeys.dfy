/** Keys under any comparator (avl_tree_comp in src-api/common/avl.h): only the
    sign of a comparison counts, and for any finite number of keys integers
    have comparisons of the same sign. */
module AvlKeys {
  /** What avl_tree_comp asks of a comparator. */
  ghost predicate IsOrder<K(!new)>(cmp: (K, K) -> int) {
    && (forall a, b :: cmp(a, b) < 0 <==> cmp(b, a) > 0)
    && (forall a, b, c :: cmp(a, b) <= 0 && cmp(b, c) <= 0 ==> cmp(a, c) <= 0)
  }

  predicate IsLess<K>(cmp: (K, K) -> int, a: K, b: K) {
    cmp(a, b) < 0
  }

  /** How many of the keys are smaller. */
  function Rank<K>(cmp: (K, K) -> int, keys: seq<K>, a: K): nat {
    if keys == [] then 0
    else Rank(cmp, keys[..|keys| - 1], a) + if IsLess(cmp, keys[|keys| - 1], a) then 1 else 0
  }

  lemma {:induction false} RankRises<K(!new)>(cmp: (K, K) -> int, keys: seq<K>, a: K, b: K)
    requires IsOrder(cmp) && cmp(a, b) <= 0
    ensures Rank(cmp, keys, a) <= Rank(cmp, keys, b)
    ensures a in keys && cmp(a, b) < 0 ==> Rank(cmp, keys, a) < Rank(cmp, keys, b)
    decreases |keys|
  {
    if keys != [] {
      var k := keys[|keys| - 1];
      RankRises(cmp, keys[..|keys| - 1], a, b);
      LessFurther(cmp, k, a, b);
      assert a in keys ==> a in keys[..|keys| - 1] || a == k;
      assert !IsLess(cmp, a, a);
    }
  }

  lemma LessFurther<K(!new)>(cmp: (K, K) -> int, k: K, a: K, b: K)
    requires IsOrder(cmp) && cmp(a, b) <= 0
    ensures IsLess(cmp, k, a) ==> IsLess(cmp, k, b)
  {
    assert cmp(k, b) >= 0 ==> cmp(b, k) <= 0;
    assert cmp(b, k) <= 0 ==> cmp(a, k) <= 0;
  }

  function Sign(n: int): int {
    if n < 0 then -1 else if n > 0 then 1 else 0
  }

  /** Every comparison of the keys comes out as one of integers does. */
  lemma RanksCompare<K(!new)>(cmp: (K, K) -> int, keys: seq<K>, a: K, b: K)
    requires IsOrder(cmp) && a in keys && b in keys
    ensures Sign(cmp(a, b)) == Sign(Rank(cmp, keys, a) - Rank(cmp, keys, b))
  {
    if cmp(a, b) <= 0 {
      RankRises(cmp, keys, a, b);
    }
    if cmp(a, b) >= 0 {
      assert cmp(b, a) <= 0;
      RankRises(cmp, keys, b, a);
    }
  }
}
