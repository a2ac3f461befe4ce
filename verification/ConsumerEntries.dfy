/** The list of entries that a consumer is added with (_add_consumer in
    src-api/rfc5444/rfc5444_reader.c). */
module ConsumerEntries {
  import opened Schedule

  /** _calc_tlvconsumer_intorder */
  function Key(w: Want): int {
    w.typ * 256 + w.ext
  }

  function WithLengths(w: Want): Want {
    if w.min > w.max then w.(max := w.min) else w
  }

  /** Behind the last entry whose key is not larger. */
  function Insert(list: seq<Want>, w: Want): (r: seq<Want>)
    ensures |r| == |list| + 1
  {
    if list == [] || Key(list[|list| - 1]) <= Key(w) then list + [w]
    else Insert(list[..|list| - 1], w) + [list[|list| - 1]]
  }

  function Listed(entries: seq<Want>): (r: seq<Want>)
    ensures |r| == |entries|
  {
    if entries == [] then []
    else Insert(Listed(entries[..|entries| - 1]), WithLengths(entries[|entries| - 1]))
  }

  /** _add_consumer */
  method AddConsumer(entries: seq<Want>) returns (list: seq<Want>)
    ensures list == Listed(entries)
  {
    list := [];
    for i := 0 to |entries|
      invariant list == Listed(entries[..i])
    {
      assert entries[..i + 1][..i] == entries[..i];
      list := AddEntry(list, WithLengths(entries[i]));
    }
    assert entries[..|entries|] == entries;
  }

  /** The search for the place, from the end of the list. */
  method AddEntry(list: seq<Want>, w: Want) returns (r: seq<Want>)
    ensures r == Insert(list, w)
  {
    var j := |list|;
    assert list[..j] == list && list[j..] == [];
    while j > 0 && Key(list[j - 1]) > Key(w)
      invariant 0 <= j <= |list|
      invariant Insert(list, w) == Insert(list[..j], w) + list[j..]
    {
      assert list[..j][..j - 1] == list[..j - 1];
      assert [list[j - 1]] + list[j..] == list[j - 1..];
      j := j - 1;
    }
    r := list[..j] + [w] + list[j..];
  }

  /** Where an entry is inserted. */
  lemma {:induction false} InsertAt(list: seq<Want>, w: Want) returns (j: nat)
    ensures j <= |list| && Insert(list, w) == list[..j] + [w] + list[j..]
    ensures j > 0 ==> Key(list[j - 1]) <= Key(w)
    ensures forall i :: j <= i < |list| ==> Key(list[i]) > Key(w)
  {
    if list == [] || Key(list[|list| - 1]) <= Key(w) {
      j := |list|;
    } else {
      var front, last := list[..|list| - 1], list[|list| - 1];
      j := InsertAt(front, w);
      assert list[..j] == front[..j] && list[j..] == front[j..] + [last];
    }
  }

  ghost predicate Rising(list: seq<Want>) {
    forall i, j :: 0 <= i < j < |list| ==> Key(list[i]) <= Key(list[j])
  }

  lemma InsertRising(list: seq<Want>, w: Want)
    requires Rising(list)
    ensures Rising(Insert(list, w))
  {
    var j := InsertAt(list, w);
    hide Insert;
    var r := Insert(list, w);
    forall i, l | 0 <= i < l < |r| ensures Key(r[i]) <= Key(r[l]) {
      assert r[i] == if i < j then list[i] else if i == j then w else list[i - 1];
      assert r[l] == if l < j then list[l] else if l == j then w else list[l - 1];
      assert j > 0 && i < j ==> Key(list[i]) <= Key(list[j - 1]);
    }
  }

  /** The list is sorted by the keys. */
  lemma {:induction false} ListedRising(entries: seq<Want>)
    ensures Rising(Listed(entries))
  {
    if entries != [] {
      ListedRising(entries[..|entries| - 1]);
      InsertRising(Listed(entries[..|entries| - 1]), WithLengths(entries[|entries| - 1]));
    }
  }

  function OfKey(list: seq<Want>, key: int): seq<Want> {
    if list == [] then []
    else OfKey(list[..|list| - 1], key) + if Key(list[|list| - 1]) == key then [list[|list| - 1]] else []
  }

  function AllWithLengths(entries: seq<Want>): seq<Want> {
    if entries == [] then [] else AllWithLengths(entries[..|entries| - 1]) + [WithLengths(entries[|entries| - 1])]
  }

  lemma {:induction false} InsertStable(list: seq<Want>, w: Want, key: int)
    ensures OfKey(Insert(list, w), key) == OfKey(list, key) + if Key(w) == key then [w] else []
  {
    if list == [] || Key(list[|list| - 1]) <= Key(w) {
      assert (list + [w])[..|list|] == list;
    } else {
      var front, last := list[..|list| - 1], list[|list| - 1];
      InsertStable(front, w, key);
      assert (Insert(front, w) + [last])[..|list|] == Insert(front, w);
    }
  }

  /** Entries for one type and extension keep their order, and none is lost. */
  lemma {:induction false} ListedStable(entries: seq<Want>, key: int)
    ensures OfKey(Listed(entries), key) == OfKey(AllWithLengths(entries), key)
  {
    if entries != [] {
      var front, w := entries[..|entries| - 1], WithLengths(entries[|entries| - 1]);
      ListedStable(front, key);
      InsertStable(Listed(front), w, key);
      assert (AllWithLengths(front) + [w])[..|AllWithLengths(front)|] == AllWithLengths(front);
    }
  }

  lemma {:induction false} AllWithLengthsAre(entries: seq<Want>, i: nat)
    requires i < |entries|
    ensures |AllWithLengths(entries)| == |entries| && AllWithLengths(entries)[i] == WithLengths(entries[i])
    decreases |entries|
  {
    var front := entries[..|entries| - 1];
    if i < |front| {
      AllWithLengthsAre(front, i);
    } else if front != [] {
      AllWithLengthsAre(front, 0);
    }
  }

  /** An entry keeps everything but a maximum below its minimum, which is raised. */
  lemma LengthsKept(entries: seq<Want>, i: nat)
    requires i < |entries|
    ensures |AllWithLengths(entries)| == |entries|
    ensures var w, v := entries[i], AllWithLengths(entries)[i];
      && v.min == w.min && v.max >= w.min && v.max >= w.max && (v.max == w.min || v.max == w.max)
      && (v.typ, v.ext, v.matchExt, v.mandatory, v.matchLength) == (w.typ, w.ext, w.matchExt, w.mandatory, w.matchLength)
  {
    AllWithLengthsAre(entries, i);
  }

  /** No TLV is for both entries. */
  predicate Disjoint(v: Want, w: Want) {
    High(v) < Low(w) || High(w) < Low(v)
  }

  predicate DisjointFrom(list: seq<Want>, w: Want) {
    list == [] || (DisjointFrom(list[..|list| - 1], w) && Disjoint(list[|list| - 1], w))
  }

  predicate AllDisjoint(list: seq<Want>) {
    list == [] || (AllDisjoint(list[..|list| - 1]) && DisjointFrom(list[..|list| - 1], list[|list| - 1]))
  }

  lemma {:induction false} DisjointFromMeans(list: seq<Want>, w: Want)
    ensures DisjointFrom(list, w) <==> forall i :: 0 <= i < |list| ==> Disjoint(list[i], w)
  {
    hide Disjoint;
    if list != [] {
      DisjointFromMeans(list[..|list| - 1], w);
      assert forall i :: 0 <= i < |list| - 1 ==> list[i] == list[..|list| - 1][i];
    }
  }

  lemma {:induction false} AllDisjointMeans(list: seq<Want>)
    ensures AllDisjoint(list) <==> forall i, j :: 0 <= i < j < |list| ==> Disjoint(list[i], list[j])
  {
    hide Disjoint;
    if list != [] {
      var front := list[..|list| - 1];
      AllDisjointMeans(front);
      DisjointFromMeans(front, list[|list| - 1]);
      assert forall i :: 0 <= i < |front| ==> list[i] == front[i];
    }
  }

  lemma DisjointTurned(v: Want, w: Want)
    ensures Disjoint(v, w) == Disjoint(w, v)
  {
  }

  lemma {:induction false} InsertDisjoint(list: seq<Want>, w: Want, v: Want)
    ensures AllDisjoint(Insert(list, w)) <==> AllDisjoint(list) && DisjointFrom(list, w)
    ensures DisjointFrom(Insert(list, w), v) <==> DisjointFrom(list, v) && Disjoint(w, v)
  {
    hide Disjoint, Key;
    if list == [] || Key(list[|list| - 1]) <= Key(w) {
      assert (list + [w])[..|list|] == list;
    } else {
      var front, last := list[..|list| - 1], list[|list| - 1];
      InsertDisjoint(front, w, v);
      InsertDisjoint(front, w, last);
      DisjointTurned(w, last);
      assert (Insert(front, w) + [last])[..|list|] == Insert(front, w);
    }
  }

  lemma {:induction false} ListedDisjoint(entries: seq<Want>, v: Want)
    ensures AllDisjoint(Listed(entries)) <==> AllDisjoint(entries)
    ensures DisjointFrom(Listed(entries), v) <==> DisjointFrom(entries, v)
  {
    hide Disjoint, Insert;
    if entries != [] {
      var front, w := entries[..|entries| - 1], entries[|entries| - 1];
      ListedDisjoint(front, v);
      ListedDisjoint(front, WithLengths(w));
      InsertDisjoint(Listed(front), WithLengths(w), v);
      LengthsApart(front, w);
      LengthsDisjoint(w, v);
    }
  }

  /** Lengths make no difference to what an entry is for. */
  lemma LengthsDisjoint(w: Want, v: Want)
    ensures Disjoint(WithLengths(w), v) == Disjoint(w, v) && Disjoint(v, WithLengths(w)) == Disjoint(v, w)
  {
  }

  lemma {:induction false} LengthsApart(front: seq<Want>, w: Want)
    ensures DisjointFrom(front, WithLengths(w)) == DisjointFrom(front, w)
  {
    hide Disjoint, WithLengths;
    if front != [] {
      LengthsApart(front[..|front| - 1], w);
      LengthsDisjoint(w, front[|front| - 1]);
    }
  }

  /** One entry of a sorted list ends before a later one begins, or one TLV can be for both. */
  lemma KeysApart(v: Want, w: Want)
    requires Key(v) <= Key(w)
    ensures Disjoint(v, w) <==> High(v) < Low(w)
  {
  }

  /** In a sorted list, being disjoint and being one behind the other are the same. */
  lemma RisingApart(list: seq<Want>)
    requires Rising(list)
    ensures (forall c :: 0 <= c < |list| ==> Apart(list, c)) <==> AllDisjoint(list)
  {
    AllDisjointMeans(list);
    hide Disjoint, AllDisjoint, Key, High, Low;
    forall d, c | 0 <= d < c < |list| ensures Disjoint(list[d], list[c]) <==> High(list[d]) < Low(list[c]) {
      assert Key(list[d]) <= Key(list[c]);
      KeysApart(list[d], list[c]);
    }
    if forall c :: 0 <= c < |list| ==> Apart(list, c) {
      forall d, c | 0 <= d < c < |list| ensures Disjoint(list[d], list[c]) {
        assert Apart(list, c);
      }
    }
  }

  /** Whatever entries a consumer is added with, in whatever order: the pass gives
      each of them all TLVs of its type, for every block, if and only if no TLV
      can be for two of them. */
  lemma AddedExactly(entries: seq<Want>)
    ensures (forall c :: 0 <= c < |entries| ==> GetsAll(Listed(entries), c))
       <==> forall i, j :: 0 <= i < j < |entries| ==> Disjoint(entries[i], entries[j])
  {
    hide Listed, Disjoint, AllDisjoint, Apart, GetsAll, Rising;
    ListedRising(entries);
    RisingApart(Listed(entries));
    ListedDisjoint(entries, Want(0, 0, false, false, false, 0, 0));
    AllDisjointMeans(entries);
    forall c | 0 <= c < |entries| ensures GetsAll(Listed(entries), c) <==> Apart(Listed(entries), c) {
      OnePassExactly(Listed(entries), c);
    }
  }
}
