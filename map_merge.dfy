/** The merge loop of "makebook merge" (book.cpp:776-816) for any choice
    between the entries two maps hold for the same key: a walk over every
    key of the first map, then a walk over every key of the second. The
    hash maps are visited in no particular order, so each walk picks any
    key it has not visited yet. */
module MapMerge {

  /** The entry kept for a key of either map: the choice when both have
      it, else the one map's entry. */
  function PickWith<V>(b0: map<string, V>, b1: map<string, V>, k: string, choose: (V, V) -> V): V
    requires k in b0 || k in b1
  {
    if k in b0 && k in b1 then choose(b0[k], b1[k])
    else if k in b0 then b0[k]
    else b1[k]
  }

  /** Every key the merged map holds so far has the entry the merge keeps
      for it. */
  ghost predicate Picked<V>(b0: map<string, V>, b1: map<string, V>, b2: map<string, V>, choose: (V, V) -> V) {
    forall k :: k in b2 ==> (k in b0 || k in b1) && b2[k] == PickWith(b0, b1, k, choose)
  }

  /** Storing the kept entry of one more key keeps the map picked. */
  lemma PickedAdd<V>(b0: map<string, V>, b1: map<string, V>, b2: map<string, V>, choose: (V, V) -> V, k: string, v: V)
    requires Picked(b0, b1, b2, choose) && (k in b0 || k in b1) && v == PickWith(b0, b1, k, choose)
    ensures Picked(b0, b1, b2[k := v], choose)
  {
  }

  // ---------------------------------------------------------------------
  // Set sizes
  // ---------------------------------------------------------------------

  /** A subset is no larger, equal when as large, and missing an element
      when smaller. */
  lemma SubsetSize<K>(a: set<K>, b: set<K>)
    requires a <= b
    ensures |a| <= |b|
    ensures |a| == |b| ==> a == b
    ensures |a| < |b| ==> exists k :: k in b && k !in a
  {
    assert b == a + (b - a);
    if |a| < |b| {
      var k :| k in b - a;
    }
  }

  lemma UnionSize<K>(a: set<K>, b: set<K>)
    ensures |a + b| == |a| + |b - a|
  {
    assert a + b == a + (b - a);
  }

  lemma SplitSize<K>(a: set<K>, b: set<K>)
    ensures |a| == |a * b| + |a - b|
  {
    assert a == (a * b) + (a - b);
  }

  /** The keys of two sets split into the shared ones and the ones of
      either set alone. */
  lemma UnionSplits<K>(k0: set<K>, k1: set<K>)
    ensures |k0 + k1| == |k0 * k1| + |k0 - k1| + |k1 - k0|
  {
    UnionSize(k0, k1);
    SplitSize(k0, k1);
  }

  // ---------------------------------------------------------------------
  // The two walks
  // ---------------------------------------------------------------------

  /** At the end of the walk over book 0 every key of book 0 is merged and
      the shared ones are exactly those book 1 also has. */
  lemma Walk0Done(k0: set<string>, k1: set<string>, k2: set<string>, shared: set<string>)
    requires k2 <= k0 && !(|k2| < |k0|)
    requires forall j :: j in shared <==> j in k2 && j in k1
    ensures k2 == k0 && shared == k0 * k1 && |k0 - k1| == |k0| - |shared|
  {
    SubsetSize(k2, k0);
    assert shared == k0 * k1;
    SplitSize(k0, k1);
  }

  /** The walk over book 0: a key book 1 also has gets the choice and
      counts as shared; a key only in book 0 is copied and counted apart. */
  method WalkBook0<V>(b0: map<string, V>, b1: map<string, V>, choose: (V, V) -> V)
    returns (b2: map<string, V>, same: nat, different1: nat)
    ensures b2.Keys == b0.Keys && Picked(b0, b1, b2, choose)
    ensures same == |b0.Keys * b1.Keys|
    ensures different1 == |b0.Keys - b1.Keys|
  {
    b2 := map[];
    same, different1 := 0, 0;
    ghost var shared: set<string> := {};
    while |b2| < |b0|
      invariant b2.Keys <= b0.Keys
      invariant forall j :: j in shared <==> j in b2 && j in b1
      invariant Picked(b0, b1, b2, choose)
      invariant same == |shared| && same + different1 == |b2|
      decreases |b0| - |b2|
    {
      SubsetSize(b2.Keys, b0.Keys);
      var k :| k in b0 && k !in b2;
      if k in b1 {
        same := same + 1;
        shared := shared + {k};
        PickedAdd(b0, b1, b2, choose, k, choose(b0[k], b1[k]));
        b2 := b2[k := choose(b0[k], b1[k])];
      } else {
        different1 := different1 + 1;
        PickedAdd(b0, b1, b2, choose, k, b0[k]);
        b2 := b2[k := b0[k]];
      }
    }
    Walk0Done(b0.Keys, b1.Keys, b2.Keys, shared);
  }

  /** At the end of the walk over book 1 the merge holds the keys of both
      books, and it grew by the keys book 0 lacks. */
  lemma Walk1Done(k0: set<string>, k1: set<string>, k2: set<string>, seen: set<string>)
    requires seen <= k1 && !(|seen| < |k1|)
    requires forall j :: j in k2 <==> j in k0 || j in seen
    ensures k2 == k0 + k1 && |k2| == |k0| + |k1 - k0|
  {
    SubsetSize(seen, k1);
    assert k2 == k0 + k1;
    UnionSize(k0, k1);
  }

  /** The walk over book 1: a key the merge does not hold yet is copied and
      counted; a key it holds is skipped. */
  method WalkBook1<V>(b0: map<string, V>, b1: map<string, V>, b2in: map<string, V>, choose: (V, V) -> V)
    returns (b2: map<string, V>, different2: nat)
    requires b2in.Keys == b0.Keys && Picked(b0, b1, b2in, choose)
    ensures b2.Keys == b0.Keys + b1.Keys && Picked(b0, b1, b2, choose)
    ensures different2 == |b1.Keys - b0.Keys|
  {
    b2 := b2in;
    different2 := 0;
    var seen: set<string> := {};
    while |seen| < |b1|
      invariant seen <= b1.Keys
      invariant forall j :: j in b2 <==> j in b0 || j in seen
      invariant Picked(b0, b1, b2, choose)
      invariant |b0| + different2 == |b2|
      decreases |b1| - |seen|
    {
      SubsetSize(seen, b1.Keys);
      var k :| k in b1 && k !in seen;
      if k !in b2 {
        different2 := different2 + 1;
        PickedAdd(b0, b1, b2, choose, k, b1[k]);
        b2 := b2[k := b1[k]];
      }
      seen := seen + {k};
    }
    Walk1Done(b0.Keys, b1.Keys, b2.Keys, seen);
  }
}
