/** The merge of two books done by the "makebook merge" command
    (book.cpp:776-816): every position of either book is kept, and for a
    position in both the deeper (then broader) record list wins. */
module Merge {
  import opened BookTypes
  import opened MapMerge

  /** The choice for a position present in both books: an empty list loses;
      otherwise the list whose first record is deeper wins; on equal depth
      the longer list wins, and book 0 on equal length. */
  function MergeChoice(l0: seq<BookMove>, l1: seq<BookMove>): seq<BookMove> {
    if |l0| == 0 then l1
    else if |l1| == 0 then l0
    else if l0[0].depth > l1[0].depth then l0
    else if l0[0].depth < l1[0].depth then l1
    else if |l0| >= |l1| then l0
    else l1
  }

  /** The merit the choice compares, most significant first: having any
      record, the depth of the first record, the number of records. */
  function Merit(l: seq<BookMove>): (int, int, int) {
    if l == [] then (0, 0, 0) else (1, l[0].depth, |l|)
  }

  predicate MeritBelow(a: (int, int, int), b: (int, int, int)) {
    a.0 < b.0 || (a.0 == b.0 && (a.1 < b.1 || (a.1 == b.1 && a.2 < b.2)))
  }

  /** The choice keeps the list of greater merit, book 0's on equal merit. */
  lemma MergeChoiceByMerit(l0: seq<BookMove>, l1: seq<BookMove>)
    ensures MergeChoice(l0, l1) == if MeritBelow(Merit(l0), Merit(l1)) then l1 else l0
  {
  }

  /** b2 is the merge of b0 and b1: it holds every key of either book,
      each with the list the merge keeps for it. */
  ghost predicate IsMerge(b0: Body, b1: Body, b2: Body) {
    b2.Keys == b0.Keys + b1.Keys && Picked(b0, b1, b2, MergeChoice)
  }

  /** The merge loop of makebook_cmd: walks book 0 (counting keys shared
      with book 1 and keys only in book 0), then walks book 1 and copies the
      keys not merged yet (counting them). */
  method MergeBooks(b0: Body, b1: Body) returns (b2: Body, same: nat, different1: nat, different2: nat)
    ensures IsMerge(b0, b1, b2)
    ensures same == |b0.Keys * b1.Keys|
    ensures different1 == |b0.Keys - b1.Keys|
    ensures different2 == |b1.Keys - b0.Keys|
  {
    b2, same, different1 := WalkBook0(b0, b1, MergeChoice);
    b2, different2 := WalkBook1(b0, b1, b2, MergeChoice);
  }

  // ---------------------------------------------------------------------
  // Properties of the merged book
  // ---------------------------------------------------------------------

  /** The merge is determined by the two books, whatever order the walks
      visit the keys in. */
  lemma MergeIsUnique(b0: Body, b1: Body, b2: Body, b2': Body)
    requires IsMerge(b0, b1, b2) && IsMerge(b0, b1, b2')
    ensures b2 == b2'
  {
    forall k | k in b2 ensures b2[k] == b2'[k] {
      assert b2[k] == PickWith(b0, b1, k, MergeChoice);
    }
  }

  /** The three counters add up to the number of merged positions. */
  lemma MergeCountsAddUp(b0: Body, b1: Body, b2: Body)
    requires IsMerge(b0, b1, b2)
    ensures |b2.Keys| == |b0.Keys * b1.Keys| + |b0.Keys - b1.Keys| + |b1.Keys - b0.Keys|
  {
    UnionSplits(b0.Keys, b1.Keys);
  }

  /** Every position of either book is in the merge, and a merged list is
      always one of the two books' lists for that position, the deeper one
      when both have records. */
  lemma MergedKeepsEveryPosition(b0: Body, b1: Body, b2: Body, k: string)
    requires IsMerge(b0, b1, b2)
    ensures k in b2 <==> k in b0 || k in b1
    ensures k in b0 && k !in b1 ==> b2[k] == b0[k]
    ensures k in b1 && k !in b0 ==> b2[k] == b1[k]
    ensures k in b0 && k in b1 ==> b2[k] in {b0[k], b1[k]}
    ensures k in b0 && k in b1 && b0[k] != [] && b1[k] != [] ==>
      b2[k][0].depth == if b0[k][0].depth >= b1[k][0].depth then b0[k][0].depth else b1[k][0].depth
  {
    if k in b2 {
      assert b2[k] == PickWith(b0, b1, k, MergeChoice);
    }
  }

  /** With depths 10 and 20 the deeper list is kept; with equal depths and
      1 against 3 records the longer list is kept. */
  lemma MergeExamples(r: BookMove, b2: Body, b2': Body)
    requires IsMerge(map["p" := [r.(depth := 10)]], map["p" := [r.(depth := 20)]], b2)
    requires IsMerge(map["p" := [r]], map["p" := [r, r, r]], b2')
    ensures b2 == map["p" := [r.(depth := 20)]]
    ensures b2' == map["p" := [r, r, r]]
  {
    assert "p" in b2 && "p" in b2';
    assert b2["p"] == PickWith(map["p" := [r.(depth := 10)]], map["p" := [r.(depth := 20)]], "p", MergeChoice);
    assert b2'["p"] == PickWith(map["p" := [r]], map["p" := [r, r, r]], "p", MergeChoice);
  }
}
