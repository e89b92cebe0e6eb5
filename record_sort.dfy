/** The order std::stable_sort gives a record list under BookMove::operator<
    (BookMoves::sort_moves), defined as an insertion sort that places each
    record after every earlier record that does not rank after it. */
module RecordSort {
  import opened BookTypes

  /** No record ranks strictly before an earlier one. */
  predicate Sorted(s: seq<BookMove>) {
    forall i, j :: 0 <= i < j < |s| ==> RanksNotAfter(s[i], s[j])
  }

  /** Inserts x into t after every record of t that does not rank after x. */
  function InsertRanked(x: BookMove, t: seq<BookMove>): (r: seq<BookMove>)
    ensures |r| == |t| + 1
  {
    if t == [] then [x]
    else if RanksBefore(x, t[0]) then [x] + t
    else [t[0]] + InsertRanked(x, t[1..])
  }

  /** std::stable_sort of a record list. */
  function StableSort(s: seq<BookMove>): (r: seq<BookMove>)
    ensures |r| == |s|
  {
    if s == [] then [] else InsertRanked(s[|s| - 1], StableSort(s[..|s| - 1]))
  }

  /** The records of s whose order key is k, in their order in s. */
  function Tied(s: seq<BookMove>, k: (int, int)): seq<BookMove> {
    if s == [] then []
    else (if RankKey(s[0]) == k then [s[0]] else []) + Tied(s[1..], k)
  }

  // ---------------------------------------------------------------------
  // Insertion
  // ---------------------------------------------------------------------

  lemma {:induction false} InsertRanksPermutes(x: BookMove, t: seq<BookMove>)
    ensures multiset(InsertRanked(x, t)) == multiset(t) + multiset{x}
  {
    if t != [] && !RanksBefore(x, t[0]) {
      InsertRanksPermutes(x, t[1..]);
      assert t == [t[0]] + t[1..];
    }
  }

  lemma {:induction false} InsertRankedSorted(x: BookMove, t: seq<BookMove>)
    requires Sorted(t)
    ensures Sorted(InsertRanked(x, t))
  {
    if t != [] && !RanksBefore(x, t[0]) {
      InsertRankedSorted(x, t[1..]);
      var r := InsertRanked(x, t);
      InsertRanksPermutes(x, t[1..]);
      forall j | 1 <= j < |r| ensures RanksNotAfter(r[0], r[j]) {
        assert r[j] in multiset(InsertRanked(x, t[1..]));
        assert r[j] == x || r[j] in t[1..];
      }
    }
  }

  /** Inserting into a sorted list appends the tied records of x's key
      behind x's earlier ties. */
  lemma {:induction false} InsertRankedTied(x: BookMove, t: seq<BookMove>, k: (int, int))
    requires Sorted(t)
    ensures Tied(InsertRanked(x, t), k) == Tied(t, k) + (if RankKey(x) == k then [x] else [])
  {
    if t == [] {
    } else if RanksBefore(x, t[0]) {
      if RankKey(x) == k {
        TiedEmptyAfter(x, t, k);
      }
      assert ([x] + t)[1..] == t;
    } else {
      InsertRankedTied(x, t[1..], k);
      assert InsertRanked(x, t)[1..] == InsertRanked(x, t[1..]);
    }
  }

  lemma {:induction false} TiedEmptyAfter(x: BookMove, t: seq<BookMove>, k: (int, int))
    requires Sorted(t) && t != [] && RanksBefore(x, t[0]) && RankKey(x) == k
    ensures Tied(t, k) == []
  {
    if |t| > 1 {
      assert RanksNotAfter(t[0], t[1]);
      TiedEmptyAfter(x, t[1..], k);
    }
  }

  lemma {:induction false} TiedAppend(s: seq<BookMove>, u: seq<BookMove>, k: (int, int))
    ensures Tied(s + u, k) == Tied(s, k) + Tied(u, k)
  {
    if s != [] {
      TiedAppend(s[1..], u, k);
      assert (s + u)[1..] == s[1..] + u;
    } else {
      assert s + u == u;
    }
  }

  // ---------------------------------------------------------------------
  // The sort
  // ---------------------------------------------------------------------

  /** The sort returns the same records, in order. */
  lemma {:induction false} StableSortSortsPermutation(s: seq<BookMove>)
    ensures Sorted(StableSort(s))
    ensures multiset(StableSort(s)) == multiset(s)
  {
    if s != [] {
      var init := s[..|s| - 1];
      StableSortSortsPermutation(init);
      InsertRankedSorted(s[|s| - 1], StableSort(init));
      InsertRanksPermutes(s[|s| - 1], StableSort(init));
      assert s == init + [s[|s| - 1]];
    }
  }

  /** Stability: records with the same order key keep their relative
      order. */
  lemma {:induction false} StableSortIsStable(s: seq<BookMove>, k: (int, int))
    ensures Tied(StableSort(s), k) == Tied(s, k)
  {
    if s != [] {
      var init := s[..|s| - 1];
      var x := s[|s| - 1];
      StableSortIsStable(init, k);
      StableSortSortsPermutation(init);
      InsertRankedTied(x, StableSort(init), k);
      assert s == init + [x];
      TiedAppend(init, [x], k);
    }
  }

  lemma {:induction false} InsertRankedAtEnd(x: BookMove, t: seq<BookMove>)
    requires forall i :: 0 <= i < |t| ==> RanksNotAfter(t[i], x)
    ensures InsertRanked(x, t) == t + [x]
  {
    if t != [] {
      InsertRankedAtEnd(x, t[1..]);
      assert t == [t[0]] + t[1..];
    }
  }

  /** Sorting a sorted list changes nothing, so sorting is idempotent. */
  lemma {:induction false} StableSortOfSorted(s: seq<BookMove>)
    requires Sorted(s)
    ensures StableSort(s) == s
  {
    if s != [] {
      var init := s[..|s| - 1];
      StableSortOfSorted(init);
      InsertRankedAtEnd(s[|s| - 1], init);
    }
  }

  lemma StableSortIdempotent(s: seq<BookMove>)
    ensures StableSort(StableSort(s)) == StableSort(s)
  {
    StableSortSortsPermutation(s);
    StableSortOfSorted(StableSort(s));
  }
}
