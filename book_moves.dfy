/** The record list of one position (BookMoves): a vector of records and a
    flag saying whether the vector is known to be sorted. */
module MoveList {
  import opened BookTypes
  import opened RecordSort
  import opened Record

  /** Index of the first record carrying move m (std::find_if). */
  function FirstIndexOf(ms: seq<BookMove>, m: Move16): (r: Option<nat>)
    ensures r.Some? ==> r.value < |ms| && ms[r.value].move == m
                        && forall j :: 0 <= j < r.value ==> ms[j].move != m
    ensures r.None? ==> forall j :: 0 <= j < |ms| ==> ms[j].move != m
  {
    if ms == [] then None
    else if ms[0].move == m then Some(0)
    else match FirstIndexOf(ms[1..], m)
      case None => None
      case Some(i) => Some(i + 1)
  }

  /** The record that replaces old when bp is inserted over it: bp's move,
      ponder, value and depth, with the three counters summed as u64
      values, that is modulo 2^64. */
  function Accumulate(old_: BookMove, bp: BookMove): BookMove {
    bp.(num := ToU64(bp.num + old_.num), win := ToU64(bp.win + old_.win), lose := ToU64(bp.lose + old_.lose))
  }

  /** The list BookMoves::insert leaves: bp appended when its move is
      absent; otherwise unchanged, or, when overwriting, the first record
      with that move accumulated with bp. */
  function InsertRecord(ms: seq<BookMove>, bp: BookMove, overwrite: bool): seq<BookMove> {
    match FirstIndexOf(ms, bp.move)
    case None => ms + [bp]
    case Some(i) => if overwrite then ms[i := Accumulate(ms[i], bp)] else ms
  }

  /** At most one record per move. */
  predicate UniqueMoves(ms: seq<BookMove>) {
    forall i, j :: 0 <= i < j < |ms| ==> ms[i].move != ms[j].move
  }

  /** What insert does, case by case: an absent move is appended at the end;
      a present one is left alone unless overwriting, in which case only its
      record changes, to bp with the counters summed modulo 2^64. */
  lemma InsertRecordCases(ms: seq<BookMove>, bp: BookMove, overwrite: bool)
    ensures var r := InsertRecord(ms, bp, overwrite);
      && ((forall j :: 0 <= j < |ms| ==> ms[j].move != bp.move) ==> r == ms + [bp])
      && (forall i :: 0 <= i < |ms| && ms[i].move == bp.move && !overwrite ==> r == ms)
      && (forall i :: 0 <= i < |ms| && ms[i].move == bp.move && overwrite && UniqueMoves(ms) ==>
            && |r| == |ms|
            && r[i] == bp.(num := ToU64(bp.num + ms[i].num), win := ToU64(bp.win + ms[i].win),
                           lose := ToU64(bp.lose + ms[i].lose))
            && forall j :: 0 <= j < |ms| && j != i ==> r[j] == ms[j])
  {
  }

  /** insert keeps at most one record per move. */
  lemma InsertKeepsUnique(ms: seq<BookMove>, bp: BookMove, overwrite: bool)
    requires UniqueMoves(ms)
    ensures UniqueMoves(InsertRecord(ms, bp, overwrite))
    ensures bp.move in set b | b in InsertRecord(ms, bp, overwrite) :: b.move
  {
    var r := InsertRecord(ms, bp, overwrite);
    match FirstIndexOf(ms, bp.move)
    case None =>
      assert r[|ms|] == bp;
    case Some(i) =>
      assert r[i].move == bp.move;
  }

  /** insert never loses a move the list held. */
  lemma InsertRecordKeepsMove(ms: seq<BookMove>, bp: BookMove, overwrite: bool, b: BookMove)
    requires b in ms
    ensures b.move in set c | c in InsertRecord(ms, bp, overwrite) :: c.move
  {
    var r := InsertRecord(ms, bp, overwrite);
    var j :| 0 <= j < |ms| && ms[j] == b;
    match FirstIndexOf(ms, bp.move)
    case None =>
      assert r[j] == b;
    case Some(i) =>
      assert r[j].move == b.move;
  }

  /** Inserting the same move twice with overwrite sums the counters
      (modulo 2^64) and
      keeps the second record's move, ponder, value and depth. */
  lemma InsertTwiceAccumulates(ms: seq<BookMove>, b1: BookMove, b2: BookMove)
    requires UniqueMoves(ms) && b1.move == b2.move
    requires forall j :: 0 <= j < |ms| ==> ms[j].move != b1.move
    ensures var r := InsertRecord(InsertRecord(ms, b1, true), b2, true);
      && |r| == |ms| + 1 && r[..|ms|] == ms
      && r[|ms|] == b2.(num := ToU64(b1.num + b2.num), win := ToU64(b1.win + b2.win),
                        lose := ToU64(b1.lose + b2.lose))
  {
    var r1 := InsertRecord(ms, b1, true);
    assert r1 == ms + [b1];
    assert r1[|ms|].move == b2.move;
    var f := FirstIndexOf(r1, b2.move);
    assert f.Some? && f.value >= |ms|;
    assert f == Some(|ms|);
  }

  /** insert keeps every record writable: an accumulated record takes bp's
      move, ponder, value and depth, and its counters wrap below 2^64. */
  lemma InsertKeepsWritable(ms: seq<BookMove>, bp: BookMove, overwrite: bool)
    requires forall x :: x in ms ==> Writable(x)
    requires Writable(bp)
    ensures forall x :: x in InsertRecord(ms, bp, overwrite) ==> Writable(x)
  {
  }

  /** Placing a record whose move the list lacks keeps the moves unique. */
  lemma {:induction false} InsertRankedUnique(x: BookMove, t: seq<BookMove>)
    requires UniqueMoves(t) && forall y :: y in t ==> y.move != x.move
    ensures UniqueMoves(InsertRanked(x, t))
  {
    if t != [] && !RanksBefore(x, t[0]) {
      var u := InsertRanked(x, t[1..]);
      InsertRankedUnique(x, t[1..]);
      InsertRanksPermutes(x, t[1..]);
      forall j | 0 <= j < |u| ensures t[0].move != u[j].move {
        assert u[j] in multiset(u);
        assert u[j] == x || u[j] in t[1..];
      }
    }
  }

  /** Sorting keeps the moves unique: it only reorders the records. */
  lemma {:induction false} StableSortUnique(s: seq<BookMove>)
    requires UniqueMoves(s)
    ensures UniqueMoves(StableSort(s))
  {
    if s != [] {
      var init := s[..|s| - 1];
      var x := s[|s| - 1];
      StableSortUnique(init);
      StableSortSortsPermutation(init);
      forall y | y in StableSort(init) ensures y.move != x.move {
        assert y in multiset(StableSort(init));
      }
      InsertRankedUnique(x, StableSort(init));
    }
  }

  /** The lists a BookMoves can hold: when the flag says sorted, the list
      is what a stable sort leaves in place. */
  predicate ListInvariant(ms: seq<BookMove>, sorted: bool) {
    sorted ==> Sorted(ms)
  }

  class BookMoves {
    var moves: seq<BookMove>
    var sorted: bool

    ghost predicate Valid()
      reads this
    {
      ListInvariant(moves, sorted)
    }

    constructor ()
      ensures Valid() && moves == [] && !sorted
    {
      moves := [];
      sorted := false;
    }

    /** Number of records (size()). */
    function Size(): nat
      reads this
    {
      |moves|
    }

    /** push_back: appends without looking for the move; the list is no
        longer known to be sorted. */
    method PushBack(bp: BookMove)
      requires Valid()
      modifies this
      ensures Valid()
      ensures moves == old(moves) + [bp] && !sorted
    {
      moves := moves + [bp];
      sorted := false;
    }

    /** find_move: a copy of the first record with move m, if any. */
    method FindMove(m: Move16) returns (r: Option<BookMove>)
      ensures r.Some? <==> exists j :: 0 <= j < |moves| && moves[j].move == m
      ensures r.Some? ==> r.value.move == m && r.value in moves
      ensures r.Some? ==> r.value == moves[FirstIndexOf(moves, m).value]
    {
      var i := 0;
      while i < |moves|
        invariant 0 <= i <= |moves|
        invariant forall j :: 0 <= j < i ==> moves[j].move != m
      {
        if moves[i].move == m {
          assert FirstIndexOf(moves, m) == Some(i);
          return Some(moves[i]);
        }
        i := i + 1;
      }
      return None;
    }

    /** sort_moves: stable-sorts the records unless already sorted. */
    method SortMoves()
      requires Valid()
      modifies this
      ensures Valid() && sorted
      ensures moves == StableSort(old(moves))
      ensures multiset(moves) == multiset(old(moves)) && Sorted(moves)
    {
      StableSortSortsPermutation(moves);
      if sorted {
        StableSortOfSorted(moves);
        return;
      }
      moves := StableSort(moves);
      sorted := true;
    }

    /** insert(bp, overwrite): scans for bp's move; appends bp when absent,
        and when present and overwriting replaces that record by bp with the
        counters summed. */
    method Insert(bp: BookMove, overwrite: bool)
      requires Valid()
      modifies this
      ensures Valid()
      ensures moves == InsertRecord(old(moves), bp, overwrite)
      ensures sorted == (old(sorted) && FirstIndexOf(old(moves), bp.move).Some? && !overwrite)
    {
      var i := 0;
      while i < |moves|
        invariant 0 <= i <= |moves|
        invariant moves == old(moves) && sorted == old(sorted)
        invariant forall j :: 0 <= j < i ==> moves[j].move != bp.move
      {
        if moves[i].move == bp.move {
          assert FirstIndexOf(moves, bp.move) == Some(i);
          if overwrite {
            var b := moves[i];
            moves := moves[i := Accumulate(b, bp)];
            sorted := false;
          }
          return;
        }
        i := i + 1;
      }
      moves := moves + [bp];
      sorted := false;
    }
  }
}
