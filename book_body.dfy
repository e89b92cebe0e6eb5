/** The resident book of MemoryBook (book_body): the map from position key
    to record list, and the insert and lookup on it (book.cpp:165-182,
    866-869, 1168-1182). */
module BookBody {
  import opened BookTypes
  import opened Text
  import opened MoveList

  /** MemoryBook::insert: a new key gets a list holding bp alone; under a
      known key bp goes through BookMoves::insert. */
  function BodyInsert(b: Body, k: string, bp: BookMove, overwrite: bool): Body {
    if k in b then b[k := InsertRecord(b[k], bp, overwrite)] else b[k := [bp]]
  }

  /** MemoryBook::find(sfen): the list stored under the normal form of sfen
      (MemoryBook::trim), if any. */
  function FindKey(b: Body, sfen: string, ignorePly: bool): Option<seq<BookMove>> {
    var k := TrimKey(sfen, ignorePly);
    if k in b then Some(b[k]) else None
  }

  /** Every list holds records, one per move. */
  predicate WellFormed(b: Body) {
    forall k :: k in b ==> b[k] != [] && UniqueMoves(b[k])
  }

  /** insert adds k and only k; a new key holds bp alone; bp's move is then
      in k's list; every other list is left alone. */
  lemma BodyInsertSpec(b: Body, k: string, bp: BookMove, overwrite: bool)
    ensures var r := BodyInsert(b, k, bp, overwrite);
      && (forall j :: j in r <==> j in b || j == k)
      && (forall j :: j in b && j != k ==> r[j] == b[j])
      && (k !in b ==> r[k] == [bp])
      && (exists i :: 0 <= i < |r[k]| && r[k][i].move == bp.move)
  {
    var r: Body := BodyInsert(b, k, bp, overwrite);
    if k in b {
      InsertRecordHoldsMove(b[k], bp, overwrite);
    } else {
      assert r[k][0].move == bp.move;
    }
  }

  lemma InsertRecordHoldsMove(ms: seq<BookMove>, bp: BookMove, overwrite: bool)
    ensures exists i :: 0 <= i < |InsertRecord(ms, bp, overwrite)| && InsertRecord(ms, bp, overwrite)[i].move == bp.move
  {
    var r := InsertRecord(ms, bp, overwrite);
    match FirstIndexOf(ms, bp.move)
    case None =>
      assert r[|ms|].move == bp.move;
    case Some(i) =>
      assert r[i].move == bp.move;
  }

  /** insert keeps every list non-empty with one record per move. */
  lemma BodyInsertWellFormed(b: Body, k: string, bp: BookMove, overwrite: bool)
    requires WellFormed(b)
    ensures WellFormed(BodyInsert(b, k, bp, overwrite))
  {
    if k in b {
      InsertKeepsUnique(b[k], bp, overwrite);
    }
  }

  /** A key stored in its normal form is found under itself. */
  lemma FindStored(b: Body, k: string, ignorePly: bool)
    requires k in b && TrimKey(k, ignorePly) == k
    ensures FindKey(b, k, ignorePly) == Some(b[k])
  {
  }

  /** find ignores white space after the key, and with IgnoreBookPly the
      ply at its end as well. */
  lemma FindIgnoresTrailer(b: Body, s: string, t: string, ignorePly: bool)
    requires forall i :: 0 <= i < |t| ==> IsSpace(t[i]) || (ignorePly && IsDigit(t[i]))
    ensures FindKey(b, s + t, ignorePly) == FindKey(b, s, ignorePly)
  {
    if ignorePly {
      TrimNumberAppend(s, t);
    } else {
      TrimRightAppend(s, t);
    }
  }

  /** After insert(k, bp) a lookup whose normal form is k finds a list
      holding bp's move. */
  lemma FindAfterInsert(b: Body, k: string, bp: BookMove, overwrite: bool, sfen: string, ignorePly: bool)
    requires TrimKey(sfen, ignorePly) == k
    ensures var r := FindKey(BodyInsert(b, k, bp, overwrite), sfen, ignorePly);
      r.Some? && exists i :: 0 <= i < |r.value| && r.value[i].move == bp.move
  {
    BodyInsertSpec(b, k, bp, overwrite);
  }

  /** append(sfen, list) stores list under sfen as given (no trim): a
      lookup finds it exactly when sfen is in normal form. */
  lemma FindAfterAppend(b: Body, sfen: string, l: seq<BookMove>, ignorePly: bool)
    ensures FindKey(b[sfen := l], sfen, ignorePly) == if TrimKey(sfen, ignorePly) == sfen then Some(l)
      else FindKey(b, sfen, ignorePly)
  {
  }
}
