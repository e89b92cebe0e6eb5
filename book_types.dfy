/** Entities shared by the whole opening book: moves, book records and the
    record order (book.cpp and the header it includes). */
module BookTypes {

  datatype Option<T> = None | Some(value: T)

  /** Number of squares on the board (SQ_NB); Apery encodes a drop by a
      "from" field at or above it. */
  const SquareCount: nat := 81

  /** A position-independent 16-bit move: no move (MOVE_NONE), a board
      move with an optional promotion, or a drop of a piece type. */
  datatype Move16 =
    | MoveNone
    | MoveNormal(from: nat, to: nat, promote: bool)
    | MoveDrop(piece: nat, to: nat)

  /** is_ok on a 16-bit move: the move is a real one. */
  predicate IsOk(m: Move16) {
    !m.MoveNone?
  }

  /** One candidate reply of a position (BookMove): the move, the expected
      reply, the evaluation (int), the search depth (int) and the three u64
      counters num (occurrences), win and lose. */
  datatype BookMove = BookMove(
    move: Move16,
    ponder: Move16,
    value: int,
    depth: int,
    num: nat,
    win: nat,
    lose: nat)

  /** BookMove::operator== : two records are the same entry when they carry
      the same move. */
  predicate SameMove(a: BookMove, b: BookMove) {
    a.move == b.move
  }

  /** BookMove::operator< : a ranks strictly before b when it was chosen
      more often, or as often and with a better evaluation. */
  predicate RanksBefore(a: BookMove, b: BookMove) {
    a.num > b.num || (a.num == b.num && a.value > b.value)
  }

  /** The order key of a record: records with equal keys are tied under
      RanksBefore. */
  function RankKey(b: BookMove): (int, int) {
    (b.num, b.value)
  }

  /** "Not after": the reflexive companion of RanksBefore. */
  predicate RanksNotAfter(a: BookMove, b: BookMove) {
    !RanksBefore(b, a)
  }

  /** The resident book (book_body): position key to record list. */
  type Body = map<string, seq<BookMove>>

  lemma RanksNotAfterTotal(a: BookMove, b: BookMove)
    ensures RanksNotAfter(a, b) || RanksNotAfter(b, a)
    ensures RanksNotAfter(a, b) && RanksNotAfter(b, a) <==> RankKey(a) == RankKey(b)
  {
  }
}
