/** Move encodings the book meets: the 16-bit moves of an Apery book
    (convert_move_from_apery) and the USI move text of the book file.
    USI::to_move16 and Move16::to_usi_string are not part of this model;
    they are defined here after the USI move notation (file digit, rank
    letter, '+' for a promotion, "P*5e" for a drop). */
module MoveCodec {
  import opened BookTypes

  // ---------------------------------------------------------------------
  // Apery moves
  // ---------------------------------------------------------------------

  /** convert_move_from_apery: "to" is bits 0-6, "from" bits 7-13 and bit 14
      the promotion flag; without promotion a "from" at or above the number
      of squares denotes a drop of piece type from - SquareCount + 1. */
  function ConvertMoveFromApery(m: nat): (r: Move16)
    requires m < 0x1_0000
  {
    var to := m % 0x80;
    var from := (m / 0x80) % 0x80;
    var isPromotion := (m / 0x4000) % 2 == 1;
    if isPromotion then MoveNormal(from, to, true)
    else if from >= SquareCount then MoveDrop(from - SquareCount + 1, to)
    else MoveNormal(from, to, false)
  }

  /** The moves an Apery code can denote. */
  predicate AperyEncodable(mv: Move16) {
    match mv
    case MoveNone => false
    case MoveNormal(from, to, promote) => to < 0x80 && (if promote then from < 0x80 else from < SquareCount)
    case MoveDrop(piece, to) => to < 0x80 && 1 <= piece && piece + SquareCount - 1 < 0x80
  }

  /** The Apery code of a move: the inverse of ConvertMoveFromApery. */
  function EncodeApery(mv: Move16): (m: nat)
    requires AperyEncodable(mv)
    ensures m < 0x8000
  {
    match mv
    case MoveNormal(from, to, promote) => to + from * 0x80 + (if promote then 0x4000 else 0)
    case MoveDrop(piece, to) => to + (piece + SquareCount - 1) * 0x80
  }

  /** Decoding an encoded move gives the move back. */
  lemma AperyRoundTrip(mv: Move16)
    requires AperyEncodable(mv)
    ensures ConvertMoveFromApery(EncodeApery(mv)) == mv
  {
    var m := EncodeApery(mv);
    match mv
    case MoveNormal(from, to, promote) =>
      if promote {
        assert m / 0x80 == from + 0x80;
        assert m / 0x4000 == 1;
      } else {
        assert m / 0x80 == from;
        assert m / 0x4000 == 0;
      }
    case MoveDrop(piece, to) =>
      assert m / 0x80 == piece + SquareCount - 1;
      assert m / 0x4000 == 0;
  }

  /** Every decoded move is an encodable one, and encoding it again gives
      the code back up to the unused bit 15. */
  lemma AperyDecodeEncode(m: nat)
    requires m < 0x1_0000
    ensures AperyEncodable(ConvertMoveFromApery(m))
    ensures EncodeApery(ConvertMoveFromApery(m)) == m % 0x8000
  {
    var to := m % 0x80;
    var from := (m / 0x80) % 0x80;
    var p := (m / 0x4000) % 2;
    assert m % 0x8000 == to + from * 0x80 + p * 0x4000;
  }

  // ---------------------------------------------------------------------
  // USI move text
  // ---------------------------------------------------------------------

  /** Square index (file - 1) * 9 + rank of a USI square such as "7g". */
  function SquareOf(f: char, r: char): (sq: Option<nat>)
    ensures sq.Some? ==> sq.value < SquareCount
  {
    if '1' <= f <= '9' && 'a' <= r <= 'i' then
      Some((f as int - '1' as int) * 9 + (r as int - 'a' as int))
    else None
  }

  function SquareText(sq: nat): (t: string)
    requires sq < SquareCount
    ensures |t| == 2
  {
    [('1' as int + sq / 9) as char, ('a' as int + sq % 9) as char]
  }

  const PieceLetters: string := "PLNSBRG"

  /** Piece type of a drop letter: pawn 1, lance 2, knight 3, silver 4,
      bishop 5, rook 6, gold 7. */
  function PieceOf(c: char): (p: Option<nat>)
    ensures p.Some? ==> 1 <= p.value <= 7
  {
    if c == 'P' then Some(1) else if c == 'L' then Some(2) else if c == 'N' then Some(3)
    else if c == 'S' then Some(4) else if c == 'B' then Some(5) else if c == 'R' then Some(6)
    else if c == 'G' then Some(7) else None
  }

  /** USI::to_move16: text that is not a well-formed USI move gives
      MOVE_NONE, so every move read has a USI text of its own. */
  function UsiToMove(s: string): (mv: Move16)
    ensures UsiWritable(mv)
  {
    if |s| == 4 && s[1] == '*' && PieceOf(s[0]).Some? && SquareOf(s[2], s[3]).Some? then
      MoveDrop(PieceOf(s[0]).value, SquareOf(s[2], s[3]).value)
    else if (|s| == 4 || (|s| == 5 && s[4] == '+'))
            && SquareOf(s[0], s[1]).Some? && SquareOf(s[2], s[3]).Some? then
      MoveNormal(SquareOf(s[0], s[1]).value, SquareOf(s[2], s[3]).value, |s| == 5)
    else MoveNone
  }

  /** The moves that have a USI text. */
  predicate UsiWritable(mv: Move16) {
    match mv
    case MoveNone => true
    case MoveNormal(from, to, _) => from < SquareCount && to < SquareCount
    case MoveDrop(piece, to) => 1 <= piece <= 7 && to < SquareCount
  }

  /** Move16::to_usi_string, as operator<< writes a move. */
  function MoveToUsi(mv: Move16): (t: string)
    requires UsiWritable(mv)
    ensures |t| > 0
    ensures forall i :: 0 <= i < |t| ==> t[i] != ' ' && t[i] != '\t'
  {
    match mv
    case MoveNone => "none"
    case MoveNormal(from, to, promote) => SquareText(from) + SquareText(to) + (if promote then "+" else "")
    case MoveDrop(piece, to) => [PieceLetters[piece - 1]] + "*" + SquareText(to)
  }

  /** The text of a move starts with "n" (none), a file digit or a piece
      letter, and holds no line break. */
  lemma UsiShape(mv: Move16)
    requires UsiWritable(mv)
    ensures var t := MoveToUsi(mv);
      (t[0] == 'n' || '1' <= t[0] <= '9' || t[0] in PieceLetters)
      && forall i :: 0 <= i < |t| ==> t[i] != '\n'
  {
  }

  lemma SquareRoundTrip(sq: nat)
    requires sq < SquareCount
    ensures SquareOf(SquareText(sq)[0], SquareText(sq)[1]) == Some(sq)
  {
  }

  /** Reading back the text of a move gives the move back. */
  lemma UsiRoundTrip(mv: Move16)
    requires UsiWritable(mv)
    ensures UsiToMove(MoveToUsi(mv)) == mv
  {
    match mv
    case MoveNone =>
    case MoveNormal(from, to, promote) =>
      SquareRoundTrip(from);
      SquareRoundTrip(to);
    case MoveDrop(piece, to) =>
      SquareRoundTrip(to);
      assert PieceOf(PieceLetters[piece - 1]) == Some(piece);
  }
}
