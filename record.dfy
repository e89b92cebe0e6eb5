/** The text form of one book record: BookMove::from_string and the record
    line write_book emits ("move ponder value depth num win lose"). */
module Record {
  import opened BookTypes
  import opened Text
  import opened MoveCodec

  const Int32Span: int := 0x1_0000_0000
  const U64Span: int := 0x1_0000_0000_0000_0000

  /** The (int) cast of a scanned number: 32-bit two's complement
      wrap-around. */
  function ToInt32(x: int): (r: int)
    ensures -0x8000_0000 <= r < 0x8000_0000
    ensures -0x8000_0000 <= x < 0x8000_0000 ==> r == x
  {
    (x + 0x8000_0000) % Int32Span - 0x8000_0000
  }

  /** The (u64) cast of a scanned number: wrap-around modulo 2^64. */
  function ToU64(x: int): (r: nat)
    ensures r < U64Span
    ensures 0 <= x < U64Span ==> r == x
  {
    x % U64Span
  }

  predicate IsSeparator(c: char) {
    c == ' ' || c == '\t'
  }

  /** Length of the token at the head of s. */
  function TokenLength(s: string): (n: nat)
    ensures n <= |s|
    ensures forall i :: 0 <= i < n ==> !IsSeparator(s[i])
    ensures n < |s| ==> IsSeparator(s[n])
  {
    if |s| == 0 || IsSeparator(s[0]) then 0 else 1 + TokenLength(s[1..])
  }

  /** The blank-separated tokens of a line, as LineScanner::get_text hands
      them out one by one. */
  function Tokens(s: string): (ts: seq<string>)
    ensures forall i :: 0 <= i < |ts| ==> |ts[i]| > 0
    decreases |s|
  {
    if |s| == 0 then []
    else if IsSeparator(s[0]) then Tokens(s[1..])
    else
      var n := TokenLength(s);
      [s[..n]] + Tokens(s[n..])
  }

  /** get_text: the i-th token, or "" once the line is used up. */
  function TextField(ts: seq<string>, i: nat): string {
    if i < |ts| then ts[i] else ""
  }

  /** get_number(default): the i-th token read as a number, or the default
      once the line is used up. */
  function NumberField(ts: seq<string>, i: nat, default: int): int {
    if i < |ts| then ParseInt(ts[i], default) else default
  }

  /** The move of a move field: "none" and "resign" are no move. */
  function MoveField(s: string): (mv: Move16)
    ensures UsiWritable(mv)
  {
    if s == "none" || s == "resign" then MoveNone else UsiToMove(s)
  }

  /** BookMove::from_string: move and ponder, then the optional value,
      depth, num, win and lose with the defaults 0, 0, 1, 0, 0. */
  function FromString(line: string): (b: BookMove)
    ensures UsiWritable(b.move) && UsiWritable(b.ponder)
    ensures -0x8000_0000 <= b.value < 0x8000_0000 && -0x8000_0000 <= b.depth < 0x8000_0000
    ensures b.num < U64Span && b.win < U64Span && b.lose < U64Span
  {
    var ts := Tokens(line);
    BookMove(
      MoveField(TextField(ts, 0)),
      MoveField(TextField(ts, 1)),
      ToInt32(NumberField(ts, 2, 0)),
      ToInt32(NumberField(ts, 3, 0)),
      ToU64(NumberField(ts, 4, 1)),
      ToU64(NumberField(ts, 5, 0)),
      ToU64(NumberField(ts, 6, 0)))
  }

  /** A line with only a move and a ponder gets value 0, depth 0, num 1,
      win 0 and lose 0; one that is blank gets no move at all. */
  lemma FromStringDefaults(line: string)
    requires |Tokens(line)| <= 2
    ensures var b := FromString(line);
      b.value == 0 && b.depth == 0 && b.num == 1 && b.win == 0 && b.lose == 0
    ensures Tokens(line) == [] ==> FromString(line).move == MoveNone && FromString(line).ponder == MoveNone
  {
    assert UsiToMove("") == MoveNone;
  }

  /** Fields joined by single blanks. */
  function JoinFields(fs: seq<string>): string
    requires |fs| > 0
  {
    if |fs| == 1 then fs[0] else fs[0] + " " + JoinFields(fs[1..])
  }

  predicate IsField(f: string) {
    |f| > 0 && forall i :: 0 <= i < |f| ==> !IsSeparator(f[i])
  }

  lemma TokenLengthOfField(f: string, rest: string)
    requires IsField(f)
    requires rest == [] || IsSeparator(rest[0])
    ensures TokenLength(f + rest) == |f|
  {
    if |f| > 1 {
      assert (f + rest)[1..] == f[1..] + rest;
      TokenLengthOfField(f[1..], rest);
    }
  }

  /** Splitting fields joined by blanks gives the fields back. */
  lemma {:induction false} TokensOfJoin(fs: seq<string>)
    requires |fs| > 0
    requires forall i :: 0 <= i < |fs| ==> IsField(fs[i])
    ensures Tokens(JoinFields(fs)) == fs
    decreases |fs|
  {
    var f := fs[0];
    if |fs| == 1 {
      TokenLengthOfField(f, []);
      assert f + [] == f;
      assert f[..|f|] == f && f[|f|..] == [];
    } else {
      var rest := " " + JoinFields(fs[1..]);
      var s := JoinFields(fs);
      assert s == f + rest;
      TokenLengthOfField(f, rest);
      assert s[..|f|] == f;
      assert s[|f|..] == rest;
      assert rest[1..] == JoinFields(fs[1..]);
      TokensOfJoin(fs[1..]);
      assert fs == [f] + fs[1..];
    }
  }

  /** The records a line can carry without loss. */
  predicate Writable(b: BookMove) {
    && UsiWritable(b.move) && UsiWritable(b.ponder)
    && -0x8000_0000 <= b.value < 0x8000_0000 && -0x8000_0000 <= b.depth < 0x8000_0000
    && b.num < U64Span && b.win < U64Span && b.lose < U64Span
  }

  /** The seven fields write_book emits for a record. */
  function Fields(b: BookMove): (fs: seq<string>)
    requires UsiWritable(b.move) && UsiWritable(b.ponder)
    ensures |fs| == 7
  {
    [MoveToUsi(b.move), MoveToUsi(b.ponder), IntToString(b.value), IntToString(b.depth),
     NatToString(b.num), NatToString(b.win), NatToString(b.lose)]
  }

  /** The record line of write_book. */
  function Format(b: BookMove): string
    requires UsiWritable(b.move) && UsiWritable(b.ponder)
  {
    JoinFields(Fields(b))
  }

  /** Fields joined by blanks start with the first field's first
      character, end with the last field's last character, and hold a line
      break only where a field does. */
  lemma {:induction false} JoinFieldsShape(fs: seq<string>)
    requires |fs| > 0 && forall i :: 0 <= i < |fs| ==> |fs[i]| > 0
    ensures var s := JoinFields(fs); var l := fs[|fs| - 1];
      && |s| > 0 && s[0] == fs[0][0] && s[|s| - 1] == l[|l| - 1]
      && ((forall i, j :: 0 <= i < |fs| && 0 <= j < |fs[i]| ==> fs[i][j] != '\n') ==>
            forall j :: 0 <= j < |s| ==> s[j] != '\n')
  {
    if |fs| > 1 {
      JoinFieldsShape(fs[1..]);
      var s := JoinFields(fs);
      var rest := JoinFields(fs[1..]);
      assert s == fs[0] + " " + rest;
      if forall i, j :: 0 <= i < |fs| && 0 <= j < |fs[i]| ==> fs[i][j] != '\n' {
        assert forall i, j :: 0 <= i < |fs[1..]| && 0 <= j < |fs[1..][i]| ==> fs[1..][i][j] != '\n' by {
          forall i, j | 0 <= i < |fs[1..]| && 0 <= j < |fs[1..][i]| ensures fs[1..][i][j] != '\n' {
            assert fs[1..][i] == fs[i + 1];
          }
        }
        forall j | 0 <= j < |s| ensures s[j] != '\n' {
          if j < |fs[0]| {
            assert s[j] == fs[0][j];
          } else if j > |fs[0]| {
            assert s[j] == rest[j - |fs[0]| - 1];
          }
        }
      }
    }
  }

  /** A record line starts with the text of the move, ends with a digit and
      holds no line break. */
  lemma FormatShape(b: BookMove)
    requires UsiWritable(b.move) && UsiWritable(b.ponder)
    ensures var s := Format(b);
      && |s| > 0 && s[0] == MoveToUsi(b.move)[0] && IsDigit(s[|s| - 1])
      && forall j :: 0 <= j < |s| ==> s[j] != '\n'
  {
    var fs := Fields(b);
    var n: nat := if b.value < 0 then -b.value else b.value;
    var d: nat := if b.depth < 0 then -b.depth else b.depth;
    assert forall j :: 0 <= j < |NatToString(n)| ==> IsDigit(NatToString(n)[j]);
    assert forall j :: 0 <= j < |NatToString(d)| ==> IsDigit(NatToString(d)[j]);
    UsiShape(b.move);
    UsiShape(b.ponder);
    assert forall i, j :: 0 <= i < |fs| && 0 <= j < |fs[i]| ==> fs[i][j] != '\n';
    JoinFieldsShape(fs);
  }

  lemma IntFieldIsField(x: int)
    ensures IsField(IntToString(x))
  {
    var n: nat := if x < 0 then -x else x;
    var r := NatToString(n);
    assert forall i :: 0 <= i < |r| ==> !IsSeparator(r[i]);
  }

  lemma MoveFieldRoundTrip(m: Move16)
    requires UsiWritable(m)
    ensures MoveField(MoveToUsi(m)) == m
  {
    UsiRoundTrip(m);
  }

  lemma NatToStringRoundTrip(n: nat, default: int)
    ensures ParseInt(NatToString(n), default) == n
  {
    IntToStringRoundTrip(n, default);
  }

  /** A record line has seven fields, and reading it back with from_string
      gives the record back. */
  lemma FormatRoundTrip(b: BookMove)
    requires Writable(b)
    ensures |Tokens(Format(b))| == 7
    ensures FromString(Format(b)) == b
  {
    var fs := Fields(b);
    IntFieldIsField(b.value);
    IntFieldIsField(b.depth);
    IntFieldIsField(b.num);
    IntFieldIsField(b.win);
    IntFieldIsField(b.lose);
    TokensOfJoin(fs);
    MoveFieldRoundTrip(b.move);
    MoveFieldRoundTrip(b.ponder);
    IntToStringRoundTrip(b.value, 0);
    IntToStringRoundTrip(b.depth, 0);
    NatToStringRoundTrip(b.num, 1);
    NatToStringRoundTrip(b.win, 0);
    NatToStringRoundTrip(b.lose, 0);
    FromStringOfTokens(Format(b), fs);
  }

  lemma FromStringOfTokens(line: string, fs: seq<string>)
    requires Tokens(line) == fs && |fs| == 7
    ensures FromString(line) == BookMove(MoveField(fs[0]), MoveField(fs[1]),
      ToInt32(ParseInt(fs[2], 0)), ToInt32(ParseInt(fs[3], 0)),
      ToU64(ParseInt(fs[4], 1)), ToU64(ParseInt(fs[5], 0)), ToU64(ParseInt(fs[6], 0)))
  {
  }
}
