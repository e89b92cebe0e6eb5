/** String helpers the book relies on: std::string ordering, the trimming of
    position keys and the number parsing of book lines. The StringExtension
    and LineScanner helpers of the engine are not part of this model; they
    are given the simple definitions below. */
module Text {

  /** std::string operator< : lexicographic by character code, a proper
      prefix ordered first. */
  predicate Less(a: string, b: string)
    decreases |a|
  {
    if |b| == 0 then false
    else if |a| == 0 then true
    else if a[0] != b[0] then a[0] < b[0]
    else Less(a[1..], b[1..])
  }

  lemma {:induction false} LessIrreflexive(a: string)
    ensures !Less(a, a)
  {
    if |a| > 0 {
      LessIrreflexive(a[1..]);
    }
  }

  lemma {:induction false} LessAsymmetric(a: string, b: string)
    ensures Less(a, b) ==> !Less(b, a)
    decreases |a|
  {
    if |a| > 0 && |b| > 0 && a[0] == b[0] {
      LessAsymmetric(a[1..], b[1..]);
    }
  }

  lemma {:induction false} LessTransitive(a: string, b: string, c: string)
    requires Less(a, b) && Less(b, c)
    ensures Less(a, c)
    decreases |a|
  {
    if |a| > 0 && a[0] == b[0] && b[0] == c[0] {
      LessTransitive(a[1..], b[1..], c[1..]);
    }
  }

  lemma {:induction false} LessTrichotomy(a: string, b: string)
    ensures a == b || Less(a, b) || Less(b, a)
    decreases |a|
  {
    if |a| > 0 && |b| > 0 && a[0] == b[0] {
      LessTrichotomy(a[1..], b[1..]);
      if a[1..] == b[1..] {
        assert a == [a[0]] + a[1..] && b == [b[0]] + b[1..];
      }
    }
  }

  predicate IsSpace(c: char) {
    c == ' ' || c == '\t' || c == '\r' || c == '\n'
  }

  predicate IsDigit(c: char) {
    '0' <= c <= '9'
  }

  /** StringExtension::trim: drops trailing white space. */
  function TrimRight(s: string): (r: string)
    ensures |r| <= |s| && r == s[..|r|]
    ensures r == [] || !IsSpace(r[|r| - 1])
    ensures forall i :: |r| <= i < |s| ==> IsSpace(s[i])
  {
    if |s| > 0 && IsSpace(s[|s| - 1]) then TrimRight(s[..|s| - 1]) else s
  }

  /** StringExtension::trim_number: drops trailing white space and digits,
      which removes the ply written at the end of a position key. */
  function TrimNumber(s: string): (r: string)
    ensures |r| <= |s| && r == s[..|r|]
    ensures r == [] || !(IsSpace(r[|r| - 1]) || IsDigit(r[|r| - 1]))
    ensures forall i :: |r| <= i < |s| ==> IsSpace(s[i]) || IsDigit(s[i])
  {
    if |s| > 0 && (IsSpace(s[|s| - 1]) || IsDigit(s[|s| - 1])) then TrimNumber(s[..|s| - 1]) else s
  }

  lemma TrimRightIdempotent(s: string)
    ensures TrimRight(TrimRight(s)) == TrimRight(s)
  {
  }

  lemma TrimNumberIdempotent(s: string)
    ensures TrimNumber(TrimNumber(s)) == TrimNumber(s)
  {
  }

  /** A string is its own TrimRight exactly when it does not end with
      white space. */
  lemma TrimRightFixed(s: string)
    ensures TrimRight(s) == s <==> s == [] || !IsSpace(s[|s| - 1])
  {
  }

  /** Trailing white space appended to s is trimmed away again. */
  lemma {:induction false} TrimRightAppend(s: string, t: string)
    requires forall i :: 0 <= i < |t| ==> IsSpace(t[i])
    ensures TrimRight(s + t) == TrimRight(s)
    decreases |t|
  {
    if t != [] {
      var u := t[..|t| - 1];
      assert (s + t)[..|s + t| - 1] == s + u;
      TrimRightAppend(s, u);
    } else {
      assert s + t == s;
    }
  }

  /** A trailing ply (white space and digits) appended to s is trimmed away
      again. */
  lemma {:induction false} TrimNumberAppend(s: string, t: string)
    requires forall i :: 0 <= i < |t| ==> IsSpace(t[i]) || IsDigit(t[i])
    ensures TrimNumber(s + t) == TrimNumber(s)
    decreases |t|
  {
    if t != [] {
      var u := t[..|t| - 1];
      assert (s + t)[..|s + t| - 1] == s + u;
      TrimNumberAppend(s, u);
    } else {
      assert s + t == s;
    }
  }

  /** MemoryBook::trim, the normal form of a position key: trailing white
      space dropped, and with IgnoreBookPly the trailing ply as well. */
  function TrimKey(s: string, ignorePly: bool): string {
    if ignorePly then TrimNumber(s) else TrimRight(s)
  }

  /** True when s begins with p. */
  predicate StartsWith(s: string, p: string) {
    |p| <= |s| && s[..|p|] == p
  }

  /** std::string::substr(n) for the prefixes used here; a line shorter than
      n yields the empty string. */
  function Drop(s: string, n: nat): string {
    if n <= |s| then s[n..] else []
  }

  // ---------------------------------------------------------------------
  // Numbers
  // ---------------------------------------------------------------------

  function DigitValue(c: char): nat
    requires IsDigit(c)
  {
    (c as int - '0' as int) as nat
  }

  /** Number of leading decimal digits of s. */
  function DigitRun(s: string): (n: nat)
    ensures n <= |s|
    ensures forall i :: 0 <= i < n ==> IsDigit(s[i])
    ensures n < |s| ==> !IsDigit(s[n])
  {
    if |s| > 0 && IsDigit(s[0]) then 1 + DigitRun(s[1..]) else 0
  }

  /** Value of a string of decimal digits. */
  function DigitsValue(s: string): nat
    requires forall i :: 0 <= i < |s| ==> IsDigit(s[i])
  {
    if |s| == 0 then 0 else DigitsValue(s[..|s| - 1]) * 10 + DigitValue(s[|s| - 1])
  }

  /** Decimal reading of a field: leading white space skipped, an optional
      minus sign, then the leading digits (0 when there are none, as atoll
      does); an empty field gives the default. */
  function ParseInt(s: string, default: int): int {
    var t := SkipSpaces(s);
    if |t| == 0 then default
    else if t[0] == '-' then
      var d := t[1..][..DigitRun(t[1..])]; -(DigitsValue(d) as int)
    else
      var d := t[..DigitRun(t)]; DigitsValue(d)
  }

  function SkipSpaces(s: string): (r: string)
    ensures |r| <= |s| && r == s[|s| - |r|..]
    ensures r == [] || !IsSpace(r[0])
  {
    if |s| > 0 && IsSpace(s[0]) then SkipSpaces(s[1..]) else s
  }

  /** Decimal text of a natural number, most significant digit first. */
  function NatToString(n: nat): (r: string)
    ensures |r| > 0
    ensures forall i :: 0 <= i < |r| ==> IsDigit(r[i])
  {
    if n < 10 then [DigitChar(n)] else NatToString(n / 10) + [DigitChar(n % 10)]
  }

  function DigitChar(d: nat): (c: char)
    requires d < 10
    ensures IsDigit(c) && DigitValue(c) == d
  {
    ('0' as int + d) as char
  }

  /** Decimal text of an integer as operator<< writes it. */
  function IntToString(x: int): (r: string) {
    if x < 0 then "-" + NatToString(-x) else NatToString(x)
  }

  lemma {:induction false} NatToStringValue(n: nat)
    ensures DigitsValue(NatToString(n)) == n
  {
    if n >= 10 {
      NatToStringValue(n / 10);
      var r := NatToString(n);
      assert r[..|r| - 1] == NatToString(n / 10);
    }
  }

  lemma DigitRunAll(s: string)
    requires forall i :: 0 <= i < |s| ==> IsDigit(s[i])
    ensures DigitRun(s) == |s|
  {
  }

  /** Reading back what IntToString wrote gives the number back. */
  lemma IntToStringRoundTrip(x: int, default: int)
    ensures ParseInt(IntToString(x), default) == x
  {
    var n: nat := if x < 0 then -x else x;
    var r := NatToString(n);
    NatToStringValue(n);
    DigitRunAll(r);
    assert r[..DigitRun(r)] == r;
    if x < 0 {
      var t := "-" + r;
      assert SkipSpaces(t) == t;
      assert t[1..] == r;
    } else {
      assert SkipSpaces(r) == r;
    }
  }
}
