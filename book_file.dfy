/** A book file as the text it holds: its lines, the "sfen" header lines
    that open the block of each position, and the reference lookup that
    the on-the-fly search of MemoryBook::find (book.cpp:1225-1357) must
    agree with. Offsets count characters from the start of the file. */
module BookFile {
  import opened BookTypes
  import opened Text

  /** Offset of the '\n' that ends the line through p, or the file size
      when the last line has none. */
  function LineEnd(f: string, p: nat): (r: nat)
    requires p <= |f|
    ensures p <= r <= |f|
    ensures r < |f| ==> f[r] == '\n'
    ensures forall i :: p <= i < r ==> f[i] != '\n'
    decreases |f| - p
  {
    if p == |f| || f[p] == '\n' then p else LineEnd(f, p + 1)
  }

  /** Offset just past the line through p: where the next getline starts. */
  function NextLine(f: string, p: nat): (r: nat)
    requires p < |f|
    ensures p < r <= |f|
  {
    var r := LineEnd(f, p);
    if r < |f| then r + 1 else |f|
  }

  /** The text getline reads from p: up to, not including, the '\n'. */
  function LineAt(f: string, p: nat): string
    requires p <= |f|
  {
    f[p..LineEnd(f, p)]
  }

  predicate LineStart(f: string, p: nat) {
    p < |f| && (p == 0 || f[p - 1] == '\n')
  }

  /** The header test of next_sfen: the line begins with "sfen". */
  predicate IsHeader(line: string) {
    StartsWith(line, "sfen")
  }

  /** The key next_sfen reads off a header line: the text after "sfen ",
      in MemoryBook::trim's normal form. */
  function HeaderKey(line: string, ignorePly: bool): string {
    TrimKey(Drop(line, 5), ignorePly)
  }

  /** The lines both readers of the book skip: version lines, which start
      with '#', and comments, which start with "//". */
  predicate IsComment(line: string) {
    StartsWith(line, "#") || StartsWith(line, "//")
  }

  predicate HeaderAt(f: string, p: nat) {
    LineStart(f, p) && IsHeader(LineAt(f, p))
  }

  function KeyAt(f: string, p: nat, ignorePly: bool): string
    requires p <= |f|
  {
    HeaderKey(LineAt(f, p), ignorePly)
  }

  /** Start of the first header line at or after the line starting at p. */
  function FirstHeader(f: string, p: nat): (r: Option<nat>)
    requires p <= |f|
    ensures r.Some? ==> p <= r.value < |f| && IsHeader(LineAt(f, r.value))
    decreases |f| - p
  {
    if p == |f| then None
    else if IsHeader(LineAt(f, p)) then Some(p)
    else FirstHeader(f, NextLine(f, p))
  }

  /** The header keys grow strictly in file order. */
  ghost predicate SortedHeaders(f: string, ignorePly: bool) {
    forall h, t :: HeaderAt(f, h) && HeaderAt(f, t) && h < t ==> Less(KeyAt(f, h, ignorePly), KeyAt(f, t, ignorePly))
  }

  /** The layout the binary search of the on-the-fly lookup relies on: the
      first line is not a header; header lines are at least 40 characters
      long and carry non-empty keys, in strictly ascending order of the keys
      as compared (trimmed when the ply is ignored). */
  ghost predicate SearchableBook(f: string, ignorePly: bool) {
    LongHeaders(f, ignorePly) && SortedHeaders(f, ignorePly)
  }

  /** The first line is not a header, and every header line is at least
      40 characters long and carries a non-empty key. */
  ghost predicate LongHeaders(f: string, ignorePly: bool) {
    && !HeaderAt(f, 0)
    && forall p: nat :: HeaderAt(f, p) ==> LineEnd(f, p) >= p + 40 && KeyAt(f, p, ignorePly) != ""
  }

  /** The reference lookup: a line-by-line scan from p for a header whose
      key is key, giving the offset just past it. */
  function LookupFrom(f: string, p: nat, key: string, ignorePly: bool): (r: Option<nat>)
    requires p <= |f|
    ensures r.Some? ==> r.value <= |f|
    decreases |f| - p
  {
    if p == |f| then None
    else if IsHeader(LineAt(f, p)) && KeyAt(f, p, ignorePly) == key then Some(NextLine(f, p))
    else LookupFrom(f, NextLine(f, p), key, ignorePly)
  }

  function Lookup(f: string, key: string, ignorePly: bool): (r: Option<nat>)
    ensures r.Some? ==> r.value <= |f|
  {
    LookupFrom(f, 0, key, ignorePly)
  }

  predicate NoNewline(s: string) {
    forall i :: 0 <= i < |s| ==> s[i] != '\n'
  }

  /** The lines getline reads one after another from the line starting at
      p (a final '\n' ends the last line, it does not start another). */
  function LinesFrom(f: string, p: nat): (ls: seq<string>)
    requires p <= |f|
    ensures forall i :: 0 <= i < |ls| ==> NoNewline(ls[i])
    decreases |f| - p
  {
    if p == |f| then [] else [LineAt(f, p)] + LinesFrom(f, NextLine(f, p))
  }

  /** The lines of a text file. */
  function Lines(f: string): seq<string> {
    LinesFrom(f, 0)
  }

  /** The text of lines each ended by a newline, as endl writes them. */
  function Unlines(ls: seq<string>): string {
    if ls == [] then [] else ls[0] + "\n" + Unlines(ls[1..])
  }

  // ---------------------------------------------------------------------
  // Lines
  // ---------------------------------------------------------------------

  /** LineEnd is the first '\n' from p on, or the end of the file. */
  lemma LineEndIs(f: string, p: nat, q: nat)
    requires p <= q <= |f| && (q < |f| ==> f[q] == '\n')
    requires forall i :: p <= i < q ==> f[i] != '\n'
    ensures LineEnd(f, p) == q
  {
  }

  /** Text in front of a file moves its line ends along. */
  lemma LineEndShift(pre: string, f: string, p: nat)
    requires p <= |f|
    ensures LineEnd(pre + f, |pre| + p) == |pre| + LineEnd(f, p)
  {
    var r := LineEnd(f, p);
    var g := pre + f;
    forall i | |pre| + p <= i < |pre| + r ensures g[i] != '\n' {
      assert g[i] == f[i - |pre|];
    }
    LineEndIs(g, |pre| + p, |pre| + r);
  }

  /** Text ending with a newline in front of a file leaves its lines
      unchanged. */
  lemma {:induction false} LinesFromShift(pre: string, f: string, p: nat)
    requires p <= |f|
    ensures LinesFrom(pre + f, |pre| + p) == LinesFrom(f, p)
    decreases |f| - p
  {
    if p < |f| {
      var g := pre + f;
      LineEndShift(pre, f, p);
      assert LineAt(g, |pre| + p) == LineAt(f, p);
      LinesFromShift(pre, f, NextLine(f, p));
      assert NextLine(g, |pre| + p) == |pre| + NextLine(f, p);
    }
  }

  /** Reading back the lines written with a newline after each gives the
      lines back. */
  lemma {:induction false} LinesOfUnlines(ls: seq<string>)
    requires forall i :: 0 <= i < |ls| ==> NoNewline(ls[i])
    ensures Lines(Unlines(ls)) == ls
  {
    if ls != [] {
      var l := ls[0];
      var pre := l + "\n";
      var g := Unlines(ls);
      assert g == pre + Unlines(ls[1..]);
      LineEndIs(g, 0, |l|);
      assert LineAt(g, 0) == l;
      LinesOfUnlines(ls[1..]);
      LinesFromShift(pre, Unlines(ls[1..]), 0);
      assert ls == [l] + ls[1..];
    }
  }

  /** Writing the lines of a file that ends with a newline, each with a
      newline, gives the file back. */
  lemma {:induction false} UnlinesOfLinesFrom(f: string, p: nat)
    requires p <= |f| && (f == [] || f[|f| - 1] == '\n')
    ensures Unlines(LinesFrom(f, p)) == f[p..]
    decreases |f| - p
  {
    if p < |f| {
      var r := LineEnd(f, p);
      assert r < |f|;
      UnlinesOfLinesFrom(f, NextLine(f, p));
      assert f[p..] == f[p..r] + "\n" + f[r + 1..];
    }
  }

  lemma UnlinesOfLines(f: string)
    requires f == [] || f[|f| - 1] == '\n'
    ensures Unlines(Lines(f)) == f
  {
    UnlinesOfLinesFrom(f, 0);
  }

  /** No line starts inside the line through p. */
  lemma NoLineStartWithin(f: string, p: nat, q: nat)
    requires p < q && LineStart(f, q)
    ensures NextLine(f, p) <= q
  {
    assert f[q - 1] == '\n';
  }

  lemma NextLineStarts(f: string, p: nat)
    requires p < |f|
    ensures NextLine(f, p) == |f| || LineStart(f, NextLine(f, p))
  {
  }

  /** A header line of 40 characters or more keeps the next header at least
      41 characters away. */
  lemma HeadersApart(f: string, h: nat, t: nat)
    requires HeaderAt(f, h) && HeaderAt(f, t) && h < t && LineEnd(f, h) >= h + 40
    ensures t >= h + 41
  {
    NoLineStartWithin(f, h, t);
  }

  /** FirstHeader from a line start finds the first header line from there. */
  lemma {:induction false} FirstHeaderIsFirst(f: string, p: nat)
    requires p == |f| || LineStart(f, p)
    ensures FirstHeader(f, p).Some? ==> HeaderAt(f, FirstHeader(f, p).value)
    ensures forall q :: p <= q && HeaderAt(f, q) ==> FirstHeader(f, p).Some? && FirstHeader(f, p).value <= q
    decreases |f| - p
  {
    if p < |f| && !IsHeader(LineAt(f, p)) {
      var n := NextLine(f, p);
      NextLineStarts(f, p);
      FirstHeaderIsFirst(f, n);
      forall q | p <= q && HeaderAt(f, q) ensures n <= q {
        NoLineStartWithin(f, p, q);
      }
    }
  }

  /** The scan finds the position exactly when some header from p on
      carries its key. */
  lemma {:induction false} LookupFromFinds(f: string, p: nat, key: string, ignorePly: bool)
    requires p == |f| || LineStart(f, p)
    ensures LookupFrom(f, p, key, ignorePly).Some? <==>
      exists t :: p <= t && HeaderAt(f, t) && KeyAt(f, t, ignorePly) == key
    decreases |f| - p
  {
    if p < |f| {
      var n := NextLine(f, p);
      NextLineStarts(f, p);
      LookupFromFinds(f, n, key, ignorePly);
      forall q | p < q && HeaderAt(f, q) ensures n <= q {
        NoLineStartWithin(f, p, q);
      }
      if IsHeader(LineAt(f, p)) && KeyAt(f, p, ignorePly) == key {
        assert HeaderAt(f, p);
      }
    }
  }

  /** With sorted keys the scan answers with the one header carrying the
      key. */
  lemma {:induction false} LookupFromSorted(f: string, p: nat, key: string, ignorePly: bool)
    requires p == |f| || LineStart(f, p)
    requires SortedHeaders(f, ignorePly)
    ensures forall t :: p <= t && HeaderAt(f, t) && KeyAt(f, t, ignorePly) == key ==>
      LookupFrom(f, p, key, ignorePly) == Some(NextLine(f, t))
    decreases |f| - p
  {
    if p < |f| {
      var n := NextLine(f, p);
      NextLineStarts(f, p);
      LookupFromSorted(f, n, key, ignorePly);
      forall q | p < q && HeaderAt(f, q) ensures n <= q {
        NoLineStartWithin(f, p, q);
      }
      if IsHeader(LineAt(f, p)) && KeyAt(f, p, ignorePly) == key {
        assert HeaderAt(f, p);
        forall t | p < t && HeaderAt(f, t) && KeyAt(f, t, ignorePly) == key
          ensures false
        {
          LessIrreflexive(key);
        }
      }
    }
  }

  /** The reference lookup answers with the header carrying the key, and
      with nothing when no header does. */
  lemma LookupSpec(f: string, key: string, ignorePly: bool)
    ensures Lookup(f, key, ignorePly).Some? <==> exists t :: HeaderAt(f, t) && KeyAt(f, t, ignorePly) == key
    ensures forall t :: HeaderAt(f, t) && KeyAt(f, t, ignorePly) == key && SortedHeaders(f, ignorePly) ==>
      Lookup(f, key, ignorePly) == Some(NextLine(f, t))
  {
    LookupFromFinds(f, 0, key, ignorePly);
    if SortedHeaders(f, ignorePly) {
      LookupFromSorted(f, 0, key, ignorePly);
    }
  }
}
