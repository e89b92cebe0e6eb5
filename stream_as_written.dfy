/** The on-the-fly lookup of MemoryBook::find (book.cpp:1225-1357) with the
    file stream as the source drives it: std::getline, seekg and tellg
    with their failbit and eofbit. Two behaviours differ from what the
    code evidently intends, and the lemmas here exhibit both:
    - next_sfen never clears the stream, so once one probe reads past the
      last header the failbit stays set, every later seekg is refused and
      every later probe reads nothing: a position in the last block of the
      file can be reported missing;
    - the block is read with while (!fs.eof()), so in a file that ends
      with a newline the last block gets one more record, read from an
      empty line.
    The rest of the model uses the corrected readers of OnTheFly. */
module AsWritten {
  import opened BookTypes
  import opened Text
  import opened Record
  import opened BookFile
  import opened OnTheFly

  /** The ifstream: its read offset, failbit and eofbit. */
  datatype Stream = Stream(pos: nat, fail: bool, eof: bool)

  /** std::getline: refused (failbit set, nothing read) when the stream is
      not good; at the end of the file it reads nothing and sets eofbit and
      failbit; otherwise it reads up to the '\n', consumes it, and sets
      eofbit when the file ends first. */
  function GetLine(f: string, st: Stream): (string, Stream) {
    if st.fail || st.eof then ("", st.(fail := true))
    else if st.pos >= |f| then ("", Stream(st.pos, true, true))
    else
      var r := LineEnd(f, st.pos);
      if r < |f| then (f[st.pos..r], Stream(r + 1, false, false))
      else (f[st.pos..], Stream(|f|, false, true))
  }

  /** seekg: clears eofbit, then moves only when failbit is clear. */
  function SeekG(st: Stream, p: nat): Stream {
    if st.fail then st.(eof := false) else Stream(p, false, false)
  }

  /** current_pos() (tellg): -1, and failbit set, when the stream is not
      good. */
  function TellG(st: Stream): (int, Stream) {
    var bad := st.fail || st.eof;
    var p: int := if bad then -1 else st.pos;
    (p, st.(fail := bad || st.fail))
  }

  /** s64 division by 2, truncating toward zero. */
  function Half(x: int): int {
    if x >= 0 then x / 2 else -((-x) / 2)
  }

  /** What getline can still read from st. */
  function Left(f: string, st: Stream): nat {
    if st.fail || st.eof || st.pos >= |f| then 0 else |f| - st.pos
  }

  lemma GetLineAt(f: string, p: nat)
    requires p < |f|
    ensures GetLine(f, Stream(p, false, false)) == (LineAt(f, p), Stream(NextLine(f, p), false, LineEnd(f, p) == |f|))
  {
    assert f[p..|f|] == f[p..];
  }

  /** The while (getline(fs, line)) loop of next_sfen. */
  function ScanLines(f: string, st: Stream, ignorePly: bool): (r: (string, Stream))
    ensures st.fail ==> r.0 == "" && r.1.fail
    ensures r.0 != "" ==> !r.1.fail && r.1.pos >= st.pos + 6
    decreases Left(f, st)
  {
    var (line, st1) := GetLine(f, st);
    if st1.fail then ("", st1)
    else if IsHeader(line) then
      assert HeaderKey(line, ignorePly) != "" ==> |line| >= 6;
      (HeaderKey(line, ignorePly), st1)
    else ScanLines(f, st1, ignorePly)
  }

  /** next_sfen(from) on the stream as it is: seekg, drop a line, scan. */
  function ProbeStream(f: string, st: Stream, from: int, ignorePly: bool): (r: (string, Stream))
    ensures st.fail ==> r.0 == "" && r.1.fail
    ensures r.0 != "" ==> !r.1.fail && r.1.pos >= from + 5
  {
    var st1 := SeekG(st, if from - 2 > 0 then from - 2 else 0);
    ScanLines(f, GetLine(f, st1).1, ignorePly)
  }

  datatype Hit = Hit(at: Stream) | Miss

  /** One round of the binary search on [s, e) and the rounds after it:
      go left on "" or a greater key, right past a smaller key (s from
      tellg), stop on the key; below 40 characters, one last probe at s. */
  function SearchLoop(f: string, key: string, ignorePly: bool, s: int, e: int, st: Stream): Hit
    requires -1 <= s <= e
    decreases if st.fail then 0 else 1, e - s
  {
    var m := Half(s + e);
    var (k2, st1) := ProbeStream(f, st, m, ignorePly);
    if k2 != "" && !Less(key, k2) && !Less(k2, key) then Hit(st1)
    else
      var (s2, e2, st2) :=
        if k2 == "" || Less(key, k2) then (s, m, st1)
        else (TellG(st1).0, e, TellG(st1).1);
      if s2 + 40 > e2 then
        var (k3, st3) := ProbeStream(f, st2, s2, ignorePly);
        if k3 == key then Hit(st3) else Miss
      else SearchLoop(f, key, ignorePly, s2, e2, st2)
  }

  /** The search as written: the stream at the end of the file, cleared,
      then rounds from [0, size). */
  function SearchAsWritten(f: string, key: string, ignorePly: bool): Hit {
    SearchLoop(f, key, ignorePly, 0, |f|, Stream(|f|, false, false))
  }

  // ---------------------------------------------------------------------
  // The failbit that stays set
  // ---------------------------------------------------------------------

  /** From a good stream at a line start with no header from there on, the
      scan runs off the end and leaves failbit set. */
  lemma {:induction false} ScanPastLastHeader(f: string, p: nat, ignorePly: bool)
    requires p == |f| || LineStart(f, p)
    requires FirstHeader(f, p).None?
    ensures ScanLines(f, Stream(p, false, false), ignorePly).1.fail
    decreases |f| - p
  {
    if p < |f| {
      GetLineAt(f, p);
      var n := NextLine(f, p);
      if LineEnd(f, p) < |f| {
        NextLineStarts(f, p);
        ScanPastLastHeader(f, n, ignorePly);
      }
    }
  }

  /** A probe that meets no header leaves failbit set. */
  lemma ProbePastLastHeader(f: string, st: Stream, m: int, ignorePly: bool)
    requires HeaderFrom(f, m).None?
    ensures ProbeStream(f, st, m, ignorePly).1.fail
  {
    var a := if m - 2 > 0 then m - 2 else 0;
    if !st.fail && a < |f| {
      var n := NextLine(f, a);
      GetLineAt(f, a);
      if LineEnd(f, a) < |f| {
        NextLineStarts(f, a);
        ScanPastLastHeader(f, n, ignorePly);
      }
    }
  }

  /** Once failbit is set every probe reads "", so the search goes left
      until the range is small and then misses. */
  lemma {:induction false} StuckSearchMisses(f: string, key: string, ignorePly: bool, s: int, e: int, st: Stream)
    requires -1 <= s <= e && st.fail && key != ""
    ensures SearchLoop(f, key, ignorePly, s, e, st) == Miss
    decreases e - s
  {
    var m := Half(s + e);
    var st1 := ProbeStream(f, st, m, ignorePly).1;
    if s + 40 <= m {
      StuckSearchMisses(f, key, ignorePly, s, m, st1);
    }
  }

  /** The first finding: in a file with sorted headers of at least 40
      characters (SearchableBook) whose headers all lie in the first half of
      the file, every position in the book is found by the reference lookup,
      yet the search as written reports each of them missing: its first
      probe scans past the last header and the stream stays failed. The
      corrected search (OnTheFly.Search) finds them. */
  lemma StuckStreamMissesEveryKey(f: string, key: string, ignorePly: bool, t: nat)
    requires SearchableBook(f, ignorePly) && HeaderAt(f, t) && KeyAt(f, t, ignorePly) == key
    requires forall q: nat :: HeaderAt(f, q) ==> q + 1 < |f| / 2
    ensures Lookup(f, key, ignorePly) == Some(NextLine(f, t))
    ensures SearchAsWritten(f, key, ignorePly) == Miss
  {
    LookupSpec(f, key, ignorePly);
    var m := Half(0 + |f|);
    HeaderFromSpec(f, m);
    var st0 := Stream(|f|, false, false);
    ProbePastLastHeader(f, st0, m, ignorePly);
    var st1 := ProbeStream(f, st0, m, ignorePly).1;
    if 40 <= m {
      StuckSearchMisses(f, key, ignorePly, 0, m, st1);
    }
  }

  // ---------------------------------------------------------------------
  // The block read while !eof()
  // ---------------------------------------------------------------------

  /** The block reader as written: while (!fs.eof()) { getline(fs, line);
      ... }, an empty line read at the end of the file included. */
  function BlockAsWritten(f: string, st: Stream): seq<BookMove>
    requires st.pos <= |f| && (!st.fail || st.eof)
    decreases if st.eof then 0 else |f| - st.pos + 1
  {
    if st.eof then []
    else
      var (line, st1) := GetLine(f, st);
      if IsComment(line) then BlockAsWritten(f, st1)
      else if StartsWith(line, "sfen ") then []
      else [FromString(line)] + BlockAsWritten(f, st1)
  }

  /** No "sfen " line from p to the end of the file. */
  predicate RunsToEnd(f: string, p: nat)
    requires p <= |f|
    decreases |f| - p
  {
    p == |f| ||
    ((IsComment(LineAt(f, p)) || !StartsWith(LineAt(f, p), "sfen ")) && RunsToEnd(f, NextLine(f, p)))
  }

  /** The record the loop as written adds at the end of a block that runs
      to the end of a file ending with a newline. */
  function Extra(f: string, p: nat): seq<BookMove>
    requires p <= |f|
  {
    if RunsToEnd(f, p) && (p == |f| || f[|f| - 1] == '\n') then [FromString("")] else []
  }

  /** One line of the loop as written. */
  lemma BlockAsWrittenStep(f: string, p: nat)
    requires p < |f|
    ensures var line := LineAt(f, p);
      var rest := BlockAsWritten(f, Stream(NextLine(f, p), false, LineEnd(f, p) == |f|));
      BlockAsWritten(f, Stream(p, false, false)) ==
        if IsComment(line) then rest else if StartsWith(line, "sfen ") then [] else [FromString(line)] + rest
  {
    GetLineAt(f, p);
  }

  lemma ExtraStep(f: string, p: nat)
    requires p < |f| && LineEnd(f, p) < |f|
    ensures var line := LineAt(f, p);
      Extra(f, p) == if IsComment(line) || !StartsWith(line, "sfen ") then Extra(f, NextLine(f, p)) else []
  {
    var line := LineAt(f, p);
    assert RunsToEnd(f, p) == ((IsComment(line) || !StartsWith(line, "sfen ")) && RunsToEnd(f, NextLine(f, p)));
  }

  /** The record read from the empty line: no move, no ponder, num 1. */
  lemma EmptyLineRecord()
    ensures FromString("") == BookMove(MoveNone, MoveNone, 0, 0, 1, 0, 0)
  {
    FromStringDefaults("");
  }

  /** The second finding: read from the line after its header, a block
      gets what the corrected reader gives plus, when it runs to the end of
      a file that ends with a newline, one more record read from the empty
      line getline returns at the end (EmptyLineRecord). */
  lemma {:induction false} EofLoopAddsRecord(f: string, p: nat)
    requires p == |f| || LineStart(f, p)
    ensures BlockAsWritten(f, Stream(p, false, false)) == BlockRecords(f, p) + Extra(f, p)
    decreases |f| - p
  {
    if p < |f| {
      BlockAsWrittenStep(f, p);
      var n := NextLine(f, p);
      var line := LineAt(f, p);
      if LineEnd(f, p) < |f| {
        NextLineStarts(f, p);
        EofLoopAddsRecord(f, n);
        ExtraStep(f, p);
        if !IsComment(line) && !StartsWith(line, "sfen ") {
          assert [FromString(line)] + (BlockRecords(f, n) + Extra(f, n)) == ([FromString(line)] + BlockRecords(f, n)) + Extra(f, n);
        }
      } else {
        assert f[|f| - 1] != '\n';
        assert n == |f| && BlockRecords(f, n) == [] && Extra(f, p) == [];
      }
    }
  }
}
