/** The on-the-fly lookup of MemoryBook::find (book.cpp:1225-1357): a
    binary search over the offsets of the book file for the header line of
    a position, then the reading of the record lines below it. Every probe
    starts from a cleared stream, and the block is read while getline
    succeeds (see the findings on the stream as the source leaves it). */
module OnTheFly {
  import opened BookTypes
  import opened Text
  import opened Record
  import opened BookFile

  /** The first header line a probe at from can meet: next_sfen seeks two
      characters back (not before 0) and drops the rest of that line. */
  function HeaderFrom(f: string, from: int): Option<nat> {
    var a := if from - 2 > 0 then from - 2 else 0;
    if a >= |f| then None else FirstHeader(f, NextLine(f, a))
  }

  /** next_sfen(from): the key of that header line and the offset just past
      it, or "" when no header follows. */
  function Probe(f: string, from: int, ignorePly: bool): (string, nat) {
    match HeaderFrom(f, from)
    case None => ("", |f|)
    case Some(h) => (KeyAt(f, h, ignorePly), NextLine(f, h))
  }

  /** What a probe meets is a header line starting at from - 1 or later. */
  lemma HeaderFromIsHeader(f: string, from: int)
    ensures HeaderFrom(f, from).Some? ==> HeaderAt(f, HeaderFrom(f, from).value) && from - 1 <= HeaderFrom(f, from).value
  {
    var a := if from - 2 > 0 then from - 2 else 0;
    if a < |f| {
      NextLineStarts(f, a);
      FirstHeaderIsFirst(f, NextLine(f, a));
    }
  }

  /** A probe at from meets the first header line starting at from - 1 or
      later (the version line being no header). */
  lemma HeaderFromSpec(f: string, from: int)
    requires !HeaderAt(f, 0)
    ensures HeaderFrom(f, from).Some? ==> HeaderAt(f, HeaderFrom(f, from).value) && from - 1 <= HeaderFrom(f, from).value
    ensures forall q :: from - 1 <= q && HeaderAt(f, q) ==> HeaderFrom(f, from).Some? && HeaderFrom(f, from).value <= q
  {
    var a := if from - 2 > 0 then from - 2 else 0;
    if a < |f| {
      var n := NextLine(f, a);
      NextLineStarts(f, a);
      FirstHeaderIsFirst(f, n);
      forall q | from - 1 <= q && HeaderAt(f, q) ensures n <= q {
        NoLineStartWithin(f, a, q);
      }
    }
  }

  /** next_sfen: seeks, drops a line, then reads lines until one begins
      with "sfen". */
  method NextSfen(f: string, from: int, ignorePly: bool) returns (key: string, after: nat)
    ensures (key, after) == Probe(f, from, ignorePly)
    ensures after <= |f|
  {
    var a := if from - 2 > 0 then from - 2 else 0;
    if a >= |f| {
      return "", |f|;
    }
    var p := NextLine(f, a);
    while p < |f|
      invariant p <= |f|
      invariant FirstHeader(f, p) == FirstHeader(f, NextLine(f, a))
      decreases |f| - p
    {
      var line := LineAt(f, p);
      if IsHeader(line) {
        return HeaderKey(line, ignorePly), NextLine(f, p);
      }
      p := NextLine(f, p);
    }
    return "", |f|;
  }

  // ---------------------------------------------------------------------
  // The binary search
  // ---------------------------------------------------------------------

  /** Going left keeps the wanted header t in range: the probe met no
      header, or one whose key is greater or empty, so t lies before m - 1. */
  lemma StepLeft(f: string, key: string, ignorePly: bool, m: int, t: nat)
    requires SearchableBook(f, ignorePly) && HeaderAt(f, t) && KeyAt(f, t, ignorePly) == key
    requires var k2 := Probe(f, m, ignorePly).0; k2 == "" || Less(key, k2)
    ensures t + 2 <= m
  {
    if m - 1 <= t {
      HeaderFromBefore(f, m, t);
      var h := HeaderFrom(f, m).value;
      assert KeyAt(f, h, ignorePly) != "";
      if h < t {
        assert Less(KeyAt(f, h, ignorePly), key);
        LessAsymmetric(key, KeyAt(f, h, ignorePly));
      } else {
        LessIrreflexive(key);
      }
    }
  }

  /** Going right keeps t in range: the probe met a header with a smaller
      key, which lies before t, so the next line is not past t. */
  lemma StepRight(f: string, key: string, ignorePly: bool, m: int, t: nat)
    requires !HeaderAt(f, 0) && SortedHeaders(f, ignorePly) && HeaderAt(f, t) && KeyAt(f, t, ignorePly) == key
    requires HeaderFrom(f, m).Some? && Less(Probe(f, m, ignorePly).0, key)
    ensures Probe(f, m, ignorePly).1 <= t
  {
    HeaderFromSpec(f, m);
    var h := HeaderFrom(f, m).value;
    if h == t {
      LessIrreflexive(key);
    } else if t < h {
      LessAsymmetric(key, KeyAt(f, h, ignorePly));
    } else {
      NoLineStartWithin(f, h, t);
    }
  }

  /** Once fewer than 40 characters separate s from e, the first header
      from s - 1 on is t: a header line is longer than that. */
  lemma LastProbe(f: string, key: string, ignorePly: bool, s: int, e: int, t: nat)
    requires LongHeaders(f, ignorePly) && HeaderAt(f, t) && KeyAt(f, t, ignorePly) == key
    requires s <= t && t + 2 <= e && s + 40 > e
    ensures Probe(f, s, ignorePly) == (key, NextLine(f, t))
  {
    LastHeaderFrom(f, ignorePly, s, e, t);
  }

  /** The header met from s is t itself. */
  lemma LastHeaderFrom(f: string, ignorePly: bool, s: int, e: int, t: nat)
    requires LongHeaders(f, ignorePly) && HeaderAt(f, t)
    requires s <= t && t + 2 <= e && s + 40 > e
    ensures HeaderFrom(f, s) == Some(t)
  {
    HeaderFromBefore(f, s, t);
    var h := HeaderFrom(f, s).value;
    if h != t {
      assert false;
    }
  }

  /** A probe from "from" meets a header no later than any header q at
      from - 1 or after. */
  lemma HeaderFromBefore(f: string, from: int, q: nat)
    requires !HeaderAt(f, 0) && from - 1 <= q && HeaderAt(f, q)
    ensures HeaderFrom(f, from).Some? && HeaderAt(f, HeaderFrom(f, from).value)
    ensures from - 1 <= HeaderFrom(f, from).value <= q
  {
    HeaderFromSpec(f, from);
  }

  /** A probe that meets a header moves past m: a header line holds at
      least "sfen". */
  lemma ProbeAdvances(f: string, m: int, ignorePly: bool)
    requires HeaderFrom(f, m).Some?
    ensures Probe(f, m, ignorePly).1 >= m + 3
  {
    HeaderFromIsHeader(f, m);
    var h := HeaderFrom(f, m).value;
    assert |LineAt(f, h)| >= 4;
  }

  /** A probe that reads key off a header line answers with that header. */
  lemma Found(f: string, key: string, ignorePly: bool, m: int)
    requires Probe(f, m, ignorePly).0 == key != ""
    ensures exists t :: HeaderAt(f, t) && KeyAt(f, t, ignorePly) == key && Probe(f, m, ignorePly).1 == NextLine(f, t)
  {
    HeaderFromIsHeader(f, m);
    var h := HeaderFrom(f, m).value;
    assert HeaderAt(f, h) && KeyAt(f, h, ignorePly) == key;
  }

  /** The search of find(pos) over the book file: halves [s, e) by
      probing the middle, goes left when the probe meets no header or a
      greater key, right past a smaller one, and once the range is under
      40 characters looks at the first header from s. Its answer is the
      offset just past the header of key. On a file with sorted headers of
      at least 40 characters (SearchableBook) it is the reference
      line-by-line lookup. */
  method Search(f: string, key: string, ignorePly: bool) returns (r: Option<nat>)
    ensures r.Some? ==> r.value <= |f|
    ensures key != "" && r.Some? ==>
      exists t :: HeaderAt(f, t) && KeyAt(f, t, ignorePly) == key && r.value == NextLine(f, t)
    ensures SearchableBook(f, ignorePly) && key != "" ==> r == Lookup(f, key, ignorePly)
  {
    ghost var good := SearchableBook(f, ignorePly) && key != "" &&
      exists t :: HeaderAt(f, t) && KeyAt(f, t, ignorePly) == key;
    ghost var t: nat := 0;
    if good {
      t :| HeaderAt(f, t) && KeyAt(f, t, ignorePly) == key;
    }
    LookupSpec(f, key, ignorePly);
    var s, e := 0, |f|;
    while true
      invariant 0 <= s <= e <= |f|
      invariant good ==> s <= t && t + 2 <= e
      decreases e - s
    {
      var m := (s + e) / 2;
      var k2, after := NextSfen(f, m, ignorePly);
      if k2 == "" || Less(key, k2) {
        if good {
          StepLeft(f, key, ignorePly, m, t);
        }
        e := m;
      } else if Less(k2, key) {
        if good {
          StepRight(f, key, ignorePly, m, t);
        }
        ProbeAdvances(f, m, ignorePly);
        s := after;
      } else {
        LessTrichotomy(key, k2);
        Found(f, key, ignorePly, m);
        return Some(after);
      }
      if s + 40 > e {
        if good {
          LastProbe(f, key, ignorePly, s, e, t);
        }
        var k3, after3 := NextSfen(f, s, ignorePly);
        if k3 == key {
          if key != "" {
            Found(f, key, ignorePly, s);
          }
          return Some(after3);
        }
        return None;
      }
    }
  }

  // ---------------------------------------------------------------------
  // The block of a position
  // ---------------------------------------------------------------------

  /** The records of the block from the line starting at p: every line up
      to the next "sfen " line or the end of the file, comments skipped,
      each read with from_string. */
  function BlockRecords(f: string, p: nat): seq<BookMove>
    requires p <= |f|
    decreases |f| - p
  {
    if p == |f| then []
    else
      var line := LineAt(f, p);
      if IsComment(line) then BlockRecords(f, NextLine(f, p))
      else if StartsWith(line, "sfen ") then []
      else [FromString(line)] + BlockRecords(f, NextLine(f, p))
  }

  /** The reading of the block once the header is found: push_back of
      each record line while getline succeeds. */
  method ReadBlock(f: string, p: nat) returns (ms: seq<BookMove>)
    requires p <= |f|
    ensures ms == BlockRecords(f, p)
  {
    ms := [];
    var q := p;
    while q < |f|
      invariant q <= |f|
      invariant BlockRecords(f, p) == ms + BlockRecords(f, q)
      decreases |f| - q
    {
      var line := LineAt(f, q);
      if !IsComment(line) {
        if StartsWith(line, "sfen ") {
          assert ms + [] == ms;
          return;
        }
        var b := FromString(line);
        assert BlockRecords(f, q) == [b] + BlockRecords(f, NextLine(f, q));
        assert ms + ([b] + BlockRecords(f, NextLine(f, q))) == (ms + [b]) + BlockRecords(f, NextLine(f, q));
        ms := ms + [b];
      }
      q := NextLine(f, q);
    }
    assert ms + [] == ms;
  }
}
