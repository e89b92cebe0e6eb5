/** The text of a book file as the resident book sees it: the line loop of
    read_book (book.cpp:968-1029), the lines write_book emits
    (book.cpp:1061-1163), and what reading the written lines gives back. */
module BookText {
  import opened BookTypes
  import opened Text
  import opened MoveCodec
  import opened Record
  import opened RecordSort
  import opened MoveList
  import opened KeyOrder
  import opened BookFile
  import opened BookBody

  // ---------------------------------------------------------------------
  // Reading
  // ---------------------------------------------------------------------

  /** What the line loop of read_book carries from one line to the next:
      the book read so far and the key of the current block ("" before the
      first header). */
  datatype Reading = Reading(body: Body, sfen: string)

  /** The key a "sfen " line opens: the rest of the line, without its ply
      under IgnoreBookPly. */
  function HeaderSfen(line: string, ignorePly: bool): string {
    if ignorePly then TrimNumber(Drop(line, 5)) else Drop(line, 5)
  }

  /** One pass of the loop. The reader hands out each line with trailing
      white space trimmed and skips empty lines; comment lines are skipped;
      a "sfen " line opens a block; a record line outside a block is
      skipped; any other line is read with from_string and inserted, with
      no overwrite, under the current key. */
  function ReadLine(st: Reading, raw: string, ignorePly: bool): Reading {
    var line := TrimRight(raw);
    if line == [] || IsComment(line) then st
    else if StartsWith(line, "sfen ") then Reading(st.body, HeaderSfen(line, ignorePly))
    else if st.sfen == [] then st
    else Reading(BodyInsert(st.body, st.sfen, FromString(line), false), st.sfen)
  }

  function ParseLines(ls: seq<string>, st: Reading, ignorePly: bool): Reading
    decreases |ls|
  {
    if ls == [] then st else ParseLines(ls[1..], ReadLine(st, ls[0], ignorePly), ignorePly)
  }

  /** The book read_book builds from the lines of a file. */
  function ParseBook(ls: seq<string>, ignorePly: bool): Body {
    ParseLines(ls, Reading(map[], ""), ignorePly).body
  }

  /** Keys in MemoryBook::trim's normal form, never empty. */
  predicate KeysNormal(b: Body, ignorePly: bool) {
    forall k :: k in b ==> k != [] && TrimKey(k, ignorePly) == k
  }

  /** Reading a + c is reading a, then c from where a left off. */
  lemma {:induction false} ParseAppend(a: seq<string>, c: seq<string>, st: Reading, ignorePly: bool)
    ensures ParseLines(a + c, st, ignorePly) == ParseLines(c, ParseLines(a, st, ignorePly), ignorePly)
    decreases |a|
  {
    if a != [] {
      assert (a + c)[1..] == a[1..] + c;
      ParseAppend(a[1..], c, ReadLine(st, a[0], ignorePly), ignorePly);
    } else {
      assert a + c == c;
    }
  }

  /** Comment lines and empty lines change nothing wherever they stand. */
  lemma ReadIgnoresComments(a: seq<string>, c: string, z: seq<string>, st: Reading, ignorePly: bool)
    requires TrimRight(c) == [] || IsComment(TrimRight(c))
    ensures ParseLines(a + [c] + z, st, ignorePly) == ParseLines(a + z, st, ignorePly)
  {
    ParseAppend(a + [c], z, st, ignorePly);
    ParseAppend(a, [c], st, ignorePly);
    ParseAppend(a, z, st, ignorePly);
  }

  /** Lines before the first "sfen " line add nothing to the book. */
  lemma {:induction false} ReadSkipsUntilHeader(pre: seq<string>, rest: seq<string>, b: Body, ignorePly: bool)
    requires forall i :: 0 <= i < |pre| ==> !StartsWith(TrimRight(pre[i]), "sfen ")
    ensures ParseLines(pre + rest, Reading(b, ""), ignorePly) == ParseLines(rest, Reading(b, ""), ignorePly)
    decreases |pre|
  {
    if pre != [] {
      assert ReadLine(Reading(b, ""), pre[0], ignorePly) == Reading(b, "");
      assert (pre + rest)[1..] == pre[1..] + rest;
      ReadSkipsUntilHeader(pre[1..], rest, b, ignorePly);
    } else {
      assert pre + rest == rest;
    }
  }

  /** The key a header line opens is in normal form. */
  lemma HeaderSfenNormal(raw: string, ignorePly: bool)
    requires StartsWith(TrimRight(raw), "sfen ")
    ensures var k := HeaderSfen(TrimRight(raw), ignorePly); TrimKey(k, ignorePly) == k
  {
    var line := TrimRight(raw);
    if ignorePly {
      TrimNumberIdempotent(Drop(line, 5));
    } else {
      TrimRightFixed(line);
      TrimRightFixed(Drop(line, 5));
    }
  }

  /** One line keeps the book well formed with normal keys. */
  lemma ReadLineKeepsNormal(st: Reading, raw: string, ignorePly: bool)
    requires WellFormed(st.body) && KeysNormal(st.body, ignorePly) && TrimKey(st.sfen, ignorePly) == st.sfen
    ensures var r := ReadLine(st, raw, ignorePly);
      WellFormed(r.body) && KeysNormal(r.body, ignorePly) && TrimKey(r.sfen, ignorePly) == r.sfen
  {
    var line := TrimRight(raw);
    if line != [] && !IsComment(line) {
      if StartsWith(line, "sfen ") {
        HeaderSfenNormal(raw, ignorePly);
      } else if st.sfen != [] {
        BodyInsertWellFormed(st.body, st.sfen, FromString(line), false);
        BodyInsertSpec(st.body, st.sfen, FromString(line), false);
      }
    }
  }

  lemma {:induction false} ParseKeepsNormal(ls: seq<string>, st: Reading, ignorePly: bool)
    requires WellFormed(st.body) && KeysNormal(st.body, ignorePly) && TrimKey(st.sfen, ignorePly) == st.sfen
    ensures var r := ParseLines(ls, st, ignorePly);
      WellFormed(r.body) && KeysNormal(r.body, ignorePly)
    decreases |ls|
  {
    if ls != [] {
      ReadLineKeepsNormal(st, ls[0], ignorePly);
      ParseKeepsNormal(ls[1..], ReadLine(st, ls[0], ignorePly), ignorePly);
    }
  }

  /** What read_book builds holds, under each key in normal form, a
      non-empty list with one record per move, so every stored position is
      found under its own key. */
  lemma ReadBookWellFormed(ls: seq<string>, ignorePly: bool)
    ensures WellFormed(ParseBook(ls, ignorePly)) && KeysNormal(ParseBook(ls, ignorePly), ignorePly)
  {
    ParseKeepsNormal(ls, Reading(map[], ""), ignorePly);
  }

  /** Every key of the book fits on one line. */
  predicate KeysOneLine(b: Body) {
    forall k :: k in b ==> NoNewline(k)
  }

  /** The key a header line opens is a piece of that line, so it has no
      newline when the line has none. */
  lemma HeaderSfenOneLine(raw: string, ignorePly: bool)
    requires NoNewline(raw)
    ensures NoNewline(HeaderSfen(TrimRight(raw), ignorePly))
  {
    var line := TrimRight(raw);
    var d := Drop(line, 5);
    var k := HeaderSfen(line, ignorePly);
    assert |k| <= |d| && k == d[..|k|];
    forall i | 0 <= i < |k| ensures k[i] != '\n' {
      assert k[i] == d[i] == raw[i + 5];
    }
  }

  /** Inserting a writable record under a one-line key keeps every record
      writable and every key on one line. */
  lemma BodyInsertWritable(b: Body, k: string, x: BookMove, overwrite: bool)
    requires BodyWritable(b) && KeysOneLine(b) && Writable(x) && NoNewline(k)
    ensures BodyWritable(BodyInsert(b, k, x, overwrite)) && KeysOneLine(BodyInsert(b, k, x, overwrite))
  {
    BodyInsertSpec(b, k, x, overwrite);
    if k in b {
      InsertKeepsWritable(b[k], x, overwrite);
    }
  }

  /** One line keeps every record writable and every key on one line. */
  lemma ReadLineWritable(st: Reading, raw: string, ignorePly: bool)
    requires BodyWritable(st.body) && KeysOneLine(st.body) && NoNewline(st.sfen) && NoNewline(raw)
    ensures var r := ReadLine(st, raw, ignorePly);
      BodyWritable(r.body) && KeysOneLine(r.body) && NoNewline(r.sfen)
  {
    var line := TrimRight(raw);
    if line != [] && !IsComment(line) {
      if StartsWith(line, "sfen ") {
        HeaderSfenOneLine(raw, ignorePly);
      } else if st.sfen != [] {
        BodyInsertWritable(st.body, st.sfen, FromString(line), false);
      }
    }
  }

  lemma {:induction false} ParseKeepsWritable(ls: seq<string>, st: Reading, ignorePly: bool)
    requires BodyWritable(st.body) && KeysOneLine(st.body) && NoNewline(st.sfen)
    requires forall i :: 0 <= i < |ls| ==> NoNewline(ls[i])
    ensures var r := ParseLines(ls, st, ignorePly);
      BodyWritable(r.body) && KeysOneLine(r.body)
    decreases |ls|
  {
    if ls != [] {
      ReadLineWritable(st, ls[0], ignorePly);
      ParseKeepsWritable(ls[1..], ReadLine(st, ls[0], ignorePly), ignorePly);
    }
  }

  /** What read_book builds from the lines of a file can be written back
      by write_book: every record has a USI move and ponder, a 32-bit value
      and depth and 64-bit counters, and no key holds a newline. */
  lemma ReadBookWritable(f: string, ignorePly: bool)
    ensures BodyWritable(ParseBook(Lines(f), ignorePly)) && KeysOneLine(ParseBook(Lines(f), ignorePly))
  {
    ParseKeepsWritable(Lines(f), Reading(map[], ""), ignorePly);
  }

  // ---------------------------------------------------------------------
  // Writing
  // ---------------------------------------------------------------------

  /** The version line write_book puts first. */
  const VersionLine: string := "#YANEURAOU-DB2016 1.00"

  /** The ply written at the end of a key: to_int of what trim_number
      removes, 0 when there is nothing to read. */
  function Ply(k: string): int {
    ParseInt(k[|TrimNumber(k)|..], 0)
  }

  /** The entries write_book emits: non-empty, and of the smallest ply
      among the non-empty entries that agree once the ply is removed. */
  ghost predicate Emitted(b: Body, k: string) {
    && k in b && b[k] != []
    && forall k2 :: k2 in b && b[k2] != [] && TrimNumber(k2) == TrimNumber(k) ==> Ply(k) <= Ply(k2)
  }

  ghost function EmittedKeys(b: Body): set<string> {
    set k | k in b && Emitted(b, k)
  }

  predicate AllWritable(l: seq<BookMove>) {
    forall x :: x in l ==> Writable(x)
  }

  predicate BodyWritable(b: Body) {
    forall k :: k in b ==> AllWritable(b[k])
  }

  lemma SortKeepsWritable(l: seq<BookMove>)
    requires AllWritable(l)
    ensures AllWritable(StableSort(l))
  {
    StableSortSortsPermutation(l);
    forall x | x in StableSort(l) ensures Writable(x) {
      assert x in multiset(StableSort(l));
    }
  }

  /** The record lines of a list, one per record, in list order. */
  function RecordLines(l: seq<BookMove>): (ls: seq<string>)
    requires AllWritable(l)
    ensures |ls| == |l|
  {
    if l == [] then []
    else
      assert l[|l| - 1] in l;
      assert forall x :: x in l[..|l| - 1] ==> x in l;
      RecordLines(l[..|l| - 1]) + [Format(l[|l| - 1])]
  }

  /** The block of one position: its header line, then its records. */
  function BlockLines(k: string, l: seq<BookMove>): seq<string>
    requires AllWritable(l)
  {
    ["sfen " + k] + RecordLines(l)
  }

  /** The blocks of the keys ks in that order, each list sorted. */
  function BlocksText(b: Body, ks: seq<string>): seq<string>
    requires BodyWritable(b) && forall i :: 0 <= i < |ks| ==> ks[i] in b
  {
    if ks == [] then []
    else
      var k := ks[|ks| - 1];
      SortKeepsWritable(b[k]);
      BlocksText(b, ks[..|ks| - 1]) + BlockLines(k, StableSort(b[k]))
  }

  /** The lines write_book emits for a book: the version line, then the
      blocks of the emitted entries in ascending key order. */
  ghost function WrittenLines(b: Body): seq<string>
    requires BodyWritable(b)
  {
    var ks := SortedKeys(EmittedKeys(b));
    SortedKeysSpec(EmittedKeys(b));
    assert forall i :: 0 <= i < |ks| ==> ks[i] in EmittedKeys(b);
    [VersionLine] + BlocksText(b, ks)
  }

  /** Every record line has seven fields and reads back as its record. */
  lemma RecordLinesRead(l: seq<BookMove>, i: nat)
    requires AllWritable(l) && i < |l|
    ensures |Tokens(RecordLines(l)[i])| == 7 && FromString(RecordLines(l)[i]) == l[i]
    decreases |l|
  {
    if i < |l| - 1 {
      RecordLinesRead(l[..|l| - 1], i);
    } else {
      FormatRoundTrip(l[i]);
    }
  }

  /** The layout of the written lines: the version line, then one block per
      emitted entry, in strictly ascending key order. */
  lemma WrittenLayout(b: Body)
    requires BodyWritable(b)
    ensures var ks := SortedKeys(EmittedKeys(b));
      && Ascending(ks)
      && (forall k :: k in ks <==> Emitted(b, k))
      && (forall i :: 0 <= i < |ks| ==> ks[i] in b)
      && WrittenLines(b) == [VersionLine] + BlocksText(b, ks)
  {
    var ks := SortedKeys(EmittedKeys(b));
    SortedKeysSpec(EmittedKeys(b));
    assert forall i :: 0 <= i < |ks| ==> ks[i] in EmittedKeys(b);
  }

  /** Among the non-empty entries that agree once the ply is removed, one
      is emitted, and every emitted one has the same ply. */
  lemma EmittedSpec(b: Body, k: string)
    requires k in b && b[k] != []
    ensures exists k2 :: Emitted(b, k2) && TrimNumber(k2) == TrimNumber(k)
    ensures forall k2 :: Emitted(b, k) && Emitted(b, k2) && TrimNumber(k2) == TrimNumber(k) ==> Ply(k2) == Ply(k)
  {
    var s := set k2 | k2 in b && b[k2] != [] && TrimNumber(k2) == TrimNumber(k);
    assert k in s;
    var m := MinPly(s);
    assert Emitted(b, m);
  }

  lemma MinPlyStep(s: set<string>, y: string, m: string)
    requires y in s && m in s - {y}
    requires forall x :: x in s - {y} ==> Ply(m) <= Ply(x)
    ensures var l := if Ply(y) < Ply(m) then y else m;
      forall x :: x in s ==> Ply(l) <= Ply(x)
  {
    forall x | x in s && x != y ensures Ply(m) <= Ply(x) {
      assert x in s - {y};
    }
  }

  /** A key of least ply in a non-empty set. */
  ghost function MinPly(s: set<string>): (m: string)
    requires s != {}
    ensures m in s && forall x :: x in s ==> Ply(m) <= Ply(x)
    decreases |s|
  {
    var y :| y in s;
    if s - {y} == {} then
      assert forall x :: x in s && x != y ==> x in s - {y};
      y
    else
      var m := MinPly(s - {y});
      MinPlyStep(s, y, m);
      if Ply(y) < Ply(m) then y else m
  }

  // ---------------------------------------------------------------------
  // Reading back what was written
  // ---------------------------------------------------------------------

  /** A key write_book can emit and read_book reads back as it is. */
  predicate KeyReadable(k: string, ignorePly: bool) {
    k != [] && TrimKey(k, ignorePly) == k
  }

  /** A header line opens the block of its key. */
  lemma HeaderLineRead(k: string, st: Reading, ignorePly: bool)
    requires KeyReadable(k, ignorePly)
    ensures ReadLine(st, "sfen " + k, ignorePly) == Reading(st.body, k)
  {
    var line := "sfen " + k;
    if ignorePly {
      assert !IsSpace(k[|k| - 1]);
    } else {
      TrimRightFixed(k);
    }
    TrimRightFixed(line);
    assert line[|line| - 1] == k[|k| - 1];
    assert TrimRight(line) == line;
    assert line[..5] == "sfen " && line[0] == 's';
    assert !IsComment(line);
    assert Drop(line, 5) == k;
    assert HeaderSfen(line, ignorePly) == k;
  }

  /** A record line is no empty line, no comment and no header. */
  lemma RecordLineShape(x: BookMove)
    requires Writable(x)
    ensures var s := Format(x);
      TrimRight(s) == s && s != [] && !IsComment(s) && !StartsWith(s, "sfen ")
  {
    var s := Format(x);
    FormatShape(x);
    UsiShape(x.move);
    TrimRightFixed(s);
    assert s[0] != '#' && s[0] != '/' && s[0] != 's';
  }

  /** A record line inside a block inserts its record. */
  lemma RecordLineRead(x: BookMove, st: Reading, ignorePly: bool)
    requires Writable(x) && st.sfen != []
    ensures ReadLine(st, Format(x), ignorePly) == Reading(BodyInsert(st.body, st.sfen, x, false), st.sfen)
  {
    RecordLineShape(x);
    FormatRoundTrip(x);
  }

  /** What a block already holds under k before its record lines. */
  function Held(st: Reading): seq<BookMove> {
    if st.sfen in st.body then st.body[st.sfen] else []
  }

  /** A record line whose move the block does not hold yet appends it. */
  lemma NewRecordRead(x: BookMove, st: Reading, ignorePly: bool)
    requires Writable(x) && st.sfen != []
    requires forall j :: 0 <= j < |Held(st)| ==> Held(st)[j].move != x.move
    ensures ReadLine(st, Format(x), ignorePly) == Reading(st.body[st.sfen := Held(st) + [x]], st.sfen)
  {
    RecordLineRead(x, st, ignorePly);
    InsertNewMove(st.body, st.sfen, x);
  }

  lemma InsertNewMove(b: Body, k: string, x: BookMove)
    requires forall j :: 0 <= j < |Held(Reading(b, k))| ==> Held(Reading(b, k))[j].move != x.move
    ensures BodyInsert(b, k, x, false) == b[k := Held(Reading(b, k)) + [x]]
  {
    if k in b {
      assert Held(Reading(b, k)) == b[k];
      assert FirstIndexOf(b[k], x.move) == None;
    } else {
      assert [] + [x] == [x];
    }
  }

  /** Reading the record lines of init + [x] is reading those of init,
      then the line of x. */
  lemma RecordLinesStep(init: seq<BookMove>, x: BookMove, st: Reading, ignorePly: bool)
    requires AllWritable(init) && Writable(x)
    ensures AllWritable(init + [x])
    ensures ParseLines(RecordLines(init + [x]), st, ignorePly) ==
      ReadLine(ParseLines(RecordLines(init), st, ignorePly), Format(x), ignorePly)
  {
    var l := init + [x];
    assert l[..|l| - 1] == init && l[|l| - 1] == x;
    assert forall y :: y in init ==> y in l;
    ParseAppend(RecordLines(init), [Format(x)], st, ignorePly);
  }

  /** A list of distinct moves, split before its last record. */
  lemma UniqueSplit(h: seq<BookMove>, init: seq<BookMove>, x: BookMove)
    requires UniqueMoves(h + (init + [x]))
    ensures UniqueMoves(h + init)
    ensures forall j :: 0 <= j < |h + init| ==> (h + init)[j].move != x.move
  {
    var l := h + (init + [x]);
    assert forall i :: 0 <= i < |h + init| ==> (h + init)[i] == l[i];
    assert x == l[|h + init|];
  }

  lemma ConcatAssoc(a: seq<BookMove>, b: seq<BookMove>, c: seq<BookMove>)
    ensures (a + b) + c == a + (b + c)
  {
  }

  /** One more record line, after the lines of init have appended init. */
  lemma RecordsReadStep(st: Reading, st1: Reading, init: seq<BookMove>, x: BookMove, ignorePly: bool)
    requires Writable(x) && st.sfen != []
    requires st1 == if init == [] then st else Reading(st.body[st.sfen := Held(st) + init], st.sfen)
    requires forall j :: 0 <= j < |Held(st) + init| ==> (Held(st) + init)[j].move != x.move
    ensures ReadLine(st1, Format(x), ignorePly) == Reading(st.body[st.sfen := (Held(st) + init) + [x]], st.sfen)
  {
    var k := st.sfen;
    var h := Held(st);
    assert st1.sfen == k && Held(st1) == h + init && st1.body[k := (h + init) + [x]] == st.body[k := (h + init) + [x]] by {
      if init == [] {
        assert h + init == h;
      }
    }
    NewRecordRead(x, st1, ignorePly);
  }

  /** The record lines of l, inside the block of a key, append l to what
      the key holds (the moves being distinct, none is dropped). */
  lemma {:induction false} RecordsRead(l: seq<BookMove>, st: Reading, ignorePly: bool)
    requires AllWritable(l) && st.sfen != [] && UniqueMoves(Held(st) + l)
    ensures ParseLines(RecordLines(l), st, ignorePly) ==
      if l == [] then st else Reading(st.body[st.sfen := Held(st) + l], st.sfen)
    decreases |l|
  {
    if l != [] {
      var init := l[..|l| - 1];
      var x := l[|l| - 1];
      assert l == init + [x];
      assert x in l;
      assert AllWritable(init) by {
        assert forall y :: y in init ==> y in l;
      }
      RecordLinesStep(init, x, st, ignorePly);
      UniqueSplit(Held(st), init, x);
      RecordsRead(init, st, ignorePly);
      RecordsReadStep(st, ParseLines(RecordLines(init), st, ignorePly), init, x, ignorePly);
      ConcatAssoc(Held(st), init, [x]);
    }
  }

  /** A block read into a book that lacks its key adds the key with the
      block's records. */
  lemma BlockRead(k: string, l: seq<BookMove>, st: Reading, ignorePly: bool)
    requires KeyReadable(k, ignorePly) && k !in st.body
    requires l != [] && AllWritable(l) && UniqueMoves(l)
    ensures ParseLines(BlockLines(k, l), st, ignorePly) == Reading(st.body[k := l], k)
  {
    ParseAppend(["sfen " + k], RecordLines(l), st, ignorePly);
    HeaderLineRead(k, st, ignorePly);
    assert ParseLines(["sfen " + k], st, ignorePly) == Reading(st.body, k);
    assert [] + l == l;
    RecordsRead(l, Reading(st.body, k), ignorePly);
  }

  /** The blocks of distinct keys the book lacks add exactly those keys,
      each with its sorted list. */
  lemma {:induction false} BlocksRead(b: Body, ks: seq<string>, st: Reading, ignorePly: bool)
    requires BodyWritable(b) && Distinct(ks)
    requires forall i :: 0 <= i < |ks| ==> ks[i] in b && ks[i] !in st.body
    requires forall i :: 0 <= i < |ks| ==> KeyReadable(ks[i], ignorePly) && b[ks[i]] != [] && UniqueMoves(b[ks[i]])
    ensures var r := ParseLines(BlocksText(b, ks), st, ignorePly).body;
      && (forall k :: k in r <==> k in st.body || k in ks)
      && (forall k :: k in st.body ==> r[k] == st.body[k])
      && (forall k :: k in ks ==> r[k] == StableSort(b[k]))
    decreases |ks|
  {
    if ks != [] {
      var init := ks[..|ks| - 1];
      var k := ks[|ks| - 1];
      assert ks == init + [k];
      assert forall y :: y in ks <==> y in init || y == k;
      assert Distinct(init) by {
        assert forall i :: 0 <= i < |init| ==> init[i] == ks[i];
      }
      assert forall i :: 0 <= i < |init| ==> init[i] == ks[i];
      BlocksRead(b, init, st, ignorePly);
      var st1 := ParseLines(BlocksText(b, init), st, ignorePly);
      var r1 := st1.body;
      var l := StableSort(b[k]);
      SortKeepsWritable(b[k]);
      StableSortUnique(b[k]);
      StableSortSortsPermutation(b[k]);
      assert l != [] by {
        assert |l| == |multiset(l)| == |multiset(b[k])| == |b[k]|;
      }
      assert k !in init by {
        forall i | 0 <= i < |init| ensures init[i] != k {
          assert init[i] == ks[i] && k == ks[|ks| - 1];
        }
      }
      assert k !in r1;
      BlockRead(k, l, st1, ignorePly);
      assert BlocksText(b, ks) == BlocksText(b, init) + BlockLines(k, l);
      ParseAppend(BlocksText(b, init), BlockLines(k, l), st, ignorePly);
      var r := ParseLines(BlocksText(b, ks), st, ignorePly).body;
      assert r == r1[k := l];
      ExtendRead(st.body, r1, b, init, k);
    }
  }

  /** The book after one more block, in the terms of BlocksRead. */
  lemma ExtendRead(s: Body, r1: Body, b: Body, init: seq<string>, k: string)
    requires forall y :: y in r1 <==> y in s || y in init
    requires forall y :: y in s ==> r1[y] == s[y]
    requires forall y :: y in init ==> y in b && r1[y] == StableSort(b[y])
    requires k !in s && k in b
    ensures var r := r1[k := StableSort(b[k])];
      && (forall y :: y in r <==> y in s || y in init + [k])
      && (forall y :: y in s ==> r[y] == s[y])
      && (forall y :: y in init + [k] ==> r[y] == StableSort(b[y]))
  {
    assert forall y :: y in init + [k] <==> y in init || y == k;
  }

  /** No record line holds a newline. */
  lemma {:induction false} RecordLinesNoNewline(l: seq<BookMove>)
    requires AllWritable(l)
    ensures forall i :: 0 <= i < |RecordLines(l)| ==> NoNewline(RecordLines(l)[i])
    decreases |l|
  {
    if l != [] {
      var init := l[..|l| - 1];
      var x := l[|l| - 1];
      assert x in l && forall y :: y in init ==> y in l;
      RecordLinesNoNewline(init);
      FormatShape(x);
      assert RecordLines(l) == RecordLines(init) + [Format(x)];
    }
  }

  /** With keys free of newlines, no emitted line holds one. */
  lemma {:induction false} BlocksNoNewline(b: Body, ks: seq<string>)
    requires BodyWritable(b) && forall i :: 0 <= i < |ks| ==> ks[i] in b && NoNewline(ks[i])
    ensures forall i :: 0 <= i < |BlocksText(b, ks)| ==> NoNewline(BlocksText(b, ks)[i])
    decreases |ks|
  {
    if ks != [] {
      var init := ks[..|ks| - 1];
      var k := ks[|ks| - 1];
      var l := StableSort(b[k]);
      SortKeepsWritable(b[k]);
      BlocksNoNewline(b, init);
      RecordLinesNoNewline(l);
      assert NoNewline("sfen " + k) by {
        assert forall j :: 5 <= j < |"sfen " + k| ==> ("sfen " + k)[j] == k[j - 5];
      }
      assert BlocksText(b, ks) == BlocksText(b, init) + (["sfen " + k] + RecordLines(l));
    }
  }

  /** No line write_book emits holds a newline, when no key does. */
  lemma WrittenNoNewline(b: Body)
    requires BodyWritable(b) && forall k :: k in b ==> NoNewline(k)
    ensures forall i :: 0 <= i < |WrittenLines(b)| ==> NoNewline(WrittenLines(b)[i])
  {
    var ks := SortedKeys(EmittedKeys(b));
    WrittenLayout(b);
    BlocksNoNewline(b, ks);
    var t := BlocksText(b, ks);
    assert WrittenLines(b) == [VersionLine] + t;
    assert NoNewline(VersionLine) by {
      forall i | 0 <= i < |VersionLine| ensures VersionLine[i] != '\n' {
        assert VersionLine[i] in "#YANEURAOU-DB2016 1.00";
      }
    }
    PrefixNoNewline(VersionLine, t);
  }

  lemma PrefixNoNewline(v: string, t: seq<string>)
    requires NoNewline(v) && forall i :: 0 <= i < |t| ==> NoNewline(t[i])
    ensures forall i :: 0 <= i < |[v] + t| ==> NoNewline(([v] + t)[i])
  {
    forall i | 0 <= i < |[v] + t| ensures NoNewline(([v] + t)[i]) {
      if i > 0 {
        assert ([v] + t)[i] == t[i - 1];
      }
    }
  }

  /** The lines write_book emits, each ended with endl, split back into
      the same lines: a book whose keys hold no newline is written as a
      file that read_book reads line for line. */
  lemma WrittenFileLines(b: Body)
    requires BodyWritable(b) && forall k :: k in b ==> NoNewline(k)
    ensures Lines(Unlines(WrittenLines(b))) == WrittenLines(b)
  {
    WrittenNoNewline(b);
    LinesOfUnlines(WrittenLines(b));
  }

  /** Write then read: reading back the lines write_book emits gives the
      emitted entries, each with its records sorted, and nothing else (for
      keys in normal form and lists with one record per move, as read_book
      builds them). */
  lemma WriteReadRoundTrip(b: Body, ignorePly: bool)
    requires BodyWritable(b) && KeysNormal(b, ignorePly)
    requires forall k :: k in b ==> UniqueMoves(b[k])
    ensures var r := ParseBook(WrittenLines(b), ignorePly);
      && (forall k :: k in r <==> Emitted(b, k))
      && (forall k :: k in r ==> r[k] == StableSort(b[k]))
  {
    var ks := SortedKeys(EmittedKeys(b));
    WrittenLayout(b);
    var st0 := Reading(map[], "");
    assert ReadLine(st0, VersionLine, ignorePly) == st0 by {
      TrimRightFixed(VersionLine);
    }
    ParseAppend([VersionLine], BlocksText(b, ks), st0, ignorePly);
    SortedKeysSpec(EmittedKeys(b));
    assert Distinct(ks) by {
      forall i, j | 0 <= i < j < |ks| ensures ks[i] != ks[j] {
        LessIrreflexive(ks[i]);
      }
    }
    forall i | 0 <= i < |ks|
      ensures ks[i] in b && ks[i] !in st0.body
      ensures KeyReadable(ks[i], ignorePly) && b[ks[i]] != [] && UniqueMoves(b[ks[i]])
    {
      assert Emitted(b, ks[i]);
    }
    BlocksRead(b, ks, st0, ignorePly);
    var r := ParseLines(BlocksText(b, ks), st0, ignorePly).body;
    assert ParseBook(WrittenLines(b), ignorePly) == r;
  }
}
