/** MemoryBook (book.cpp:165-182, 866-1357): the resident book and the
    operations on it. read_book fills it from a book file or, on the fly,
    keeps only the file; write_book emits it; find looks a position up in
    memory or in the file. Files are a map from name to text, and the file
    write_book opens is the text it returns. */
module Store {
  import opened BookTypes
  import opened MoveCodec
  import opened Text
  import opened Record
  import opened RecordSort
  import opened MoveList
  import opened KeyOrder
  import opened BookFile
  import opened BookBody
  import opened BookText
  import opened OnTheFly
  import opened MapMerge

  datatype Result = Ok | FileOpenError

  /** The file name that stands for "no book". */
  const NoBook: string := "no_book"
  /** The file name of an Apery book (kAperyBookName). */
  const AperyBookName: string := "book.bin"

  predicate IsSeparator(c: char) {
    c == '/' || c == '\\'
  }

  /** Path::GetFileName: what follows the last '/' or '\' of a path. */
  function FileName(path: string): (r: string)
    ensures |r| <= |path|
    ensures forall i :: 0 <= i < |r| ==> r[i] == path[|path| - |r| + i] && !IsSeparator(r[i])
    ensures |r| < |path| ==> IsSeparator(path[|path| - |r| - 1])
    decreases |path|
  {
    if path == [] || IsSeparator(path[|path| - 1]) then []
    else
      var init := path[..|path| - 1];
      var r := FileName(init);
      assert forall j :: 0 <= j < |init| ==> init[j] == path[j];
      r + [path[|path| - 1]]
  }

  /** The answer of an on-the-fly lookup in a file: the records of the
      block under the header of key, sorted, or nothing. */
  function FileAnswer(f: string, key: string, ignorePly: bool): Option<seq<BookMove>> {
    match Lookup(f, key, ignorePly)
    case None => None
    case Some(p) => Some(StableSort(BlockRecords(f, p)))
  }

  /** The keys of ks whose entry write_book emits, in the order of ks. */
  ghost function EmittedOf(b: Body, ks: seq<string>): (r: seq<string>)
    ensures forall k :: k in r <==> k in ks && Emitted(b, k)
    decreases |ks|
  {
    if ks == [] then []
    else
      var k := ks[|ks| - 1];
      var init := ks[..|ks| - 1];
      assert forall y :: y in ks <==> y in init || y == k;
      EmittedOf(b, init) + (if Emitted(b, k) then [k] else [])
  }

  /** What keeps the keys ascending keeps the emitted ones ascending. */
  lemma {:induction false} EmittedOfAscending(b: Body, ks: seq<string>)
    requires Ascending(ks)
    ensures Ascending(EmittedOf(b, ks))
    decreases |ks|
  {
    if ks != [] {
      var k := ks[|ks| - 1];
      var init := ks[..|ks| - 1];
      assert Ascending(init) by {
        assert forall i :: 0 <= i < |init| ==> init[i] == ks[i];
      }
      EmittedOfAscending(b, init);
      var e := EmittedOf(b, init);
      forall i | 0 <= i < |e| ensures Less(e[i], k) {
        assert e[i] in init;
        var j :| 0 <= j < |init| && init[j] == e[i];
        assert ks[j] == e[i];
      }
    }
  }

  class MemoryBook {
    /** book_body: the resident book. */
    var body: Body
    /** book_name: the file read last, "" when none. */
    var bookName: string
    /** pure_book_name: its file name without the folder. */
    var pureBookName: string
    /** on_the_fly: find reads the file instead of the resident book. */
    var onTheFly: bool
    /** The IgnoreBookPly option in force when the file was read. */
    var ignoreBookPly: bool
    /** The text of the file kept open for on-the-fly lookups. */
    var file: string

    constructor ()
      ensures body == map[] && bookName == "" && pureBookName == ""
      ensures !onTheFly && !ignoreBookPly && file == ""
    {
      body := map[];
      bookName := "";
      pureBookName := "";
      onTheFly := false;
      ignoreBookPly := false;
      file := "";
    }

    /** insert: a new key gets a list of bp alone, a known key's list gets
        bp through BookMoves::insert. */
    method Insert(sfen: string, bp: BookMove, overwrite: bool)
      modifies this`body
      ensures body == BodyInsert(old(body), sfen, bp, overwrite)
    {
      if sfen !in body {
        body := body[sfen := [bp]];
      } else {
        var ms := new BookMoves();
        ms.moves := body[sfen];
        ms.Insert(bp, overwrite);
        body := body[sfen := ms.moves];
      }
    }

    /** append: book_body[sfen] = ptr. */
    method Append(sfen: string, l: seq<BookMove>)
      modifies this`body
      ensures body == old(body)[sfen := l]
    {
      body := body[sfen := l];
    }

    /** find(sfen): the list stored under the key in normal form, with the
        IgnoreBookPly setting the book was read with. */
    method Find(sfen: string) returns (r: Option<seq<BookMove>>)
      ensures r == FindKey(body, sfen, ignoreBookPly)
    {
      var k := TrimKey(sfen, ignoreBookPly);
      if k in body {
        r := Some(body[k]);
      } else {
        r := None;
      }
    }

    /** read_book(filename, on_the_fly): nothing to do when the same file
        was read with the same flags; otherwise the book is cleared and
        - "no_book", or an Apery book, only records the name;
        - a file that cannot be opened gives FileOpenError, the book left
          empty and unnamed;
        - on the fly, the file is only kept open;
        - else every line is read as read_book reads it (ParseBook). */
    method ReadBook(filename: string, onTheFly_: bool, ignorePly: bool, files: map<string, string>) returns (r: Result)
      modifies this
      ensures old(bookName) == filename && old(onTheFly) == onTheFly_ && old(ignoreBookPly) == ignorePly ==>
        r == Ok && body == old(body) && bookName == old(bookName) && pureBookName == old(pureBookName)
        && onTheFly == old(onTheFly) && ignoreBookPly == old(ignoreBookPly) && file == old(file)
      ensures !(old(bookName) == filename && old(onTheFly) == onTheFly_ && old(ignoreBookPly) == ignorePly) ==>
        var pure := FileName(filename);
        && ignoreBookPly == ignorePly
        && onTheFly == (pure != NoBook && pure != AperyBookName && filename in files && onTheFly_)
        && file == (if onTheFly then files[filename] else old(file))
        && (if pure == NoBook || pure == AperyBookName then
              r == Ok && body == map[] && bookName == filename && pureBookName == pure
            else if filename !in files then
              r == FileOpenError && body == map[] && bookName == "" && pureBookName == ""
            else if onTheFly_ then
              r == Ok && body == map[] && bookName == filename && pureBookName == ""
            else
              r == Ok && body == ParseBook(Lines(files[filename]), ignorePly)
              && bookName == filename && pureBookName == pure)
    {
      if bookName == filename && onTheFly == onTheFly_ && ignoreBookPly == ignorePly {
        return Ok;
      }
      bookName := "";
      pureBookName := "";
      body := map[];
      onTheFly := false;
      ignoreBookPly := ignorePly;
      var pure := FileName(filename);
      if pure == NoBook {
        bookName := filename;
        pureBookName := pure;
        return Ok;
      }
      if pure != AperyBookName {
        if filename !in files {
          return FileOpenError;
        }
        if onTheFly_ {
          file := files[filename];
          onTheFly := true;
          bookName := filename;
          return Ok;
        }
        var lines := Lines(files[filename]);
        var sfen := "";
        var i := 0;
        while i < |lines|
          invariant 0 <= i <= |lines|
          invariant ParseLines(lines[i..], Reading(body, sfen), ignorePly) == ParseLines(lines, Reading(map[], ""), ignorePly)
          invariant bookName == "" && pureBookName == "" && !onTheFly && ignoreBookPly == ignorePly && file == old(file)
        {
          ReadLineStep(lines, i, Reading(body, sfen), ignorePly);
          var line := TrimRight(lines[i]);
          if line == [] || IsComment(line) {
          } else if StartsWith(line, "sfen ") {
            sfen := Drop(line, 5);
            if ignorePly {
              sfen := TrimNumber(sfen);
            }
          } else if sfen != [] {
            Insert(sfen, FromString(line), false);
          }
          i := i + 1;
        }
        assert lines[i..] == [];
      }
      bookName := filename;
      pureBookName := pure;
      return Ok;
    }

    /** write_book: fails with FileOpenError when the file cannot be
        opened; otherwise writes the version line, then, in ascending key
        order, every non-empty entry whose ply is the least among the
        entries that agree once the ply is removed: its header line and its
        records, sorted in place first. The text written is returned. */
    method WriteBook(canOpen: bool) returns (r: Result, text: string)
      requires BodyWritable(body)
      modifies this`body
      ensures !canOpen ==> r == FileOpenError && text == "" && body == old(body)
      ensures canOpen ==> r == Ok && text == Unlines(WrittenLines(old(body)))
      ensures canOpen ==> forall k :: k in body <==> k in old(body)
      ensures canOpen ==> forall k :: k in body ==>
        body[k] == if Emitted(old(body), k) then StableSort(old(body)[k]) else old(body)[k]
    {
      if !canOpen {
        return FileOpenError, "";
      }
      ghost var b0 := body;
      var ks := NonEmptyKeys(body);
      var plies := MinPlies(ks);
      var sorted := SortKeys(ks);
      SortKeysSpec(ks);
      var bd, lines := EmitBlocks(body, ks, plies, sorted);
      EmittedOrder(b0, ks, sorted);
      WrittenLayout(b0);
      body := bd;
      text := Unlines(lines);
      r := Ok;
    }

    /** find(pos), for the position whose sfen is given (without the
        "sfen " prefix); entries stands for what the Apery book holds for
        it.
        - "no_book": nothing;
        - an Apery book: its entries inserted one by one (overwriting) into
          a fresh list, sorted;
        - on the fly: the file is searched by bisection for the key and the
          block under its header read and sorted; the resident book is
          untouched;
        - else the resident list of the key is sorted in place and
          returned, or nothing when the key is not in the book. */
    method FindPosition(sfen: string, entries: seq<AperyEntry>) returns (r: Option<seq<BookMove>>)
      modifies this`body
      ensures var key := TrimKey(sfen, ignoreBookPly);
        if pureBookName == NoBook then
          r == None && body == old(body)
        else if pureBookName == AperyBookName then
          r == Some(StableSort(AperyList(entries))) && body == old(body)
        else if onTheFly then
          && body == old(body)
          && (r.Some? && key != "" ==>
                exists t :: (HeaderAt(file, t) && KeyAt(file, t, ignoreBookPly) == key
                  && r.value == StableSort(BlockRecords(file, NextLine(file, t)))))
          && (SearchableBook(file, ignoreBookPly) && key != "" ==> r == FileAnswer(file, key, ignoreBookPly))
        else if key in old(body) then
          r == Some(StableSort(old(body)[key])) && body == old(body)[key := StableSort(old(body)[key])]
        else
          r == None && body == old(body)
    {
      if pureBookName == NoBook {
        return None;
      }
      if pureBookName == AperyBookName {
        var l := AperyMoves(entries);
        return Some(l);
      }
      if !onTheFly && |body| == 0 {
        return None;
      }
      var key := TrimKey(sfen, ignoreBookPly);
      if onTheFly {
        var p := Search(file, key, ignoreBookPly);
        if p.None? {
          return None;
        }
        var l := ReadBlock(file, p.value);
        var ms := new BookMoves();
        ms.moves := l;
        ms.SortMoves();
        return Some(ms.moves);
      }
      if key in body {
        var ms := new BookMoves();
        ms.moves := body[key];
        ms.SortMoves();
        body := body[key := ms.moves];
        return Some(ms.moves);
      }
      return None;
    }
  }

  /** One record of the Apery book: the move in Apery's encoding, its
      count and its score. */
  datatype AperyEntry = AperyEntry(fromToPro: U16, count: nat, score: int)

  /** A 16-bit unsigned field. */
  type U16 = m: nat | m < 0x1_0000

  /** The record find makes of an Apery entry: no ponder move, depth 256. */
  function AperyRecord(e: AperyEntry): BookMove {
    BookMove(ConvertMoveFromApery(e.fromToPro), MoveNone, e.score, 256, e.count, 0, 0)
  }

  /** The list find builds from Apery entries: each inserted in turn,
      overwriting (BookMoves::insert with overwrite). */
  function AperyList(es: seq<AperyEntry>): seq<BookMove>
    decreases |es|
  {
    if es == [] then []
    else InsertRecord(AperyList(es[..|es| - 1]), AperyRecord(es[|es| - 1]), true)
  }

  /** The Apery list holds each move once, and the move of every entry. */
  lemma {:induction false} AperyListSpec(es: seq<AperyEntry>)
    ensures UniqueMoves(AperyList(es))
    ensures forall e :: e in es ==> ConvertMoveFromApery(e.fromToPro) in set b | b in AperyList(es) :: b.move
    decreases |es|
  {
    if es != [] {
      var init := es[..|es| - 1];
      var x := AperyRecord(es[|es| - 1]);
      AperyListSpec(init);
      InsertKeepsUnique(AperyList(init), x, true);
      forall e | e in es ensures ConvertMoveFromApery(e.fromToPro) in set b | b in AperyList(es) :: b.move {
        if e in init {
          var old_ := AperyList(init);
          var b :| b in old_ && b.move == ConvertMoveFromApery(e.fromToPro);
          InsertRecordKeepsMove(old_, x, true, b);
        } else {
          assert e == es[|es| - 1];
        }
      }
    }
  }

  /** The Apery branch of find: entries inserted into a fresh list, which
      is then sorted. */
  method AperyMoves(entries: seq<AperyEntry>) returns (l: seq<BookMove>)
    ensures l == StableSort(AperyList(entries))
  {
    var ms := new BookMoves();
    var i := 0;
    while i < |entries|
      invariant 0 <= i <= |entries|
      invariant ms.Valid() && ms.moves == AperyList(entries[..i])
    {
      ms.Insert(AperyRecord(entries[i]), true);
      assert entries[..i + 1][..i] == entries[..i];
      i := i + 1;
    }
    assert entries[..i] == entries;
    ms.SortMoves();
    l := ms.moves;
  }

  /** The write loop of write_book over the sorted keys: an entry whose
      ply is the one book_ply records for its group is emitted, its list
      sorted in place; the others are skipped. */
  method EmitBlocks(b0: Body, ks: seq<string>, plies: map<string, int>, sorted: seq<string>)
    returns (bd: Body, lines: seq<string>)
    requires BodyWritable(b0)
    requires forall k :: k in ks <==> k in b0 && b0[k] != []
    requires forall k :: k in ks ==> TrimNumber(k) in plies
    requires forall k :: k in ks ==>
      (plies[TrimNumber(k)] == Ply(k) <==> forall k2 :: k2 in ks && TrimNumber(k2) == TrimNumber(k) ==> Ply(k) <= Ply(k2))
    requires Ascending(sorted) && forall y :: y in sorted <==> y in ks
    ensures EmittedIn(b0, EmittedOf(b0, sorted))
    ensures SortedAt(b0, bd, EmittedOf(b0, sorted))
    ensures lines == [VersionLine] + BlocksText(b0, EmittedOf(b0, sorted))
  {
    bd := b0;
    lines := [VersionLine];
    ghost var emitted: seq<string> := [];
    var i := 0;
    while i < |sorted|
      invariant 0 <= i <= |sorted|
      invariant emitted == EmittedOf(b0, sorted[..i])
      invariant SortedAt(b0, bd, emitted)
      invariant EmittedIn(b0, emitted)
      invariant lines == [VersionLine] + BlocksText(b0, emitted)
    {
      var k := sorted[i];
      var left := TrimNumber(k);
      var ply := Ply(k);
      assert k in ks;
      EmittedByPlies(b0, ks, plies, k);
      EmitStep(b0, sorted, i);
      if plies[left] == ply {
        bd, lines := EmitEntry(b0, bd, lines, emitted, k);
        emitted := emitted + [k];
      } else {
        assert emitted + [] == emitted;
      }
      i := i + 1;
    }
    assert sorted[..i] == sorted;
    assert emitted == EmittedOf(b0, sorted);
  }

  /** One step of the line loop of read_book. */
  lemma ReadLineStep(lines: seq<string>, i: nat, st: Reading, ignorePly: bool)
    requires i < |lines|
    ensures ParseLines(lines[i..], st, ignorePly) == ParseLines(lines[i + 1..], ReadLine(st, lines[i], ignorePly), ignorePly)
  {
    assert lines[i..][0] == lines[i] && lines[i..][1..] == lines[i + 1..];
  }

  /** Every key of es is in b and emitted. */
  /** bd has the keys of b0, the lists of the keys in emitted sorted and
      the others as they were. */
  ghost predicate SortedAt(b0: Body, bd: Body, emitted: seq<string>) {
    && (forall y :: y in bd <==> y in b0)
    && forall y :: y in bd ==> bd[y] == if y in emitted then StableSort(b0[y]) else b0[y]
  }

  ghost predicate EmittedIn(b: Body, es: seq<string>) {
    forall i :: 0 <= i < |es| ==> es[i] in b && Emitted(b, es[i])
  }

  /** The keys of the non-empty entries of b, each once, in the order the
      walk over the hash map meets them. */
  method NonEmptyKeys(b: Body) returns (ks: seq<string>)
    ensures Distinct(ks)
    ensures forall k :: k in ks <==> k in b && b[k] != []
  {
    ks := [];
    var seen: set<string> := {};
    while |seen| < |b.Keys|
      invariant seen <= b.Keys
      invariant Distinct(ks)
      invariant forall k :: k in ks <==> k in seen && b[k] != []
      decreases |b.Keys| - |seen|
    {
      SubsetSize(seen, b.Keys);
      var k :| k in b && k !in seen;
      if b[k] != [] {
        ks := ks + [k];
      }
      seen := seen + {k};
    }
    SubsetSize(seen, b.Keys);
  }

  /** book_ply: for each key with its ply removed, the least ply among the
      keys of ks that agree with it. A key's ply is the one recorded for
      its group exactly when no key of the group has a smaller one. */
  method MinPlies(ks: seq<string>) returns (plies: map<string, int>)
    ensures forall k :: k in ks ==> TrimNumber(k) in plies
    ensures forall k :: k in ks ==>
      (plies[TrimNumber(k)] == Ply(k) <==> forall k2 :: k2 in ks && TrimNumber(k2) == TrimNumber(k) ==> Ply(k) <= Ply(k2))
  {
    plies := MinByGroup(ks, TrimNumber, Ply);
  }

  /** The least value of each group of keys: the map update loop of
      book_ply, for any grouping and any value. */
  method MinByGroup(ks: seq<string>, group: string -> string, value: string -> int) returns (m: map<string, int>)
    ensures forall k :: k in ks ==> group(k) in m
    ensures forall k :: k in ks ==>
      (m[group(k)] == value(k) <==> forall k2 :: k2 in ks && group(k2) == group(k) ==> value(k) <= value(k2))
  {
    m := map[];
    ghost var w: map<string, string> := map[];
    var i := 0;
    while i < |ks|
      invariant 0 <= i <= |ks|
      invariant forall j :: 0 <= j < i ==> group(ks[j]) in m && m[group(ks[j])] <= value(ks[j])
      invariant forall t :: t in m ==> t in w && w[t] in ks && group(w[t]) == t && m[t] == value(w[t])
    {
      var g := group(ks[i]);
      var v := value(ks[i]);
      if g !in m {
        m := m[g := v];
        w := w[g := ks[i]];
      } else if v < m[g] {
        m := m[g := v];
        w := w[g := ks[i]];
      }
      i := i + 1;
    }
    forall k | k in ks ensures group(k) in m && m[group(k)] <= value(k) {
      var j :| 0 <= j < |ks| && ks[j] == k;
    }
  }

  /** The record lines of a list, one per record. */
  method RecordText(l: seq<BookMove>) returns (ls: seq<string>)
    requires AllWritable(l)
    ensures ls == RecordLines(l)
  {
    ls := [];
    var j := 0;
    while j < |l|
      invariant 0 <= j <= |l|
      invariant AllWritable(l[..j]) && ls == RecordLines(l[..j])
    {
      assert l[j] in l && l[..j + 1][..j] == l[..j] && l[..j + 1][j] == l[j];
      assert AllWritable(l[..j + 1]) by {
        assert forall x :: x in l[..j + 1] ==> x in l;
      }
      ls := ls + [Format(l[j])];
      j := j + 1;
    }
    assert l[..j] == l;
  }

  /** book_ply says whether an entry is emitted. */
  lemma EmittedByPlies(b: Body, ks: seq<string>, plies: map<string, int>, k: string)
    requires forall k :: k in ks <==> k in b && b[k] != []
    requires forall k :: k in ks ==> TrimNumber(k) in plies
    requires forall k :: k in ks ==>
      (plies[TrimNumber(k)] == Ply(k) <==> forall k2 :: k2 in ks && TrimNumber(k2) == TrimNumber(k) ==> Ply(k) <= Ply(k2))
    requires k in ks
    ensures k in b && TrimNumber(k) in plies
    ensures plies[TrimNumber(k)] == Ply(k) <==> Emitted(b, k)
  {
  }

  /** The entry at i is not written yet, and extends the emitted keys
      when it is emitted. */
  lemma EmitStep(b: Body, sorted: seq<string>, i: nat)
    requires Ascending(sorted) && i < |sorted|
    ensures var k := sorted[i];
      && k !in EmittedOf(b, sorted[..i])
      && EmittedOf(b, sorted[..i + 1]) == EmittedOf(b, sorted[..i]) + (if Emitted(b, k) then [k] else [])
  {
    var k := sorted[i];
    if k in sorted[..i] {
      var j :| 0 <= j < i && sorted[..i][j] == k;
      assert sorted[j] == k;
      LessIrreflexive(k);
    }
    var p := sorted[..i + 1];
    assert p[..|p| - 1] == sorted[..i] && p[|p| - 1] == k;
  }

  /** One emitted entry appends its block to the written blocks. */
  lemma BlocksStep(b: Body, e: seq<string>, k: string)
    requires BodyWritable(b) && EmittedIn(b, e) && k in b && Emitted(b, k)
    ensures AllWritable(StableSort(b[k])) && EmittedIn(b, e + [k])
    ensures BlocksText(b, e + [k]) == BlocksText(b, e) + (["sfen " + k] + RecordLines(StableSort(b[k])))
  {
    SortKeepsWritable(b[k]);
    var e' := e + [k];
    assert e'[..|e'| - 1] == e && e'[|e'| - 1] == k;
  }

  /** The emitted keys of the sorted non-empty keys are the emitted keys in
      ascending order. */
  lemma EmittedOrder(b: Body, ks: seq<string>, sorted: seq<string>)
    requires forall k :: k in ks <==> k in b && b[k] != []
    requires Ascending(sorted) && forall y :: y in sorted <==> y in ks
    ensures EmittedOf(b, sorted) == SortedKeys(EmittedKeys(b))
  {
    EmittedOfAscending(b, sorted);
    SortedKeysSpec(EmittedKeys(b));
    AscendingUnique(EmittedOf(b, sorted), SortedKeys(EmittedKeys(b)));
  }

  lemma SeqAssoc<T>(a: seq<T>, b: seq<T>, c: seq<T>)
    ensures (a + b) + c == a + (b + c)
  {
  }

  /** The book after the entry k is sorted in place, in the terms of the
      write loop. */
  lemma SortedEntryStep(b0: Body, body: Body, emitted: seq<string>, k: string)
    requires (forall y :: y in body <==> y in b0) && k in b0 && k !in emitted
    requires forall y :: y in body ==> body[y] == if y in emitted then StableSort(b0[y]) else b0[y]
    ensures body[k] == b0[k]
    ensures var body' := body[k := StableSort(b0[k])];
      forall y :: y in body' ==> body'[y] == if y in emitted + [k] then StableSort(b0[y]) else b0[y]
  {
    assert forall y :: y in emitted + [k] <==> y in emitted || y == k;
  }

  /** The header and the records of one emitted entry, its list sorted in
      place first (sort_moves). */
  method EmitEntry(ghost b0: Body, bd: Body, lines: seq<string>, ghost emitted: seq<string>, k: string)
    returns (bd': Body, lines': seq<string>)
    requires BodyWritable(b0) && EmittedIn(b0, emitted) && k in b0 && Emitted(b0, k) && k !in emitted
    requires SortedAt(b0, bd, emitted)
    requires lines == [VersionLine] + BlocksText(b0, emitted)
    ensures SortedAt(b0, bd', emitted + [k])
    ensures EmittedIn(b0, emitted + [k])
    ensures lines' == [VersionLine] + BlocksText(b0, emitted + [k])
  {
    BlocksStep(b0, emitted, k);
    SortedEntryStep(b0, bd, emitted, k);
    var ms := new BookMoves();
    ms.moves := bd[k];
    ms.SortMoves();
    bd' := bd[k := ms.moves];
    var recs := RecordText(ms.moves);
    SeqAssoc([VersionLine] + BlocksText(b0, emitted), ["sfen " + k], recs);
    SeqAssoc([VersionLine], BlocksText(b0, emitted), ["sfen " + k] + recs);
    lines' := lines + ["sfen " + k] + recs;
  }

  /** What write_book writes, read back by read_book with the same
      IgnoreBookPly: exactly the entries it emitted, each list sorted. */
  lemma WrittenBookReadBack(b: Body, ignorePly: bool)
    requires BodyWritable(b) && KeysNormal(b, ignorePly)
    requires forall k :: k in b ==> UniqueMoves(b[k]) && NoNewline(k)
    ensures var r := ParseBook(Lines(Unlines(WrittenLines(b))), ignorePly);
      && (forall k :: k in r <==> Emitted(b, k))
      && (forall k :: k in r ==> r[k] == StableSort(b[k]))
  {
    WrittenFileLines(b);
    WriteReadRoundTrip(b, ignorePly);
  }

  /** find sorts a resident list once: a second find of the same key
      returns the same list and leaves the book as the first left it. */
  lemma FindSortsOnce(b: Body, k: string)
    requires k in b
    ensures var b1 := b[k := StableSort(b[k])];
      StableSort(b1[k]) == b1[k] && b1[k := StableSort(b1[k])] == b1
  {
    StableSortIdempotent(b[k]);
  }
}
