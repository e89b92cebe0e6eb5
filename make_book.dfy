/** The "makebook sort" and "makebook merge" commands (book.cpp:755-834):
    books read from files, merged or not, are written and read back. */
module MakeBook {
  import opened BookTypes
  import opened Text
  import opened RecordSort
  import opened MoveList
  import opened BookFile
  import opened BookBody
  import opened BookText
  import opened Merge
  import opened Store

  /** makebook sort: a book read_book builds from any file, written by
      write_book and read back with the same IgnoreBookPly, gives exactly
      the entries write_book emitted, each list sorted. */
  lemma ReadWriteReadBack(f: string, ignorePly: bool)
    ensures BodyWritable(ParseBook(Lines(f), ignorePly))
    ensures var b := ParseBook(Lines(f), ignorePly);
      var r := ParseBook(Lines(Unlines(WrittenLines(b))), ignorePly);
      && (forall k :: k in r <==> Emitted(b, k))
      && (forall k :: k in r ==> r[k] == StableSort(b[k]))
  {
    var b := ParseBook(Lines(f), ignorePly);
    ReadBookWellFormed(Lines(f), ignorePly);
    ReadBookWritable(f, ignorePly);
    WrittenBookReadBack(b, ignorePly);
  }

  /** makebook merge: the merge of two books read from files can be
      written, and reading the written file back gives exactly the emitted
      entries of the merge, each list sorted. */
  lemma MergeWriteReadBack(f0: string, f1: string, b2: Body, ignorePly: bool)
    requires IsMerge(ParseBook(Lines(f0), ignorePly), ParseBook(Lines(f1), ignorePly), b2)
    ensures BodyWritable(b2) && KeysNormal(b2, ignorePly)
    ensures var r := ParseBook(Lines(Unlines(WrittenLines(b2))), ignorePly);
      && (forall k :: k in r <==> Emitted(b2, k))
      && (forall k :: k in r ==> r[k] == StableSort(b2[k]))
  {
    var b0 := ParseBook(Lines(f0), ignorePly);
    var b1 := ParseBook(Lines(f1), ignorePly);
    ReadBookWellFormed(Lines(f0), ignorePly);
    ReadBookWritable(f0, ignorePly);
    ReadBookWellFormed(Lines(f1), ignorePly);
    ReadBookWritable(f1, ignorePly);
    forall k | k in b2
      ensures AllWritable(b2[k]) && UniqueMoves(b2[k]) && NoNewline(k)
      ensures k != [] && TrimKey(k, ignorePly) == k
    {
      MergedKeepsEveryPosition(b0, b1, b2, k);
    }
    WrittenBookReadBack(b2, ignorePly);
  }
}
