# YaneuraOu opening book: store, file format, on-the-fly lookup and move selection

This project is a Dafny model of the opening-book core of the YaneuraOu shogi
engine (`source/book/book.cpp`). It covers:

- **Records.** A book record (`BookMove`) holds:
  - a move and the expected reply (ponder);
  - an evaluation and a search depth;
  - three counters: `num` (occurrences), `win` and `lose`.
- **Record text.** `BookMove::from_string` reads a record line, and `write_book` writes one. Module `Record` models both.
- **Apery moves.** `convert_move_from_apery` decodes a 16-bit Apery move (module `MoveCodec`).
- **The per-position record list** `BookMoves` (class `MoveList.BookMoves`):
  - `push_back`, `find_move` and `sort_moves`;
  - `insert`, which keeps at most one record per move. A repeated move is ignored, or, when overwriting, replaced with its counters summed.
- **The resident book** `MemoryBook` (class `Store.MemoryBook`):
  - `insert`, `append`, and `find` on a key normalised by `trim`;
  - the line loop of `read_book` (module `BookText`);
  - the `write_book` pipeline. Empty entries are dropped, and only the least ply of each ply-stripped key is kept. Keys are written in ascending order, each followed by its records sorted;
  - `find(pos)`, which covers the "no book", Apery, on-the-fly and resident cases.
- **The merge rule of `makebook merge`** (modules `MapMerge` and `Merge`), and what `makebook sort` and `makebook merge` write and read back (module `MakeBook`).
- **The on-the-fly lookup** (module `OnTheFly`). It runs a bisection over the text of the book file:
  - `next_sfen` seeks two characters back, drops a partial line and returns the next `sfen` header;
  - a loop halves `[s, e)` until it finds the key or the range is under 40 characters;
  - finally it reads the matched block.
- **Move selection in `BookMoveSelector::probe_impl`** (class `Selector.BookMoveSelector`):
  - the ignore-rate and ply gates;
  - the force-hit, NarrowBook, depth-limit and evaluation filters;
  - the uniform pick, and the one-pass weighted override, whose exactness is proved in module `WeightedPass`.

Each operation that changes state is a method of a class with `seq` and `map`
fields. Each method is proved against a pure specification function, and
lemmas state what the book promises about those functions:

- `read_book` reads back what `write_book` writes (`Store.WrittenBookReadBack`), and every book `read_book` builds or the merge returns can be written (`MakeBook.ReadWriteReadBack`, `MakeBook.MergeWriteReadBack`);
- on a file with sorted headers of at least 40 characters carrying non-empty keys, none on the first line (`BookFile.SearchableBook`), the bisection answers as a line-by-line scan does (`OnTheFly.Search`);
- the weighted pick plays a record that was chosen before whenever one exists (`Selector.ProbeAvoidsZeroCount`);
- over uniform draws, the one-pass weighted override ends on candidate i for the share num_i / Σ num of the draw vectors (`WeightedPass.WeightedPassIsExact`);
- the merge keeps every position and its three counters add up (`Merge.MergeCountsAddUp`).

Files, a file system and the pseudo-random generator are parameters:

- **The on-the-fly lookup** works on the text of the open file, a `string`.
- **`read_book`** takes a map from file names to file contents.
- **`write_book`** takes a flag saying whether the file could be opened, and returns the text it writes.
- **The generator** is an oracle `rng(k, n)`: the `k`-th draw with bound `n`, taken modulo `n`.

`BookMove::operator<` is declared in `book.h`, which is not part of this
model. The comment at book.cpp:71-72 says it orders by occurrence count, then
by evaluation. The model takes it as "more occurrences first, then higher
value first" (`BookTypes.RanksBefore`). `std::stable_sort` under it is the
insertion sort `RecordSort.StableSort`, which is proved sorted, a permutation
and stable.

Two details of the on-the-fly lookup follow the code exactly:

- the header test of `next_sfen` only checks that the line starts with "sfen", while the block reader stops at lines that start with "sfen ";
- the block reader also skips `#` and `//` lines.

## Model

| member | source | states |
|---|---|---|
| BookTypes.RanksNotAfterTotal | source/book/book.cpp:71-72 | the record order is a total preorder: any two records compare one way or the other, and both ways exactly when they have the same count and value |
| Text.LessIrreflexive | source/book/book.cpp:1125-1128 | no key sorts before itself under std::string `<` |
| Text.LessAsymmetric | source/book/book.cpp:1125-1128 | `<` on keys is asymmetric |
| Text.LessTransitive | source/book/book.cpp:1125-1128 | `<` on keys is transitive |
| Text.LessTrichotomy | source/book/book.cpp:1125-1128 | two keys are equal or one sorts before the other |
| Text.TrimRight | source/book/book.cpp:866-869 | trim leaves a prefix of its input that does not end in white space, and removes only white space |
| Text.TrimNumber | source/book/book.cpp:866-869 | trim_number leaves a prefix that does not end in white space or a digit, and removes only white space and digits |
| Text.TrimRightIdempotent | source/book/book.cpp:866-869 | trimming twice is trimming once |
| Text.TrimNumberIdempotent | source/book/book.cpp:866-869 | stripping the ply twice is stripping it once |
| Text.TrimRightFixed | source/book/book.cpp:866-869 | a key is its own trim exactly when it does not end in white space |
| Text.TrimRightAppend | source/book/book.cpp:866-869 | white space appended to a key is trimmed away again |
| Text.TrimNumberAppend | source/book/book.cpp:866-869 | a ply (white space and digits) appended to a key is stripped again |
| Text.NatToStringValue | source/book/book.cpp:1152 | the decimal text written for a counter has that counter's value |
| Text.IntToStringRoundTrip | source/book/book.cpp:1152 | scanning the number written for a value or depth gives the number back |
| MoveCodec.AperyRoundTrip | source/book/book.cpp:27-48 | decoding the Apery code of a move gives the move back (board moves, promotions and drops) |
| MoveCodec.AperyDecodeEncode | source/book/book.cpp:27-48 | every 16-bit code decodes to an encodable move whose code is the input without bit 15 |
| MoveCodec.MoveToUsi | source/book/book.cpp:1152 | the text written for a move is non-empty and holds no blank |
| MoveCodec.UsiShape | source/book/book.cpp:1152 | a move's text starts with "n", a file digit or a piece letter and holds no newline |
| MoveCodec.UsiToMove | source/book/book.cpp:117-120 | every move read from text is one a USI text can be written for: squares below 81, drop pieces 1 to 7, or no move |
| MoveCodec.UsiRoundTrip | source/book/book.cpp:117-118 | reading back the text of a move gives the move back |
| Record.ToInt32 | source/book/book.cpp:105-106 | the (int) cast lands in 32-bit range and keeps values already in range |
| Record.ToU64 | source/book/book.cpp:107-109 | the (u64) cast lands below 2^64 and keeps values already in range |
| Record.FromString | source/book/book.cpp:90-121 | from_string yields a writable move and ponder, 32-bit value and depth and 64-bit counters |
| Record.FromStringDefaults | source/book/book.cpp:95-97 | a line with only move and ponder reads as value 0, depth 0, num 1, win 0, lose 0; a blank line as no move |
| Record.TokensOfJoin | source/book/book.cpp:1152 | splitting blank-joined fields gives the fields back |
| Record.JoinFieldsShape | source/book/book.cpp:1152 | a joined line starts and ends with its outer fields' characters and holds a newline only where a field does |
| Record.FormatShape | source/book/book.cpp:1152 | a record line starts with the move text, ends with a digit and holds no newline |
| Record.FormatRoundTrip | source/book/book.cpp:90-121 | a record line has seven fields and from_string reads it back as the record written |
| RecordSort.StableSortSortsPermutation | source/book/book.cpp:74-86 | the sort leaves the records in order and is a permutation of its input |
| RecordSort.StableSortIsStable | source/book/book.cpp:74-86 | records with equal count and value keep their relative order |
| RecordSort.StableSortOfSorted | source/book/book.cpp:74-86 | sorting a sorted list changes nothing |
| RecordSort.StableSortIdempotent | source/book/book.cpp:74-86 | sorting twice is sorting once |
| RecordSort.InsertRankedSorted | source/book/book.cpp:74-86 | placing a record into a sorted list keeps it sorted |
| RecordSort.InsertRankedTied | source/book/book.cpp:74-86 | a placed record comes after every record tied with it |
| MoveList.FirstIndexOf | source/book/book.cpp:63-68 | the index found carries the move and no earlier record does; none means no record carries it |
| MoveList.InsertRecordCases | source/book/book.cpp:125-154 | insert appends an absent move; leaves the list alone for a present move without overwrite; with overwrite replaces only that record, by bp with num, win and lose summed modulo 2^64 (u64 wrap-around) |
| MoveList.InsertKeepsUnique | source/book/book.cpp:125-154 | insert keeps at most one record per move, and bp's move is then in the list |
| MoveList.InsertRecordKeepsMove | source/book/book.cpp:125-154 | insert never loses a move the list held |
| MoveList.InsertKeepsWritable | source/book/book.cpp:133-145 | insert keeps every record writable: the accumulated counters wrap below 2^64 and bp's other fields are kept |
| MoveList.InsertTwiceAccumulates | source/book/book.cpp:133-145 | inserting the same new move twice with overwrite appends one record with the counters of both, summed modulo 2^64 |
| MoveList.StableSortUnique | source/book/book.cpp:74-86 | sorting keeps one record per move |
| MoveList.BookMoves.PushBack | source/book/book.cpp:53-59 | push_back appends bp and clears the sorted flag |
| MoveList.BookMoves.FindMove | source/book/book.cpp:63-68 | find_move returns a record exactly when one carries the move, and then the first such record |
| MoveList.BookMoves.SortMoves | source/book/book.cpp:74-86 | sort_moves leaves the stable sort of the list, sorted and a permutation, with the flag set (a no-op when already sorted) |
| MoveList.BookMoves.Insert | source/book/book.cpp:125-154 | insert leaves the list InsertRecord describes; the sorted flag survives only when bp's move was present and not overwritten (an overwrite sums the counters modulo 2^64) |
| KeyOrder.InsertKeySpec | source/book/book.cpp:1125-1128 | placing a new key into ascending keys keeps them ascending, with that key added |
| KeyOrder.SortKeysSpec | source/book/book.cpp:1125-1128 | std::sort of distinct keys leaves the same keys in strictly ascending order |
| KeyOrder.SortedKeysSpec | source/book/book.cpp:1125-1128 | the ascending arrangement of a key set holds exactly that set |
| KeyOrder.AscendingUnique | source/book/book.cpp:1125-1128 | there is one ascending arrangement of a set of keys, so the write order does not depend on the hash-map walk |
| BookBody.BodyInsertSpec | source/book/book.cpp:165-182 | MemoryBook::insert adds exactly the key, gives a new key the list [bp], leaves every other list alone, and bp's move is then in the key's list |
| BookBody.BodyInsertWellFormed | source/book/book.cpp:165-182 | insert keeps every list non-empty with one record per move |
| BookBody.FindStored | source/book/book.cpp:1168-1174 | a key stored in trimmed form is found under itself |
| BookBody.FindIgnoresTrailer | source/book/book.cpp:1168-1174 | find ignores trailing white space, and with IgnoreBookPly a trailing ply |
| BookBody.FindAfterInsert | source/book/book.cpp:165-182 | after insert, a lookup that trims to the key finds a list holding bp's move |
| BookBody.FindAfterAppend | source/book/book.cpp:1179-1183 | append stores the list untrimmed: a lookup finds it exactly when the key is already in trimmed form |
| BookFile.LineEnd | source/book/book.cpp:1275-1278 | getline reads up to the first newline from the offset, or to the end of the file |
| BookFile.LinesOfUnlines | source/book/book.cpp:1144-1152 | lines written each with endl split back into the same lines |
| BookFile.UnlinesOfLines | source/book/book.cpp:1144-1152 | a file ending with a newline is the text of its lines |
| BookFile.FirstHeaderIsFirst | source/book/book.cpp:1278-1288 | the scan from a line start stops at the first header line from there |
| BookFile.LookupFromFinds | source/book/book.cpp:1295-1330 | the reference scan finds a position exactly when some header from the offset on carries its key |
| BookFile.LookupFromSorted | source/book/book.cpp:1295-1330 | with sorted headers the scan answers just past the header carrying the key |
| BookFile.LookupSpec | source/book/book.cpp:1295-1330 | the reference lookup answers exactly when a header carries the key, and then just past that header when headers are sorted |
| BookFile.HeadersApart | source/book/book.cpp:1320 | a header line of 40 characters or more keeps the next header at least 41 characters away |
| BookText.ParseAppend | source/book/book.cpp:968-1016 | the line loop over a + c is the loop over a, then over c from where a left off |
| BookText.ReadIgnoresComments | source/book/book.cpp:972-977 | `#` lines, `//` lines and empty lines change nothing wherever they stand |
| BookText.ReadSkipsUntilHeader | source/book/book.cpp:1013-1014 | record lines before the first `sfen ` line add nothing |
| BookText.HeaderSfenNormal | source/book/book.cpp:980-987 | the key a header line opens is in trimmed form |
| BookText.ReadLineKeepsNormal | source/book/book.cpp:968-1016 | one line keeps the book well formed with trimmed keys |
| BookText.ParseKeepsNormal | source/book/book.cpp:968-1016 | the loop keeps the book well formed with trimmed keys |
| BookText.HeaderSfenOneLine | source/book/book.cpp:980-987 | the key a header line opens has no newline when the line has none |
| BookText.BodyInsertWritable | source/book/book.cpp:165-182 | inserting a writable record under a one-line key keeps every record writable and every key on one line |
| BookText.ReadLineWritable | source/book/book.cpp:968-1016 | one line of the read loop keeps every record writable and every key on one line |
| BookText.ParseKeepsWritable | source/book/book.cpp:968-1016 | the read loop over newline-free lines keeps every record writable and every key on one line |
| BookText.ReadBookWritable | source/book/book.cpp:968-1016 | what read_book builds from any file can be written: writable records and newline-free keys |
| BookText.ReadBookWellFormed | source/book/book.cpp:968-1016 | read_book builds non-empty lists with one record per move under trimmed, non-empty keys |
| BookText.HeaderLineRead | source/book/book.cpp:980-987 | the header line write_book emits opens the block of its key |
| BookText.RecordLineShape | source/book/book.cpp:1152 | a record line is not empty, not a comment and not a header |
| BookText.RecordLineRead | source/book/book.cpp:1016 | a record line inside a block inserts its record under the block's key |
| BookText.NewRecordRead | source/book/book.cpp:1016 | a record line whose move the block lacks appends its record |
| BookText.RecordsRead | source/book/book.cpp:1016 | the record lines of distinct moves append exactly those records, in order |
| BookText.BlockRead | source/book/book.cpp:968-1016 | a block read into a book lacking its key adds the key with the block's records |
| BookText.BlocksRead | source/book/book.cpp:968-1016 | the written blocks add exactly their keys, each with its sorted list, and leave other keys alone |
| BookText.RecordLines | source/book/book.cpp:1151-1152 | one record line per record |
| BookText.RecordLinesRead | source/book/book.cpp:1151-1152 | every record line has seven fields and reads back as its record |
| BookText.SortKeepsWritable | source/book/book.cpp:1149 | sorting keeps every record writable |
| BookText.MinPly | source/book/book.cpp:1113-1119 | a key of least ply in a group |
| BookText.EmittedSpec | source/book/book.cpp:1133-1140 | every group of non-empty keys equal up to the ply has an emitted member, and all emitted members of a group share the least ply |
| BookText.WrittenLayout | source/book/book.cpp:1042-1164 | the written lines are the version line, then one block per emitted key in strictly ascending key order |
| BookText.RecordLinesNoNewline | source/book/book.cpp:1152 | no record line holds a newline |
| BookText.BlocksNoNewline | source/book/book.cpp:1144-1152 | with newline-free keys no block line holds a newline |
| BookText.WrittenNoNewline | source/book/book.cpp:1061-1152 | with newline-free keys no written line holds a newline |
| BookText.WrittenFileLines | source/book/book.cpp:1061-1152 | the written file splits back into exactly the written lines |
| BookText.WriteReadRoundTrip | source/book/book.cpp:1042-1164 | reading the written lines gives exactly the emitted keys, each with its list sorted |
| MapMerge.WalkBook0 | source/book/book.cpp:776-806 | the walk over book 0 holds its keys, each with the merged list; `same` counts shared keys, `diffrent_nodes1` keys only in book 0 |
| MapMerge.WalkBook1 | source/book/book.cpp:809-816 | the walk over book 1 adds the keys book 0 lacks, copying their lists; `diffrent_nodes2` counts them |
| Merge.MergeChoiceByMerit | source/book/book.cpp:788-799 | the choice keeps the list of greater (non-empty, first depth, length) merit, book 0's on a tie |
| Merge.MergeBooks | source/book/book.cpp:776-816 | the merge holds the union of the keys, each with the chosen list, and the three counters count the shared and one-sided keys |
| Merge.MergeIsUnique | source/book/book.cpp:776-816 | the merged book does not depend on the order the walks visit the keys |
| Merge.MergeCountsAddUp | source/book/book.cpp:771-816 | same + diffrent_nodes1 + diffrent_nodes2 is the number of merged keys |
| Merge.MergedKeepsEveryPosition | source/book/book.cpp:776-816 | every key of either book is merged; one-sided keys keep their list; a shared key gets one of its two lists, the deeper one when both are non-empty |
| Merge.MergeExamples | source/book/book.cpp:792-799 | depth 20 beats depth 10; on equal depth 3 records beat 1 |
| OnTheFly.HeaderFromIsHeader | source/book/book.cpp:1264-1290 | what next_sfen meets is a header line starting at from - 1 or later |
| OnTheFly.HeaderFromSpec | source/book/book.cpp:1264-1290 | next_sfen meets the first header line starting at from - 1 or later |
| OnTheFly.HeaderFromBefore | source/book/book.cpp:1268-1288 | next_sfen meets a header no later than any header from from - 1 on |
| OnTheFly.NextSfen | source/book/book.cpp:1264-1290 | the loop of next_sfen returns the key of the header Probe meets and the offset after it, within the file |
| OnTheFly.StepLeft | source/book/book.cpp:1304-1307 | going left on "" or a greater key keeps the wanted header inside [s, m) |
| OnTheFly.StepRight | source/book/book.cpp:1308-1311 | going right past a smaller key keeps the wanted header at or after the new s |
| OnTheFly.ProbeAdvances | source/book/book.cpp:1308-1311 | a probe that meets a header moves s past m, so the loop terminates |
| OnTheFly.LastProbe | source/book/book.cpp:1320-1327 | once under 40 characters remain, the probe at s reads the wanted header |
| OnTheFly.LastHeaderFrom | source/book/book.cpp:1320-1324 | in that range the header met from s is the wanted one |
| OnTheFly.Found | source/book/book.cpp:1312-1314 | a probe that reads the key answers with that key's header |
| OnTheFly.Search | source/book/book.cpp:1295-1330 | a hit is just past a header carrying the key; on a file with sorted headers of at least 40 characters (SearchableBook) the answer is the reference lookup's, found iff the key is present (corrected reader; see ## Findings) |
| OnTheFly.ReadBlock | source/book/book.cpp:1338-1358 | the records read are those of the block, with comments skipped, up to the next `sfen ` line or the end of the file (corrected reader; see ## Findings) |
| Store.FileName | source/book/book.cpp:898 | the file name is the suffix of the path after its last separator |
| Store.EmittedOfAscending | source/book/book.cpp:1130-1144 | keeping the emitted keys of ascending keys leaves them ascending |
| Store.MemoryBook.Insert | source/book/book.cpp:165-182 | the book after insert is BodyInsert of the old one (an overwrite sums the counters modulo 2^64) |
| Store.MemoryBook.Append | source/book/book.cpp:1179-1183 | append stores the list under the key as given |
| Store.MemoryBook.Find | source/book/book.cpp:1168-1174 | find returns the list stored under the trimmed key, if any |
| Store.MemoryBook.ReadBook | source/book/book.cpp:872-1039 | same file and flags: nothing changes; otherwise the book is cleared, and "no_book" or "book.bin" only record the name, an unopenable file gives FileOpenError unnamed, on the fly only keeps the file, else the book is what the line loop builds |
| Store.MemoryBook.WriteBook | source/book/book.cpp:1042-1164 | FileOpenError leaves all as it was; otherwise the text is the version line and the emitted blocks in key order, and exactly the emitted lists are sorted in place |
| Store.MemoryBook.FindPosition | source/book/book.cpp:1186-1376 | no_book: nothing; Apery: the inserted entries sorted; on the fly: the sorted block under a header carrying the key, the file lookup's answer on a file with sorted headers of at least 40 characters (SearchableBook); resident: the key's list sorted in place and returned, or nothing (corrected reader; see ## Findings) |
| Store.AperyListSpec | source/book/book.cpp:1209-1212 | the Apery list holds each move once, and the move of every entry |
| Store.AperyMoves | source/book/book.cpp:1194-1215 | the Apery branch returns the entries inserted with overwrite, then sorted |
| Store.NonEmptyKeys | source/book/book.cpp:1073-1078 | vectored_book holds each key with a non-empty list exactly once |
| Store.MinByGroup | source/book/book.cpp:1115-1119 | each group's recorded value is a key's own value exactly when no key of its group has a smaller one |
| Store.MinPlies | source/book/book.cpp:1103-1121 | book_ply records, per ply-stripped key, the ply of a key exactly when it is the least of its group |
| Store.EmittedByPlies | source/book/book.cpp:1133-1140 | the test against book_ply passes exactly for the emitted entries |
| Store.EmitStep | source/book/book.cpp:1130-1140 | the next key is not written yet, and is added to the written keys when it is emitted |
| Store.BlocksStep | source/book/book.cpp:1144-1152 | one emitted key appends its header line and its sorted record lines |
| Store.EmittedOrder | source/book/book.cpp:1125-1144 | the emitted keys of the sorted keys are the emitted keys in ascending order |
| Store.EmitEntry | source/book/book.cpp:1144-1152 | writing one entry sorts its list in place and appends its block |
| Store.EmitBlocks | source/book/book.cpp:1130-1158 | the write loop emits the blocks of the emitted keys in sorted order and sorts exactly those lists |
| Store.RecordText | source/book/book.cpp:1151-1152 | the record loop writes the record lines of the list |
| Store.WrittenBookReadBack | source/book/book.cpp:1042-1164 | reading the written file back gives exactly the emitted entries, each with its list sorted |
| MakeBook.ReadWriteReadBack | source/book/book.cpp:826-834 | makebook sort: a book read from any file is writable, and reading its written file back gives exactly the emitted entries, each list sorted |
| MakeBook.MergeWriteReadBack | source/book/book.cpp:755-823 | makebook merge: the merge of two books read from files is writable with trimmed keys, and reading its written file back gives exactly its emitted entries, each list sorted |
| Store.FindSortsOnce | source/book/book.cpp:1365-1370 | a second find of a resident key returns the same list and changes nothing more |
| AsWritten.GetLineAt | source/book/book.cpp:1275 | getline from a line start reads that line and moves past it, setting eofbit at a final unterminated line |
| AsWritten.ScanLines | source/book/book.cpp:1278-1289 | a failed stream reads "" and stays failed; a key read leaves a good stream past the header |
| AsWritten.ProbeStream | source/book/book.cpp:1264-1290 | next_sfen on a failed stream reads ""; a key read leaves a good stream past from |
| AsWritten.ScanPastLastHeader | source/book/book.cpp:1278-1289 | a scan with no header left runs off the end and leaves failbit set |
| AsWritten.ProbePastLastHeader | source/book/book.cpp:1264-1290 | a probe that meets no header leaves failbit set |
| AsWritten.StuckSearchMisses | source/book/book.cpp:1299-1328 | once failbit is set the search as written misses every key |
| AsWritten.StuckStreamMissesEveryKey | source/book/book.cpp:1264-1330 | in a SearchableBook file whose headers all lie in its first half, every key present is found by the reference lookup, yet the search as written misses it |
| AsWritten.BlockAsWrittenStep | source/book/book.cpp:1338-1358 | one pass of the `while (!fs.eof())` loop |
| AsWritten.ExtraStep | source/book/book.cpp:1338-1358 | the extra record belongs only to a block that runs to the end of the file |
| AsWritten.EmptyLineRecord | source/book/book.cpp:90-121 | from_string of the empty line is a record with no move and num 1 |
| AsWritten.EofLoopAddsRecord | source/book/book.cpp:1338-1358 | the loop as written reads the block's records plus, for a final block of a newline-terminated file, that empty-line record |
| Selector.Draw | source/book/book.cpp:1733 | rand(n) lies in [0, n) |
| Selector.NumTotal | source/book/book.cpp:1605-1606 | num_total is at least 1 and at least the total count, and equals a positive total |
| Selector.TotalNumPositive | source/book/book.cpp:1605 | the total count is positive exactly when some record has a positive count |
| Selector.Keep | source/book/book.cpp:1666-1667 | remove_if/erase keeps exactly the records that pass |
| Selector.KeepAppend | source/book/book.cpp:1666-1667 | filtering preserves the relative order of the records kept |
| Selector.KeepAll | source/book/book.cpp:1713-1714 | a filter every record passes removes nothing |
| Selector.ValueLimit | source/book/book.cpp:1703-1708 | the limit is the larger of best - BookEvalDiff and the side to move's limit |
| Selector.Narrowed | source/book/book.cpp:1675-1681 | NarrowBook keeps exactly the records with 10 * num >= num_total |
| Selector.Candidates | source/book/book.cpp:1660-1726 | forced: exactly the records valued at least the first, never empty; else after NarrowBook nothing when empty or below a nonzero depth limit, otherwise exactly those valued at least the limit |
| Selector.FirstPositive | source/book/book.cpp:1752-1758 | the first positive weight, with all weights before it 0 |
| Selector.PrefixPositive | source/book/book.cpp:1752-1758 | sum_move_counts is non-zero exactly from the first positive weight on |
| Selector.HitStep | source/book/book.cpp:1753-1759 | a candidate replaces the pick exactly when the running sum is positive and rand(sum) falls below its weight; a draw is taken exactly then |
| Selector.LastHit | source/book/book.cpp:1752-1760 | the weighted pass ends on the last candidate whose draw hit, or on the uniform pick when none did |
| Selector.WeightedPickPositive | source/book/book.cpp:1748-1760 | with a positive weight, the pass ends on a candidate of positive weight |
| Selector.LastHitAtLeast | source/book/book.cpp:1753-1760 | a later hit always replaces an earlier one |
| Selector.WeightsHavePositive | source/book/book.cpp:1748-1755 | the weight is num, or 1 for all when the counts sum to 0, so a non-empty list has a positive weight |
| Selector.ChooseSpec | source/book/book.cpp:1730-1761 | the pick is a candidate, with a positive count when weighted and some candidate has one |
| Selector.ProbeChoosesCandidate | source/book/book.cpp:1582-1763 | a move is played only from the found list and only if it passed the filters |
| Selector.ProbeGates | source/book/book.cpp:1567-1667 | unforced past BookMoves plies, or with no or an empty list, nothing is played; forced on a non-empty list a move valued at least the first is played |
| Selector.ProbeAvoidsZeroCount | source/book/book.cpp:1736-1760 | with the weighted pass, a record never chosen is not played while some candidate was chosen |
| Selector.BookMoveSelector.Rand | source/book/book.cpp:1572 | prng.rand(n) is the next draw, in [0, n), and advances the generator by one |
| Selector.BookMoveSelector.OnePass | source/book/book.cpp:1752-1760 | the loop ends on LastHit and takes one draw per candidate from the first positive weight on |
| Selector.BookMoveSelector.WeightedPick | source/book/book.cpp:1748-1760 | the two loops pick LastHit of the weights from the uniform pick |
| Selector.BookMoveSelector.PickFrom | source/book/book.cpp:1730-1761 | the pick and the draws taken are those of Choose |
| Selector.BookMoveSelector.ProbeImpl | source/book/book.cpp:1567-1790 | probe_impl plays a move exactly when ProbeSpec does, the same record, after the same number of draws |
| WeightedPass.OutcomeStep | source/book/book.cpp:1752-1760 | one more candidate: the pass ends on it exactly when its draw falls below its hit count, and otherwise as before |
| WeightedPass.WaysSplit | source/book/book.cpp:1752-1760 | the draw vectors extending a prefix split into those whose later draws all miss, which end as the prefix does, and those with a last later hit |
| WeightedPass.LastHitWaysStep | source/book/book.cpp:1752-1760 | vectors ending on a later candidate: the next one hits and the rest miss, or any next draw followed by a later hit |
| WeightedPass.MissProdTimesSum | source/book/book.cpp:1752-1758 | past the first positive weight, the misses after a candidate times the total sum equal all the vectors from that candidate on |
| WeightedPass.MissProdZero | source/book/book.cpp:1752-1758 | no vector misses at the first positive weight, where the draw is below the weight itself |
| WeightedPass.PassIsExact | source/book/book.cpp:1735-1760 | the draw vectors ending the pass on candidate i are the share ws[i] / Sum(ws) of all of them |
| WeightedPass.PassNeverFallsBack | source/book/book.cpp:1748-1760 | with a positive weight, no draw vector leaves the uniform pick in place |
| WeightedPass.PassDrawsOf | source/book/book.cpp:1753-1759 | the generator's draws in the pass, one per candidate, each within the range the counting gives it |
| WeightedPass.LastHitIsOutcome | source/book/book.cpp:1752-1760 | the pass over the generator's draws ends on the outcome of its draw vector, or on the uniform pick when there is none |
| WeightedPass.OutcomeHits | source/book/book.cpp:1752-1758 | a vector in range always hits at the first positive weight |
| WeightedPass.WeightedPassIsExact | source/book/book.cpp:1735-1760 | for a non-empty candidate list, the pass ends on its draw vector's outcome, no vector falls back to the uniform pick, and candidate i wins the share num_i / Σ num of the vectors |

## Left out

- Locking (`std::recursive_mutex`) is not modelled; each operation is atomic.
- Shared pointers are not modelled: the book stores lists by value. `find` and `append` therefore hand out copies, and the `sorted` flag of a list lives only in `MoveList.BookMoves`, not in the book's map.
- `MultiThinkBook`, `multi_think`, `BookMoveSelector::init`, `probe`, `pv_builder` and all of `makebook_cmd` except the merge rule are not modelled: they are drivers, tooling and I/O.
- `read_apery_book` and the AperyBook reader are not part of this model. `Store.MemoryBook.FindPosition` takes the Apery entries of the position as a parameter.
- Store.MemoryBook.FindPosition takes the position's sfen text (`pos.sfen()`) instead of a `Position`.
- Store.MemoryBook.WriteBook: the source rewrites each key through `Position::set` and `sfen()` (book.cpp:1107-1110) before grouping by ply (book.cpp:1112-1119) and sorting (book.cpp:1125-1128). The model writes, groups and orders keys as stored, because `Position` is not part of this model. A key in a non-canonical notation (hand pieces in another order, say) is written, grouped by ply and ordered under its canonical form by the source, and under its stored form by the model.
- Store.MemoryBook.FindPosition: on the fly, with an empty key (which `pos.sfen()` never produces), the answer is left open.
- Store.MemoryBook.Find and FindPosition trim with the IgnoreBookPly value `read_book` recorded. The source reads the option anew each time `trim` runs, so the model assumes it has not changed since the book was read.
- Store.MemoryBook.ReadBook: the file system is a map from names to contents. TextFileReader is modelled as a line splitter that trims trailing white space and skips empty lines. Its other failure modes and the console output are not modelled.
- Store.MemoryBook.WriteBook: FileWriteError is not modelled. The written text is returned instead of being written, and the progress output is left out.
- A header line whose text is shorter than "sfen " makes `line.substr(5)` throw in `next_sfen`. The model reads the key as "" instead.
- Real stream handles are not modelled. The file is a string and offsets are `nat`, and only the findings model `tellg`/`seekg` flags (module `AsWritten`).
- Selector.Narrowed: compares `10 * num >= num_total` on integers instead of `(double)num / num_total < 0.1`, so rounding at the boundary is not modelled.
- Selector.NumTotal: the u64 wrap-around of `num_total`, `sum` and `sum_move_counts` is not modelled. Integers are unbounded there.
- Selector.BookMoveSelector.ProbeImpl takes the list `find` returns as a parameter. It returns the chosen record rather than `bestMove`/`ponderMove`. The ponder replacement through `do_move` (book.cpp:1767-1781) is left out because it needs `Position`. The "info" output (book.cpp:1608-1652) is left out too.
- Selector.BookMoveSelector.ProbeImpl reads its options from an `Options` record rather than the engine's option map.
- Selector.LastHit and Selector.BookMoveSelector.WeightedPick: the generator is an oracle `rng(k, n)` reduced modulo `n`, and the uniformity and independence of its draws are not modelled. What the pass does with uniform draws is modelled by counting: `WeightedPass.WeightedPassIsExact` shows that the actual draws form one of the counted draw vectors, that the pass ends on that vector's outcome, and that candidate i is the outcome of the share w_i / Σw of the vectors.
- BookText.ReadLine: the default `overwrite` argument of `MemoryBook::insert` is declared in `book.h`, which is not part of this model. The model takes it as false (book.cpp:1016), so a repeated move inside a block keeps its first record.
- MapMerge.WalkBook0, MapMerge.WalkBook1 and Merge.MergeBooks test `k in b1` and `k !in b2` directly, where the source's `MemoryBook::find` first trims the key (book.cpp:1168-1174). The two agree on books whose keys are already in trimmed form (`BookText.KeysNormal`), which is what `read_book` builds (`BookText.ReadBookWellFormed`). Books with untrimmed keys are not modelled there.
- OnTheFly.Search and Store.MemoryBook.FindPosition: no lemma shows that the text `write_book` emits meets `SearchableBook`. A key shorter than 35 characters makes a header shorter than 40, and the headers are compared as trimmed keys, so that layout is a hypothesis of those contracts and not a proved property of written books.
- Merge ties: the merge walks visit keys in whatever order the walk picks. `Merge.MergeIsUnique` shows the result does not depend on that order.
- `USI::to_move16`, `to_usi_string`, `StringExtension::trim`/`trim_number`/`to_int` and `LineScanner` are not part of this model. They are given the simple definitions in modules `Text` and `MoveCodec`.
- MoveList.InsertRecord, MoveList.FirstIndexOf and MoveList.BookMoves.Insert: `BookMoves::insert` compares records with `b == bp` (book.cpp:131). `BookMove::operator==` is declared in `book.h`, which is not part of this model, so it is taken as "same move" (`BookTypes.SameMove`), as the comment at book.cpp:129 describes.
- `BookMove::operator<` is taken as "more occurrences first, then higher value first", because `book.h` is not part of this model.

## Findings

| source | as written | input that shows it | evidently intended | confidence | as-written member | corrected member |
|---|---|---|---|---|---|---|
| source/book/book.cpp:1264-1330 | when `next_sfen` scans past the last header, `getline` sets failbit. The later `seekg` calls do not clear it, so every further probe reads "" and the search only moves left | a book file with sorted headers of at least 40 characters, all in its first half, looked up for any key it holds: it is reported missing | clear the stream (`fs.clear()`) before each `seekg`, so that every probe reads from its offset | not executed | AsWritten.StuckStreamMissesEveryKey | OnTheFly.Search |
| source/book/book.cpp:1338-1358 | `while (!fs.eof()) { getline(fs, line); ... }` runs once more after the last line of a newline-terminated file. `from_string("")` then adds a record with no move and num 1 | the last block of any book written by `write_book`, read on the fly | stop when `getline` fails (`while (getline(fs, line))`) | not executed | AsWritten.EofLoopAddsRecord | OnTheFly.ReadBlock |
