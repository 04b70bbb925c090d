# Verified model of the SQL database server

A Dafny 4.11 model of a small C database server: a paged B+ tree index in a file, a bounded thread
pool, CSV tables with an id index, and the text layers in front of them (SQL tokenizer and parser, JSON
strings, the projection of CSV output to JSON rows).  Everything is proved by `dafny verify dfyconfig.toml`.

## What is modelled

**The index** (`src/storage/bptree.c`).  `IndexFile` is the file as bytes with a cursor; header (64 bytes)
and pages (1284 bytes) are written and read field by field, in little-endian two's complement.  Two ghost
fields say what the bytes stand for: a header and a sequence of page images.  `NodeBuffer` is the in-memory
node whose arrays are shifted and split in place.  `BPlusTree` is the tree object with the C fields; its
recursive insertion reads a page, descends, and rewrites pages on the way back.  A ghost value of type
`Tree` is the shape stored in the pages.  The invariant says: the pages 1 to `page_count` are exactly the
nodes of one tree without sharing, all leaves at one depth, keys strictly ascending, child i within
[separator i-1, separator i), 32 to 63 keys in every leaf and 31 to 63 in every inner node below the root,
and the leaf links from `first_leaf_page` list the leaves left to right.  The header counters equal the
number of keys, the number of pages, and one more than the largest key.

**The thread pool** (`src/concurrency/thread_pool.c`).  `PoolMachine` is a transition system with one atomic
step per critical section; workers are idle, parked, woken, running or exited, submitters outside, entering,
blocked, notified or returned.  Parked threads may also wake up spuriously.  `ThreadPool` is the object whose
critical sections, written as methods over the ring array, are steps of that system.  Besides safety in every
reachable state, a pool that is left alone comes to rest after boundedly many steps, stopping or not.  `PoolSubmits`
follows a single submit call: what becomes of its task, and the answer it gets.

**Tables** (`src/storage/database.c`).  A table is a text file and a `BPlusTree`.  `Rows(text)` is what the
file means: for every non-blank line its offset and fields.  The methods build, load, extend and query both.
A filter on the id always goes through the index, which compares numbers; the scan compares a string literal as
text.  `IdLiterals` says when the two agree: exactly when the literal is a number that fits in 32 bits.

**Text layers**.  `Tokenizer` says what a token sequence tells about a text, `TokenScan` finds it;
`Grammar` and `Parser` do the same for statements.  `SqlWords` and `SqlLayout` say, without tokens and grammar, which
texts mean a statement: its words in order, in any layout.  `Json` covers JSON strings, `JsonText` says what a JSON text
reads as (in one way only), and `Projection` what the API adds to an answer, in terms of that reading.

**The engine**.  `SqlEngine` runs a text through tokenizer, parser, optimizer and table.  `EngineRuns` is about
whole histories: a row that was inserted is found by its id ever after, also among concurrent callers.  `DbApi`
is the lock, for an arbitrary engine with an arbitrary step function; `EngineRuns` puts `SqlEngine` in its place, and
`ApiProgress` says that calls are answered.  `SqlAnswers` goes from the characters of a statement to what it does:
which rows a condition lists, and which row an INSERT adds.

Assumptions appear as preconditions: ids stay below 2147483647, because the next id is one more
(`src/storage/bptree.c:614-616`); every line fits the 8192-byte buffers (`src/storage/database.c:292`); the
table file ends in a newline before an INSERT (`src/storage/database.c:1098-1117`); an index that looks up to
date when a table is loaded does agree with it (`src/storage/database.c:487-501`).

Many predicates are written as `forall b :: Seal(b) ==> ...` or `forall b :: Shut(b) ==> ...`.  Both markers are
defined in `Machine` and hold of `true`, so this changes nothing about what the predicates mean and only controls
where the solver unfolds them.

## Model

| member | source | states |
|---|---|---|
| `FileLayout.OverwriteElsewhere` | src/storage/bptree.c:27-29 | writing a range of the file leaves every byte outside it alone, so disjoint page ranges never disturb each other |
| `FileLayout.WriteBlock` | src/storage/bptree.c:118-152 | writing page p, an existing one or the next new one, changes that 1284-byte block and no other block and no header byte |
| `FileLayout.WriteHead` | src/storage/bptree.c:57-80 | writing the header changes no page |
| `DiskFormat.DecodeEncode` | src/storage/bptree.c:57-194 | a fixed-width signed field reads back as the value written, over the whole range of its width |
| `DiskFormat.FourBytes` | src/storage/bptree.c:57-152 | the four bytes of a 32-bit field, least significant first, spell its value, in two's complement when it is negative |
| `DiskFormat.PageLayout` | src/storage/bptree.c:118-152 | page p is at 64 + 1284 (p - 1); leaf flag, key count, next leaf, 63 keys, 64 children and 63 values lie at bytes 0, 4, 8, 16, 268 and 780 of it |
| `DiskFormat.HeaderLayout` | src/storage/bptree.c:57-80 | magic `BPTIDX1`, version 1, order 63 and the five counters lie at bytes 0 to 51 of a 64-byte header, in this order |
| `IndexFile.HeaderReadsBack` | src/storage/bptree.c:82-116 | a written header passes the magic, version and order checks and gives back all five counters |
| `IndexFile.IndexFile.WriteNode` | src/storage/bptree.c:118-152 | writes exactly one page image; refuses a node with more than 63 keys without changing a byte |
| `IndexFile.IndexFile.ReadNode` | src/storage/bptree.c:154-194 | returns the node last written to the page; refuses page numbers outside 1..page_count |
| `IndexFile.IndexFile.WriteHeader` | src/storage/bptree.c:57-80 | stores the header and keeps every page; on an empty file creates one without pages |
| `IndexFile.IndexFile.ReadHeader` | src/storage/bptree.c:82-116 | accepts exactly the files with right magic, version and order; on a valid file returns the stored header |
| `NodeBuffer.NodeBuffer.FindInsertIndex` | src/storage/bptree.c:209-217 | the first position whose key is not below the searched key |
| `NodeBuffer.NodeBuffer.FindChildIndex` | src/storage/bptree.c:219-227 | the first position whose separator is above the searched key |
| `NodeBuffer.NodeBuffer.InsertEntry` | src/storage/bptree.c:288-297 | the in-place shift and store insert one key and one value at the position and change nothing else |
| `NodeBuffer.NodeBuffer.InsertChild` | src/storage/bptree.c:354-367 | the in-place shifts insert a separator and, one place further, a child page |
| `NodeBuffer.NodeBuffer.SplitLeaf` | src/storage/bptree.c:304-335 | lower half stays, upper half moves, nothing is lost |
| `NodeBuffer.NodeBuffer.SplitInner` | src/storage/bptree.c:369-408 | the middle separator is promoted; keys and children on both sides of it are kept in order |
| `TreeShape.InsertOrdered` | src/storage/bptree.c:255-409 | insertion of an absent key keeps the search order, and a promoted separator really separates the halves |
| `TreeShape.InsertBalanced` | src/storage/bptree.c:255-409 | insertion keeps all leaves at one depth |
| `TreeShape.InsertOccupied` | src/storage/bptree.c:304-335 | every node below the root keeps 32..63 entries or 31..63 separators, also after splits |
| `TreeShape.InsertEntries` | src/storage/bptree.c:255-409 | the entry sequence gains exactly the new entry, at one position |
| `TreeShape.InsertPages` | src/storage/bptree.c:196-207 | insertion uses the pages it had plus consecutive fresh ones, without sharing |
| `TreeShape.SearchIsComplete` | src/storage/bptree.c:229-244 | a key is in the tree exactly when it is in the leaf its search ends in |
| `TreeShape.TargetSplits` | src/storage/bptree.c:229-244 | everything left of the search leaf is smaller than the key, everything right of it larger |
| `TreeShape.ContentsInsertAt` | src/storage/bptree.c:255-409 | inserting an entry into an ascending sequence updates the map it stands for at one key |
| `TreeShape.TreeAtLeast` | src/storage/bptree.c:592-611 | a tree of h >= 2 levels holds at least 2 * 32^(h-1) keys |
| `TreeShape.HeightAtMostSeven` | include/bptree.h:10-11 | with 32-bit keys and 63 keys a node there are at most seven levels |
| `PagedTree.StoredChain` | src/storage/bptree.c:431-457 | following the leaf links of a stored tree visits its leaves left to right and ends |
| `PagedTree.InsertedThroughChild` | src/storage/bptree.c:337-352 | when a child did not split, the parent page is right as it stands and need not be written |
| `PagedTree.ParentWritten` | src/storage/bptree.c:354-408 | once the parent and its right half are written, the pages store the tree with the key inserted; the copy of the parent read before the recursive call was still current |
| `IndexInvariant.IndexBounded` | src/storage/bptree.c:592-611 | fewer than 2^33 pages and at most seven levels, from the invariant alone |
| `IndexInvariant.ReachablePages` | src/storage/bptree.c:196-207 | the page count is the number of pages reachable from the root |
| `IndexInvariant.WholeIndex` | src/storage/bptree.c:543-619 | an insertion that did not split the root keeps the whole invariant and adds one entry |
| `IndexInvariant.SplitIndex` | src/storage/bptree.c:592-611 | a new root above the two halves keeps the whole invariant, one level higher |
| `IndexInvariant.NextIdMeaning` | src/storage/bptree.c:613-616 | the next id is above every key and the least such number from 1 on |
| `IndexInvariant.HeldUnique` | src/storage/bptree.c:480-533 | header and pages determine the stored tree |
| `BPlusTree.BPlusTree.AllocatePage` | src/storage/bptree.c:196-207 | adds one page at the end, numbered page_count + 1, and updates the stored header |
| `BPlusTree.BPlusTree.InsertRecursive` | src/storage/bptree.c:255-409 | the pages go from storing t to storing the outcome of inserting into t; only the search path and new pages are written; a present key is reported and changes nothing |
| `BPlusTree.BPlusTree.InsertIntoLeaf` | src/storage/bptree.c:272-335 | the leaf case: duplicate found or entry added, leaf split and relinked when it overflows |
| `BPlusTree.BPlusTree.InsertFirst` | src/storage/bptree.c:553-582 | the first key becomes a single root leaf |
| `BPlusTree.BPlusTree.Insert` | src/storage/bptree.c:543-619 | succeeds exactly for an absent key, then the map gains that key and the invariant holds; otherwise no page and no header field changes |
| `BPlusTree.BPlusTree.FindLeafPage` | src/storage/bptree.c:229-244 | ends in the leaf for the key after reading exactly one page per level, along the search path |
| `BPlusTree.BPlusTree.Search` | src/storage/bptree.c:621-651 | finds exactly the keys of the map, with their values |
| `BPlusTree.BPlusTree.VisitFromLeaf` | src/storage/bptree.c:431-457 | calls back for every entry from a position in the chain to its end, or up to a refusal |
| `BPlusTree.BPlusTree.Visit` | src/storage/bptree.c:653-735 | for all six operators the calls are the matching entries in ascending order, up to the first refusal; the result says whether there was one |
| `BPlusTree.BPlusTree.Open` | src/storage/bptree.c:480-533 | an empty file becomes an empty index; any other is accepted exactly when its header is, and its tree is taken over unchanged |
| `BPlusTree.BPlusTree.Reopen` | src/storage/bptree.c:468-533 | closing and opening again keeps map, pages and counters |
| `BPlusTree.BPlusTree.NextId` | src/storage/bptree.c:539-541 | an unused id above all keys, and no larger than need be |
| `RangeVisit.SelectionMeaning` | src/storage/bptree.c:653-735 | the selection is the set of entries satisfying the operator, each once, ascending |
| `RangeVisit.SelectionPlain` | src/storage/bptree.c:653-735 | for each operator in plain arithmetic: = selects the entries with e.key == key, <= those with e.key <= key, and so on |
| `RangeVisit.VisitedUnique` | src/storage/bptree.c:653-735 | selection and callback determine the calls made and the result |
| `RangeVisit.TargetInLeaves` | src/storage/bptree.c:674-695 | the search leaf stands in the chain with only smaller keys before it and only larger ones behind it |
| `PoolSafety.QueueRefined` | src/concurrency/thread_pool.c:203-207 | every step is a step of a bounded first-in first-out queue or leaves the queue alone |
| `PoolSafety.InvKept` | src/concurrency/thread_pool.c:175-367 | every step of every thread, spurious wake-ups included, keeps the invariant |
| `PoolSafety.AwakeKept` | src/concurrency/thread_pool.c:181-198 | no step loses a wake-up: a parked worker implies count <= woken workers, a blocked submitter implies count + notified submitters >= capacity, and nobody is parked once stopping |
| `PoolRuns.RunSafe` | src/concurrency/thread_pool.c:175-329 | in every reachable state accepted tasks = started tasks followed by queued tasks, in order and within the capacity; started = finished + running; no lost wake-up |
| `PoolRuns.NothingAcceptedAfterStop` | src/concurrency/thread_pool.c:316-319 | after stopping is set no task is accepted |
| `PoolRuns.JoinedMeansFinished` | src/concurrency/thread_pool.c:337-359 | when every worker is joined every accepted task has finished |
| `PoolRuns.QueueIsServed` | src/concurrency/thread_pool.c:181-198 | a non-empty queue always has a worker able to move |
| `PoolRuns.NoDeadlock` | src/concurrency/thread_pool.c:175-367 | a reachable state with no step left has an empty queue, nothing running, nobody waiting in submit, and a shutdown not begun or complete |
| `PoolRuns.PoolSettles` | src/concurrency/thread_pool.c:175-329 | without new calls and spurious wake-ups every run from a reachable state, stopping or not, has a bounded number of steps, and one that can take no more steps is quiescent with every accepted task finished |
| `PoolRuns.CanSettle` | src/concurrency/thread_pool.c:175-329 | from every reachable state such a run ends in quiescence |
| `PoolRuns.ShutdownEnds` | src/concurrency/thread_pool.c:344-359 | after stopping is set, and as long as no new submit call begins, only a bounded number of steps is possible, spurious wake-ups included, and at their end all workers have exited and been joined and every accepted task has finished |
| `PoolSubmits.SubmitAnswered` | src/concurrency/thread_pool.c:300-329 | when the pool has come to rest after a submit call, its caller has returned, with success if and only if the function is not null and the pool was not stopping |
| `PoolSubmits.SubmitAddsTask` | src/concurrency/thread_pool.c:300-329 | of two pools that start alike and come to rest, one of them called once, the called one has accepted and run exactly the submitted task more, or the same tasks when the function is null or the pool is stopping |
| `PoolSubmits.LedgerKept` | src/concurrency/thread_pool.c:312-328 | while the pool is not stopping no step loses a task that was asked for or makes one up |
| `PoolSubmits.AnswerIsTrue` | src/concurrency/thread_pool.c:312-328 | in any interleaving a submit call that returns true has just had its own task accepted, and one that returns false finds the pool stopping |
| `ThreadPool.ThreadPool.constructor` | src/concurrency/thread_pool.c:237-290 | zero workers means one, zero capacity means four slots a worker; the pool starts in an initial state |
| `ThreadPool.ThreadPool.BeginSubmit` | src/concurrency/thread_pool.c:300-305 | a null function is refused at once; any other task goes on to the critical section |
| `ThreadPool.ThreadPool.WorkerSection` | src/concurrency/thread_pool.c:181-205 | a worker's critical section is a step of the system and keeps the invariant; it leaves with a task exactly when the queue was not empty |
| `ThreadPool.ThreadPool.SubmitSection` | src/concurrency/thread_pool.c:312-328 | a submitter's critical section is a step of the system; it succeeds exactly when not stopping and not full, and then its own task is the last one accepted |
| `ThreadPool.ThreadPool.BeginShutdown` | src/concurrency/thread_pool.c:344-348 | sets stopping and wakes everybody parked |
| `ThreadPool.ThreadPool.JoinNext` | src/concurrency/thread_pool.c:350-359 | joins the workers in order; after the last one every accepted task has finished |
| `Names.CaseEqual` | src/common/util.c:38-53 | ASCII case-insensitive equality |
| `Names.SameNameMeaning` | src/common/util.c:38-53 | two names match exactly when they have the same length and differ only between capital and small letters |
| `Names.FindColumn` | src/storage/database.c:178-188 | the first column with the name, or -1 when there is none |
| `Decimal.ParseIntStrict` | src/storage/database.c:161-176 | accepts exactly the numerals (blanks, optional sign, digits, nothing after) of 32-bit integers and returns the integer |
| `Decimal.DenotesOne` | src/storage/database.c:161-176 | a text denotes at most one integer |
| `Decimal.PrintDenotes` | src/storage/database.c:906-916 | a printed id parses back to the id |
| `Decimal.PrintShortest` | src/storage/database.c:906-916 | a printed id is the shortest text for its number, and the only one of that length: no sign, blank or zero too many |
| `CsvText.SplitCsvLine` | src/storage/database.c:115-159 | the fields contain no comma and joined with commas give the line |
| `CsvText.SplitUnique` | src/storage/database.c:115-159 | a line splits in one way only |
| `CsvText.SplitOfJoin` | src/storage/database.c:899-904 | values without commas come back unchanged from the line they were joined into |
| `CsvText.StorableCodes` | src/storage/database.c:899-904 | a value can be stored exactly when it has no comma, newline or carriage return |
| `TableText.TrimNewline` | src/storage/database.c:106-113 | returns a prefix that does not end in a newline or carriage return; only such characters were cut off |
| `TableText.ReturnsIgnored` | src/storage/database.c:106-113 | a file with carriage returns before its newlines has the same columns and the same fields in every row |
| `TableText.RowsLieInOrder` | src/storage/database.c:291-339 | row offsets strictly increase, and each is the start of the line that holds the row |
| `TableText.AppendAddsRow` | src/storage/database.c:1098-1117 | an append to a file that ends in a newline adds exactly one row, at the old end of the file, with exactly the stored values; earlier rows keep their offsets |
| `TableText.AppendIffTerminated` | src/storage/database.c:1098-1117 | the append adds the row it was meant to add if and only if the file ended in a newline |
| `TableText.GluedRow` | src/storage/database.c:1098-1117 | a concrete file without final newline, on which the appended row is glued to the last one |
| `TableIndex.ProgressPush` | src/storage/database.c:325-331 | entering a row with a new id into the map keeps the agreement of map and rows read so far |
| `TableIndex.ProgressStuck` | src/storage/database.c:316-331 | a row that cannot be entered means that no index can be built for the file |
| `TableIndex.NextAfter` | src/storage/database.c:1125-1128 | the next id is unused, and counting on after an insertion gives the next id of the larger map |
| `TableIndex.NextIsUnique` | src/storage/database.c:335-336 | the map determines the next id, so a rebuild arrives at the same one |
| `DatabaseTable.DatabaseTable.LoadSchema` | src/storage/database.c:260-281 | succeeds exactly when there is a first line with an id column |
| `DatabaseTable.DatabaseTable.BuildIndex` | src/storage/database.c:291-339 | succeeds exactly when every row has the right number of fields and an integer id and no id occurs twice; then the index maps exactly the ids to the row offsets |
| `DatabaseTable.DatabaseTable.CountTableRows` | src/storage/database.c:345-366 | counts the non-blank lines |
| `DatabaseTable.DatabaseTable.RebuildIndex` | src/storage/database.c:388-406 | starts from an empty index file; on success table and index agree |
| `DatabaseTable.DatabaseTable.Load` | src/storage/database.c:420-506 | yields a table in agreement with its index exactly when index header, schema and rows allow it; an index that does not look up to date is rebuilt whatever its pages hold |
| `InsertRow.BuildInsertRow` | src/storage/database.c:940-1042 | returns the row the statement asks for and its id; fails exactly when there is none; without names the row is the list of values in order, all of them or all but a generated id; with names each value stands in the column its name finds and only a missing id is generated |
| `InsertRow.RowMeaning` | src/storage/database.c:957-1028 | a row is the one asked for if and only if, without names, it is the list of values or becomes that list when the generated id is taken out, and, with names, each name's column holds that name's value and no other column but a generated id is left |
| `InsertRow.RowForOne` | src/storage/database.c:940-1042 | a statement asks for at most one row |
| `DatabaseTable.DatabaseTable.ExecuteInsert` | src/storage/database.c:1055-1136 | succeeds exactly when the row is complete, its id new and its values storable; then file and index gain that row together and still agree; otherwise neither changes |
| `DatabaseTable.AppendKeeps` | src/storage/database.c:1098-1128 | appending the line and entering its offset keeps agreement, row count and next id right |
| `DatabaseTable.EntryRow` | src/storage/database.c:635-652 | reading at an offset the index holds gives the row with that id |
| `SelectRows.BuildOutputIndices` | src/storage/database.c:508-550 | the output columns, or failure exactly when one is unknown |
| `SelectRows.WriteProjection` | src/storage/database.c:552-572 | one output line with the chosen fields in the chosen order |
| `SelectRows.RowMatches` | src/storage/database.c:608-633 | numeric comparison for number literals; for strings the byte order, in which a text comes after its own prefixes; error on missing column or non-numeric cell |
| `SelectRows.OrderMeaning` | src/storage/database.c:632 | the comparison of two texts is negative exactly when, where they first differ, the left one ends or has the smaller character, positive exactly when that holds the other way round, and zero only for equal texts |
| `SelectRows.IndexRefinesScan` | src/storage/database.c:654-753 | the rows found through the index are a permutation, by ascending id, of the rows the scan passes |
| `SelectRows.NumberMeaning` | src/storage/database.c:714-745 | a filter taken as a number passes exactly the rows whose id compares that way with its literal |
| `IdLiterals.FieldsAgreeIff` | src/storage/database.c:621-632 | for a literal that is an integer, scan and index take every id field the same way if and only if it is a number literal |
| `IdLiterals.RowsAgreeIff` | src/storage/database.c:621-632 | over all tables, a scan and the index give the same answer to a filter on the id, failure included, if and only if its literal is a number that fits in 32 bits |
| `IdLiterals.FilesAgreeIff` | src/storage/database.c:842-897 | the same over all table files that agree with their index, for literals within the limits; the tables that differ have at most one row |
| `DatabaseTable.DatabaseTable.IndexedSelect` | src/storage/database.c:702-753 | for all six operators and both kinds of literal: exactly the rows whose id compares that way with the literal's number, by ascending id, scanned = matched = number of rows; fails exactly on a literal that is no 32-bit integer |
| `DatabaseTable.DatabaseTable.LinearSelect` | src/storage/database.c:761-831 | returns the rows satisfying the filter in file order; fails exactly when the filter makes no sense on some row |
| `DatabaseTable.DatabaseTable.ExecuteSelect` | src/storage/database.c:842-897 | succeeds exactly when all columns exist and the filter makes sense to the path taken; returns, up to order, the rows that satisfy the filter, ids compared as numbers; uses the index exactly for a filter on the id |
| `Tokenizer.NothingLost` | src/sql/tokenizer.c:135-298 | token texts and the white space between them spell the whole input |
| `Tokenizer.PositionsIncrease` | src/sql/tokenizer.c:135-298 | token positions strictly increase |
| `Tokenizer.OneReading` | src/sql/tokenizer.c:135-298 | a text has at most one reading as tokens |
| `Tokenizer.KeywordWords` | src/sql/tokenizer.c:34-54 | a word is a keyword exactly when it matches select, from, where, insert, into or values, in whatever case |
| `TokenScan.TokenArray.Append` | src/sql/tokenizer.c:11-31 | appends one token, also when the array has to be doubled |
| `TokenScan.TokenizeIdentifier` | src/sql/tokenizer.c:57-78 | takes the longest word and classifies keywords whatever their case |
| `TokenScan.TokenizeNumber` | src/sql/tokenizer.c:81-101 | takes an optional minus sign and the longest run of digits |
| `TokenScan.TokenizeString` | src/sql/tokenizer.c:104-132 | takes everything up to the closing quote; without one no token stands here |
| `TokenScan.TokenizeSql` | src/sql/tokenizer.c:135-298 | succeeds exactly on texts that have a reading and returns it, closed by one end token |
| `Grammar.ParsesIffWritten` | src/sql/parser.c:406-450 | a token sequence is accepted with result s if and only if it writes s, with or without a semicolon |
| `Grammar.OneStatement` | src/sql/parser.c:406-450 | no token sequence writes two statements |
| `Parser.Parser.ParseColumnList` | src/sql/parser.c:122-158 | reads what the grammar's column list reads |
| `Parser.Parser.ParseInsertColumnList` | src/sql/parser.c:161-197 | reads a name list, refusing a name that occurs twice whatever its case |
| `Parser.Parser.ParseWhereClause` | src/sql/parser.c:235-263 | reads what the filter of the grammar reads: a column, a comparison sign and a literal; `SqlAnswers.FilterInWords` says what the signs mean |
| `Parser.Parser.ParseSelect` | src/sql/parser.c:266-302 | reads what the grammar's SELECT reads |
| `Parser.Parser.ParseInsert` | src/sql/parser.c:321-403 | reads what the grammar's INSERT reads, refusing unequal column and value counts |
| `Parser.ParseStatement` | src/sql/parser.c:406-450 | returns the statement the tokens write; none exactly when they write none |
| `SqlText.Compile` | src/sql/engine.c:207-219 | tokenizing and parsing gives the statement a text means, or nothing when it means none |
| `SqlText.MeansOne` | src/sql/parser.c:406-450 | a text means at most one statement |
| `SqlText.PrintedMeans` | src/sql/parser.c:406-450 | the canonical text of a statement, which `SqlWords.StatementMeans` spells out, means that statement |
| `SqlWords.StatementMeans` | src/sql/parser.c:266-450 | `SELECT a , b FROM t WHERE c < 'x'`, `INSERT INTO t ( a , b ) VALUES ( 1 , 'x' )` and so on, for all names that are no keywords and all literals: the text means the statement with these names and literals in these places, and no other |
| `SqlLayout.StatementWords` | src/sql/parser.c:266-450 | the words of a statement, a blank after each, are its text |
| `SqlLayout.AnyLayoutMeans` | src/sql/tokenizer.c:135-298 | the same for every layout: any white space between the words, none where they are apart without it, keywords in any case, `<>` for `!=`, with or without a semicolon |
| `SqlAnswers.FilterInWords` | src/sql/parser.c:199-263 | from the characters to the comparison: a SELECT with a condition ends in WHERE, a column, one of = != <> < <= > >= and a literal; its operator compares as that sign says, and a field passes exactly when it does so, as text for a quoted literal and as a number otherwise |
| `Json.JsonEscape` | src/api/api_server.c:531-567 | a legal string body by section 7 of RFC 8259 that decodes to the text, at most six times as long; the buffer never overflows |
| `Json.DecodesOne` | src/api/api_server.c:531-567 | a string body decodes to one text only |
| `Json.ExtractJsonSql` | src/api/api_server.c:436-504 | the value of the first "sql" field, none when there is no such field or it is never closed |
| `Json.ExtractsBack` | src/api/api_server.c:436-504 | extracting from the body made for t gives t if and only if its only control characters are newline, carriage return and tab |
| `Json.ClientRead` | src/api/api_server.c:436-504 | whatever client wrote the request: the string in its first "sql" field is read as the text it stands for if and only if it has no escape `\b`, `\f` or `\u` |
| `Json.EscapeCodes` | src/api/api_server.c:531-567 | the eight short escapes by the character codes of section 7 of RFC 8259 |
| `Json.EscapedClean` | src/api/api_server.c:531-567 | what is escaped has no control characters |
| `Projection.StringBuilder.Reserve` | src/api/api_server.c:607-629 | makes room by doubling and keeps the text |
| `Projection.StringBuilder.Append` | src/api/api_server.c:631-641 | appends the text |
| `Projection.IsIdentifierHeader` | src/api/api_server.c:683-704 | holds exactly when the fields of the header line consist of letters, digits and underscores and are not all empty |
| `Projection.HeaderIff` | src/api/api_server.c:683-704 | a list of names passes the check if and only if they consist of letters, digits and underscores and are not all empty |
| `Projection.WordsPass` | src/api/api_server.c:683-704 | every list of SQL names passes it |
| `Projection.CountCsvFields` | src/api/api_server.c:706-721 | the number of fields of a line, none for the empty line |
| `Projection.FillFields` | src/api/api_server.c:723-742 | the first n fields of the line, missing ones empty |
| `JsonText.ReadsOne` | src/api/api_server.c:653-673 | a JSON text reads as one value only, with one rest |
| `JsonText.ShownReadsOnly` | src/api/api_server.c:653-673 | the compact text of a value, its strings escaped, reads as that value and as nothing else |
| `Projection.AppendTableProjection` | src/api/api_server.c:760-878 | what is added reads, within braces, as the columns of the CSV header, one object per non-blank line and the count; without an identifier header as an empty table; and as nothing else |
| `Projection.ProjectionRecovers` | src/api/api_server.c:760-878 | with names of letters, digits and underscores, the JSON for a SELECT's output reads as its columns and its rows in order, all of them, with the right count, if and only if no output line is blank; with any other names it reads as an empty table |
| `Projection.SelectAnswered` | src/storage/database.c:552-588 | with two or more columns the JSON reads as exactly the columns and rows of the SELECT when the names consist of letters, digits and underscores, and as an empty table when they do not |
| `Projection.SmallTableShown` | src/api/api_server.c:760-878 | a table with two columns and one row, character by character |
| `Projection.TableOne` | src/api/api_server.c:760-878 | what is read determines columns and rows |
| `Projection.ByNameIff` | src/api/api_server.c:842-855 | every row can be read back by column name if and only if no two columns have the same name |
| `Projection.OrderFreeIff` | src/api/api_server.c:842-855 | the row objects, as unordered collections of members, determine the rows if and only if no two columns have the same name |
| `Projection.SelectByNameIff` | src/sql/optimizer.c:12-47 | the rows of a SELECT can be read by column name if and only if it lists its columns or the table has no two columns of the same name |
| `Optimizer.RemoveRepeats` | src/sql/optimizer.c:12-47 | moves the first occurrence of each name up, in place |
| `Optimizer.FirstNamesMeaning` | src/sql/optimizer.c:12-47 | no name is lost, none is left twice whatever its case, none is made up |
| `Optimizer.FirstNamesInOrder` | src/sql/optimizer.c:12-47 | the kept names stand in the order of the list, each where it first occurs |
| `SqlEngine.Engine.Execute` | src/sql/engine.c:178-244 | tokenizes, parses, optimizes and executes: answer and new table are those the text means, or failure with the table unchanged |
| `SqlEngine.ExecutesOne` | src/sql/engine.c:178-244 | the answer to a text and the table it leaves are determined by the text and the table it found |
| `SqlAnswers.WhereAnswered` | src/storage/database.c:608-633 | from the characters of the text to the rows in the answer: an answered SELECT with a condition lists exactly the rows that satisfy the sign and literal it ends in, each once, by ascending id when the column is the id and in file order otherwise |
| `SqlAnswers.InsertAnswered` | src/storage/database.c:1055-1136 | an answered INSERT adds one row to the file, each value under its name or in the order of the columns, and names the id of that row |
| `EngineRuns.HistoryGrows` | src/storage/database.c:1055-1136 | over any sequence of statements file and index stay in agreement and every row stays where it is |
| `EngineRuns.LookupFinds` | src/storage/database.c:702-753 | a SELECT with WHERE id = k is answered with the header and the one row stored under k |
| `EngineRuns.LookupMisses` | src/storage/database.c:702-753 | without a row of that id it is answered with the header alone |
| `EngineRuns.InsertThenLookup` | src/storage/database.c:1055-1136 | whatever statements come before and in between, a later SELECT with WHERE id = k returns exactly the row that was inserted under k |
| `EngineRuns.ConcurrentLookup` | src/api/db_api.c:200-253 | the same for concurrent callers: in any interleaving, a lookup that gets the lock after an insertion returns exactly the inserted row |
| `DbApi.Serializable` | src/api/db_api.c:200-253 | over any interleaving: results and shared state are those of running the statements one by one in lock order, and every caller gets the answer to its own statement |
| `DbApi.SerialOne` | src/api/db_api.c:200-253 | running statements one by one has one outcome |
| `ApiProgress.CallAnswered` | src/api/db_api.c:200-253 | when the API has come to rest after a call, that caller has the answer logged for its own statement, and the log is a serial run |
| `ApiProgress.NobodyLeft` | src/api/db_api.c:216-231 | no deadlock: when no caller can move the lock is free and nobody is waiting |
| `ApiProgress.CanRest` | src/api/db_api.c:216-231 | if every statement ends when run alone, the API comes to rest from every reachable state |

## Left out

- I/O and allocation failures: the code does not roll back half-done writes; every file operation is taken to succeed.
- The duplicate scan in the leaf case (`src/storage/bptree.c:283-287`) repeats the search for the insertion point and finds the same one; it is not modelled a second time.
- The visit callback is a function from the calls made so far to its answer; a callback that changes the tree it visits is not modelled.
- BPlusTree.BPlusTree.Insert: requires a key below 2147483647, because the C code computes key + 1 in an int.
- DatabaseTable.DatabaseTable.ExecuteInsert: requires a final newline in the file and a row that fits a line buffer; `TableText.AppendIffTerminated` says exactly when the newline matters.
- DatabaseTable.DatabaseTable.Load: that an index with the right number of keys and a recent enough modification time is sound and agrees with its table is a precondition; the modification time is a parameter.
- IdLiterals.FilesAgreeIff: takes literals that leave room for twelve more characters in a line and are not the largest 32-bit integer, which no table can hold; `IdLiterals.RowsAgreeIff` has no such limits.
- SqlEngine.Engine.Execute: the engine has one table, already loaded, and a statement for any other table fails; a row to be added must fit the line buffers.
- Table cache, paths and opening files by name: a table is handed its two files.
- JsonText.ReadsOne: the values are strings, natural numbers, arrays and objects; other JSON values do not occur in what is written.
- Characters are taken one by one as bytes of the C locale, and texts contain no NUL byte.
- Growing arrays by one element in the parser and freeing memory: sequences are extended instead.
- Error messages: only whether an operation fails, not its text.
- Thread creation and joining beyond the order of joins, and freeing the pool while a submitter is still inside a call.
- Fairness: `PoolRuns.PoolSettles` and `PoolRuns.NoDeadlock` say that the pool as a whole moves on, not which thread does.
- Sockets, HTTP, metrics, logs, the REPL, statement copies and `src/storage/storage.c`: no deep property.
- DbApi.Serializable: the engine is an arbitrary step function (`EngineRuns.ConcurrentLookup` puts the modelled engine in its place, a statement as one step); that its private state cannot touch another caller's output is built into its type.
