# A Dafny model of toySQL

toySQL is a small SQL server: a table stored as a B+tree of pages in one file, a write-back page cache with
least-recently-used eviction, a lexer and parser for five statement forms, and a work queue between threads. This
project models these four parts and the byte layout of the pages, and proves what they are for.

## The parts

**The B+tree** (`BTree*.dfy`, `BareTree.dfy`, `LastSeparators.dfy`, `LateParents.dfy`, `LeafSplitAsWritten.dfy`,
`NumbersAsSlots.dfy`, `FullTree.dfy`, `SmallTree.dfy`, `LineExamples.dfy`, `Sequences.dfy`). The table is a class whose
methods overwrite a flat store of pages that name each other by number, as `src/storage/btree.cpp` does. A ghost field
holds what the pages mean: an abstract tree (height, key range, children and parent of every page number) and the map
from keys to rows. `Table.Valid()` ties the two page by page with conditions on one node and its children only;
`BTreeShape.dfy` and `BTreeTheorems.dfy` show what they imply for the whole tree. The capacities are parameters: at
least 1 cell in a leaf, at least 3 keys in an internal node; they are 15 and 3 in the source. Keys are 32-bit, and the
binary searches are shown to compute no index below 0.

- `BTreeShape`: the abstract tree, growing its root, splitting a node.
- `BTreePages`: pages, and when a store of pages stands for a tree.
- `BTreePlacing`, `BTreeSplitting`, `BTreeRaising`, `BTreeRoom`, `BTreeLeaves`: one step each of an insertion, on
  values.
- `BTreeTable`: the classes `Table` and `Cursor` with the source's operations.
- `BTreeTheorems`, `BTreeCapacity`: the whole tree, and the number of pages.
- `LastSeparators`, `LateParents`, `LeafSplitAsWritten`, `NumbersAsSlots`, `LinesOnBytes`: the four places that the
  table does not follow.
- `BareTree`: the cascade of splits on pages of which only the heights are known. With it these modules follow an
  insertion that went wrong to its end.
- `FullTree`, `SmallTree`, `LineExamples`: valid tables with the source's capacities. With 960 rows each of the four
  places goes wrong, with 120 line 234 does for half of the leaves. The tables are shown to be valid, not to be reached:
  their pages are numbered level by level, as no run of insertions does it.

Four places of `btree.cpp` differ from what the code around them needs. The table models what is needed; the modules
named above show what the lines do as they stand, one at a time, each at every level of an insertion, and exactly when
an insertion with them is right. Where it is not, no table of the new rows has the pages that are left. A full page
keeps the first 3 / 2 = 1 of its separators when it is divided and computes the others anew; a page with room keeps all.

| lines | as written | modelled | right exactly if |
|---|---|---|---|
| 155-162 | the largest key of an internal node is its last separator, without the right child | the largest key below the right child | the insertion splits no internal node |
| 234 | the old largest key is passed where the index of a slot is expected | the index that the search for that key finds, as in line 430 | for each internal node that the insertion splits, with e its old largest key modulo 2^29: e < 510, and either e is its slot in the page above, or neither its slot nor e is among the separators which that page keeps; for the root, e = 0. From 510 on the write leaves the page, which is an outcome of its own. With keys below 2^29 no insertion that splits an internal root is right |
| 237-238 | the new node's parent is set after the insertion into that parent, and may undo what a split there set | it is set before | on the way up from the split node, as far as the pages above are full, no node is the child in the middle of the page above it |
| 428 | the leaf's own page is fetched in place of its parent's: its first row is overwritten, and the parent's separator is not lowered | the parent's page | the four bytes written are those of the row or lie behind its text, and the leaf's separator is none that the parent keeps: it is the right child, or the parent is full and the leaf is not its first child. Where the four bytes lie is the end of a search in the row's own bytes: texts of up to 19 characters are spared, texts of 23 or more are damaged |

**The pager** (`Lru.dfy`, `Pager.dfy`, `Residency.dfy`). Cache entries are objects, since callers keep them and write
through them. `Lru.dfy` proves the order of the list over any trace of accesses, `Pager.dfy` that the pager is a flat
array of pages, and `Residency.dfy` how large the cache must be for the tree's raw page pointers to stay live. The
source's tree does not mark the pages it writes as dirty (the marks are commented out at `src/storage/btree.cpp:124` and
`:438`); `Pager.Pager.WritePage` is a write with the mark (`src/storage/ds.h:36`), `Pager.Pager.Poke` one without it,
and `Pager.RawWriteThenRun` says exactly which writes of the second kind the next flush brings to the file.

**The layout** (`Bytes.dfy`, `Layout.dfy`, `RawPages.dfy`, `InnerPages.dfy`, `PageImages.dfy`, `LinesOnBytes.dfy`). The
fields of both kinds of node as byte ranges of a page, and rows as 260 bytes, with 32-bit numbers in little-endian
order. `Layout.LeafBytesIff` and `InternalBytesIff` say by their numbers which bytes are what, and the insertions state
the bytes they leave. Writing a field's bytes is setting that field of the node the bytes stand for. `PageImages` takes
the bytes of a page to the page that the tree's theorems speak of, and `LinesOnBytes` carries out lines 234 and 428-430
on the bytes.

**The parser** (`Lexing.dfy`, `TokenStreams.dfy`, `Grammar.dfy`, `LetterCase.dfy`, `StatementTexts.dfy`, `Parsing.dfy`,
`Printing.dfy`). The lexer and the parser are classes with
the source's loops. A lexical grammar (`Lexing.Spells`) and a grammar of statements (`Grammar.Derives`) say,
independently of them, which texts are which statements. `TokenStreams` says by their codes what the characters are read
as and where a space may stand, `LetterCase` that letter case does not matter in keywords, and `StatementTexts` has the
five commands as they are typed. The list loops, which the source repeats in each statement
method, are one method `List`, and its optional WHERE part is the method `Where`. Characters are ASCII. The empty JSON
object is `None`; the columns `["*"]` are `All`.

**The work queue** (`WorkQueue.dfy`). `add` and `remove` of `src/connection/wqueue.h` as a machine that takes one step
of one thread at a time, with any number of threads, signals that wake one sleeper or more, and wake-ups out of nothing.
What goes in and what comes out is told by the calls of a run alone.

## What turned out otherwise

- `SELECT a "from" t` is accepted: `FROM` is compared by value only (line 265 of `src/connection/protocol.cpp`), so a
  quoted literal does as well. `Printing.StrictIff` says this is the one difference from the grammar with `FROM` a
  keyword like the others.
- The token of `=` has the value `"` (line 31 of `src/connection/protocol.cpp`); nothing depends on it.
- A page that turns from leaf to internal node keeps the bytes of its first row in its spare slots. If four of them at a
  slot are all 255, `internal_node_child` takes them for the invalid page number and ends the program
  (`RawPages.StaleSlotInvalid`). It does so exactly if a child goes last or last but the right one
  (`InnerPages.PlaceChildInOldLeaf`); `RawPages.FullRowInvalid` has such a row. Text in ASCII or UTF-8 has no such byte
  (`RawPages.TextLeavesNoInvalidSlot`).
- The pager counts a page as used only when it was missing from the cache at that moment (lines 53-55 of
  `src/storage/page.cpp`); `Pager.Pager.GetPage` states this as it is. As long as every page asked for is in use already
  or is the next one, as the tree asks for them, the count is the number of pages in use all the same
  (`Pager.Pager.CachedUsed`, `Pager.Perform`).
- The source's tree keeps pointers into the cache across further accesses. How many pages the cache must hold for that
  is in `Residency`: 3 for a leaf split with room above, 7 for the split of an internal node over leaves, and with the
  root growing over internal children one more for each level below them.

## Model

| member | source | states |
|---|---|---|
| BTreeTable.Table.LeafNodeInsert | src/storage/btree.cpp:436-459 | for an absent key and the position the search gives, the table stays valid and stands for the old rows with the new one, through any cascade of splits; it says how many pages that takes |
| BTreeTable.Table.LeafNodeSplitAndInsert | src/storage/btree.cpp:380-434 | the same for a full leaf, be it the root or not |
| BTreeTable.Table.Insert | src/storage/btree.cpp:436-516 | finding the place and inserting there adds exactly the row to the map |
| BTreeTable.Table.InsertAll | src/storage/btree.cpp:436-516 | from an empty table, any 4119 rows with different keys can be inserted in any order, and all of them are there |
| BTreeTable.Table.RedistributeCells | src/storage/btree.cpp:395-423 | the overlapping backward loop computes "insert at the cursor, then cut at the left split count" in the two pages, for every capacity |
| BTreeLeaves.RedistributeStep | src/storage/btree.cpp:395-420 | one pass reads a source cell that was not overwritten yet, and the remainder is the slot in either half |
| BTreeTable.Table.PutCell | src/storage/btree.cpp:447-458 | shifting from the end and writing puts the cell in at its place and keeps the others in order |
| BTreeTable.Table.InternalNodeInsert | src/storage/btree.cpp:242-284 | with room, the child comes to its place among the children in key order; without, the whole table is put in order again, in the predicted number of pages; the recursion ends as it moves to the root |
| BTreeTable.Table.InternalNodeSplitAndInsert | src/storage/btree.cpp:165-239 | a node with one child too many is divided and the levels above are settled, the tree below stays as it was |
| BTreeTable.Table.MoveUpperHalf | src/storage/btree.cpp:202-221 | the children are divided in their order: the lower ones stay, the upper ones are in the new node and point to it |
| BTreeTable.Table.DivideNode | src/storage/btree.cpp:202-232 | the old node's children followed by the new one's are the original ones with the extra child in key order, each pointing to its node, each with its largest key as separator |
| BTreePlacing.PlacedWhereItFits | src/storage/btree.cpp:250-283 | the binary search, the comparison with the right child and the shift put a child where its largest key belongs |
| BTreeTable.Table.CreateNewRoot | src/storage/btree.cpp:333-377 | the root's content is in a new page, whose children point to it, and the root page has it and the right page as children, with the largest key of the left one between |
| BTreeShape.SplitOk | src/storage/btree.cpp:165-239 | splitting a node of an ordered balanced tree at a child or a key leaves an ordered balanced tree |
| BTreeShape.GrowOk | src/storage/btree.cpp:333-377 | so does putting a new root above the old one |
| BTreeTable.Table.GetNodeMaxKey | src/storage/btree.cpp:148-163 | the largest key of the subtree, found along right children, also while the tree is being changed |
| BTreeTable.Table.InternalNodeFindChild | src/storage/btree.cpp:286-311 | the first separator not below the key, or the number of separators; the search ends without an index below 0 |
| BTreeTable.Table.LeafNodeFind | src/storage/btree.cpp:461-502 | the first cell whose key is not below the key |
| BTreeTable.Table.InternalNodeFind | src/storage/btree.cpp:313-331 | the cursor is in the leaf whose range covers the key, at its lower bound |
| BTreeTable.Table.TableFind | src/storage/btree.cpp:504-516 | so for the whole table: on the key's row exactly if the table has the key |
| BTreeShape.UniqueCover | src/storage/btree.cpp:286-331 | no two leaves cover one key: the leaf found is the only one |
| BTreeTable.Table.TableStart | src/storage/btree.cpp:518-527 | at the row with the smallest key, or at the end exactly if the table is empty |
| BTreeTable.Cursor.Advance | src/storage/btree.cpp:129-146 | from a row to the one with the next larger key, along sibling links, or to the end after the largest key |
| BTreeTable.Table.Scan | src/storage/btree.cpp:118-146 | a scan ends, and yields every row once, in strictly ascending key order, and nothing else |
| BTreeTheorems.ChainIsLeaves | src/storage/btree.cpp:391-393 | the sibling links lead from the leaf where a scan starts through all leaves, from left to right, and through nothing else |
| BTreeTheorems.ListingUnique | src/storage/btree.cpp:129-146 | what a scan yields is determined by the rows, whatever order they were inserted in |
| BTreeTheorems.Balanced | src/storage/btree.cpp:165-434 | every page hangs from the root and all leaves hang at one depth |
| BTreeTheorems.ParentsExact | src/storage/btree.cpp:209-238 | the parent pointer of a page names the one page that lists it, where it is listed once; exactly page 0 has the root flag |
| BTreeTheorems.Occupancy | src/storage/btree.h:93-104 | 1 to the maximum of keys in an internal node, half the maximum of cells at least in a leaf other than the root |
| BTreeTheorems.SeparatorReached | src/storage/btree.cpp:165-284 | each separator is the last key of a leaf below its child |
| BTreeTheorems.SeparatorDivides | src/storage/btree.cpp:165-284 | the rows below a child are at or below a separator exactly if the child does not stand behind it |
| BTreeCapacity.PagesAreNodes | src/storage/ds.h:59-66 | the allocated pages, which are numbered from 0 without a gap, are as many as the nodes of the tree; that the pager's counter has this number is in Pager.Perform |
| BTreeCapacity.LeavesOutnumber | src/storage/btree.cpp:165-434 | there are more leaves than internal nodes |
| BTreeCapacity.PagesAfterInsert | src/storage/btree.cpp:165-434 | after an insertion the pages are fewer than twice the number of leaves the rows can fill |
| BTreeCapacity.FileSuffices | src/storage/page.cpp:21-22 | with the source's capacities, inserting into fewer than 4119 rows needs at most 1027 pages |
| LastSeparators.MaxKeyExact | src/storage/btree.cpp:148-163 | as written, the largest key of a page's subtree is returned exactly for leaves |
| LastSeparators.NewRootMisleads | src/storage/btree.cpp:371-375 | as written, every key below the old root's right child is then looked for in the wrong half |
| LastSeparators.LeafNodeInsertLast | src/storage/btree.cpp:155-284 | any insertion with these lines as written, through all splits to its end: the table is valid with the new row if it splits no internal node; if it splits one, no table has the pages that are left |
| LastSeparators.MisnamedNoTable | src/storage/btree.cpp:155-162 | no table has a page that lists an internal page with that page's own last separator |
| BareTree.Place | src/storage/btree.cpp:262-283 | on pages in any order, the child comes to the page and its slots stay; with lines 155-162 as written, placing an internal page beside an internal right child always lists one of them so |
| BareTree.SplitPage | src/storage/btree.cpp:165-240 | the split of a full page with all splits above it, on pages in any order: the separators that the page keeps are kept, and all pages below are as before, parents aside; with lines 155-162 as written some page ends up listing another one so |
| BareTree.InsertChild | src/storage/btree.cpp:242-284 | so for a child that goes to a page with room or a full one |
| BareTree.WrongKeyNoTable | src/storage/btree.cpp:148-163 | no table has a page that lists another one with a key that is not the last one below it |
| LateParents.LateParentExact | src/storage/btree.cpp:236-239 | for one level, copying the parent afterwards is right exactly if the cut above did not fall between the two halves |
| LateParents.InsertAndCopyParent | src/storage/btree.cpp:236-239 | with these lines as written at every level of the cascade: all pages are in order apart from parent pointers, and these are, too, exactly if the page above had room, or its division did not fall between the two halves and no page further up misplaces a node |
| LateParents.SplitInnerAndCopyParent | src/storage/btree.cpp:165-240 | so for the split of an internal node, by induction towards the root: right exactly if no full page on the way up has in its middle the child from which the way comes |
| LateParents.StraysDecide | src/storage/btree.cpp:238 | pages that are in order apart from parent pointers belong to a table exactly if all parent pointers are right |
| LateParents.LeafNodeInsertAndCopyParents | src/storage/btree.cpp:236-459 | so for every insertion: the table is valid with the new row exactly if it misplaces no node, as can be told from the tree before; otherwise no table has the pages that are left |
| LeafSplitAsWritten.SplitAndInsert | src/storage/btree.cpp:425-431 | the split of any leaf but the root with line 428 as written, with all splits above, wherever the search in the leaf's bytes ends: the table is valid with the new rows exactly if the first row reads as before and the parent keeps no separator of the leaf; otherwise the pages left belong to no table of these rows, and to no table at all if the parent keeps that separator |
| LeafSplitAsWritten.RowKeptIff | src/storage/btree.cpp:428-430 | the first row reads as before exactly if the key written is its number (index 0), or its text ends before the four bytes or has the same ones |
| LinesOnBytes.LeafOverwritten | src/storage/btree.cpp:428-430 | on the bytes: of any leaf, at any index the search can end at, the write changes the row of the first cell in that way, and nothing else |
| LinesOnBytes.UpdateSeparatorInLeaf | src/storage/btree.cpp:428-430 | carried out on the bytes: the search takes the bytes of the first row for separators and ends at the index that `SearchEnd` computes from them, and there the row is overwritten |
| LinesOnBytes.SplitAndInsertOnBytes | src/storage/btree.cpp:425-431 | at the source's capacities, with that index: the split comes out right exactly if a condition on the tree and on the bytes of the first row holds before it |
| LinesOnBytes.LongTextLost | src/storage/btree.cpp:428-430 | with keys below 2^29, a first row with 23 printable characters or more is damaged |
| LinesOnBytes.ShortTextKept | src/storage/btree.cpp:428-430 | one with 19 or fewer is not |
| LinesOnBytes.KeyOffsetIs | src/storage/btree.cpp:42-44 | with offsets of 32 bits a number leads to the slot that is its remainder by 2^29 |
| LinesOnBytes.KeyWrittenSlots | src/storage/btree.cpp:72-74 | the write changes the key of that slot, if the node has it, and no other slot |
| LinesOnBytes.NumberOnBytes | src/storage/btree.cpp:72-74 | of the tree's page that the bytes are, the write makes the one that the insertion with line 234 makes |
| NumbersAsSlots.LeafNodeInsertByNumber | src/storage/btree.cpp:234 | any insertion with line 234 as written, at every level: what comes of it is told from the table before. It leaves its page exactly if the outcome is `Outside`; else the table is valid with the new row if it is `Right`, and no table has the pages that are left if it is `Wrong` |
| NumbersAsSlots.SplitByNumber | src/storage/btree.cpp:165-240 | so for the split of an internal node, by induction towards the root |
| NumbersAsSlots.InsertOnward | src/storage/btree.cpp:165-284 | above a wrong separator: whether a later write leaves its page is still told from the tree before, and the separators that a page keeps are kept |
| NumbersAsSlots.WrittenLists | src/storage/btree.cpp:234 | one level: a harmless write leaves the page above with its new child missing and nothing else wrong |
| NumbersAsSlots.WrittenWrong | src/storage/btree.cpp:234 | any other write leaves a separator that is kept and is not its child's largest key |
| NumbersAsSlots.InsertNeverRight | src/storage/btree.cpp:184-234 | with keys below 2^29, no insertion that splits an internal root comes out right: a new root's separator is that of slot 0 |
| LinesOnBytes.SeparatorExact | src/storage/btree.cpp:234 | on the bytes, for every old largest key and any number of first separators: they come out right exactly if the write stays in the page and is harmless for so many |
| LinesOnBytes.SeparatorOutside | src/storage/btree.cpp:234 | for keys from 510 up to 2^29 the write lies outside of the page, whatever child was split |
| LinesOnBytes.SeparatorInTable | src/storage/btree.cpp:234 | at the source's capacities every key that gets there is 7 or more, so small keys never name their slot, and the separators that last are right only if the split child has none of them or keys wrap around |
| BTreeTheorems.MaximumAtLeast | src/storage/btree.h:93-104 | since each leaf holds half its capacity of ascending keys, no largest key below a page other than the root is less than that, minus 1 |
| FullTree.IsTable | src/storage/btree.h:85-104 | the 85 full pages with 960 rows are a valid table with the source's capacities |
| LineExamples.MaxKeyFails | src/storage/btree.cpp:155-162 | on that table the root's largest key is 1918, and as written 1438 |
| LineExamples.KeysFail | src/storage/btree.cpp:155-284 | a row for any of its leaves leaves pages that no table has |
| LineExamples.SeparatorFails | src/storage/btree.cpp:234 | of the children of page 1, which is full and whose children can all split, the separator that lasts is right except for the first one's |
| LineExamples.NumbersFail | src/storage/btree.cpp:234 | a row for any of its leaves can be inserted, and leads to a write outside of a page |
| SmallTree.IsTable | src/storage/btree.h:85-104 | 11 pages with 120 rows and room in the root are a valid table with the source's capacities |
| LineExamples.NumbersInSmallTable | src/storage/btree.cpp:234 | on that table, a row for one of the first four leaves leaves pages that no table has; a row for one of the others comes out right, with line 234 writing to another place than it should |
| LineExamples.ParentFails | src/storage/btree.cpp:236-239 | a row for leaf number n comes out right exactly if neither the leaf's parent nor the page above that is a second child; otherwise no table has the pages that are left |
| LineExamples.StaleFails | src/storage/btree.cpp:425-431 | inserting 1 splits the first leaf below full pages up to the root: whatever the search finds, no table has the pages that are left |
| LineExamples.RowFails | src/storage/btree.cpp:425-431 | inserting 91 splits the last leaf below a full parent, whose first row is number 90 with 23 letters: the search in its bytes ends at index 1, four letters are overwritten, and no table of the rows has the pages that are left |
| Lru.RunIsCutRecency | src/storage/page.cpp:72-108 | after any trace the list is the trace's pages, most recent first, cut behind max_pages of them; with max_pages 0 it is the page asked for last |
| Lru.LargerCacheContains | src/storage/page.cpp:72-108 | on any trace a larger cache holds what a smaller one holds, in the same order |
| Lru.Resident | src/storage/page.cpp:72-108 | a page stays while fewer than max_pages other pages are asked for, or none |
| Lru.Dropped | src/storage/page.cpp:72-108 | max_pages other pages displace it, in whatever order and how often they are asked for, and with max_pages 0 any one does |
| Lru.ResidentIff | src/storage/page.cpp:72-108 | a page not asked for again is in the list exactly while fewer than max_pages different pages were asked for, or none |
| Pager.PageCache.GetPage | src/storage/page.cpp:72-84 | a hit returns the page's entry and moves it to the front, a miss changes nothing |
| Pager.PageCache.AddPage | src/storage/page.cpp:86-99 | an entry is displaced exactly if the map had max_pages entries or more and was not empty, and it is the least recent one; the list and the map keep the same entries, each page once |
| Pager.PageCache.Evict | src/storage/page.cpp:101-108 | the least recent entry leaves both |
| Pager.Pager.GetPage | src/storage/page.cpp:20-58 | no page reads differently afterwards, entries that stay are the same objects, the page asked for is the most recent, a number out of range is refused without effect |
| Pager.Pager.CachedUsed | src/storage/page.cpp:53-55 | every cached page is below one more than the largest number asked for, so the next page is always missing from the cache and gets counted |
| Pager.Pager.WritePage | src/storage/ds.h:36-38 | exactly this page reads as written, and unmarked entries still match the file |
| Pager.Pager.FlushAll | src/storage/page.cpp:60-70 | no page reads differently, and the file is what the pages read as exactly if the unmarked entries matched it before |
| Pager.Perform | src/storage/page.cpp:20-108 | over any run of reads, writes and flushes the pager answers as a flat array of pages does, and its list is the least-recently-used order; where new pages are asked for in turn, the counter is the number of pages in use; whether a page's entry is clean afterwards, and what the file then has of the page, is what `CleanAfter` and `LeftInFile` say |
| Pager.PerformAndFlush | src/storage/page.cpp:60-70 | after a run whose writes mark their pages, a flush leaves the file equal to the flat array |
| Pager.PerformUnflushed | src/storage/page.cpp:38-42 | so it does after a run with unmarked writes, if there was no flush before: entries are loaded dirty |
| Pager.PerformThenFlush | src/storage/page.cpp:20-70 | after any run and a flush, the file has of each page what the page is, unless its entry was clean before the flush: then what the page was when it last became clean |
| Pager.RawWriteThenRun | src/storage/page.cpp:20-70 | after an unmarked write, any run without another write to the page, and a flush, the file has the data exactly if the entry was not clean, or was displaced in between, or the file had the data before |
| Pager.StaysIff | src/storage/page.cpp:72-108 | in a run that does not ask for the page, it is not displaced exactly while fewer than max_pages pages are asked for, or none |
| Pager.Hold | src/storage/page.cpp:20-58 | an entry is still the page's live entry after later calls for fewer than max_pages other pages, and no longer after max_pages different ones |
| Residency.RootGrowthWindow | src/storage/btree.cpp:333-377 | growing the root over an internal one keeps its three page pointers live exactly if the cache holds three pages more than the root has children and one for each page on the way from the last child's right child down to its largest key: 7 with 3 keys over leaves |
| Residency.RootLeafWindow | src/storage/btree.cpp:333-377 | the split of the root leaf needs exactly 3 pages |
| Residency.LeafSplitWindow | src/storage/btree.cpp:380-434 | a leaf split below a parent with room needs exactly 3 pages |
| Residency.InnerSplitWindow | src/storage/btree.cpp:165-240 | the split of an internal node over leaves, with the pointers to the node, the child, the parent and the new node used across all insertions, needs exactly 7 pages |
| Residency.HeldIff | src/storage/page.cpp:72-108 | pages pointed at stay live together, while further ones are asked for, exactly if max_pages is the number of different pages at least; a single page always does |
| Bytes.DecodeEncode | src/storage/btree.cpp:5-18 | a 32-bit field reads as it was written |
| Bytes.EncodeIff | src/storage/btree.cpp:5-18 | four bytes are those of a 32-bit field exactly if they are its digits to the base 256, the lowest first |
| Layout.Capacities | src/storage/btree.h:85-104 | the capacities of the tree are those the layout gives: 15 cells fit a page and a 16th does not, and 3 keys |
| Layout.FieldsApart | src/storage/btree.h:57-104 | all fields of a kind of node, the spare slot included, lie in the page and share no byte |
| Layout.LeafBytesIff | src/storage/btree.h:57-104 | a page's bytes are a given leaf exactly if byte 0 is its type, byte 1 its root flag, bytes 2 to 5 its parent, 6 to 9 its number of cells, 10 to 13 the next leaf, and from byte 14 on stand 15 cells of 264 bytes, the key in the first 4 and the row in the others |
| Layout.InternalBytesIff | src/storage/btree.h:57-104 | the same for an internal node: number of keys in bytes 6 to 9, right child in 10 to 13, and from byte 14 on slots of 8 bytes, the child in the first 4 and the key in the others |
| Layout.ReadStore | src/storage/btree.cpp:5-114 | writing a field changes that field and no other one |
| Layout.StoreLeaf | src/storage/btree.cpp:5-114 | writing the bytes of a field sets that field of the leaf they stand for |
| Layout.StoreInternal | src/storage/btree.cpp:5-114 | the same for internal nodes |
| RawPages.RawNode.InitializeInternalNode | src/storage/btree.cpp:102-107 | type and root flag 0, number of keys 0 in bytes 6 to 9, right child 255 in each of bytes 10 to 13; parent and slots keep what they hold |
| RawPages.RawNode.InitializeLeafNode | src/storage/btree.cpp:109-114 | type 1 and root flag 0, number of cells and next leaf 0 in bytes 6 to 13; parent and cells keep what they hold |
| RawPages.RawNode.InsertCell | src/storage/btree.cpp:447-458 | the insertion into a leaf with room, carried out on the bytes, is the insertion into the cells they stand for; in the bytes, one is added to the number in bytes 6 to 9, bytes 0 to 5 and 10 to 13 stay, the cells behind move up by 264 bytes, and in the place of the new one stand the bytes of its key and of its row |
| RawPages.CellsWithCell | src/storage/btree.cpp:447-458 | the cells in use are then those before with the new one in its place |
| PageImages.StoredPage | src/storage/btree.cpp:5-114 | writing the bytes of a field sets that field of the tree's page that the bytes are, and nothing else that a node of its kind has |
| PageImages.InsertedPage | src/storage/btree.cpp:447-458 | the insertion carried out on the bytes makes of that page the one that the tree's insertion makes |
| RawPages.Serialize | src/storage/tuple.cpp:3-10 | the 260 bytes of a row: number, size and text in order, and zeros behind |
| RawPages.SerializedBytes | src/storage/tuple.cpp:3-10 | of the 260 bytes of a row the first 4 are its number, the next is the size of its text, then comes the text, and zeros |
| RawPages.Deserialize | src/storage/tuple.cpp:12-19 | the row that 260 bytes stand for |
| RawPages.RowRoundTrip | src/storage/tuple.cpp:3-19 | a row comes back up to its text size, and entirely exactly if the rest of its text is zero |
| RawPages.BytesRoundTrip | src/storage/tuple.cpp:3-19 | bytes come back exactly if they are zero behind the text |
| RawPages.StaleSlotInvalid | src/storage/btree.cpp:46-66 | which bytes of the first row make a spare slot read as the invalid page number |
| InnerPages.PlaceChild | src/storage/btree.cpp:268-283 | on the bytes of a page: the program ends exactly if the child goes last, or last but the right one, and the slot it takes holds the invalid page number; else one is added to the number in bytes 6 to 9, and either the child stands in bytes 10 to 13 and the old right child with its key in the next slot, or the slots behind move up by 8 bytes and the child with its key stands in its slot |
| InnerPages.PlacedPage | src/storage/btree.cpp:268-283 | of the tree's page it makes the one that the tree's insertion makes |
| InnerPages.FirstRowStays | src/storage/btree.cpp:333-377 | what the header and the first slot get when a leaf becomes the root leaves the other slots with the bytes of its first row |
| InnerPages.PlaceChildInOldLeaf | src/storage/btree.cpp:268-283 | so in such a page placing a child ends the program exactly if it goes last and four bytes of that row are all 255 |
| RawPages.FullRowInvalid | src/storage/btree.cpp:272-282 | a row of 255 bytes 255 leaves every slot but the first invalid |
| RawPages.TextLeavesNoInvalidSlot | src/storage/btree.cpp:46-66 | no text without the byte 255 does |
| Lexing.TokensIffSpells | src/connection/protocol.cpp:3-75 | the token stream of a text is the one token sequence that the lexical grammar gives it; there the five symbols are a table of its own |
| Lexing.Lexer.NextToken | src/connection/protocol.cpp:3-38 | one token of that stream, behind the spaces; END at the end, again and again |
| Lexing.Lexer.Number | src/connection/protocol.cpp:40-46 | the longest run of digits |
| Lexing.Lexer.Word | src/connection/protocol.cpp:48-58 | the longest run of letters and then of digits |
| Lexing.Lexer.Literal | src/connection/protocol.cpp:60-75 | the text up to the next quote; invalid without one |
| TokenStreams.SingleCharacter | src/connection/protocol.cpp:3-38 | for every character, by its code, what the text of it alone is read as: the six spaces 9 to 13 and 32, the digits, the letters of both cases, the five symbols, the quote, and all others |
| TokenStreams.Separates | src/connection/protocol.cpp:3-75 | behind any text without an open quote, a space, bracket, star, comma or equal sign divides the token stream: the tokens in front, its own, the tokens behind |
| TokenStreams.SpaceSeparatesIff | src/connection/protocol.cpp:3-75 | a space divides the token stream exactly if no quote is open in front of it or only spaces are behind it |
| TokenStreams.SpaceBetween | src/connection/protocol.cpp:3-75 | putting any of the six spaces into a text outside of quotes leaves the token stream as it was exactly if it cuts no token, and then the text means what it meant |
| Parsing.Parser.CheckWords | src/connection/protocol.h:70-86 | true exactly for two words of letters, equally long, that have at each place the same letter or codes that differ by 32 |
| LetterCase.SameWordIff | src/connection/protocol.h:70-86 | the same of the notion of a word that the grammar has |
| LetterCase.CaseIrrelevant | src/connection/protocol.cpp:77-485 | two token sequences that differ in the case of the keywords alone derive the same statements |
| LetterCase.TextsRecased | src/connection/protocol.cpp:3-485 | texts whose tokens do so mean the same |
| LetterCase.AcceptedInAnyCase | src/connection/protocol.cpp:3-485 | whether a text is accepted does not depend on the case of any of its letters, those of names included |
| Parsing.Parser.Serialize | src/connection/protocol.cpp:77-99 | the statement that the tokens up to END derive, None exactly if there is none, in whatever order the commands are tried |
| Parsing.Parser.List | src/connection/protocol.cpp:128-157 | entries with commas between them, up to the first one without a comma behind it |
| Parsing.Parse | src/connection/protocol.cpp:3-485 | a text is accepted exactly if it spells tokens that derive a statement, and then as that statement |
| Grammar.ReadIffDerives | src/connection/protocol.cpp:77-485 | reading with one token of lookahead finds a statement exactly if the whole token sequence derives it |
| Grammar.DerivationUnique | src/connection/protocol.cpp:77-485 | no token sequence derives two statements |
| Grammar.OrderIrrelevant | src/connection/protocol.cpp:84-96 | the command found does not depend on the order of the map |
| Grammar.MeaningIffSpelled | src/connection/protocol.cpp:3-485 | a text means a statement exactly if it spells a token sequence that derives it |
| Printing.PrintThenRead | src/connection/protocol.cpp:3-485 | parsing what was printed gives the statement |
| StatementTexts.CreateText | src/connection/protocol.cpp:101-165 | `CREATE TABLE t(a INT,b TEXT)`, for all names and every spelling of the keywords in capital and small letters, means the statement with these columns |
| StatementTexts.InsertText | src/connection/protocol.cpp:167-229 | `INSERT INTO t VALUES (n,"s")`, for all names, numbers and texts without a quote, means the statement with these values |
| StatementTexts.SelectText | src/connection/protocol.cpp:231-319 | `SELECT a,b FROM t` means the statement with these columns and no condition |
| StatementTexts.SelectAllText | src/connection/protocol.cpp:231-319 | `SELECT * FROM t WHERE a=n` means the statement with all columns and this condition |
| StatementTexts.UpdateText | src/connection/protocol.cpp:321-418 | `UPDATE t SET a="s",b=n WHERE c=m` means the statement with these values and this condition |
| StatementTexts.DeleteText | src/connection/protocol.cpp:420-485 | `DELETE FROM t WHERE a=n` means the statement with this condition |
| Printing.PrintableIff | src/connection/protocol.cpp:3-485 | the statements that can be printed are the ones that some text means |
| Printing.ReadPrintRead | src/connection/protocol.cpp:3-485 | for every accepted text, parsing the print of its statement gives that statement again |
| Printing.StrictIff | src/connection/protocol.cpp:265-266 | the parser accepts more than the grammar with FROM a keyword exactly where FROM is a quoted literal |
| Printing.QuotedFromAccepted | src/connection/protocol.cpp:265-266 | every SELECT statement has a text that is accepted so |
| WorkQueue.StepInv | src/connection/wqueue.h:22-37 | every step keeps mutual exclusion, the order of the items pushed, enough awake consumers, and a pop never meets an empty queue |
| WorkQueue.MutualExclusion | src/connection/wqueue.h:22-37 | in no reachable state are two threads between lock and unlock |
| WorkQueue.FirstInFirstOut | src/connection/wqueue.h:22-37 | what remove returned, the item of a remove about to return, and the queue are what was pushed, in the same order |
| WorkQueue.ItemsConserved | src/connection/wqueue.h:22-37 | after any run, every item was passed to add, in the calls made so far, as often as it was returned by remove, is queued, and is in the hands of a thread: in an add before the push or in a remove after the pop |
| WorkQueue.InterleavesCalls | src/connection/wqueue.h:22-37 | after any run, what remove returned and will return from the queue interleaves the calls of add: of each thread the items come in the order of its calls, but for one not pushed yet |
| WorkQueue.RemovesAnswered | src/connection/wqueue.h:22-37 | after any run, the calls of remove are as many as the items returned and the threads still in remove |
| WorkQueue.NoLostWakeUp | src/connection/wqueue.h:22-37 | while a consumer sleeps and no signal is pending, at least as many consumers are awake as items are queued |
| WorkQueue.InternalRunBounded | src/connection/wqueue.h:22-37 | calls already made take a bounded number of steps, whatever the interleaving |
| WorkQueue.StuckIff | src/connection/wqueue.h:22-37 | no step of a call is possible exactly if every thread is outside or asleep in remove: there is no deadlock |
| WorkQueue.RestDelivered | src/connection/wqueue.h:22-37 | at rest with a consumer asleep, the queue is empty and what remove returned is exactly what was passed to add, the items of each thread in the order of its calls |

## Left out

- Duplicate keys and deletion: an insertion asks for an absent key, as a separator is looked up by its key; the source
  has no deletion.
- Insertions that would need more than the file's 1028 pages: they are excluded, with the exact number of pages stated.
- The cache under the tree: the table keeps its pages as values; `Residency` says when the source's raw pointers stay
  live, and `Pager` that cached pages read as the file's do.
- The table on bytes: a page of the table holds cells and slots side by side, which share bytes in the file.
  `PageImages` says what a write to the bytes of either kind of node does to that page; the spare slots of a page that
  was a leaf are taken not to read as the invalid page number.
- The four places as written all at once: each is taken alone, at every level where it is carried out, with the other
  three as the table models them. What follows a write outside of a page is not part of this model.
- On bytes, of an insertion: the placing of a cell and of a child, and the writes of lines 234 and 428-430. The
  redistribution of a leaf and the division of an internal node are on the pages that the bytes stand for.
- The accesses of a whole insertion: the traces in `Residency` are those of one split each, written out from the source;
  the table does not record them.
- Reopening a file: the number of used pages restarts at 0 in the source; the table starts with page 0 as an empty root
  leaf.
- Failures of the file stream, and files of another size than 0 or 1028 pages.
- Pager.Pager.Poke: stands for a write through a raw pointer while its entry is live; a write through a pointer whose
  entry was displaced is not part of this model.
- BTreeTable.Table.GetPage: the page numbers only; contents and cache are in `Pager`.
- Alignment of 32-bit fields and big-endian machines.
- `wqueue::size`, which only reads the length under the mutex, and spurious failures of the mutex calls.
- Fairness: that every thread waiting for the mutex gets it in the end.
- The JSON library, `print_tree`, the console, sockets, threads and the client and server programs.
- The free function `get_node_max_key` of `btree.cpp`, which the table does not call.
