# Verification model of chidb and chirc

This project models two programs that live in one repository and proves properties of them in
Dafny: **chidb**, a relational database kept in one file, and **chirc**, an IRC server, together
with the list library **SimCList** that chidb carries along.

The model follows the code. Where the code and its own comments disagree, the code decides:

- A varint always has four bytes and carries 28 bits, whatever the SQLite file format says.
- `chidb_Btree_insert` keeps one path entry for the whole descent, so the node in hand always counts
  as the root: a full leaf at any depth becomes, in place, an internal page with one cell over two
  new leaves. Nothing moves further up, although the comment above the function describes it.
- A full leaf is split without looking for the key, so a duplicate is reported only where there is
  room or where an internal index cell holds the key. `TreeRuns.DuplicateIff` states exactly when,
  `TreeDoubles.DuplicateStored` what becomes of every other one.
- A split goes by the number of cells and not by their size, so a half can be larger than a page and
  the code then writes its cells over its offset array. `SplitFits`, `StepFits` and `RunFits` say that
  this does not happen; `TreeStep.OverrunIff` and `TreeRuns.RunFitsIff` show the condition to be exact,
  and SplitFit.dfy derives it for indexes and for tables of rows of equal or balanced sizes.
- A line without a command loses what was received behind it, and a QUIT closes the socket while what
  was received behind it is still read. `Cuts.FramingIff` states exactly which streams are read line by
  line in whatever chunks they are received, `Room.ReadRightIff` which of them the buffer always holds.
- A key that meets a full leaf a second time is stored twice; find goes on as before
  (`FileRuns.InsertAgainThenFind`).
- `endOp` can equal `nOps`, and Halt hands out its own first operand, not only "done".
- `update_nick` looks for the nick the client has, not for the new one, so a registered client can
  never change it.

## How the project is built

| file | what it holds |
|---|---|
| Bytes.dfy | big-endian numbers and varints, as functions and as writes into a buffer |
| Common.dfy | an optional value and insertion into a sequence, used throughout |
| Paging.dfy | the file as numbered pages, read and written one at a time |
| Layout.dfy | the bytes of a B-tree page: header, offset array, cell area; what a laid down cell does |
| Nodes.dfy | the in-memory node with its counters, and the methods that change it |
| Tree.dfy | search trees over decoded pages: well-formedness, traversal, lookup |
| TreeDefs.dfy | insertion as a function on the pages of the file |
| TreeInsert.dfy, TreeStep.dfy, TreeRuns.dfy, TreeDoubles.dfy | that function inserts into a map and when the pages can hold the outcome; whole runs of it; keys stored twice |
| BTree.dfy, BTreeInsert.dfy | search, traversal and insertion on the file, proved against Tree and TreeDefs |
| SplitFit.dfy | when both halves of a split page fit, for one insertion and for whole runs |
| FileRuns.dfy | runs of insertions on the file, with find and print after them |
| ListEntries.dfy, ListSort.dfy, SimCList.dfy | list nodes, the sort, the list |
| Records.dfy | record buffer, packed form, getters |
| Tokenizer.dfy | the command-line tokenizer |
| Dbm.dfy, Halting.dfy | the register machine; which programs end |
| Messages.dfy, MessageParser.dfy, Framing.dfy | IRC grammar, `parse_message`, framing of the stream |
| Cuts.dfy, Room.dfy | which streams are framed alike in whatever chunks they come, and fit the buffer |
| UserTable.dfy, Clients.dfy | the user table and the interleaved steps of its client threads |

The B-tree is proved in four layers. Page bytes decode to cells (Layout, Node). Pages decode to a
store of cell sequences (`BTree.View`). A shape says which pages form a tree, and its traversal is the
list of entries in key order (Tree). One insertion is a function on such a store
(`TreeDefs.Step`); the methods on the file compute exactly that function, and the lemmas show that it
is insertion into a finite map that keeps the tree well formed. What is said of decoded pages holds of
the file as long as splits fit: FileRuns.dfy makes whole runs of insertions on the file under that
condition, and `FileRuns.FillIndex` and `FileRuns.FillTable` under a bound on the file size alone.

## Model

| member | source | states |
|---|---|---|
| Bytes.Dec4Enc4 | db/src/libchidb/util.c:52-63 | a four-byte number reads back as it was written |
| Bytes.DecVarEncVar | db/src/libchidb/util.c:65-92 | a varint gives back the low 28 bits, so it is lossless if and only if the value is below 2^28 |
| Bytes.BigEndian | db/src/libchidb/util.c:42-63 | numbers of two and four bytes are written with the most significant byte first |
| Bytes.GroupsInOrder | db/src/libchidb/util.c:77-92 | a varint is written with the most significant seven bits first, the top bit set on all bytes but the last |
| Bytes.Put4 | db/src/libchidb/util.c:57-63 | the four bytes are written at their place and no other byte changes |
| Bytes.PutVar | db/src/libchidb/util.c:77-92 | the same for a varint |
| Paging.WriteIsLocal | db/src/libchidb/pager.c:187-234 | a written page reads back, and every other page reads as before |
| Paging.ApartMeans | db/src/libchidb/pager.c:187-234 | two pages are apart if and only if no byte of the file lies in both |
| Paging.PagesApartIff | db/src/libchidb/pager.c:187-234 | with 32-bit offsets the pages 1..n are pairwise disjoint if and only if (n - 1) * size < 2^32 |
| Paging.Pager.constructor | db/src/libchidb/pager.c:81-118 | an empty file of one page, which reads as zeros |
| Paging.Pager.AllocatePage | db/src/libchidb/pager.c:158-165 | exactly one page is added, at the end; it reads as zeros until it is written, and no other page changes |
| Paging.BeyondReadsZeros | db/src/libchidb/pager.c:158-205 | the page behind the last one reads as zeros, because nothing is ever written there |
| Paging.WriteStays | db/src/libchidb/pager.c:222-234 | a write to a page in use puts nothing behind the last page |
| Paging.Pager.ReadPage | db/src/libchidb/pager.c:187-205 | page numbers outside 1..n are refused; otherwise the bytes of the page, zeros past the end of the file |
| Paging.Pager.WritePage | db/src/libchidb/pager.c:222-234 | the page map changes at that page only; a number too large is refused and the file is as it was |
| Layout.TypeOfByte | db/src/libchidb/btree.h:48-51 | a page type byte survives reading and writing, known or not |
| Layout.DecodeEncode | db/src/libchidb/btree.c:376-413 | a cell of any of the four types decodes to itself, whatever bytes follow, up to the 28 bits of a table key |
| Layout.DecodeStored | db/src/libchidb/btree.c:376-413 | a cell once read is stored without loss |
| Layout.CellPlaces | db/src/libchidb/btree.c:451-481 | the place of every field in the bytes of each of the four cells, the constant bytes of an index cell included |
| Layout.AddCellBytes | db/src/libchidb/btree.c:451-489 | the bytes after a cell is laid down: the array shifted from position k on, the area grown below |
| Layout.AddedKeeps | db/src/libchidb/btree.c:439-491 | every cell that was there decodes to itself at its new place in the array |
| Layout.AddCellInserts | db/src/libchidb/btree.c:439-491 | laying a cell down is inserting it at position k of the decoded cells; no two cells share a byte and the two areas stay apart |
| Layout.HeaderPlaces | db/src/libchidb/btree.c:279-289 | a node is written with its header 100 bytes into page 1 and at the front of every other page: type byte, three counters and the right page at their places, and the bytes before it stay |
| Layout.LoadPlaces | db/src/libchidb/btree.c:229-241 | it is read from the same places |
| Layout.OffsetPlaces | db/src/libchidb/btree.c:376-382 | the offset array begins 8 bytes behind the start of the header of a leaf, 12 of an internal page |
| Layout.EmptyPlaces | db/src/libchidb/btree.c:72-87 | the header of a new node: on page 1 a free offset of 108 in a leaf and of 112 in an internal page, 100 less elsewhere, and the area at the end of the page |
| Layout.LoadSynced | db/src/libchidb/btree.c:221-305 | a node written and loaded again has the same type, counters, right page and cells; only header bytes change |
| Layout.LoadZeros | db/src/libchidb/btree.c:221-241 | a page of zeros loads as a node of no known type with no cells |
| BTree.AllocatedIsNoNode | db/src/libchidb/btree.c:221-241 | so an allocated page that is not written yet is no node: no page of any tree, and the other pages decode as before |
| Nodes.LayCell | db/src/libchidb/btree.c:451-481 | the writes of each cell type put the encoded cell just below the area |
| Nodes.ThreeWrites | db/src/libchidb/btree.c:451-487 | the separate writes of cell, shifted offsets and new offset amount to one change of the page |
| Nodes.BTreeNode.Create | db/src/libchidb/btree.c:72-87 | an empty node on a zeroed page, its counters from the header position on |
| Nodes.BTreeNode.FromPage | db/src/libchidb/btree.c:221-241 | the fields are what the page header says, which on page 1 begins at byte 100 |
| Nodes.BTreeNode.GetCell | db/src/libchidb/btree.c:376-413 | cell number ncell of the decoded sequence, or a refusal |
| Nodes.BTreeNode.InsertCell | db/src/libchidb/btree.c:439-491 | the node after is the node before with the cell inserted at ncell, or untouched when refused |
| Nodes.BTreeNode.Sync | db/src/libchidb/btree.c:279-289 | the counters are written into the header, which on page 1 begins at byte 100 |
| Nodes.BTreeNode.IsInsertable | db/src/libchidb/btree.c:615-631 | there is room if and only if the gap is at least what the cell is charged |
| Nodes.NeedIsEnough | db/src/libchidb/btree.c:615-631 | the charge covers the cell and its offset for every type but an internal index cell, which the code forgets; an index leaf cell is charged 4 bytes too many, a table cell exactly what it takes |
| Nodes.GetNodeByPage | db/src/libchidb/btree.c:221-241 | the node that the bytes of the page describe |
| Nodes.WriteNode | db/src/libchidb/btree.c:302-306 | the page map changes at the page of the node only |
| Nodes.NewNode | db/src/libchidb/btree.c:325-332 | one page more, holding an empty node |
| Nodes.InitEmptyNode | db/src/libchidb/btree.c:351-356 | an empty node on an existing page, with the bytes of its header |
| Tree.WalkSorted | db/src/libchidb/util.c:123-199 | the traversal of a well-formed tree has strictly increasing keys inside its bounds |
| Tree.WalkShows | db/src/libchidb/util.c:140-199 | the traversal lists exactly what the cells of its pages say: key and data of a row, key and primary key of an index cell, be it in a leaf or further up |
| Tree.FindDescends | db/src/libchidb/btree.c:531-541 | looking in the child the key points to is looking in the whole tree |
| TreeInsert.InsertIsPut | db/src/libchidb/btree.c:828-846 | a cell put before the first larger key is an entry put into the ordered entries |
| TreeInsert.Frame | db/src/libchidb/btree.c:659-807 | a tree depends on its own pages only |
| TreeInsert.GraftPuts | db/src/libchidb/btree.c:668-704 | replacing the leaf the descent reaches by pages that list one entry more puts exactly that entry into the whole traversal, even where they form no tree |
| TreeInsert.GraftInserts | db/src/libchidb/btree.c:668-704 | replacing the leaf the descent reaches by a tree with one entry more puts exactly that entry into the whole traversal, and order and bounds hold at every level |
| TreeInsert.GraftOnce | db/src/libchidb/btree.c:742-800 | afterwards every page is still reached once, and the pages are the old ones and the new ones |
| TreeStep.FindAtTarget | db/src/libchidb/btree.c:668-704 | a key is in the tree if and only if the descent meets it in an internal index cell or ends at a leaf that has it |
| TreeDefs.PromotedFields | db/src/libchidb/btree.c:764-788 | the cell that goes up has the key of the median, in an index its primary key too, and the left page as its child |
| TreeStep.SplitIsTree | db/src/libchidb/btree.c:706-800 | the three pages of a split form a search tree under every bound that held the leaf and the key |
| TreeStep.SplitReplaces | db/src/libchidb/btree.c:706-800 | and list the cells of the leaf with the new one, the median of an index once and in the middle |
| TreeStep.OverrunIff | db/src/libchidb/btree.c:742-800 | on pages within their bounds an insertion runs no cell area into an offset array if and only if, should it split, both halves fit |
| TreeStep.StepInserts | db/src/libchidb/btree.c:659-807 | on decoded pages, inserting an absent key succeeds, keeps the tree well formed and its root page, and puts exactly the new entry into the traversal; the pages can hold this outcome if and only if both halves of a split fit |
| TreeRuns.StepIsLocal | db/src/libchidb/btree.c:742-800 | an insertion allocates no page or two, and changes only the target leaf and those |
| TreeRuns.StepPages | db/src/libchidb/btree.c:742-800 | the tree afterwards reaches its old pages and the allocated ones |
| TreeRuns.StepRefinesMap | db/src/libchidb/btree.c:511-545 | after inserting an absent key its lookup gives the inserted entry and every other lookup, hit or miss, gives what it gave; all pages stay within their bounds if and only if both halves of a split fit |
| TreeRuns.DuplicateIff | db/src/libchidb/btree.c:684-693 | a duplicate is reported, and everything left alone, if and only if the key is there and an internal index cell holds it or its leaf has room |
| TreeDoubles.FullLeafPuts | db/src/libchidb/btree.c:705-807 | at a full leaf every key is put into the traversal, present or not; the pages can hold the outcome if and only if both halves fit |
| TreeDoubles.DuplicateStored | db/src/libchidb/btree.c:705-807 | a key that is in a full leaf already is inserted a second time: the outcome is Ok, the traversal has one entry more, the first entry under every key is what it was, and the pages are no search tree any more; they can hold this if and only if both halves fit |
| TreeDoubles.SplitLookUp | db/src/libchidb/btree.c:511-545 | a descent through the three pages of a split finds what the overfull leaf holds, twice stored keys included |
| TreeDoubles.GraftLookUp | db/src/libchidb/btree.c:668-704 | replacing a leaf by pages on which every lookup gives what the leaf gave changes no lookup of the whole table |
| TreeDoubles.DuplicateLookUp | db/src/libchidb/btree.c:511-545 | after a key is stored a second time every descent finds what the table held under its key before |
| TreeDoubles.DuplicateExample | db/src/libchidb/btree.c:705-807 | for example rows of 500 and 600 bytes under one key on a page of 1024 bytes: both halves fit, and both rows are kept |
| TreeRuns.OtherTreesKept | db/src/libchidb/btree.c:659-807 | a tree in the same file that shares no page is left as it was |
| TreeRuns.RunKeepsTree | db/src/libchidb/btree.c:659-807 | every run of insertions of new distinct keys whose splits fit keeps the tree well formed with its root page and every page within its bounds, and its traversal is the old one with the new entries put in, in increasing order |
| TreeRuns.RunFitsIff | db/src/libchidb/btree.c:742-800 | as long as the file can grow, no state of a run has a page overrun if and only if every split of the run fits |
| TreeRuns.FindPutAll | db/src/libchidb/btree.c:659-807 | among the entries after a run every inserted key has its own entry and every other key what it had before, and there are as many as there should be; FileRuns.InsertAllThenFind says so of the file |
| BTree.FindSlot | db/src/libchidb/btree.c:531-538 | the loop stops at the first cell whose key is not smaller |
| TreeStep.TreeLookUp | db/src/libchidb/btree.c:511-545 | in a well-formed table a descent finds exactly what the whole traversal holds |
| BTree.Search | db/src/libchidb/btree.c:511-545 | on pages laid out as a table, in order or not, find returns what the descent comes to; it terminates |
| BTree.FindRow | db/src/libchidb/btree.c:511-545 | on a well-formed table find returns exactly the data that the traversal holds under the key, or "not found" |
| BTree.Print | db/src/libchidb/util.c:123-199 | the recursive print visits exactly the entries of the traversal, for tables and indexes: what the cells on its pages say, a key with its own primary key |
| BTreeInsert.InsertionIndex | db/src/libchidb/btree.c:830-842 | a duplicate is seen if and only if a cell has the key; otherwise the place before the first larger key |
| BTreeInsert.InsertNonFull | db/src/libchidb/btree.c:828-858 | the page with the cell in its place and, if an internal page takes it behind its last cell, the new right child; or a duplicate and the file untouched |
| BTreeInsert.GatherOverfull | db/src/libchidb/btree.c:711-733 | the array holds the cells of the full leaf with the new one in key order |
| BTreeInsert.SplitLeaf | db/src/libchidb/btree.c:708-800 | two new leaf pages and the rebuilt page hold what the split says, and no other page changes |
| BTreeInsert.FindLeaf | db/src/libchidb/btree.c:659-704 | the descent ends at the leaf the key belongs to, or at an internal index cell with the key; the tail of the path is then the node in hand |
| BTreeInsert.Insert | db/src/libchidb/btree.c:659-807 | if a split fits: outcome, decoded pages and shape are those of the insertion function; a duplicate changes no byte; every old page but the target leaf keeps its bytes |
| BTreeInsert.NewTree | db/src/libchidb/btree.c:325-333 | a new leaf is a well-formed tree without entries, and no other page changes |
| BTreeInsert.InsertThenFind | db/src/libchidb/btree.c:511-579 | on the file, if a split fits: the insertion of an absent key succeeds, and find then gives the inserted bytes for it and the old answer for every other key |
| SplitFit.TableSplitFits | db/src/libchidb/btree.c:708-762 | both halves fit when every cell costs between lo and hi, hi fits an empty leaf, and hi <= ceil(n/2) * lo |
| SplitFit.EqualSplitFits | db/src/libchidb/btree.c:708-762 | cells of equal size always satisfy it |
| SplitFit.IndexSplitFits | db/src/libchidb/btree.c:708-762 | an index leaf always splits into halves that fit |
| SplitFit.SplitCanOverflow | db/src/libchidb/btree.c:748-755 | without such a condition a split can overrun a page: a concrete well-formed tree and cell |
| SplitFit.ViewFits | db/src/libchidb/btree.c:221-241 | the valid pages of every file are within their bounds |
| SplitFit.EvenCellsFit | db/src/libchidb/btree.c:615-762 | so an insertion into a table of cells that are not too uneven never overruns a page |
| SplitFit.IndexCellsFit | db/src/libchidb/btree.c:615-762 | and an insertion into an index never does |
| SplitFit.IndexRunFits | db/src/libchidb/btree.c:615-762 | every split of every run of insertions into an index fits, if the file stays below 2^32 bytes |
| SplitFit.EqualRunFits | db/src/libchidb/btree.c:615-762 | so does every split of a run of rows of one size into a table of such rows |
| SplitFit.StepPacked | db/src/libchidb/btree.c:439-491 | no insertion leaves unused bytes outside the gap of a page |
| SplitFit.EvenRunFits | db/src/libchidb/btree.c:615-762 | so does every split of a run of rows of at least lo and at most hi bytes, if 2 * hi^2 <= (size - 108 - hi) * lo, whatever the order of the keys |
| FileRuns.InsertAll | db/src/libchidb/btree.c:569-807 | on the file: a run of insertions whose splits fit leaves a well-formed tree on the same root page whose traversal is the old one with all entries put in, and every page outside the tree keeps its bytes |
| FileRuns.InsertAgainThenFind | db/src/libchidb/btree.c:511-579 | on the file: a key that is there already is reported if its leaf has room and stored a second time otherwise, if the split fits; find gives the old answer for every key in both cases |
| FileRuns.InsertAllThenFind | db/src/libchidb/btree.c:511-579 | on the file: after such a run find gives every inserted key its own bytes and every other key its old answer |
| FileRuns.PutAllKeeps | db/src/libchidb/btree.c:659-807 | the entries after a run are the old ones and the new ones, each once |
| FileRuns.InsertAllThenPrint | db/src/libchidb/util.c:123-199 | on the file: after such a run the recursive print lists what the pages said before and what the new cells say, in increasing order, as many as there should be |
| FileRuns.FillIndex | db/src/libchidb/btree.c:325-333 | a new index filled with distinct keys in any order prints them in order, each with its own primary key, and nothing else, if the file stays below 2^32 bytes |
| FileRuns.FillTable | db/src/libchidb/btree.c:325-333 | a new table prints its rows so too, each with its own data, if they have one size or balanced sizes |
| ListEntries.Link | db/src/simclist/simclist.c:501-508 | a node linked in behind position p leaves the chain linked both ways, each node once |
| ListEntries.Bridge | db/src/simclist/simclist.c:613-614 | a chain closed over a gap is linked both ways |
| ListEntries.PooledKept | db/src/simclist/simclist.c:1407-1411 | removed nodes that go to the spare pool are in no chain, and the pool keeps its limit |
| SimCList.List.constructor | db/src/simclist/simclist.c:264-298 | an empty list in good order |
| SimCList.List.FindPos | db/src/simclist/simclist.c:433-457 | the node at any position from -1 to n, whichever of head, middle and tail the walk starts from, the empty list included; nothing outside |
| SimCList.List.MidAfterInsert | db/src/simclist/simclist.c:512-519 | the middle pointer ends at index (n - 1) / 2 |
| SimCList.List.InsertAt | db/src/simclist/simclist.c:477-524 | the data with the new one spliced in, the list in good order, the node new or from the pool; refused during an iteration or past the end |
| SimCList.List.DropElem | db/src/simclist/simclist.c:1388-1414 | the element is gone, the middle right for the smaller count, the node in the pool if there is room |
| SimCList.List.DeleteAt | db/src/simclist/simclist.c:542-558 | exactly that element is cut out, or nothing changes |
| SimCList.List.ExtractAt | db/src/simclist/simclist.c:459-475 | the same, and the datum is handed out |
| SimCList.List.MidAfterRange | db/src/simclist/simclist.c:573-583 | the middle moved left or right as far as the removal of a range asks |
| SimCList.List.DeleteRange | db/src/simclist/simclist.c:560-621 | exactly the range is cut out, with the number removed, or nothing changes; the pool takes the removed nodes while it has room |
| SimCList.List.Clear | db/src/simclist/simclist.c:623-667 | nothing but the sentinels is left |
| SimCList.List.FixMid | db/src/simclist/simclist.c:751-759 | for all pairs of lengths the middle of the concatenation ends at its place |
| SimCList.List.Concat | db/src/simclist/simclist.c:713-764 | a new list in good order that holds both data sequences one after the other; the two sources may be one list |
| SimCList.List.Sort | db/src/simclist/simclist.c:766-775 | the data are a permutation in which no earlier element is bigger (no earlier one smaller, for a negative direction) than a later one; only data fields change, so links, middle, count and pool stay |
| SimCList.List.IteratorNext | db/src/simclist/simclist.c:946-956 | the elements come in order, one a call |
| SimCList.List.IteratorStart | db/src/simclist/simclist.c:938-944 | an iteration begins at the first element, unless one is active |
| SimCList.List.RepOk | db/src/simclist/simclist.c:1485-1515 | the library's own self-check passes on every list in good order |
| ListSort.Directions | db/src/simclist/simclist.h:579-594 | a positive direction sorts small to big and a negative one big to small, for every total preorder |
| ListSort.SelectionSort | db/src/simclist/simclist.c:794-813 | the run is in order and a permutation of itself, the rest untouched |
| ListSort.Meet | db/src/simclist/simclist.c:850-868 | when left and right have met the pivot, nothing bigger lies before left and nothing smaller behind right |
| ListSort.SettleLeft | db/src/simclist/simclist.c:871-884 | the rotation that moves the pivot down keeps the partition |
| ListSort.SettleRight | db/src/simclist/simclist.c:885-900 | the rotation that moves the pivot up keeps it |
| ListSort.TurnedLeft | db/src/simclist/simclist.c:873-879 | one rotation step on values |
| ListSort.Partition | db/src/simclist/simclist.c:840-900 | nothing bigger before the pivot, nothing smaller behind it, a permutation of the run |
| ListSort.QuickSort | db/src/simclist/simclist.c:815-936 | for every random number the run ends in order and is a permutation of itself; it terminates |
| ListSort.OrderedJoin | db/src/simclist/simclist.c:902-936 | a sorted part below the pivot and a sorted part above it are sorted together |
| Records.RecordBuffer.constructor | db/src/libchidb/record.c:93-107 | an empty record |
| Records.RecordBuffer.Append | db/src/libchidb/record.c:120-246 | the values appended are the old ones and the new one, with type, offset, bytes and header size noted; the buffer grows once at most |
| Records.RecordBuffer.Finalize | db/src/libchidb/record.c:260-270 | the record of all values appended |
| Records.SmallValuesFit | db/src/libchidb/record.c:225-246 | no append overruns the buffer while strings have at most 1024 bytes and all data at most 64512 |
| Records.AppendFitsIff | db/src/libchidb/record.c:225-246 | after appends that all fitted, the next value fits if and only if it is no longer than the room left in the buffer and, while that has fewer than 64512 bytes, 1024 more |
| Records.ValuePlaces | db/src/libchidb/record.c:120-246 | the type code of every value, its bytes with the high one first and negative numbers in two's complement, and its tag in the packed header |
| Records.TypeOf | db/src/libchidb/record.c:395-404 | a code is invalid if and only if it is even and not 0, 2 or 4: odd codes below 13 pass as text, by unsigned wrap-around |
| Records.Pack | db/src/libchidb/record.c:357-382 | the packed bytes: header size, tags, data |
| Records.Unpack | db/src/libchidb/record.c:283-342 | unpacking what was packed gives the same field count, types and data; only a NULL notes another offset |
| Records.GettersInvert | db/src/libchidb/record.c:417-500 | every getter gives back the appended value, before packing and after unpacking, and stays inside the data |
| Records.PackedInjective | db/src/libchidb/record.c:283-382 | packed bytes can be read in one way only: no packed record is the beginning of another one |
| Tokenizer.QuotedToken | db/src/libchidb/util.c:243-246 | a token between two quotes is what stands there, blanks included; an open quote runs to the end |
| Tokenizer.WordToken | db/src/libchidb/util.c:248-249 | a word ends before the next space, tab, line feed, vertical tab, form feed or carriage return |
| Tokenizer.BlankSkipped | db/src/libchidb/util.c:254 | these are skipped between tokens |
| Tokenizer.CutTokens | db/src/libchidb/util.c:237-259 | the first pass counts the tokens and puts a NUL behind each, and nowhere else |
| Tokenizer.FindTokens | db/src/libchidb/util.c:265-283 | the second pass finds the same starts in the cut buffer |
| Tokenizer.SpansAreTokens | db/src/libchidb/util.c:227-285 | the positions found are the tokens a reader from the front gives, quotes included |
| Tokenizer.Tokenize | db/src/libchidb/util.c:227-285 | every pointer is a C string equal to its token |
| Dbm.IntegersJump | db/src/libchidb/dbm-ops.c:271-420 | with integers each condition compares the register of the third operand with that of the first: Lt jumps if it is smaller |
| Dbm.StringsJump | db/src/libchidb/dbm-ops.c:271-420 | so with strings, where smaller is a proper beginning or the smaller character at the first difference |
| Dbm.OthersDoNotJump | db/src/libchidb/dbm-ops.c:271-420 | registers of other or different types take no jump |
| Dbm.JumpGoes | db/src/libchidb/dbm-ops.c:284-290 | a jump goes to the second operand, unsigned; otherwise the next instruction follows; no register changes |
| Dbm.JumpsAreAnOrder | db/src/libchidb/dbm-ops.c:271-420 | on integers and on strings the six conditions are those of one total order |
| Dbm.Stmt.constructor | db/src/libchidb/dbm.c:62-108 | no instruction, no register with a value |
| Dbm.Stmt.SetOp | db/src/libchidb/dbm.c:146-166 | the program with that instruction set and the gap before it filled with Noops; endOp stays within the array |
| Dbm.Stmt.ReallocOps | db/src/libchidb/dbm.c:358-376 | growth keeps the program |
| Dbm.Stmt.ReallocReg | db/src/libchidb/dbm.c:380-394 | growth keeps the value of every register |
| Dbm.Stmt.Handle | db/src/libchidb/dbm-ops.c:79-82 | each handler makes the step of the interpreter |
| Dbm.Stmt.JumpIf | db/src/libchidb/dbm-ops.c:271-420 | a jump is taken if and only if both registers have comparable values and the condition holds |
| Dbm.Stmt.Exec | db/src/libchidb/dbm.c:193-214 | the machine goes through the states of the small-step interpreter |
| Dbm.Stmt.Run | db/src/libchidb/dbm.c:193-214 | a program whose jumps all go forward runs to its end, with the interpreter's result |
| Dbm.ForwardEnds | db/src/libchidb/dbm.c:193-214 | it ends within as many steps as it has instructions |
| Dbm.EndsWith | db/src/libchidb/dbm-ops.c:540-549 | exec returns 101 ("done") or the first operand of a Halt in the program |
| Halting.EndsIff | db/src/libchidb/dbm.c:193-214 | a program ends if and only if it ends within as many steps as it has instructions times ways to fill its registers with its values |
| Halting.StepsWithin | db/src/libchidb/dbm-ops.c:79-82 | no run makes a value that is not in the program or in a register at the start |
| Halting.Loops | db/src/libchidb/dbm.c:193-214 | a run that comes to one state twice goes on for ever |
| Dbm.BackwardRunsOn | db/src/libchidb/dbm.c:193-214 | a backward jump can keep it going for ever: a concrete program |
| Messages.ParsePrint | irc/src/message.c:28-74 | a printed message of at most 512 bytes and 15 parameters parses to what was printed, inner spaces included, but for a trailing parameter whose only space is its last byte |
| Messages.ParseInvertsIff | irc/src/message.c:28-74 | the parser inverts the printer of section 2.3.1 of RFC 2812 if and only if the message has no such parameter |
| Messages.FifteenAreKept | irc/src/message.c:49-73 | of more than fifteen parameters the first fifteen are kept |
| Messages.FirstBytesAreRead | irc/src/message.c:29-31 | of a line longer than 512 bytes the first 512 are read |
| Messages.TrailingReads | irc/src/message.c:52-66 | the trailing parameter put together from token and rest |
| MessageParser.Strtok | irc/src/message.c:33-47 | the next token, the NUL behind it, and what is left for the next call |
| MessageParser.ParseArgs | irc/src/message.c:49-73 | the up to fifteen arguments |
| MessageParser.ParseMessage | irc/src/message.c:28-74 | prefix, command and arguments of the first 512 bytes, and what the buffer holds when there is no command |
| Framing.FindCr | irc/src/message.c:76-84 | the place of the first CR LF, or a number past the string |
| Cuts.LineEnds | irc/src/message.c:76-84 | a line ends at the first byte 13 that is followed by 10 |
| Cuts.ReadLineSplits | irc/src/message.c:86-113 | the line read is the first of everything received and to come, and no byte is lost, wherever the chunks end |
| Framing.Connection.ReadFullMessage | irc/src/message.c:86-113 | the two buffers hold the line and what follows it |
| Framing.Connection.HandleLine | irc/src/server.c:242-260 | the line is parsed and the buffers turned over, unless it has no command |
| Framing.Connection.HandleMessage | irc/src/server.c:39-43 | after a QUIT the socket delivers nothing more |
| Framing.Connection.HandleClient | irc/src/server.c:241-261 | the lines that reach the parser and the messages handled; after a QUIT only what is in the buffer |
| Cuts.FramingIff | irc/src/server.c:241-261 | the lines that reach the parser are the CR LF split of the stream for every way to receive it in chunks of 1 to 512 bytes if and only if every line but the last has a command other than QUIT, and the last has a command, or what the parser leaves of it does not end in a CR while the next 512 bytes of the unfinished rest have an LF |
| Cuts.FramingIndependent | irc/src/server.c:241-261 | if every line has a command other than QUIT, the lines that reach the parser are the CR LF split of the stream for every way it is cut into chunks |
| Cuts.OnePieceIff | irc/src/server.c:249-251 | a stream that arrives in one piece is framed correctly if and only if every line but the last has a command |
| Cuts.ChunksMatter | irc/src/server.c:249-251 | after a blank line the outcome depends on the chunks |
| Cuts.QuitMatters | irc/src/server.c:39-43 | so it does after a QUIT: what follows in the same chunk is read, what comes in the next is not |
| Room.RoomIff | irc/src/server.c:227-231 | a stream framed alike for every way to receive it never overruns the buffer of 4096 bytes if and only if each line has at most 3582 bytes or fewer than 4096 follow from its start on, and what is left of a last line without a command fits together with the rest |
| Room.ReadRightIff | irc/src/server.c:241-261 | both together: a stream is read line by line and inside the buffer for every way to receive it if and only if it meets both conditions |
| Room.ShortLinesFit | irc/src/server.c:227-231 | with lines of at most 3582 bytes that have a command the buffer is never overrun |
| UserTable.Table.GetUser | irc/src/user.c:43-59 | the first user with the nick, or none |
| UserTable.Table.RegisterUser | irc/src/user.c:61-75 | the client enters the first free slot if and only if no user has its nick |
| UserTable.Table.DeleteUser | irc/src/user.c:77-87 | the slot of the client becomes free, no other changes |
| UserTable.Table.UpdateNick | irc/src/user.c:89-102 | the nick changes if and only if no user has the old one |
| UserTable.Table.GetNumUsers | irc/src/user.c:104-114 | the number of occupied slots |
| Clients.StepsAreOperations | irc/src/server.c:171-218 | what a step does to the table is what the table's operation does |
| Clients.StepOk | irc/src/server.c:171-218 | every step of every thread keeps the invariant |
| Clients.ReachableOk | irc/src/user.c:61-114 | in every interleaving no two slots hold the same nick or client, and the number of users is registrations less departures |
| Clients.NickThenNames | irc/src/server.c:171-205 | from every world in order a new client that takes a free nick and then gives its names is registered, in the first free slot, with the rest of the table and all other clients as they were |
| Clients.NamesThenNick | irc/src/server.c:171-205 | so is one that gives its names first |
| Clients.AttemptIff | irc/src/server.c:202-217 | the attempt succeeds if and only if the client has a nick and its names and nobody in the table has the nick; otherwise the table stays |
| Clients.AttemptFollows | irc/src/server.c:184-202 | after USER, QUIT or another command of an unregistered client, and after its nick is written, the attempt follows, with what the command set and nothing else |
| Clients.TakenNickRefused | irc/src/server.c:172-175 | a nick in use is refused and the client keeps the one it had |
| Clients.QuitLeaves | irc/src/user.c:77-87 | a registered client that quits leaves its slot and no other changes |
| Clients.NobodyIsStuck | irc/src/server.c:171-218 | no client is stuck before it quits: it can give any command, finish what it began, and register unless the table is full; after a registered client's QUIT it is in no slot |
| Clients.OthersStay | irc/src/server.c:171-218 | no step changes the record of another client |
| Clients.NickStays | irc/src/server.c:28-33 | in every reachable state a registered client that asks for a new nick is refused |
| Clients.EarlyCheckIsNotEnough | irc/src/server.c:171-183 | two clients can both pass the early look for one nick; the look under the lock lets in only the first |

## Left out

- Nodes.BTreeNode.GetCell: not for ncell == n_cells, which the code accepts and which reads past the offset array.
- Nodes.BTreeNode.InsertCell: only for a cell that fits, and not for ncell == n_cells + 1, which the code lets through with a length that underflows; every caller in the model establishes both.
- BTreeInsert.Insert: for keys that can be stored (table keys below 2^28), pages of at least 130 bytes, and, when a leaf is split, halves that fit and a file that can take two pages more; SplitFit.dfy says when halves fit. Nothing is said about the 100-byte file header when page 1 is split: the code rebuilds that page from zeros.
- BTreeInsert.InsertNonFull: for a cell that fits; the callers in the model establish that.
- TreeRuns.RunKeepsTree: for new distinct keys, since a key that meets a full leaf a second time ends the search tree (TreeDoubles.DuplicateStored), and for splits that fit, since another one overruns a page.
- FileRuns.InsertAll: the same, on the file.
- BTree.Print: what is printed per cell is the entry itself; formatting is left out.
- SimCList.List.FindPos: the quotient that picks the starting point is exact, not a float.
- SimCList.List.InsertAt: data are pointers; the mode that copies data, and list sizes of 2^31 and more, are left out.
- SimCList.List.Sort: the result of the comparator times the direction is exact; the code multiplies two ints, so products of 2^31 and more are left out.
- SimCList.List.Concat: the destination is a new list, so the refusals for null or repeated arguments do not arise.
- SimCList.List.IteratorNext: only while elements are left; past the last one the code runs off the list.
- Records.RecordBuffer.Append: one method for the five append functions, which differ in type code, payload and tag size; it is for values that fit after one growth of the buffer, the exact condition for staying inside it.
- Records.Unpack: for packed records with a header of at most 255 bytes; the code is given no length to check others against.
- Tokenizer.FindTokens: needs one byte behind the terminator that is not blank, because the second pass looks there.
- Dbm.Stmt.Exec: runs at most a given number of instructions, since programs with backward jumps need not end; Halting.EndsIff gives a number that is always enough for one that does. Destination registers are not negative.
- MessageParser.ParseMessage: the sizes of the allocated copies are left out.
- Framing.Connection.HandleClient: for streams that fit the buffers. What the handlers do with lines behind the QUIT of a registered client, whose record is freed, is left out, and so is a socket number that is given to another client.
- Cuts.FramingIff: for streams without NUL bytes, which would end the string in the buffer.
- Room.RoomIff: for streams without NUL bytes that are framed alike; for any other the lines that are read depend on the chunks.
- UserTable.Table.RegisterUser: with a free slot for a new nick; without one the code falls off the end of the function and keeps the lock.
- Clients.ReachableOk: no client registers while the table is full; num_unregisterred, which is changed without the lock, is left out; a registered client does nothing after QUIT, which frees its record.
- Balance and height of the B-tree, splits of internal nodes and patches of sibling pointers: not reached by the code.
- Shifts and masks are written as divisions and remainders; the bytes of a page are numbers from 0 to 255.
- Opening and closing files, checks of the file header, cursors, and the handlers of the database machine that are stubs.
- SQL parsing, code generation, the optimizer, column offsets.
- Binary registers, whose order is an open point in the source.
- Hashing, dumping and restoring of lists, the threaded sort, and the random source: the pivot number is arbitrary.
- Sockets, replies, the message of the day, channels, logging, allocation failures and freeing of memory.
