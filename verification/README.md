# A verified model of tinydbpp

tinydbpp is a single-user SQL database in four storage layers: pages with a cache, records on pages, a B+ tree and a
multimap on records, and tables with hash indexes and a join evaluator. This project models each layer in Dafny and
proves what the layer is for.

**Records on pages.** `VariablePage` and `FixedPage` are the two byte layouts of a 4096-byte page, written out with
little-endian 16-bit reads and writes on arrays: a first-fit tiling of blocks, and a linked list of free blocks whose
tail is the unsplit rest. `RecordManagement` puts them into a file with a dictionary page at every page number 4097k + 1;
the whole file is a map from locations to bytes, and every operation is one change of that map. `RecordScans` is the
walk over all records. `ItemCodec` is the row format, and `RowScans` ties the two: reading a row ends where its block does.

**B+ tree.** The tree is a flat heap of node records. `TreeShape` states the invariant node by node: sorted keys, exact
key intervals between separators, equal leaf depth, minimal fill, parent pointers that agree with child lists. `TreeSplit`,
`TreeLeaf` and `TreeOrder` prove it for every change of the heap. `BTrees` is the imperative tree, with nodes in memory
that hang from their parents; it stands on the bytes, through `NodeFormat` (the stored struct) and `NodeStore` (typed
records of the record manager). `LocationLists` and `MultiTrees` are the multimap: a key is bound to the bytes of a list of
locations in the same file.

**Tables.** `Tables` keeps rows and indexes together; `Indexes` says when an index agrees with the rows, for any hash
function. `WhereClauses`, `CrossProducts`, `Plans` and `Joins` are the depth-first join with partial evaluation. For every
clause `JoinMeanings` says which combinations of rows it finds: all that satisfy the clause, and more only where a conjunct
does not decide.

**Page cache.** `PageCaches` gives the cache as a value, `PageTraces` says when a run of it cannot be told from a plain array
of pages, and `Pagers` is the object graph of page and pager, each method proved to be one step of the value.

`BRankMin` and `BRankMax` are fields, constrained as the source and its key count field require:
`3 <= BRankMax <= 255` and `2 * BRankMin >= BRankMax`.

Where the code and its own text disagree, the model follows the code:

- The comment in `src/RecordManage/RecordManager.cpp:250-251` says that bit 0 of a dictionary byte marks pages of
  fixed-length records. The code sets it for pages of variable-length records.
- The comment above `BTree::update` says that the data is not resized. It may be, and then moves.
- The layout in the comment at `src/BTree/BTree.h:247-256` is packed. The struct is not, so the fields lie at their natural
  alignment.
- The readme calls the page replacement FIFO. The victim is the page that was released longest ago.

What the code does not keep, with the exact condition under which it does and an input on which it does not:

- `CacheIsPlain`: at every step of a run the cache reads like a plain array exactly if no step gives up a buffer that was
  changed and not marked. `UnmarkedWrite` says when one unmarked write survives, and `InsertionInBothModes` is the one that
  an insertion into a new variable-length page makes: lazy mode keeps it, the other mode loses it.
- `FlushedFile`: after everything was written back the file is what users saw, exactly if no page was changed without being
  marked.
- `FaultExactly`: an update loses a row exactly if the first collected row can be changed, and a later one has a unique value
  that the statement sets. The table before the update decides it, and `UpdateWhere` reports it. `DoubleFaultHappens` is such
  an update.
- `FoundIsTolerated` and `AnswerExactly`: the join misses no row, and its result is the answer exactly if no combination of
  rows makes every conjunct true or undecided and one of them false. A conjunct does not decide if a later one tests the
  same column, or if its value is a null when its second table is taken. `LastConjunctWins` and `JoinOverNull` are inputs.
- `CheckerExactly`: of several conjuncts on one column a checker keeps only the last.
- `JoinedExactly`: a comparison across tables survives partial evaluation exactly if the given row has a value there.
- `DeleteAndCollectUseIndex`: a delete by index ends in an uncaught exception exactly if the hash was never listed, as in
  `DeleteFromNewTable`. It leaves all indexes in agreement exactly if no row matches or there is no other index;
  `StaleAfterDelete` is a table with two.
- `CreateIndex` with `DropIndex`: a dropped index leaves its file behind, and an index that is created on it agrees with the
  rows exactly if that file lists nothing. `CreateOnDropped` is a table with one row.
- `FullPageAssertion`: the assertion in `tryInsert` that a full fixed-length page is full to its last byte holds exactly for
  some record lengths. `FullPageAssertionFails` is a page of 681 records of five bytes.
- `Remove`: a removal is carried out exactly under the guard that the code checks before it gives up; otherwise the leaf is
  left empty in the file. `RemovalGivesUp` is a tree with two leaves of one key. `FirstRemovalWorks`: after insertions and
  updates alone that cannot happen if BRankMax is at least 4.
- `OneTableNull`: a comparison with null finds every row, or the empty texts if it is an equality on an indexed column.
- `SmallRunIsPlain`: in lazy mode the cache loses nothing while no more pages are got than it may hold.
- `RoundTrip`: a row is read back exactly if its cells have the widths of their columns.

## Model

| member | source | states |
|---|---|---|
| `TreeShape.OneNodePerHeight` | src/BTree/BTree.h:924-983 | at each height of the tree a key falls into the interval of one node only |
| `TreeShape.LeafDecides` | src/BTree/BTree.h:924-983 | a key is bound exactly if the leaf whose interval holds it lists it |
| `TreeShape.BelowRoot` | src/BTree/BTree.h:924-983 | every node but the root is strictly lower than the root |
| `TreeSplit.HalvesOk` | src/BTree/BTree.h:354-473 | both halves of an overfull node are within the bounds for a non-root node, on the two sides of a separator that falls inside the node's interval |
| `TreeSplit.HalvesCover` | src/BTree/BTree.h:356-443 | no child, and no key of a leaf, falls between the two halves |
| `TreeSplit.HalvesEven` | src/BTree/BTree.h:357-381 | the cut is in the middle: no half has more than one entry more than the other, an odd key of a leaf goes right and an odd child stays left; the separator is the first key right of the cut, and only an internal node gives it up |
| `TreeSplit.SplitFills` | src/BTree/BTree.h:357-381 | where every leaf below the root has at least BRankMax / 2 keys, so have both new leaves and all others after a split |
| `TreeSplit.OtherParentOk` | src/BTree/BTree.h:434-439 | after a split every other node is listed by the node that its parent pointer names |
| `TreeSplit.SplitDataOk` | src/BTree/BTree.h:354-473 | after a split every key lives in a leaf and no two keys share a data record |
| `TreeSplit.SplitChildShaped` | src/BTree/BTree.h:402-412 | a split below the root gives a tree with the same bindings, in which at most the parent is over capacity |
| `TreeSplit.SplitRootShaped` | src/BTree/BTree.h:445-460 | a split of the root gives a tree one level higher, with the same bindings and no node over capacity |
| `TreeLeaf.FirstRootGood` | src/BTree/BTree.h:814-831 | one key in a root leaf is a tree |
| `TreeLeaf.LeafInsertShaped` | src/BTree/BTree.h:788-795 | a key inserted where it belongs gives a tree in which at most that leaf is over capacity, and the key was not bound |
| `TreeLeaf.LeafInsertFills` | src/BTree/BTree.h:788-795 | an insertion leaves every leaf below the root at least half full |
| `TreeLeaf.RelocateGood` | src/BTree/BTree.h:636-640 | pointing a key at another data record keeps the tree |
| `TreeLeaf.LeafEraseGood` | src/BTree/BTree.h:203-219 | erasing a key from a leaf that keeps another one keeps the tree |
| `TreeLeaf.LastKeyGone` | src/BTree/BTree.h:665-671 | a root leaf with one key is the only node, and its key the only binding |
| `TreeLeaf.DisownedSpan` | src/BTree/BTree.h:226-244 | when a parent drops a child and a separator, one neighbour's interval grows to cover the gap and the others stay |
| `TreeLeaf.DropLeafGood` | src/BTree/BTree.h:672-684 | dropping an emptied leaf from a parent that can spare it leaves a tree without that leaf |
| `TreeOrder.InOrderExact` | src/BTree/BTree.h:736-754 | a walk below a node sees exactly the bound keys of its interval, in strictly increasing order |
| `TreeOrder.AllKeysExact` | src/BTree/BTree.h:736-754 | a walk over the tree sees every bound key once, in strictly increasing order |
| `TreeOrder.SubtreeSize` | src/BTree/BTree.h:541 | a subtree of height r below the root holds at least ceil(BRankMax / 2) ^ r keys |
| `TreeOrder.TallTreesAreFull` | src/BTree/BTree.h:541 | a tree of h >= 2 levels holds at least 2 * ceil(BRankMax / 2) ^ (h - 2) keys |
| `BTrees.Node.InsertLocDataInLeafNode` | src/BTree/BTree.h:190-194 | the key and the data location are inserted at one position of a leaf, in memory |
| `BTrees.Node.InsertNodeAt` | src/BTree/BTree.h:196-201 | the separator is inserted at a position and the new child behind it |
| `BTrees.Node.GetChildPos` | src/BTree/BTree.h:494-504 | the position of a child that is listed |
| `BTrees.Node.SearchLeaf` | src/BTree/BTree.h:925-963 | a leaf's key is found exactly if it is there, and otherwise the position is the one that keeps the keys sorted |
| `BTrees.Node.SearchChild` | src/BTree/BTree.h:965-982 | the child that is taken is the one whose interval holds the key |
| `BTrees.BTree.constructor` | src/BTree/BTree.h:715-734 | a new index is a valid tree without bindings, and without a leaf below the root that is less than half full |
| `BTrees.BTree.ParseNodeFromPage` | src/BTree/BTree.h:873-878 | a node is loaded as the file holds it; that its stored parent is the node it was reached from is what callers prove |
| `BTrees.BTree.StoredParents` | src/BTree/BTree.h:521-527 | in every reachable state stored parent pointers and stored child lists agree, both ways, so the check on loading a child never fails |
| `BTrees.BTree.GetRoot` | src/BTree/BTree.h:900-914 | the root as the file holds it, or null exactly for the empty tree |
| `BTrees.BTree.SearchNode` | src/BTree/BTree.h:924-983 | the leaf that decides about a key, with the nodes above it, each as the file holds it; the key is found exactly if the tree binds it |
| `BTrees.BTree.Get` | src/BTree/BTree.h:575-591 | the data bound to a key, or KeyNotFound exactly if there is none |
| `BTrees.BTree.UpdateParents` | src/BTree/BTree.h:435-439 | exactly the parent pointers of the listed stored nodes change |
| `BTrees.BTree.CutInHalf` | src/BTree/BTree.h:364-381 | after the cut the file holds both halves and every moved child points at its new parent |
| `BTrees.BTree.GrowRoot` | src/BTree/BTree.h:445-460 | a new root above the halves makes the file a valid tree again, one level higher |
| `BTrees.BTree.AdoptInMemory` | src/BTree/BTree.h:461-464 | the parent takes separator and right half in memory; the nodes above it are untouched |
| `BTrees.BTree.SplitNode` | src/BTree/BTree.h:354-473 | splitting an overfull node, and in turn its ancestors, makes the file a valid tree with the same bindings; if every leaf below the root had at least BRankMax / 2 keys, both halves and all other leaves have them too |
| `BTrees.BTree.WriteOrSplit` | src/BTree/BTree.h:465-470 | a changed node is written, or split if it is over capacity; the file is a valid tree again, and leaves that were half full still are |
| `BTrees.BTree.InsertAsRoot` | src/BTree/BTree.h:814-831 | the first insertion makes a tree with that binding, and with no leaf below the root that is less than half full |
| `BTrees.BTree.InsertDataFrom` | src/BTree/BTree.h:763-797 | an unbound key is bound to a fresh data record, a bound one is refused and nothing changes |
| `BTrees.BTree.Insert` | src/BTree/BTree.h:559-567 | insertion refines map insertion: an unbound key is bound and every other binding stays; for a bound key nothing changes; leaves below the root that were all half full stay so |
| `BTrees.BTree.Update` | src/BTree/BTree.h:621-643 | exactly the data of the key is replaced if the callback says so, wherever the record goes; KeyNotFound exactly if the key is unbound; leaves that were half full stay so |
| `BTrees.BTree.UpdateNoResize` | src/BTree/BTree.h:599-614 | exactly the data of the key is overwritten in place, and the tree does not change |
| `BTrees.BTree.DeleteData` | src/BTree/BTree.h:203-219 | the key, its entry and its data record go, in memory and in the file |
| `BTrees.BTree.DeleteChild` | src/BTree/BTree.h:226-244 | the parent stops listing the child, and loses the separator to its left, or to its right if it is the first, in memory and in the file |
| `BTrees.BTree.DeleteNode` | src/BTree/BTree.h:662-686 | the binding goes exactly if the leaf keeps a key, is the root, or has a parent that keeps BRankMin children; otherwise the data record is gone, the leaf is stored empty, it held that key only, and its parent has at most BRankMin children |
| `BTrees.BTree.Remove` | src/BTree/BTree.h:650-660 | removal refines map removal exactly under that guard, and then every internal node has the children it had, or one fewer and at least BRankMin; otherwise it leaves an empty leaf below a parent with at most BRankMin children; KeyNotFound exactly if the key is unbound, and then nothing changes |
| `BTrees.RemovalGivesUp` | src/BTree/BTree.h:672-684 | a tree with two leaves, half full with one key each since BRankMax is 3, on which the guard fails |
| `BTrees.BTree.FirstRemovalWorks` | src/BTree/BTree.h:662-686 | for BRankMax of at least 4, in a tree whose leaves below the root are half full, as every run of insertions and updates leaves it, the guard holds for every bound key: the first removal never gives up |
| `BTrees.BTree.TraverseLeafNode` | src/BTree/BTree.h:736-754 | a reading walk below a node shows the bindings of its interval from left to right |
| `BTrees.BTree.Traverse` | src/BTree/BTree.h:692-698 | a reading walk shows every binding once, in strictly increasing order of the keys |
| `BTrees.BTree.LeafPath` | src/BTree/BTree.h:924-983 | all leaves lie at the same depth |
| `BTrees.BTree.TallTreesHoldMuch` | src/BTree/BTree.h:541 | an index of h >= 2 levels has at least 2 * ceil(BRankMax / 2) ^ (h - 2) bindings |
| `NodeFormat.LocationReads` | src/BTree/BTree.h:833-849 | a location is read back from its six bytes |
| `NodeFormat.LocationBytes` | src/BTree/BTree.h:833-849 | the six bytes of a location: four of the page number and two of the offset, lowest first |
| `NodeFormat.SplitField` | src/BTree/BTree.h:263-273 | the bytes of a wide number are those of its lower part, then those of its upper part |
| `NodeFormat.NodeBytes` | src/BTree/BTree.h:263-273 | where each field of a stored node lies: the counts at 0 and 1, the parent at 4, the keys from 16 on, the children behind BRankMax - 1 keys |
| `NodeFormat.ParseReads` | src/BTree/BTree.h:263-273 | the struct is recovered from its bytes, field by field |
| `NodeFormat.ToBuf` | src/BTree/BTree.h:288-330 | the bytes of a node are its struct with zeros in the unused entries |
| `NodeFormat.InitFromBuf` | src/BTree/BTree.h:505-528 | a stored leaf or internal node is read back as it was |
| `NodeFormat.EncodeInjective` | src/BTree/BTree.h:288-330 | different nodes are stored as different bytes |
| `NodeStore.NodeStore.NewNode` | src/BTree/BTree.h:333-339 | a new node gets a location of its own, and nothing else changes |
| `NodeStore.NodeStore.WriteNode` | src/BTree/BTree.h:340-351 | exactly the stored node is overwritten |
| `NodeStore.NodeStore.ReadNode` | src/BTree/BTree.h:873-878 | the node that was last written is read |
| `NodeStore.NodeStore.UpdateParentLoc` | src/BTree/BTree.h:475-492 | exactly the parent pointer of one stored node changes |
| `NodeStore.NodeStore.DeleteNode` | src/BTree/BTree.h:221-224 | exactly that node leaves the file |
| `NodeStore.NodeStore.ReplaceData` | src/BTree/BTree.h:634-636 | exactly that data record is replaced, at a location that no other record has |
| `LocationLists.JoinReads` | src/BTree/BTreePlus.h:25-28 | every location of a stored list is read back at its position |
| `LocationLists.JoinReplaces` | src/BTree/BTreePlus.h:103-106 | overwriting six bytes of a stored list replaces one location |
| `LocationLists.EditOk` | src/BTree/BTreePlus.h:76-91 | changing the list and the records of one key leaves the records of every other key alone |
| `LocationLists.StoreListOk` | src/BTree/BTreePlus.h:89-90 | storing a list, wherever it goes, keeps every key's records |
| `LocationLists.FirstRecord` | src/BTree/BTreePlus.h:50-55 | a key that was unbound has exactly the new record |
| `MultiTrees.BTreePlus.Get` | src/BTree/BTreePlus.h:19-34 | the records of a key, oldest first, and none for an unbound key |
| `MultiTrees.KeepJoin` | src/BTree/BTreePlus.h:76-88 | a removal judges each record on its own and keeps the order |
| `MultiTrees.KeepExactly` | src/BTree/BTreePlus.h:76-88 | all copies of a record that the checker picks go, and all copies of any other stay |
| `MultiTrees.BTreePlus.Insert` | src/BTree/BTreePlus.h:36-56 | the record is appended to those of its key; other keys are untouched |
| `MultiTrees.BTreePlus.DropRecords` | src/BTree/BTreePlus.h:76-91 | the loop deletes exactly the records that the checker picks and keeps the others in order |
| `MultiTrees.BTreePlus.Remove` | src/BTree/BTreePlus.h:73-92 | the records of the key are filtered by the checker, the key stays bound, other keys are untouched; KeyNotFound exactly if it is unbound |
| `MultiTrees.BTreePlus.RewriteRecords` | src/BTree/BTreePlus.h:95-109 | the loop offers every record to the callback, and the list follows the records that move |
| `MultiTrees.BTreePlus.Update` | src/BTree/BTreePlus.h:94-111 | each record of the key is what the callback makes of it if it says so, and as it was otherwise, in the same order; other keys are untouched |
| `Bytes.ShortAfterPut` | src/RecordManage/RecordManager.cpp:69-74 | a 16-bit field is read back, within the range of a C short, and its low byte is stored first |
| `VariablePage.BlocksDisjoint` | src/RecordManage/RecordManager.cpp:63-82 | blocks that the walk meets do not overlap |
| `VariablePage.FitsExactly` | src/RecordManage/RecordManager.cpp:66-72 | a free block takes n bytes exactly if its bytes can be tiled by a block of n bytes and at most one more |
| `VariablePage.TryInsert` | src/RecordManage/RecordManager.cpp:62-85 | the first free block that takes the record is filled and its rest split off, and no free block before it takes the record; NULL exactly if no block takes it, and then no byte changes |
| `VariablePage.PlaceBlocks` | src/RecordManage/RecordManager.cpp:66-78 | after a fill the blocks tile the page again: those before, and the split-off rest |
| `VariablePage.PlaceHolds` | src/RecordManage/RecordManager.cpp:66-78 | a fill adds one record at an offset that was not in use; all others keep place and bytes |
| `VariablePage.ClearHolds` | src/RecordManage/RecordManager.cpp:211-213 | clearing a flag removes exactly that record |
| `VariablePage.OverwriteHolds` | src/RecordManage/RecordManager.cpp:367-374 | writing the same number of bytes changes exactly that record |
| `VariablePage.FreshPage` | src/RecordManage/RecordManager.cpp:131-132 | a new page is one free block and holds no record |
| `FixedPage.HeadBlock` | src/RecordManage/RecordManager.cpp:34-44 | the list head is 0 exactly if there is neither a freed block nor a rest, and otherwise leads to the next slot |
| `FixedPage.CarveBytes` | src/RecordManage/RecordManager.cpp:49-55 | for records of at least four bytes the new header does not overlap what is still needed of the old one |
| `FixedPage.TryInsert` | src/RecordManage/RecordManager.cpp:33-61 | a record goes to the list head and the list stays acyclic and exact; NULL exactly if no block has room, and then no byte changes |
| `FixedPage.RoomExactly` | src/RecordManage/RecordManager.cpp:34-44 | a page takes a record exactly if it holds fewer than 4090 / (length + 1) records |
| `FixedPage.LastFreedFirst` | src/RecordManage/RecordManager.cpp:206-210 | the block that was freed last is used next, and then the page is as if the record had been overwritten |
| `FixedPage.WholeFreedHolds` | src/RecordManage/RecordManager.cpp:47-48 | taking a freed block whole leaves slots, list and other records as they should be |
| `FixedPage.CarvedHolds` | src/RecordManage/RecordManager.cpp:49-55 | carving a record off the rest leaves slots, list and other records as they should be |
| `FixedPage.ReleaseHolds` | src/RecordManage/RecordManager.cpp:206-210 | a deleted record's block is the new list head, and every other record and link stays |
| `FixedPage.OverwriteHolds` | src/RecordManage/RecordManager.cpp:188-195 | overwriting in place changes exactly that record |
| `FixedPage.FreshPage` | src/RecordManage/RecordManager.cpp:134-137 | a new page is a list of one free block and holds no record |
| `FixedPage.FullPageAssertion` | src/RecordManage/RecordManager.cpp:40-41 | on a page without room the assertion holds exactly if 4090 mod (length + 1) + 3 is at most the length |
| `FixedPage.FilledPage` | src/RecordManage/RecordManager.cpp:31-61 | insertions of five-byte records reach every page with up to 681 of them |
| `FixedPage.FullPageAssertionFails` | src/RecordManage/RecordManager.cpp:40-41 | a page that is full of five-byte records ends before the last byte |
| `RecordManagement.ScanAddress` | src/RecordManage/RecordManager.cpp:94-118 | the running dictionary page and index of the scans are the closed form |
| `RecordManagement.NextDictionary` | src/RecordManage/RecordManager.cpp:96-102 | after 4096 data pages comes the next dictionary page |
| `RecordManagement.DictionaryIndex` | src/RecordManage/RecordManager.cpp:126-128 | page, dictionary page and entry determine each other, so distinct data pages have distinct entries |
| `RecordManagement.EntryBits` | src/RecordManage/RecordManager.cpp:104-106 | bit 0 of an entry is the layout and bit 1 the full hint |
| `RecordManagement.PageAdded` | src/RecordManage/RecordManager.cpp:120-140 | a new data page and its dictionary entry keep every page in agreement with its entry |
| `RecordManagement.HintsChanged` | src/RecordManage/RecordManager.cpp:108-111 | setting the full bit changes no layout |
| `RecordManagement.RecordManager.TryInsert` | src/RecordManage/RecordManager.cpp:31-86 | one record more at a location that was not live: the first free block that takes it, or the head of the free list; NULL exactly if the page has no room, and then nothing changes |
| `RecordManagement.RecordManager.AddPage` | src/RecordManage/RecordManager.cpp:120-140 | the file grows by an empty data page of the right layout, at its old end, never at a dictionary's place |
| `RecordManagement.RecordManager.VisitPage` | src/RecordManage/RecordManager.cpp:103-116 | the scan puts the record on a page exactly if the page has the layout, is not marked full and has room; a page of the layout that it passes is marked full |
| `RecordManagement.RecordManager.InsertInOldPage` | src/RecordManage/RecordManager.cpp:92-119 | the record goes to the first page of the layout that is not marked full and has room, at the place where that page takes it; nothing is found exactly if there is no such page; exactly the pages of the layout before it are marked full, and no other entry changes |
| `RecordManagement.RecordManager.Insert` | src/RecordManage/RecordManager.cpp:87-143 | insertion adds exactly one entry to the map from locations to bytes, at a location that was not live, across extent boundaries; every page of the layout before that location was marked full or has no room, and a file of at least two pages grows exactly if that holds of all its pages |
| `RecordManagement.RecordManager.DelOneRecord` | src/RecordManage/RecordManager.cpp:201-216 | exactly that entry leaves the map, its block becomes free, and every other page keeps its bytes |
| `RecordManagement.RecordManager.DeleteRecord` | src/RecordManage/RecordManager.cpp:329-345 | exactly that entry leaves the map, whichever layout its page has; its block becomes free, and every other page keeps its bytes |
| `RecordManagement.RecordManager.GetRecord` | src/RecordManage/RecordManager.cpp:305-328 | the bytes that were inserted at a location |
| `RecordManagement.RecordManager.UpdateRecordNoResize` | src/RecordManage/RecordManager.cpp:347-376 | exactly that entry changes, in place |
| `RecordManagement.RecordManager.UpdateOneRecord` | src/RecordManage/RecordManager.cpp:179-200 | the new bytes are at the returned location, which is the old one if page and record are of fixed length; the old entry is gone or replaced, and every other entry stays |
| `RecordScans.ScanVariable` | src/RecordManage/RecordManager.cpp:287-298 | the walk over a page of blocks meets exactly the live records that pass, in order, and ends |
| `RecordScans.PositionIsSlot` | src/RecordManage/RecordManager.cpp:287-298 | every position before the unsplit rest of a fixed-length page is a slot, so the walk never leaves the slots |
| `RecordScans.ScanFixed` | src/RecordManage/RecordManager.cpp:287-298 | the walk over a fixed-length page meets exactly the live records that pass, in order, and ends |
| `RecordScans.Select` | src/RecordManage/RecordManager.cpp:267-303 | a scan of the file meets exactly the live records that pass, each once, in the order of their locations |
| `Locations.OrderedUnique` | src/RecordManage/RecordManager.cpp:276-301 | a set of locations can be listed in their order in one way only, so a scan has one possible result |
| `RowScans.ReaderEndsBlock` | src/RecordManage/RecordManager.cpp:291-294 | where a row with a long cell lives, the row reader leaves the cursor at the end of its block |
| `RowScans.ReaderEndsSlot` | src/RecordManage/RecordManager.cpp:291-294 | where a row of the fixed length lives, the row reader leaves the cursor at the end of its slot |
| `ItemCodec.BodyReads` | src/RecordManage/TableManager.cpp:26-71 | the columns of a row are read back in order, whatever follows them |
| `ItemCodec.RoundTrip` | src/RecordManage/TableManager.cpp:26-71 | a stored row is read back, with the cursor right behind it, exactly if its cells have the widths of their columns |
| `ItemCodec.FixedIfFieldsFit` | src/RecordManage/TableManager.cpp:54-71 | a row has the fixed length exactly if each of its fields fits the share of its column |
| `ItemCodec.RowOfTwo` | src/RecordManage/TableManager.cpp:54-71 | the bytes of one row: a fixed cell as it is, a varying one behind its four-byte length, zeros up to the fixed length |
| `ItemCodec.TableDescription.AddPattern` | src/RecordManage/TableManager.cpp:49-53 | the fixed row length follows the columns |
| `ItemCodec.TableDescription.Embed` | src/RecordManage/TableManager.cpp:54-71 | the loop stores the columns one after the other and pads a row without a long cell |
| `ItemCodec.TableDescription.Read` | src/RecordManage/TableManager.cpp:26-47 | the loop reads the columns within the limit and fails where a bounds check does |
| `Indexes.AgreesInsert` | src/RecordManage/TableManager.cpp:119-124 | listing a new row under the hash of its cell keeps the index in agreement |
| `Indexes.AgreesRemove` | src/RecordManage/TableManager.cpp:169-179 | removing the entries of rows that leave keeps the index in agreement |
| `Indexes.LiveIsBound` | src/RecordManage/TableManager.cpp:172-178 | the hash of a live row is bound, so removing its entry does not throw |
| `Indexes.LookupIsScan` | src/RecordManage/TableManager.cpp:129-140 | a filtered lookup finds the rows of the filtered scan, as a multiset, for any hash function |
| `Indexes.BuiltOnBlank` | src/Parser/AST/Nodes.cpp:498-505 | an index that all rows are added to agrees with them exactly if it listed nothing before |
| `Indexes.BlankIsEmpty` | src/Parser/AST/Nodes.cpp:521-531 | an agreeing index lists nothing exactly if there are no rows |
| `Tables.NoTwinsInsert` | src/RecordManage/TableManager.cpp:110-114 | a new row leaves a column without twins exactly if there were none and its value is not taken |
| `Tables.EveryRowComesBack` | src/RecordManage/TableManager.cpp:154-164 | an update that ends well gave back every collected row, changed or as it was |
| `Tables.FaultIsTheft` | src/RecordManage/TableManager.cpp:154-164 | under any changer a row is lost only if an earlier row of the same update was changed to its unique value |
| `Tables.ChangerSets` | src/Parser/AST/Nodes.h:201-218 | the changer of a SET clause sets each named column to the last value given for it, and no other |
| `Tables.LastValueCounts` | src/Parser/AST/Nodes.h:212-216 | of several values that are given for a column the last counts |
| `Tables.Change` | src/Parser/AST/Nodes.h:212-216 | the loop over the assignments is that changer |
| `Tables.FaultExactly` | src/RecordManage/TableManager.cpp:154-164 | a row is lost exactly if the first collected row can be changed and a later one has a unique value that the statement sets |
| `Tables.FaultedExactly` | src/RecordManage/TableManager.cpp:154-164 | the row that is lost is the first that has such a value, and what is left are the first row changed and the rows between as they were |
| `Tables.UpdatedExactly` | src/RecordManage/TableManager.cpp:154-164 | what an update without a fault comes to: no row is changed if the first cannot be; otherwise all are if the statement sets no indexed unique column to a value, and the first only if it does |
| `Tables.DoubleFaultHappens` | src/RecordManage/TableManager.cpp:159-161 | two rows that are set to the key of the second: the second is lost |
| `Tables.HarmlessUpdate` | src/RecordManage/TableManager.cpp:154-164 | an update that leaves unique columns and not-null alone changes every collected row and loses none |
| `Tables.StaleIndex` | src/RecordManage/TableManager.cpp:197-201 | an index that is not cleaned agrees with the rows exactly if none left |
| `Tables.PlacedOrdered` | src/RecordManage/RecordManager.cpp:276-301 | a row that comes to a table keeps the rows in the order of their locations |
| `Tables.ScansOnce` | src/RecordManage/RecordManager.cpp:276-301 | the rows that pass have one order in which a scan meets them |
| `Tables.Table.constructor` | src/Parser/AST/Nodes.cpp:331-344 | a new table is empty, with agreeing indexes over its key columns |
| `Tables.Table.SelectUseIndex` | src/RecordManage/TableManager.cpp:129-140 | the lookup returns the rows of the filtered scan, as a multiset |
| `Tables.Table.SelectUseChecker` | src/RecordManage/TableManager.cpp:205-213 | the scan returns the rows that pass, in the strict order of their locations |
| `Tables.Table.CheckColumns` | src/RecordManage/TableManager.cpp:74-115 | an item passes exactly if no not-null column is null and no value of an indexed unique column is taken |
| `Tables.Table.InsertInTable` | src/RecordManage/TableManager.cpp:73-127 | exactly the acceptable items become one more row, all indexes agree again, and uniqueness is kept |
| `Tables.Table.DropRow` | src/RecordManage/TableManager.cpp:169-179 | one row leaves together with its entries in all indexes |
| `Tables.Table.DeleteAndCollectItems` | src/RecordManage/TableManager.cpp:166-182 | exactly the rows that pass leave and are returned, in the strict order of their locations; all indexes agree, uniqueness is kept, and the returned rows clash with nothing |
| `Tables.Table.DeleteAndCollectUseIndex` | src/RecordManage/TableManager.cpp:184-203 | exactly the rows that match leave and are returned, only the index that was asked changes, and it agrees; the call throws exactly if the hash is unbound; all indexes agree exactly if no row matched or there is no other index |
| `Tables.DeleteFromNewTable` | src/RecordManage/TableManager.cpp:197-201 | a delete by index from a new table, whose index agrees, throws |
| `Tables.StaleAfterDelete` | src/RecordManage/TableManager.cpp:197-201 | a delete by one of two indexes leaves the other one stale: a lookup of the key there leads to the row that left |
| `Tables.Table.UpdateItems` | src/RecordManage/TableManager.cpp:154-164 | rows are given back changed, else as they were, else the update stops with DoubleFault; agreement and uniqueness are kept in every case |
| `Tables.Table.UpdateWhere` | src/Parser/AST/Nodes.cpp:406-409 | an update by scan collects the rows in the strict order of their locations and loses a row exactly under that condition; it keeps agreement and uniqueness in any case, and without a fault it comes to what UpdatedExactly says |
| `Tables.Table.BuildIndex` | src/Parser/AST/Nodes.cpp:502-505 | every row is added once to what the index listed |
| `Tables.Table.CreateIndex` | src/Parser/AST/Nodes.cpp:471-505 | the column's index agrees with the rows exactly if no dropped index left entries behind |
| `Tables.Table.DropIndex` | src/Parser/AST/Nodes.cpp:507-532 | the column is no longer indexed, and its file still lists every row there is |
| `Tables.CreateOnDropped` | src/Parser/AST/Nodes.cpp:507-532 | an index that is dropped and created again over one row does not agree with the rows |
| `WhereClauses.GetChecker` | src/Parser/AST/Nodes.cpp:62-97 | the slot of a column holds the last conjunct on it |
| `WhereClauses.TestIsChecked` | src/Parser/AST/Nodes.cpp:98-148 | the test of one slot is the meaning of its conjunct |
| `WhereClauses.IntsCompared` | src/Parser/AST/Nodes.cpp:112-117 | integers are compared as numbers, by all six operators |
| `WhereClauses.TextLessIs` | src/Parser/AST/Nodes.cpp:128-133 | a text is lower exactly if it is a proper prefix of the other or has the lower character where the two first differ |
| `WhereClauses.TextsCompared` | src/Parser/AST/Nodes.cpp:128-133 | all six operators on texts follow from prefix and first difference |
| `WhereClauses.ComparedExactly` | src/Parser/AST/Nodes.cpp:111-133 | of two values of one kind exactly one of equal, lower and greater holds, and the other three operators are what these say |
| `WhereClauses.ComparedInTurn` | src/Parser/AST/Nodes.cpp:111-133 | lower is transitive |
| `WhereClauses.CheckerExactly` | src/Parser/AST/Nodes.cpp:62-150 | a checker accepts exactly the items for which the last conjunct on every column holds |
| `WhereClauses.CheckerMeaning` | src/Parser/AST/Nodes.cpp:62-150 | where no column is tested twice by conjuncts about the table, it accepts exactly the items for which all of them hold |
| `WhereClauses.LastConjunctWins` | src/Parser/AST/Nodes.cpp:85 | a row that passes a checker although one of two conjuncts on a column is false |
| `WhereClauses.Assign` | src/Parser/AST/Nodes.cpp:227-270 | the new clause has what is left of each conjunct, in order, and the old one is unchanged |
| `WhereClauses.FlipCompares` | src/Parser/AST/Nodes.cpp:256-261 | the flipped operator compares the operands the other way round |
| `WhereClauses.JoinedExactly` | src/Parser/AST/Nodes.cpp:244-266 | a comparison of two tables keeps its meaning exactly if the given row has a value there |
| `WhereClauses.AssignOneMeaning` | src/Parser/AST/Nodes.cpp:227-270 | what is left of a conjunct means for the other tables what the conjunct meant, unless the given row has no value there |
| `WhereClauses.PartialEvaluation` | src/Parser/AST/Nodes.cpp:227-270 | where the table's own conjuncts are one per column and nothing is compared with a null, a clause holds with a row given exactly if the row passes its table's checker and the residual clause holds for the others |
| `Plans.NextTable` | src/Parser/AST/Nodes.cpp:152-196 | the loops pick the first table pinned to a value of an indexed column, else the last one that feeds an index, else the first |
| `Plans.ChosenTable` | src/Parser/AST/Nodes.cpp:152-196 | the table taken is the first with a conjunct that pins an indexed column, if there is one; else the last with a conjunct that feeds an index of another table; else the first |
| `Plans.ChosenPin` | src/Parser/AST/Nodes.cpp:158-176 | an index is asked exactly if a conjunct pins the table that is taken, and for the first such conjunct |
| `Plans.SamePlan` | src/Parser/AST/Nodes.cpp:152-196 | the order of the tables depends on the shape of the clause only, not on its values |
| `Plans.PlanOfResidual` | src/Parser/AST/Nodes.cpp:203-222 | every row of the first table leads to the same order of the others |
| `Plans.PlanCovers` | src/Parser/AST/Nodes.cpp:204-209 | every table is taken exactly once |
| `CrossProducts.CrossCount` | src/Parser/AST/Nodes.cpp:198-225 | a combination of rows occurs in the cross product as often as its rows do |
| `CrossProducts.PulledOver` | src/Parser/AST/Nodes.cpp:198-225 | the copies of a combination are those of its row in any one table times those of the rest |
| `CrossProducts.OrderIrrelevant` | src/Parser/AST/Nodes.cpp:198-225 | the cross product is the same multiset whatever order the tables are taken in |
| `JoinMeanings.FindsAfter` | src/Parser/AST/Nodes.cpp:227-270 | partial evaluation with the row of a table leaves all tests of the tables after it as they were |
| `JoinMeanings.FindsFirst` | src/Parser/AST/Nodes.cpp:203-224 | a combination is found exactly if its row of the first table passes checker and lookup and the rest is found under the residual clause, for any clause |
| `JoinMeanings.AdmitsExactly` | src/Parser/AST/Nodes.cpp:62-150 | a row is admitted exactly if every conjunct that is tested there is overruled by a later one or passes, and the lookup fits |
| `JoinMeanings.FindsExactly` | src/Parser/AST/Nodes.cpp:198-225 | for every clause a combination is found exactly if each conjunct holds or does not decide |
| `JoinMeanings.JoinOverNull` | src/Parser/AST/Nodes.cpp:244-266 | a comparison of two tables that is false for want of a value, and is found |
| `Joins.AnswersAreFound` | src/Parser/AST/Nodes.cpp:198-225 | combinations that are counted as the join counts them are, as a multiset, the ones of the cross product that it finds |
| `Joins.FoundIsTolerated` | src/Parser/AST/Nodes.cpp:198-225 | the join finds exactly the combinations of the cross product that make each conjunct true or undecided |
| `Joins.AnswerExactly` | src/Parser/AST/Nodes.cpp:198-225 | the join misses no row of the filtered cross product, and finds nothing else exactly if no combination makes each conjunct true or undecided and one of them false |
| `Joins.PlainFound` | src/Parser/AST/Nodes.cpp:198-225 | it finds the filtered cross product if no column is compared twice and none with a null |
| `Joins.OneTableQuery` | src/Parser/AST/Nodes.cpp:198-225 | a query over one table with one test of a column against a value finds exactly the rows whose integer or text is on that side of it, and with a test for null exactly those that are null, or are not |
| `Joins.OneTableNull` | src/Parser/AST/Nodes.cpp:158-176 | a query over one table that compares a column with null finds every row, unless it tests for equality and the column has an index: then it finds the empty texts |
| `Joins.FlatJoin` | src/Parser/AST/Nodes.cpp:215-224 | a result row is the rows of the tables, one behind the other in the order of the plan |
| `Joins.Query.SelectItems` | src/Parser/AST/Nodes.cpp:211-214 | index or scan, exactly the rows are taken that pass the checker and have the value the index was asked for |
| `Joins.Query.TakeOut` | src/Parser/AST/Nodes.cpp:204-209 | the picked table leaves the list, and its label is set once |
| `Joins.Query.JoinItems` | src/Parser/AST/Nodes.cpp:215-224 | the loop finds, for each row of the table, what the smaller query finds |
| `Joins.Query.Dfs` | src/Parser/AST/Nodes.cpp:198-225 | for any clause the join appends exactly the combinations that it is to find, each as often as its rows occur, in the columns of the plan |
| `Joins.Query.Select` | src/Parser/AST/Nodes.cpp:428-437 | the result is, as a multiset, the combinations that the join finds, and the filtered cross product for a plain clause; the labels name the tables of the columns |
| `PageCaches.OpenedOk` | src/Pager/Pager.cpp:17-44 | a new cache shows the file, and zeros behind its end |
| `PageCaches.LossIsSeen` | src/Pager/Page.cpp:135-152 | a page reads the same without its buffer exactly if it is marked or as in the file |
| `PageCaches.FreedOk` | src/Pager/Page.cpp:135-152 | giving up a buffer that nobody uses is seen in its page at most, and not at all exactly if that page is marked or as in the file; it frees one unit of the quota |
| `PageCaches.ReservedOk` | src/Pager/Pager.cpp:78-95 | making room is seen in the page of the victim at most, and the count of buffers stays exact and within the limit |
| `PageCaches.LoadFindsVictim` | src/Pager/Pager.cpp:78-106 | with fewer pages in use than the limit a load always finds room, in both modes |
| `PageCaches.LoadedOk` | src/Pager/Page.cpp:93-117 | a load keeps the invariant and is seen in the page of the victim at most |
| `PageCaches.AcquiredOk` | src/Pager/Page.cpp:81-118 | a buffer that was got is in use and holds the page; only the victim can read differently afterwards |
| `PageCaches.KeptBelowLimit` | src/Pager/Pager.cpp:78-95 | below the limit a get takes no page's buffer; at the limit it takes exactly one if it needs room |
| `PageCaches.ReleasedOk` | src/Pager/Page.cpp:62-79 | a release is seen at most where it gives the buffer up at once |
| `PageCaches.ReleasedAtOnce` | src/Pager/Page.cpp:62-79 | without lazy mode the last release of a page is seen in that page at most, and not at all exactly if it is marked or as in the file |
| `PageCaches.PokedOk` | src/Pager/Page.cpp:81-91 | a change of a buffer in use is seen in that byte of that page and nowhere else |
| `PageCaches.MarkedOk` | src/Pager/Page.h:56-58 | marking a page, with or without a buffer, is not seen, and after it the buffer can be given up without loss |
| `PageCaches.FlushedOk` | src/Pager/Pager.cpp:120-124 | writing pages back changes nothing that is seen |
| `PageCaches.FlushedFile` | src/Pager/Pager.cpp:120-124 | after writing everything back the file is what is seen exactly if no page in use was changed without being marked |
| `PageTraces.CacheIsPlain` | src/Pager/Page.cpp:43-152 | over every run the cache reads like a plain array of pages at each step exactly if no step gives up a buffer that was changed and not marked |
| `PageTraces.StepExactly` | src/Pager/Page.cpp:43-152 | one operation is seen as in a plain array exactly if the buffer that it gives up, if any, is marked or as in the file |
| `PageTraces.AlwaysOk` | src/Pager/Pager.cpp:78-118 | over every run, whatever users mark, the books of the cache stay right |
| `PageTraces.CarefulIsPlain` | src/Pager/Page.cpp:43-152 | to users who mark what they change before the last release the cache is a plain array |
| `PageTraces.KeptWithinLimit` | src/Pager/Pager.h:76 | in lazy mode no step gives up a change while no more pages are got than there may be buffers |
| `PageTraces.SmallRunIsPlain` | src/Pager/Pager.h:76 | a lazy cache over a file just opened, in which no more different pages are got than the limit, reads like a plain array at every step, whether or not users mark |
| `PageTraces.UnmarkedWrite` | src/RecordManage/RecordManager.cpp:131-140 | a byte that is written and released unmarked is read again exactly if the cache is lazy, another user holds the page, it was marked before, or nothing changed |
| `PageTraces.UnmarkedKept` | src/RecordManage/RecordManager.cpp:131-140 | in lazy mode such a write gives no change up |
| `PageTraces.InsertionInBothModes` | src/RecordManage/RecordManager.cpp:131-140 | the unmarked header of a first variable-length page is still there in lazy mode, and lost without it |
| `PageTraces.ReadsPlain` | src/Pager/Page.cpp:81-118 | every buffer that is got in a run holds the page of the plain array, if nothing was given up before |
| `PageTraces.CachesAgree` | src/Pager/Page.cpp:62-79 | caches of any capacities and modes stay indistinguishable under the same run while neither gives a change up |
| `PageTraces.FlushedIsPlain` | src/Pager/Pager.cpp:120-124 | after a run that gave nothing up and a write-back the file is the plain array exactly if every changed page was marked |
| `PageTraces.WeakInOrder` | src/Pager/Pager.cpp:108-118 | over every run of a newly opened cache the weak pages are in the order of their last releases |
| `PageTraces.VictimIsOldest` | src/Pager/Pager.cpp:101-106 | the victim is, of all buffers that nobody uses, the one released longest ago, over every run |
| `Pagers.Page.WriteBackIfDirty` | src/Pager/Page.cpp:43-60 | a marked page is in the file and no longer marked; every other page of the file stays |
| `Pagers.Page.FreeBuffer` | src/Pager/Page.cpp:145-152 | the page has no buffer, is not marked, and the quota has one unit more |
| `Pagers.Page.BecomeVictim` | src/Pager/Page.cpp:135-143 | the step FreedOk is about |
| `Pagers.Page.IncRef` | src/Pager/Page.cpp:125-133 | one more user, and a page that was weak no longer is |
| `Pagers.Page.ReleaseBuf` | src/Pager/Page.cpp:62-79 | the step ReleasedOk is about, in both modes |
| `Pagers.Page.MarkDirty` | src/Pager/Page.h:56-58 | the page is marked, whether it has a buffer or not, the step MarkedOk is about |
| `Pagers.Page.GetBuf` | src/Pager/Page.cpp:81-118 | the step AcquiredOk is about; the array that is returned holds the page; fails exactly if the limit is reached and no page is weak |
| `Pagers.Page.Poke` | src/Pager/Page.cpp:81-91 | writing into the returned array is the step PokedOk is about: no other page shares the array |
| `Pagers.Pager.GetPage` | src/Pager/Pager.cpp:63-76 | one object per page; for a new one the file grows beyond the page, by zeros |
| `Pagers.Pager.NeedOnePageQuota` | src/Pager/Pager.cpp:78-95 | the step ReservedOk and KeptBelowLimit are about; fails exactly if the limit is reached and no page is weak |
| `Pagers.Pager.FindVictim` | src/Pager/Pager.cpp:101-106 | the object of the page at the front of the weak list |
| `Pagers.Pager.NoMoreWeakPage` | src/Pager/Pager.cpp:108-114 | the page leaves the weak list, the others keep their order |
| `Pagers.Pager.WriteBackAll` | src/Pager/Pager.cpp:120-124 | the loop writes every marked page, and only those; it stops where the source asserts, exactly if a marked page has no buffer |

## Left out

- File descriptors, paths, schema text, JSON, the GUI, the command line, logging and performance counters: a file is a
  sequence of pages, and a table starts from its columns.
- std::hash is an arbitrary function from cells to 64-bit keys.
- B+ tree borrowing and merging are not implemented in the source, which gives up with an assertion.
- BTrees.BTree.constructor: the magic number, the node size and the root pointer that setupBTree writes to page 0 are left
  out; the root pointer is a field of the tree and not bytes of the page.
- BTrees.BTree.GetRoot: the assertions about the magic number and the node size in page 0 are left out.
- BTrees.BTree.Remove: expects a tree that is not empty, because the source dereferences the null root of an empty one.
- BTrees.BTree.ParseNodeFromPage: the assertion about the stored parent is a precondition, which every caller in the model
  proves.
- Keys have 64 bits and the stored struct the natural alignment of its fields; other key types are left out.
- BTrees.BTree.Traverse: callbacks only read. Walks that change data drop the new location of a record that moved, and the
  walk of the multimap stops calling back after the first change.
- BTrees.BTree.Insert: data that does not fit a fresh page is excluded, since the source dereferences null there; so the
  length of a location list is bounded. Files have fewer than 2^19 pages, because their size is computed in a C int.
- MultiTrees.BTreePlus.Insert: the flag for records of fixed length is left out, all callers pass false.
- MultiTrees.BTreePlus.Remove: the flag for records of fixed length is left out here too.
- The full bit of a dictionary page is a hint: which bits an insertion sets is stated, that deleting clears one is left out.
- RecordManagement.RecordManager.DeleteRecord: the random clearing of a local copy of the full bit, and the mark that it
  leaves on a page without a buffer, are left out; `PageTraces` allows such a mark.
- RecordScans.ScanFixed: stops at byte 4092, where blocks end. The source steps through the four bytes behind them and reads
  past the buffer.
- RecordScans.Select: passes a live record by the length of its block; that the row reader ends there is `RowScans`. It needs
  a file that already has a dictionary page.
- RecordManager::update inserts while it scans, so a row may be visited twice: left out.
- Tables.Table.CheckColumns: foreign keys, which look a value up in another table, and the check of a column called gender
  are left out.
- Tables.Table.InsertInTable: the same two checks are left out.
- Tables.FaultExactly: tables without these two checks. A foreign key whose row has left since is one more reason why a
  collected row cannot come back.
- The indexes of `Tables` are the map that `MultiTrees` proves its objects to be, and rows are addressed by locations that
  the caller takes from the record manager; the table is not stacked on the bytes a second time.
- Tables.Table.UpdateItems: the locations of the rows that come back are parameters, free and different as `Insert` of the
  record manager returns them. The indexes must agree, so giving rows back after a delete by index is left out where that
  delete leaves another index stale: a lookup in a stale index reads a location that holds no record or another one.
- Reading a table description again, which takes every column with an index file as indexed, is left out; after DropIndex
  it would bring back an index that no longer follows the rows.
- WhereClauses.GetChecker: columns are pairs of a table and a position; names without a table, the substring match on names
  and the error about a missing column are left out.
- WhereClauses.TestIsChecked: LIKE is left out, a regular expression library.
- WhereClauses.JoinedExactly: about one conjunct and one row; `FindsExactly` is what follows for a whole query.
- Joins.Query.Dfs: tables are distinct, and errors about missing columns and types are left out.
- Joins.Query.Select: result rows are whole rows. The source projects columns by a wrong index. If no row is found, labels of
  tables that were never reached stay empty.
- RecordManagement.RecordManager.GetBuf: page buffers are filled from the page and released back to it, so two holders of
  one buffer are not captured there. They are in `Pagers`, whose objects are not stacked under the record manager; what that
  means for the page that `AddPage` does not mark is said by `UnmarkedWrite`.
- Pagers.Page.GetBuf: the source's own out-of-memory exception is never reached, because an assertion about the weak list
  comes first.
- The destructors of page and pager are left out; a page that dies while it is in use is an assertion in the source.
