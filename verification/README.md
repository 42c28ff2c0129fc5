# A verified model of a column store's indexes and operators

This project models the query core of a small column store in Dafny and proves what its
operators promise.

* **The B+-tree index** (`src/btree.c`). Nodes are objects with fixed buffers, counts and
  `next` pointers, changed in place by splits and insertions. The heap code is proved equal to
  functions on tree values (module `BTreeModel`), and the ordering, conservation and occupancy
  results are proved about those functions for all runs of insertions. A comment in the source
  (`src/btree.c:95-96`) says that every separator is the first record of its child. The code
  does not keep that: after a root split a new minimum is inserted without lowering the first
  separator of the new root. The model follows the code. `BTreeExact` gives a concrete input and
  the exact condition, and `BTreeOrder` proves by counting records that the tree is ordered
  all the same. The tree is not stable either: `BTreePlaces` says exactly when a record goes
  behind its equals.
* **The range select** on the tree walks the leaf chain; it is proved to return exactly the
  records in range for all bounds, and to refine a scan of the column.
* **Persistence** (`src/persist.c`). A preorder dump of node images, whose place in the file is
  proved for every node, and its loader form a round trip on the heap; the `next` chain of every
  level is rebuilt from stale pointers.
* **The shared scan** (`src/scheduler.c`). One thread per scheduled select and block, with a
  join barrier between blocks, is a step system over all interleavings (`Interleavings`).
  `Threads` runs those steps on the nodes and result vectors in any order and proves that each
  does to them what the step system says; `Executor` keeps the loops of the source, with each
  thread running when it is joined. `Agreement` compares with the sequential execution.
* **The other operators** are proved against the plain scan or the naive join: sorted index,
  primary select, select-fetch-select, paged nested-loop join, hash join, row-preserving table
  sort, binary searches, growable vectors.

Files follow the source: `BTree*.dfy` and `IndexBuild.dfy` for the tree, `DumpModel.dfy`,
`Persistence.dfy` and `Relink.dfy` for its file format, `Scans.dfy`, `Columns.dfy`, `Tables.dfy`
and `NestedJoins.dfy` for the operators, `HashJoins.dfy`, `SortedIndexes.dfy`, `Sorting.dfy`,
`Vectors.dfy`, `Utils.dfy`, and `Interleavings.dfy`, `Scheduling.dfy`, `Executor.dfy`,
`Threads.dfy`, `Agreement.dfy` for the scheduler. `Requests.dfy` says what every select and every
schedule answers in terms of the bounds as they were requested. `Joins.dfy` and `Bags.dfy` hold
the reference definitions shared by the operators; `JoinAgreement.dfy` runs both joins side by side.

Values (`data`, a 64-bit integer) and record positions are mathematical integers. C's `int` is
modelled as such wherever it matters: the midpoints of the binary searches, the block bounds of
a scan, the positions that `select_two` and the hash table store. Scan and tree selects are
half-open, sorted and primary selects include the upper bound; the contracts say so. The numbers
of the source (169 entries of a node, blocks of 131072 rows, 128000 buckets, pages of 4096 rows,
32 and 64 for the room of a vector, C's smallest and largest `int` for absent bounds) are named
in the code and stand as numbers in the results.

`dafny verify dfyconfig.toml` checks everything.

## Model

| member | source | states |
|---|---|---|
| `BTreeHeap.SearchInner` | src/btree.c:44-52 | the loop finds the first position whose value is above `d` (all before it are at most `d`) |
| `BTreeHeap.MakeRoom` | src/btree.c:122-130 | entries before `i` stay, the others move up by one; children only move in inner nodes; no write passes NODE_SIZE |
| `BTreeHeap.SplitNode` | src/btree.c:133-166 | which entries each half holds, the new entry of the parent, and that the new node is linked in between the old node and its old successor |
| `BTreeSplit.SplitKid` | src/btree.c:133-166 | the nodes below the parent afterwards hold exactly `SplitChild` of the old tree value, stay disjoint, and the `next` chains of all levels still go left to right and leave to where they did |
| `BTreeInsert.InsertNode` | src/btree.c:54-85 | the in-place insertion leaves nodes that hold `InsertNonFull` of the old value, are used once each, and are chained on every level |
| `BTreeInsert.DescendNode` | src/btree.c:66-80 | overwriting the first separator, splitting a full child and choosing a half turns the node into `Descend` of its value |
| `BTreeIndex.GrowRoot` | src/btree.c:88-98 | a full root becomes the left half of a new root; every level, the new top one included, is chained and ends in NULL |
| `BTreeIndex.InsertRecord` | src/btree.c:88-115 | from the old root pointer to the new one: the nodes hold `Insert` of the old index and every chain ends in NULL |
| `BTreeIndex.BTree.constructor` | src/btree.c:16-31 | an empty leaf, chained to NULL, satisfies the whole invariant |
| `BTreeIndex.BTree.Insert` | src/btree.c:88-115 | keeps the representation, the chains and the ordering invariant, and changes the index exactly by `Insert` |
| `BTreeModel.HalvesShape` | src/btree.c:133-149 | both halves of a full node are at least half full and not full |
| `BTreeModel.HalvesSizes` | src/btree.c:133-149 | a full node has 169 entries: the first 84 stay and 85 go into the new node, children alike |
| `BTreeModel.SplitShape` | src/btree.c:133-166 | a split below a non-full parent keeps all leaves at one depth and every child between half full and full |
| `BTreeModel.Descend` | src/btree.c:54-80 | the prepared node keeps its shape and the chosen child has room for one more |
| `BTreeModel.InsertNonFull` | src/btree.c:54-85 | keeps depth and occupancy; a node gains at most one entry |
| `BTreeModel.Insert` | src/btree.c:88-115 | keeps the tree balanced: leaves at one depth, occupancy bounds, an inner root with at least two children |
| `BTreeOrder.FirstIsMin` | src/btree.c:64-69 | off the leftmost path the first separator of a node is the first and smallest record below it |
| `BTreeOrder.SeparatorsSorted` | src/btree.c:54-82 | the separators of every node are sorted, the possibly stale first one included (the counting argument) |
| `BTreeOrder.HalvesFlat` | src/btree.c:133-152 | no record is lost or moved out of order when a node is cut in two |
| `BTreeOrder.SplitFlat` | src/btree.c:133-166 | a split does not change the left-to-right records of the parent |
| `BTreeOrder.SplitOrdered` | src/btree.c:133-166 | a split keeps the separator invariant |
| `BTreeOrder.DescendCore` | src/btree.c:54-80 | the descent keeps the records and the invariant; the first separator is lowered only to a smaller new record |
| `BTreeOrder.DescendBounds` | src/btree.c:54-80 | the record lies between the separator of the chosen child and the next one |
| `BTreeOrder.InsertNonFullOrdered` | src/btree.c:54-85 | adds exactly the record, at a place that keeps the records sorted, and keeps the invariant at every level; off the leftmost path the first separator is not touched |
| `BTreeOrder.NewRootOrdered` | src/btree.c:88-98 | the root above the two halves holds the same records and both of its separators are right when it is made |
| `BTreeOrder.BoundAfterRootSplit` | src/btree.c:95-106 | one record may slip below a first separator that is not lowered, and no more than one per level |
| `BTreeOrder.InsertFullOrdered` | src/btree.c:88-110 | the insertion under a new root keeps the invariant although its first separator may go stale |
| `BTreeOrder.InsertInvariant` | src/btree.c:88-115 | bt_insert keeps the invariant and inserts exactly the record into the sorted records |
| `BTreeOrder.InsertBag` | src/btree.c:88-115 | conservation: the multiset of records gains exactly the new one |
| `BTreeOrder.BulkIntoBag` | src/btree.c:33-40 | whatever tree a bulk insertion starts from stays ordered and gains exactly the pairs (i, v[i]) |
| `BTreeOrder.RunInvariant` | src/btree.c:88-115 | after any run of inserts the invariant holds and the records are exactly those inserted, as a multiset |
| `BTreeOrder.BulkInvariant` | src/btree.c:33-40 | a bulk insertion holds exactly the pairs (i, v[i]), in value order |
| `BTreeOrder.BulkIsRun` | src/btree.c:33-40 | a bulk insertion is the run of inserts of those pairs in row order |
| `BTreeOrder.FilledSize` | src/btree.c:133-145 | a subtree with h internal levels below the root holds at least 84^(h+1) records |
| `BTreeOrder.RecordsByLevel` | src/btree.c:88-115 | a tree with h >= 1 internal levels holds at least 2 * 84^h records: 168, 14112, 1185408 for h = 1, 2, 3 |
| `BTreeNodes.OrderedAt` | src/btree.c:54-115 | the invariant holds at the node of every path |
| `BTreeNodes.Occupancy` | src/btree.c:54-115 | all leaves at one depth, every node at most 169 entries, every non-root node at least 84, an inner root with at least 2 |
| `BTreeNodes.Separators` | src/btree.c:54-115 | in every inner node the separators are sorted; each one at index >= 1, or off the leftmost path, is the first record of its child and a minimum of the subtree; a leftmost first one is not below the minimum, and at most as many records of the tree as its node has levels are smaller |
| `BTreeNodes.CountBelowAtMost` | src/btree.c:54-115 | at most the first n of the records are below a value that record n and its successors reach |
| `BTreeExact.InsertNonFullExact` | src/btree.c:54-85 | bt_insert_non_full keeps every separator equal to the first record of its child |
| `BTreeExact.InsertExact` | src/btree.c:93-106 | from a tree where the comment holds, it holds after bt_insert if and only if not (the root was full and the record is below its first separator) |
| `BTreeExact.RunsExact` | src/btree.c:93-106 | over whole runs: the comment holds after every insert if and only if no insert of a new minimum meets a full root |
| `BTreeExact.CommentFails` | src/btree.c:95-106 | the comment is false of the tree built from 1, 2, ..., 169, 0 |
| `BTreeExact.BulkAscending` | src/btree.c:33-40 | up to 169 values that never fall form one leaf, in their order |
| `BTreeExact.BulkSplits` | src/btree.c:88-98 | the 170th value makes two leaves under a new root, whose separators are the records of rows 0 and 84 |
| `BTreePlaces.DescentIs` | src/btree.c:54-80 | the last child whose separator is not above the record takes it; only a child of 169 entries is cut, into 84 and 85, and an equal key goes left |
| `BTreePlaces.LevelGrows` | src/btree.c:88-115 | bt_insert adds a level exactly when the root has 169 entries |
| `BTreePlaces.EqualBelow` | src/btree.c:54-85 | records equal to the new one follow its place exactly if some node cut on the way has its key as the first of the upper half |
| `BTreePlaces.InsertStable` | src/btree.c:88-115 | bt_insert puts a new record behind all that are not above it, if and only if no node that it cuts on the way has the key of the record as the first of its upper half |
| `BTreePlaces.EqualsOutOfOrder` | src/btree.c:33-40 | from 170 equal values the last row goes in front of some of its equals |
| `BTreeLevels.LevelLinked` | src/btree.c:133-160 | on every level `next` visits exactly the nodes of the level, left to right, and then leaves |
| `BTreeLevels.RowsInOrder` | src/btree.c:197-227 | the records of the leaves, joined, are the in-order records of the tree |
| `BTreeLevels.BottomHolds` | src/btree.c:197-227 | the nodes of the bottom level are leaves and hold those rows |
| `BTreeSelect.LevelsChained` | src/btree.c:133-160 | in every valid index every level is chained from its leftmost node through each node once to NULL |
| `BTreeSelect.SearchLeft` | src/btree.c:168-176 | the loop finds the first position whose value is at least `d` |
| `BTreeSelect.SearchNode` | src/btree.c:179-187 | returns the leaf number `Reached` of the bottom level |
| `BTreeSelect.ReachedSplits` | src/btree.c:179-187 | every record in leaves before the reached one is below `d`, every record in leaves after it is not, although duplicates may span leaves and inserts searched with another comparison |
| `BTreeSelect.ScanLeaf` | src/btree.c:207-222 | the inner loop reports exactly the hits of the leaf up to the first record that reaches `high` |
| `BTreeSelect.HitsStopped` | src/btree.c:211-215 | returning at a record that reaches `high` misses nothing |
| `BTreeSelect.WalkLeaves` | src/btree.c:203-226 | the walk along the chain terminates and returns all hits, wherever it starts, stops or crosses |
| `BTreeSelect.SelectOneBtree` | src/btree.c:197-227 | exactly the positions of the in-order records with low <= value < high, in that order, for all bounds |
| `IndexBuild.InsertBulk` | src/btree.c:33-40 | from any tree the loop inserts all pairs (i, v[i]) in row order |
| `IndexBuild.CreateBtreeIndex` | src/btree.c:26-31 | a valid index over exactly the pairs of the vector |
| `IndexBuild.HitsBag` | src/btree.c:197-227 | records in another order have the same hits in another order |
| `IndexBuild.HitsOfEntries` | src/cs165_api.c:496-511 | the pairs of a column filtered by a range are the rows a scan reports |
| `IndexBuild.IndexRefinesScan` | src/btree.c:26-40 | for every column and all bounds the tree built from it yields a permutation of the full scan, ordered by value |
| `IndexBuild.SelectBothWays` | src/btree.c:197-227 | the code of both selects run on one vector: same multiset, the indexed one by value |
| `DumpModel.ParseDump` | src/persist.c:53-66 | reading a dumped tree gives the tree back and stops where it ended, whatever follows |
| `DumpModel.DumpParse` | src/persist.c:182-189 | whatever can be read is the dump of what was read: the format is unambiguous |
| `DumpModel.DumpLength` | src/persist.c:182-189 | one image for every node |
| `DumpModel.DumpAt` | src/persist.c:182-189 | the image number of the node at every path: parents first, then child after child |
| `DumpModel.DumpInOrder` | src/persist.c:182-189 | the leaf images in file order hold the records in their order |
| `DumpModel.BodyRegular` | src/persist.c:53-66 | every tree of the right shape can be dumped and read |
| `Persistence.PersistNode` | src/persist.c:182-189 | the recursive writer appends exactly the images of all nodes in preorder, unused slots and pointers included; what the reader uses of them is the dump of the tree |
| `Persistence.ReadNode` | src/persist.c:53-57 | one fread: flags, count, all record and child slots and the next pointer of the image, stale pointers included |
| `Persistence.LoadNode` | src/persist.c:53-66 | the nodes read are new, used once each, and hold the tree that the file describes; the read position moves past it |
| `Persistence.LoadKids` | src/persist.c:59-63 | the loop reads one subtree per entry and points to it |
| `Relink.SpineDownward` | src/persist.c:74-75 | the leftmost nodes of a tree are linked downwards by children[0] |
| `Relink.LinkKids` | src/persist.c:70-77 | each child points to its right neighbour and the last one to the first child of the neighbour of the node, or NULL |
| `Relink.PlaceNexts` | src/persist.c:68-82 | from arbitrary stale pointers one pass top-down leaves every level chained, and changes no record and no child |
| `Persistence.LoadIndex` | src/persist.c:84-90 | a valid index equal to the one that was written |
| `Persistence.PersistIndex` | src/persist.c:182-189 | writing an index appends its dump and leaves the index alone |
| `Persistence.PersistAndLoad` | src/persist.c:182-189 | round trip: the same shape and records on new nodes, all chains rebuilt |
| `Persistence.SelectsAgree` | src/persist.c:84-90 | the original and the loaded index give the same sequence for all bounds |
| `Scans.ScanMeaning` | src/cs165_api.c:496-511 | a scan reports exactly the rows of the block in range, ascending, each once |
| `Scans.ScanConcat` | src/cs165_api.c:496-511 | scanning block after block is scanning once |
| `Scans.SelectOneUnsorted` | src/cs165_api.c:496-511 | appends the matches of the block to the given vector or to a new one; negative bounds and an end beyond the column mean the whole rest |
| `Scans.SelectOnePrimary` | src/cs165_api.c:513-525 | on a sorted column the rows with l <= value <= h, as a scan over [l, h + 1), for all bounds; a negative result length gives an empty vector of capacity 0 |
| `Scans.ClosedLength` | src/cs165_api.c:513-519 | the computed length hp - lp is not negative when l <= h, and otherwise exactly if no value lies strictly between h and l |
| `Scans.SelectTwo` | src/cs165_api.c:527-542 | the positions (as C ints) whose fetched values are in range, in order |
| `Requests.TwoAnswer` | src/cs165_api.c:527-542 | from the request: the rows with low <= value < high, an absent bound being -2^31 or 2^31 - 1, each once and in order, and for each the low 32 bits of its position |
| `Scans.BlockMeaning` | src/cs165_api.c:496-511 | which rows a block scan looks at: a negative start or end and an end beyond the column shut out nothing |
| `Scans.Fetch` | src/cs165_api.c:299-307 | the values at the given positions, in their order |
| `Scans.SelectFetchSelect` | src/cs165_api.c:299-307 | select, fetch, select gives exactly the rows in both ranges |
| `Scans.ScanBothMeaning` | src/cs165_api.c:527-542 | those rows: both range predicates hold, ascending, each once |
| `Utils.BinarySearchLeft` | src/utils.c:86-98 | up to length 2^30 returns the number of elements below n; terminates; no int overflow, length 0 included |
| `Utils.BinarySearchRight` | src/utils.c:101-113 | up to length 2^30 returns the number of elements at most n; terminates; no int overflow |
| `Utils.ToIntMeaning` | src/cs165_api.c:535-536 | a conversion to int keeps the low 32 bits |
| `Utils.CountLessSplit` | src/utils.c:86-98 | a cut with smaller elements left and no smaller ones right counts the smaller ones |
| `Utils.RoundUpIsLeast` | src/utils.c:36-46 | for 1 <= v <= 2^32 the result is a power of two, reaches v, and no smaller one does |
| `Utils.UpperPowerOfTwo` | src/utils.c:36-46 | the word-level statements compute the least power of two >= v for 1 <= v <= 2^32 |
| `Utils.RoundUpBeyond` | src/utils.c:36-46 | the bound 2^32 is tight: 2^32 + 1 gives no power of two |
| `Utils.RoundUpWraps` | src/utils.c:36-46 | a length between -2^30 and -1, taken as a 64-bit word, is rounded up to 0 |
| `Vectors.Vector.constructor` | src/vector.c:11-25 | an empty vector; its capacity is the least power of two that is at least 32 and reaches the wanted length, and 0 for a length that wrapped below zero |
| `Vectors.CapacityIsRoom` | src/vector.c:14-18 | no smaller power of two from 32 on reaches the length, for every length |
| `Vectors.Vector.Insert` | src/vector.c:57-67 | appends; the buffer doubles exactly when it is full; length <= max_length |
| `Vectors.Vector.Cat` | src/vector.c:36-54 | appends all of the other vector, which may be the same one; the new capacity is what doubling from the length, or from 64 when empty, stops at |
| `Vectors.DoubledStops` | src/vector.c:38-42 | doubling stops at the first power of two times its start that reaches the total, so below twice the total |
| `Vectors.DoubledIsRoom` | src/vector.c:36-42 | from a power of two it stops at the least one that reaches the total |
| `Vectors.Duplicate` | src/vector.c:27-34 | a new vector with the same contents; its capacity is the least power of two from 64 on that reaches the length |
| `Sorting.SortExists` | src/vector.c:115-124 | a sorting order of the positions exists, so the assumption about qsort is satisfiable |
| `Sorting.GatherBag` | src/vector.c:97-110 | gathering along a permutation only reorders |
| `Sorting.GetSortedPositions` | src/vector.c:115-127 | a permutation of the positions under which the values ascend |
| `Sorting.SortVectorFromPositions` | src/vector.c:97-110 | value i becomes the old value at positions[i], in place |
| `Sorting.SortVector` | src/vector.c:129-133 | sorts the vector and returns the permutation that did it |
| `SortedIndexes.SortedIndex.constructor` | src/sorted.c:8-17 | data[i] == v[positions[i]], positions a permutation, data ascending; the vector itself unchanged |
| `SortedIndexes.SortedIndex.Select` | src/sorted.c:26-38 | a permutation of the scan over [low, high + 1), ordered by value, for all bounds; capacity 0 exactly if the computed length is negative |
| `SortedIndexes.BlockIsScan` | src/sorted.c:26-38 | the positions between both search results are exactly the rows a scan finds |
| `Joins.BlockSplitColumns` | src/cs165_api.c:315-328 | a block of row pairs is the sum of its column pages |
| `Joins.BlockSplitRows` | src/cs165_api.c:315-328 | a block of row pairs is the sum of its row pages |
| `NestedJoins.NestedJoin` | src/cs165_api.c:309-332 | for all lengths the zipped results hold each pair of positions as often as the naive equi-join, page by page |
| `NestedJoins.PagedOrder` | src/cs165_api.c:315-328 | exactly the pairs of rows with equal values, ordered by page of 4096 rows of the first side, page of the second, row and row |
| `NestedJoins.JoinPageRow` | src/cs165_api.c:315-328 | one page of rows meets the pages of the other side in order, each row once, whatever the last page |
| `HashJoins.HashIsRemainder` | src/hashjoin.c:4-11 | the hash is the remainder by 128000 with the sign of the key |
| `HashJoins.HashableMeaning` | src/hashjoin.c:4-11 | which keys have a bucket, the non-negative ones and the multiples of 128000, and which bucket |
| `HashJoins.SameBucketMeaning` | src/hashjoin.c:4-11 | two keys that have buckets share one exactly if they are congruent modulo 128000 |
| `HashJoins.HashTable.Add` | src/hashjoin.c:13-21 | the entry goes to the front of its bucket and no other bucket changes |
| `HashJoins.HashTable.Destroy` | src/hashjoin.c:30-35 | every bucket is NULL afterwards |
| `HashJoins.Probe` | src/hashjoin.c:46-51 | the walk emits each entry of the bucket once, paired with the probing position |
| `HashJoins.ProbeIsColumn` | src/hashjoin.c:43-52 | probing its bucket gives a row all its partners with a congruent key, latest first |
| `HashJoins.HashJoin` | src/hashjoin.c:37-55 | on an empty table exactly the pairs with congruent keys, each as often as they occur, in probing order; the table ends empty |
| `HashJoins.HashOrder` | src/hashjoin.c:37-55 | exactly the pairs of rows with keys congruent modulo 128000, by rows of the second side and backwards through the first |
| `HashJoins.HashJoinContainsEquiJoin` | src/hashjoin.c:37-55 | no equi-join pair is missing |
| `HashJoins.HashJoinIsEquiJoin` | src/hashjoin.c:37-55 | it is the equi-join if and only if no two different keys of both sides share a bucket |
| `HashJoins.SmallKeysDoNotCollide` | src/hashjoin.c:9-11 | keys from 0 to 127999 never share a bucket |
| `HashJoins.CollisionExample` | src/hashjoin.c:9-11 | keys 0 and 128000 are joined by hashjoin although they differ |
| `HashJoins.JoinsAgree` | src/hashjoin.c:37-55 | where no two different keys collide, results of the bucket join and of the equi-join on one input are reorderings of each other |
| `JoinAgreement.JoinBothWays` | src/cs165_api.c:309-332 | nested_join and hashjoin run on the same vectors, keys below 128000: the same multiset of pairs, and the table ends empty |
| `Tables.GatheredRows` | src/cs165_api.c:160-169 | one permutation on all columns permutes the rows: none is torn, lost or doubled |
| `Tables.AppendedRows` | src/cs165_api.c:171-187 | a value appended to each column is a row appended to the table |
| `Tables.GatherColumns` | src/cs165_api.c:160-169 | the loop applies the permutation to every column in place |
| `Tables.Table.SortByPrimaryColumn` | src/cs165_api.c:160-169 | the same multiset of rows, the primary column ascending |
| `Tables.Table.RelationalInsert` | src/cs165_api.c:171-193 | equal column lengths, the multiset of rows plus the new row, a primary column left sorted |
| `Columns.Column.constructor` | src/cs165_api.c:60-79 | an empty column without index |
| `Columns.Column.CreateIndex` | src/cs165_api.c:81-95 | an index of the wanted type over the current values; the values stay |
| `Columns.Column.SelectOne` | src/cs165_api.c:560-589 | each kind of column and index gets its select: half-open ranges on plain and tree columns, closed ones on sorted data |
| `Requests.PlainAnswer` | src/cs165_api.c:560-575 | from the request, on a plain column: exactly the rows with low <= value < high, an absent bound being -2^31 or 2^31 - 1, each once, in row order |
| `Requests.TreeAnswer` | src/cs165_api.c:576-581 | the same rows on a column with a tree over its values, by value |
| `Requests.SortedAnswer` | src/cs165_api.c:582-584 | on a sorted index the upper bound belongs to the range; by value |
| `Requests.PrimaryAnswer` | src/cs165_api.c:564-567 | on a primary column the upper bound belongs to the range; in row order |
| `Requests.EveryBoundKept` | src/cs165_api.c:560-589 | on values that are C ints below the largest an absent bound shuts out nothing, and a present one is compared as the caller wrote it |
| `Requests.UnboundedFindsAll` | src/cs165_api.c:560-575 | a half-open select without bounds finds every row if and only if all values are C ints below 2^31 - 1 |
| `Scheduling.Scheduler.ScheduleSelect` | src/scheduler.c:33-54 | the request goes to the front of the list |
| `Scheduling.Scheduler.UnscheduleAll` | src/scheduler.c:21-31 | the list is empty and the bound variables stay |
| `Scheduling.Scheduler.ExecuteScheduledSequentially` | src/scheduler.c:64-82 | every name is bound, in list order, to the answer of select_one on its column; the schedule ends empty |
| `Interleavings.BlockBounds` | src/scheduler.c:97-99 | the C ints start and end delimit the block even where end wraps around |
| `Interleavings.AdvanceRunning` | src/scheduler.c:56-62 | every step of a thread keeps its own result equal to the scan up to its cursor |
| `Interleavings.InvStep` | src/scheduler.c:84-123 | every step of the main thread and of every worker keeps the invariant |
| `Interleavings.EveryInterleaving` | src/scheduler.c:84-123 | whatever the order of steps, a finished run leaves each select with the scan of its column up to the last block of the first column, and NULL if that column is empty |
| `Interleavings.FullScanWhen` | src/scheduler.c:95-114 | that is a scan of the whole column if and only if there is a block at all and no match lies beyond the last one |
| `Interleavings.FullScanLengths` | src/scheduler.c:92-98 | every range is fully scanned if and only if the first column has a row and the blocks that cover it cover this column |
| `Interleavings.EmptyFirstColumn` | src/scheduler.c:92-97 | an empty first column leaves a select with matches without a vector |
| `Interleavings.EqualLengths` | src/scheduler.c:84-123 | columns of one nonzero length: every select ends with one full scan of its column, under every interleaving |
| `Interleavings.Commute` | src/scheduler.c:56-62 | any two different possible steps can be swapped with the same outcome: the threads do not interfere |
| `Interleavings.Progress` | src/scheduler.c:109-112 | until the end some thread can take a step: no deadlock at the joins |
| `Interleavings.RunsEnd` | src/scheduler.c:84-123 | no run is longer than a bound that the first state fixes |
| `Interleavings.CanFinish` | src/scheduler.c:84-123 | from every reachable state some order of steps leads to the end |
| `Threads.Turn` | src/scheduler.c:56-62 | one step of a thread on its node: the loop round of the select, on the result vector of that node only |
| `Threads.WorkerTurn` | src/scheduler.c:56-62 | among all nodes the step is the worker step of the step system; no other node and no other result changes |
| `Threads.MainTurn` | src/scheduler.c:95-114 | a step of the main thread on the nodes is the main step of the step system |
| `Threads.Play` | src/scheduler.c:84-123 | any run of the step system, played on the nodes in its order, leaves them in the state it ends in |
| `Threads.ExecuteInterleaved` | src/scheduler.c:84-123 | under every complete schedule of the threads each name is bound to the scan of its column up to the last block of the first one; the schedule ends empty |
| `Executor.ThrFunc` | src/scheduler.c:56-62 | one thread extends the result of its node by exactly one block |
| `Requests.SharedAnswer` | src/scheduler.c:92-114 | from the request: the rows in range among the first blocks of 131072 rows, as many as the first column fills or begins; NULL exactly if that column is empty |
| `Requests.ScheduleAnswer` | src/scheduler.c:84-123 | the same of every binding of a whole schedule |
| `Executor.ExecuteScheduled` | src/scheduler.c:84-123 | the block loops on the linked list, each thread running when it is joined, bind every name to that same result; the schedule ends empty |
| `Agreement.UnsortedAgrees` | src/scheduler.c:64-123 | on plain columns and on those with a tree over their current values both ways to execute bind the same multiset of positions |
| `Agreement.ExecuteBothWays` | src/scheduler.c:64-123 | a whole schedule on such columns, by threads in any order and sequentially: both lists end empty, and the bindings agree entry by entry in name and multiset |
| `Agreement.SortedAgrees` | src/scheduler.c:64-123 | on an unsorted column with a sorted index they agree up to order if and only if the range is empty or the upper bound is not a value |
| `Agreement.PrimaryDiffers` | src/scheduler.c:64-123 | a primary column with the values 1 and 2, selected from 1 to 2: the two ways differ |
| `Agreement.PrimaryAgrees` | src/scheduler.c:64-123 | on a primary column they agree if and only if the range is empty or the upper bound is not a value of the column |

## Left out

- Executor.ExecuteScheduled: keeps the loops of the source and so runs each thread when it is joined, which is one interleaving; `Threads.ExecuteInterleaved` covers all of them, with one loop round of a thread as one atomic step.
- Threads.MainTurn: the main thread addresses the nodes by number instead of following the list, which it does not change while threads run.
- Vectors.Vector.constructor: the capacity is computed on integers; that the word-level `upper_power_of_two` gives the least power of two up to 2^32, and 0 for a wrapped negative length, is proved separately in `Utils`. Lengths above 2^32 are not covered.
- Sorting.GetSortedPositions: `qsort` is any order that sorts under `compare_pos`, with no stability; positions fit a C int, as the comparison reads them.
- Relink.LinkKids: the read of `children[length]` in the last round of the loop is skipped, since the next statement overwrites what it assigns.
- HashJoins.HashJoin: only keys whose bucket exists, that is, non-negative keys and negative multiples of the table size.
- The fields `parent`, `total_length`, `padding` of a tree node and `length` of a scheduled node, which no algorithm reads.
- Raw struct bytes, file names, stream errors and the persistence of vectors, columns, tables and databases: the file is a sequence of node images.
- The BTREE and SORTED cases of `insert`, index upkeep when a table is sorted or loaded, and `insert_vector`: the code does not keep the index in agreement there, so nothing is claimed.
- Sockets, the client and server loops, messages, tuple output, CSV parsing, the command grammar and the name lookups of databases and variables.
- Failed allocations and the free and destroy functions, except that the hash table ends empty and the schedule is cleared.
- `min`, `max`, `avg`, `add`, `sub` and `list.c`.
