# Models and proofs for the Conceal core

This project models four parts of the Conceal code base in Dafny and proves what
they promise, for all inputs, all runs and all reachable states:

* the open-addressing hash table `raw_hash_set` of `parallel_hashmap`,
* the B-tree of the same library,
* the block-wise Base58 codec and the address format built on it,
* the pool-update protocol of the blockchain explorer.

`dafny verify dfyconfig.toml` checks everything.

## How it is laid out

| files | what they hold |
|---|---|
| `Machine` | 64-bit numbers, powers of two and a little arithmetic |
| `Probing`, `ControlBytes`, `TableSpec`, `Capacity`, `GroupWord` | the arithmetic of probing, the control bytes with their clones, what it means for an element to be stored, capacities and growth, the portable eight-byte group |
| `HashTable` | the table itself: class `RawHashSet` with its `ctrl` and `slots` arrays |
| `BTreeShape`, `BTreeMoves`, `BTreeSiblings`, `BTreePlaces` | trees as values with explicit links, zippers, moves between siblings, places that moves keep |
| `BTreeInsert`, `BTreeErase`, `BTreeIterator`, `BTreeSearch`, `BTreeUpdate`, `BTree` | the algorithms on trees, and class `BTree` with its `root`, `rightmost` and `size` |
| `BTreeNode`, `BTreeRefine`, `BTreeVerify` | nodes in memory with their arrays, that every primitive on them carries out its move on trees, and the library's own check of a tree and the height |
| `Digits`, `Base58`, `Base58Order`, `Base58Codec`, `Address` | positional notation, the codec as functions, that it keeps the order of strings, the loops that compute it, addresses |
| `PoolUpdate` | the protocol as a transition system |
| `Runs` | the containers over whole runs of operations |

## How things are modelled

* **Hash table.** The slot array holds `Raw` or `Holds(e)`. Hash and equality are
  functions of a policy that has to satisfy only that equality is an equivalence and
  that equal keys have equal hashes. `x & mask` is `x % (mask + 1)`; the group width is
  8 or 16. With width 8 a group search also tries the bytes that the word arithmetic
  marks by mistake. The table that owns no memory points at the shared empty group. That
  a probe stops is not assumed: it follows from the growth accounts.
* **B-tree.** A pointer to a node is a node identity. Each node carries its parent and
  its position as data that may be wrong; that they are right is part of the invariant.
  Code that follows parent links runs on a zipper, a node together with everything
  around it; an iterator is a zipper and a position. The parent link of the root is the
  first leaf, so the source's test "the parent is a leaf" is the test for the root. The
  node capacity `k` is symbolic, at least 3. `BTreeNode` has the node primitives in place
  on arrays, with the parent and position fields of all nodes in one table by identity.
* **Base58.** Bytes and digits are numbers; 64-bit wrap-around is written out where it
  can happen. The comment at src/Common/Base58.cpp:149 says that `order` never
  overflows. It does after the eleventh digit, and the proof shows that the wrapped value
  is not used.
* **Addresses.** The hash is any function that gives at least four bytes.
* **Pool update.** Every atomic load and every compare-and-swap is a step of its own,
  a weak compare-and-swap may fail for no reason, and each request is answered at most
  once, on any thread that is idle. An armed exit handler may fire anywhere, but for one
  place: a request does not throw after it was sent.

## Where the code does not do what one would expect

* `rehash(0)` sizes a table from its number of elements, not from the growth that they
  need, and can leave a table without an empty slot, in which a search for an absent
  key does not end. `OverfilledTable` makes one by fifteen insertions. `RawHashSet.Rehash`
  says exactly when the accounts survive, and that searches still end exactly if the
  number of elements is not itself a valid capacity of at least one group.
* `reserve(n)` computes with n as a signed number. From 2^63 on it asks for too little,
  but for one range in which rounding up saves it. `ReserveSuffices` is that condition;
  `ReserveIsLeast` and `RawHashSet.Reserve` say that it is exact.
* `read_varint` takes the end of the input for the end of a number, so `decode_addr`
  accepts addresses that `encode_addr` never makes, and two addresses can stand for the
  same tag and data (`DecodeAddrNotInjective`). `ReencodeIffTerminated` says exactly
  which addresses encode back to themselves.
* With a three-way comparison and repeated keys, `find` on a B-tree may stop at an equal
  value that is not the first one. `FindSecond` is such a search. `Find` gives the first one
  if and only if the tree and the key satisfy `FirstOnWay`: at the first node on the way
  down with an equal value, the child before that value has none.

## Model

| member | source | states |
|---|---|---|
| `Probing.TriDouble` | external/parallel_hashmap/phmap.h:156-160 | the j-th sum of the growing steps is j (j + 1) / 2 |
| `Probing.TriInjective` | external/parallel_hashmap/phmap.h:64-73 | triangular numbers below 2^k are distinct modulo 2^k |
| `Probing.TriSurjective` | external/parallel_hashmap/phmap.h:64-73 | every residue modulo 2^k is a triangular number with an index below 2^k |
| `Probing.ProbeClosedForm` | external/parallel_hashmap/phmap.h:144-168 | repeated `next` gives start + width * triangular number, modulo the ring |
| `Probing.WindowsPartition` | external/parallel_hashmap/phmap.h:64-73 | the first 2^k probe windows cover every control position, each in exactly one window |
| `Probing.SameProbeIndexSameWindow` | external/parallel_hashmap/phmap.h:2269-2271 | the probe index that `drop_deletes_without_resize` compares tells the window |
| `ControlBytes.HashParts` | external/parallel_hashmap/phmap.h:353-360 | the two parts of a hash together are the hash |
| `ControlBytes.MirrorIsClone` | external/parallel_hashmap/phmap.h:2261-2263 | the mask expression for the second write is the clone's position, or the slot itself if it has none |
| `ControlBytes.SetCtrlKeepsLayout` | external/parallel_hashmap/phmap.h:2252-2264 | writing a slot byte and its mirror keeps sentinel, clones and dummy bytes in place |
| `ControlBytes.GroupReadsRing` | external/parallel_hashmap/phmap.h:2252-2278 | an unaligned load at any offset reads exactly the ring window, small tables apart |
| `ControlBytes.GroupHoldsSlot` | external/parallel_hashmap/phmap.h:2252-2278 | a slot in a window shows up in the loaded group |
| `ControlBytes.SmallGroup` | external/parallel_hashmap/phmap.h:2274-2278 | in a small table every group has an empty dummy byte and every slot |
| `ControlBytes.FalseMark` | external/parallel_hashmap/phmap.h:482-500 | only full bytes are marked as matches, and there is a false mark only behind a true one |
| `Capacity.GrowthIffLowerbound` | external/parallel_hashmap/phmap.h:579-608 | a valid capacity allows n elements iff it is at least the intended lower bound for n, for both widths |
| `Capacity.ReserveIsLeast` | external/parallel_hashmap/phmap.h:570-608 | the normalized lower bound, with its signed cast, allows n elements iff n is below 2^63 or in one range above; then it is the least valid capacity that does |
| `Capacity.GrowthLeavesEmpty` | external/parallel_hashmap/phmap.h:579-591 | a table that is not small allows fewer elements than it has slots |
| `Capacity.LoadFactor` | external/parallel_hashmap/phmap.h:579-591 | seven eighths of the slots, rounded up, may be used; one less only of seven slots in groups of eight |
| `Capacity.GrowthIsBounded` | external/parallel_hashmap/phmap.h:2121-2131 | growing never leads beyond five slots for each live element |
| `Capacity.DoubledCapacity` | external/parallel_hashmap/phmap.h:2121-2131 | twice the capacity plus one is valid and allows more elements |
| `Capacity.CountLeadingZeros64Slow` | external/parallel_hashmap/phmap_bits.h:273-280 | the shifts and the table give the number of leading zeros of every nonzero word, and 64 of zero |
| `Capacity.NormalizeCapacity` | external/parallel_hashmap/phmap.h:570-573 | the least number of the form 2^m - 1 that is not below n, at least 1 |
| `GroupWord.MatchReads` | external/parallel_hashmap/phmap.h:482-500 | the word arithmetic marks just the bytes that the table tries: the equal ones, and those that differ in the last bit behind a marked one |
| `GroupWord.MatchEmptyReads` | external/parallel_hashmap/phmap.h:502-510 | the two masks mark just the empty bytes, and just the empty and deleted ones |
| `GroupWord.ConvertReads` | external/parallel_hashmap/phmap.h:517-523 | every special byte becomes empty and every full byte deleted |
| `GroupWord.CountTrailingZerosNonZero64Slow` | external/parallel_hashmap/phmap_bits.h:351-361 | the bit that is counted to is set and all below it are clear |
| `GroupWord.CountLeadingEmptyOrDeleted` | external/parallel_hashmap/phmap.h:512-515 | all bytes before the result are marked as empty or deleted, and the one at the result is not |
| `TableSpec.FirstFreeUnique` | external/parallel_hashmap/phmap.h:2168-2179 | the first free slot in probe order is one slot |
| `TableSpec.ProbeCovers` | external/parallel_hashmap/phmap.h:64-73 | in a table that is not small every slot lies in some probe window of every hash |
| `TableSpec.InsertKeepsStored` | external/parallel_hashmap/phmap.h:2211-2223 | filling the first free slot keeps every element reachable by its own probe and adds just the new one |
| `TableSpec.WasNeverFullIff` | external/parallel_hashmap/phmap.h:1978-1989 | the sum of the two run lengths is below the width exactly when every ring window over the slot has an empty byte |
| `TableSpec.SmallWasNeverFull` | external/parallel_hashmap/phmap.h:1978-1992 | in a small table the test always holds, so no tombstone is made |
| `TableSpec.EraseKeepsStored` | external/parallel_hashmap/phmap.h:1975-1994 | the byte that erase writes cuts no other element's probe; the contents lose just the erased element |
| `TableSpec.PassStep` | external/parallel_hashmap/phmap.h:2078-2117 | a step of the in-place rehash keeps finished elements finished |
| `TableSpec.PassDone` | external/parallel_hashmap/phmap.h:2078-2117 | when no slot is marked any more every element is reachable |
| `HashTable.AccountedHasEmpty` | external/parallel_hashmap/phmap.h:579-591 | a table that keeps its accounts has an empty byte to stop every search |
| `HashTable.EmptyIsProbed` | external/parallel_hashmap/phmap.h:1866-1868 | some window of every probe has an empty byte, so an unsuccessful search ends |
| `HashTable.StoredKeyIsProbed` | external/parallel_hashmap/phmap.h:1855-1870 | a stored key is in a window before which no window has an empty byte |
| `HashTable.SearchedAll` | external/parallel_hashmap/phmap.h:1866-1867 | having searched up to a window with an empty byte, the key is known to be absent |
| `HashTable.LowestFreeIsFirst` | external/parallel_hashmap/phmap.h:2171-2175 | the lowest bit of the first group with a free byte is the first free slot in probe order |
| `HashTable.ProbeStopsIff` | external/parallel_hashmap/phmap.h:1855-1870 | the probe of any hash reaches an empty byte iff the table is small or has an empty slot |
| `HashTable.SizedForElements` | external/parallel_hashmap/phmap.h:1694-1708 | in a table sized for just its elements a search ends unless their number is a capacity of at least one group |
| `HashTable.OverfilledTable` | external/parallel_hashmap/phmap.h:1694-1708 | fifteen insertions and rehash(0) leave a table of fifteen slots, all full, in which no probe ever stops |
| `HashTable.FullTableNeverStops` | external/parallel_hashmap/phmap.h:1855-1870 | without an empty slot no window of any probe has an empty byte |
| `HashTable.CountIsCardinality` | external/parallel_hashmap/phmap.h:1266 | full bytes are as many as elements |
| `HashTable.RawHashSet.SizeIsCardinality` | external/parallel_hashmap/phmap.h:1266 | `size_` is the number of elements |
| `HashTable.RawHashSet.constructor` | external/parallel_hashmap/phmap.h:328-333 | the empty group makes a valid empty table of capacity zero |
| `HashTable.MarkedIsSlot` | external/parallel_hashmap/phmap.h:1858-1861 | every mark, true or false, is at a slot that holds an element, so reading its key is safe |
| `HashTable.RawHashSet.SearchGroup` | external/parallel_hashmap/phmap.h:1858-1867 | a group search that tries all marks, false ones included, finds an equal key of the window iff there is one |
| `HashTable.RawHashSet.FindImpl` | external/parallel_hashmap/phmap.h:1855-1870 | terminates, and finds an element exactly if an equal key is in the table |
| `HashTable.RawHashSet.FindFirstNonFull` | external/parallel_hashmap/phmap.h:2168-2179 | terminates, and gives the first free slot in probe order |
| `HashTable.RawHashSet.SetCtrlByte` | external/parallel_hashmap/phmap.h:2252-2264 | slot byte and clone are written, nothing else |
| `HashTable.RawHashSet.InitializeSlots` | external/parallel_hashmap/phmap.h:1996-2011 | fresh empty arrays of the new capacity, with its full growth |
| `HashTable.RawHashSet.Resize` | external/parallel_hashmap/phmap.h:2031-2056 | the same elements, each reachable, in fresh arrays without tombstones |
| `HashTable.RawHashSet.ConvertDeletedToEmptyAndFullToDeleted` | external/parallel_hashmap/phmap.h:554-565 | group by group and with the clones: full becomes deleted, all else empty, sentinel restored |
| `HashTable.RawHashSet.DropDeletesWithoutResize` | external/parallel_hashmap/phmap.h:2058-2119 | terminates although the index steps back; same elements, all reachable, no tombstone left |
| `HashTable.RawHashSet.PlaceInPass` | external/parallel_hashmap/phmap.h:2079-2117 | one turn of the loop: stay, move or swap; elements and finished slots are kept and fewer slots are marked |
| `HashTable.RawHashSet.RehashAndGrowIfNecessary` | external/parallel_hashmap/phmap.h:2121-2131 | keeps the elements, leaves room to grow and no tombstone; in place if at most half of the growth is live, else twice the capacity plus one |
| `HashTable.ExhaustedIff` | external/parallel_hashmap/phmap.h:2211-2217 | what `prepare_insert` tests on the slot it found holds iff no growth is left and the first free slot of the hash is no tombstone |
| `HashTable.RawHashSet.PrepareInsert` | external/parallel_hashmap/phmap.h:2211-2223 | gives the first free slot with the accounts already charged for it; arrays and capacity change exactly if the growth is exhausted |
| `HashTable.RawHashSet.Insert` | external/parallel_hashmap/phmap.h:1902-1911 | inserts exactly if no equal key is there; the result points at an element with an equal key; the exact new capacity, and the same arrays unless it changes |
| `HashTable.RawHashSet.EraseAt` | external/parallel_hashmap/phmap.h:1975-1994 | removes just that element; the byte becomes empty exactly if the table is small or every window over it has an empty byte |
| `HashTable.RawHashSet.Erase` | external/parallel_hashmap/phmap.h:1591-1596 | removes the elements with an equal key and returns how many |
| `HashTable.RawHashSet.Rehash` | external/parallel_hashmap/phmap.h:1694-1708 | keeps the elements; the exact new capacity, and nothing is touched if n > 0 and it stays; the accounts stay right iff n > 0 or the rounded size allows the elements; after rehash(0) every search ends iff the size is no capacity of at least one group |
| `HashTable.RawHashSet.Reserve` | external/parallel_hashmap/phmap.h:1710 | after reserve(n) with n > 0 the table allows n elements iff it did before or n is one of the numbers that survive the signed cast |
| `HashTable.RawHashSet.Clear` | external/parallel_hashmap/phmap.h:1270-1292 | a valid table without elements; beyond 127 slots the memory goes, else the arrays stay; an empty table is not touched |
| `HashTable.RawHashSet.DestroySlots` | external/parallel_hashmap/phmap.h:2013-2029 | back to the table of capacity zero |
| `HashTable.RawHashSet.Copy` | external/parallel_hashmap/phmap.h:1168-1182 | a valid table with the same elements, its growth charged for them |
| `BTreeShape.InOrderSplit` | external/parallel_hashmap/btree.h:3236-3263 | a node's sequence is what is before a child, the child's sequence and what is after it |
| `BTreeShape.PlugOk` | external/parallel_hashmap/btree.h:3236-3263 | a node in order in a context in order makes a tree in order: counts, one depth, links |
| `BTreeShape.RightEdgeLast` | external/parallel_hashmap/btree.h:2986-3007 | a node is the last leaf exactly if nothing is to its right |
| `BTreeMoves.JoinInOrder` | external/parallel_hashmap/btree.h:2341-2369 | merging gives left, delimiter, right |
| `BTreeMoves.CutInOrder` | external/parallel_hashmap/btree.h:2300-2339 | splitting at any value keeps left, delimiter, right, with the children between the values |
| `BTreeMoves.RebalanceKeeps` | external/parallel_hashmap/btree.h:2175-2297 | moving any number of values either way keeps left, delimiter, right, the structure and the identities |
| `BTreeSiblings.MergeKeeps` | external/parallel_hashmap/btree.h:2341-2369 | a merge in its context: the sequence stays, one identity goes, the siblings behind move up a place |
| `BTreePlaces.RecutPlace` | external/parallel_hashmap/btree.h:2926-2962 | after rebalancing, the adjusted node and position are the same place: same values before and after, same child |
| `BTreePlaces.MergePlace` | external/parallel_hashmap/btree.h:3013-3034 | the same for a merge |
| `BTreePlaces.SplitPlace` | external/parallel_hashmap/btree.h:2984-2998 | the same for a split |
| `BTreePlaces.SplitKeeps` | external/parallel_hashmap/btree.h:2300-2339 | both halves and the parent are in order and one identity is new |
| `BTreeInsert.ToMove` | external/parallel_hashmap/btree.h:2921-2923 | half of the free room of the sibling moves, up to one value, or all of it if the insertion is at the far end; at least one value |
| `BTreeInsert.SplitCut` | external/parallel_hashmap/btree.h:2307-2319 | whatever the insert position, the half that gets the value has room and the other half is not empty |
| `BTreeInsert.ToLeft` | external/parallel_hashmap/btree.h:2911-2940 | giving values to the left sibling keeps everything and makes room |
| `BTreeInsert.ToRight` | external/parallel_hashmap/btree.h:2943-2966 | giving values to the right sibling keeps everything and makes room |
| `BTreeInsert.ToLeftSize` | external/parallel_hashmap/btree.h:2911-2940 | how many values the node of the insertion has afterwards |
| `BTreeInsert.ToRightSize` | external/parallel_hashmap/btree.h:2943-2966 | the same to the right |
| `BTreeInsert.Split` | external/parallel_hashmap/btree.h:2984-2998 | splitting below a parent with room keeps everything and makes room |
| `BTreeInsert.SplitIsEven` | external/parallel_hashmap/btree.h:2307-2319 | a split in the middle halves the values; one at an end leaves the old node full but for the delimiter |
| `BTreeInsert.SplitNode` | external/parallel_hashmap/btree.h:2984-2998 | `rightmost_` is the last leaf after a split, and there is one node more |
| `BTreeInsert.RebalanceOrSplit` | external/parallel_hashmap/btree.h:2899-2998 | terminates through the recursion to a new root; sequence, place, structure, links, first and last leaf kept; the node has room; no node is made while a neighbour has room for two values, and every new identity is one more node |
| `BTreeIterator.WholeOf` | external/parallel_hashmap/btree.h:3236-3263 | the values before an iterator and from it on are the whole sequence |
| `BTreeIterator.Climb` | external/parallel_hashmap/btree.h:3084-3097 | `internal_last`: from behind a node's values to the next value above, or none iff nothing follows |
| `BTreeIterator.Increment` | external/parallel_hashmap/btree.h:2419-2440 | the next value in order, or the end behind the last leaf |
| `BTreeIterator.Decrement` | external/parallel_hashmap/btree.h:2442-2466 | the previous value in order |
| `BTreeSearch.ScanPartition` | external/parallel_hashmap/btree.h:3178-3204 | a partition of the sequence is what a linear scan finds |
| `BTreeSearch.LinearSearch` | external/parallel_hashmap/btree.h:1258-1271 | the first value that is not less |
| `BTreeSearch.LinearSearchTo` | external/parallel_hashmap/btree.h:1273-1289 | the first value that is not less, and whether it is equal |
| `BTreeSearch.BinarySearch` | external/parallel_hashmap/btree.h:1291-1306 | the same as the linear scan |
| `BTreeSearch.BinarySearchTo` | external/parallel_hashmap/btree.h:1308-1344 | the same as the linear scan, for unique and repeated keys, and whether the value is equal |
| `BTreeSearch.NodeBound` | external/parallel_hashmap/btree.h:3140-3157 | the partition point of a node's values leaves just one child to search |
| `BTreeSearch.Descend` | external/parallel_hashmap/btree.h:3193-3204 | the descent ends in a leaf at the partition point of the whole sequence |
| `BTreeSearch.DescendTo` | external/parallel_hashmap/btree.h:3179-3190 | the same with three-way comparison in the nodes |
| `BTreeSearch.Locate` | external/parallel_hashmap/btree.h:3159-3176 | stops at an equal value, or proves that there is none and gives the place for it; whether the value is the first depends just on the tree and the key |
| `BTreeErase.MergeNodes` | external/parallel_hashmap/btree.h:3000-3009 | sequence, place, structure and links kept; `rightmost_` is the last leaf; one node less |
| `BTreeErase.Share` | external/parallel_hashmap/btree.h:3040-3041 | both siblings get half of their values, to one; at least one value moves and the sibling keeps one |
| `BTreeErase.StaySettled` | external/parallel_hashmap/btree.h:3011-3063 | a node that is neither merged nor filled up is not empty |
| `BTreeErase.TryMergeOrRebalance` | external/parallel_hashmap/btree.h:3011-3063 | on every branch sequence, place, structure and links are kept and the node is not empty; it is merged iff it fits into one node with a neighbour; what it is filled up to, and when it is left alone |
| `BTreeErase.ShrinkInv` | external/parallel_hashmap/btree.h:3077-3081 | the only child of an empty root makes a tree with the same sequence, ends and links |
| `BTreeErase.TryShrink` | external/parallel_hashmap/btree.h:3065-3082 | an empty root goes; an empty leaf root leaves the shared empty node |
| `BTreeErase.RestoreAfterDelete` | external/parallel_hashmap/btree.h:2717-2743 | the climb restores the structure and keeps the result iterator in its place; it merges one node away on each level and stops just at the root, at a half-full node or at one that fits with no neighbour |
| `BTreeUpdate.InternalEmplace` | external/parallel_hashmap/btree.h:3099-3130 | the value goes before the one pointed at, in a leaf; a leaf with room is all that changes, a small root is doubled, and a node is split only if no neighbour has room for two values |
| `BTreeUpdate.EnlargedKeeps` | external/parallel_hashmap/btree.h:3111-3122 | a small root leaf grows to min(k, twice its size) with its values |
| `BTreeUpdate.RebalanceAfterDelete` | external/parallel_hashmap/btree.h:2716-2754 | the same, and the result is the value that follows or the end |
| `BTreeUpdate.MoveUpPrevious` | external/parallel_hashmap/btree.h:2682-2699 | for an internal value: the value before it takes its place and leaves its leaf |
| `BTreeUpdate.Erase` | external/parallel_hashmap/btree.h:2680-2714 | exactly the value pointed at goes; the result is its successor or the end; how far the merges went |
| `BTree.BoundsMean` | external/parallel_hashmap/btree.h:3178-3204 | of a sorted sequence: the less values are before the lower bound, the greater ones from the upper bound on, the equal ones between |
| `BTree.InsertSorted` | external/parallel_hashmap/btree.h:2528-2552 | a value at the partition point of its key keeps the order, for unique and repeated keys |
| `BTree.FoundIsFirstIff` | external/parallel_hashmap/btree.h:3159-3176 | an equal value where the descent stops is the first one of the tree iff the child before it has none |
| `BTree.FoundIsNotAlwaysFirst` | external/parallel_hashmap/btree.h:3159-3176 | the tree of 5, 5, 7 with the second 5 in the root does not satisfy that condition for 5 |
| `BTree.FindSecond` | external/parallel_hashmap/btree.h:3206-3222 | `find` on that tree gives a 5 that is not the first |
| `BTree.EndIsRightmost` | external/parallel_hashmap/btree.h:1717 | the iterator behind all values is in the leaf that `rightmost_` points at |
| `BTree.BTree.constructor` | external/parallel_hashmap/btree.h:2519-2521 | the shared empty node makes a valid empty tree |
| `BTree.BTree.LowerBound` | external/parallel_hashmap/btree.h:3178-3190 | equals a linear scan for the first value not less, for all four node searches |
| `BTree.BTree.UpperBound` | external/parallel_hashmap/btree.h:3192-3204 | equals a linear scan for the first greater value |
| `BTree.BTree.Search` | external/parallel_hashmap/btree.h:3132-3176 | an equal value, or the one place where the key belongs |
| `BTree.BTree.Find` | external/parallel_hashmap/btree.h:3206-3222 | finds an equal value exactly if there is one; it is the first, but with three-way comparison iff the tree and the key satisfy `FirstOnWay` |
| `BTree.BTree.Begin` | external/parallel_hashmap/btree.h:1711-1713 | before all values, in the leaf that the root's parent link points at |
| `BTree.BTree.End` | external/parallel_hashmap/btree.h:1717-1720 | behind all values, in the leaf that `rightmost_` points at |
| `BTree.BTree.Emplace` | external/parallel_hashmap/btree.h:3099-3130 | the whole tree after `internal_emplace`, and which nodes it makes |
| `BTree.BTree.InsertUnique` | external/parallel_hashmap/btree.h:2528-2552 | inserts at the sorted place exactly if no equal key is there; the tree stays valid; the iterator points at the value |
| `BTree.BTree.InsertMulti` | external/parallel_hashmap/btree.h:2588-2601 | inserts behind all values that are not greater |
| `BTree.BTree.EraseAt` | external/parallel_hashmap/btree.h:2680-2714 | the sequence loses just that value, the tree stays valid, the result is the old successor or `end()`, and the nodes above are merged as far as they have to be |
| `BTree.BTree.EraseUnique` | external/parallel_hashmap/btree.h:2835-2845 | removes the equal value if there is one and returns how many |
| `BTree.BTree.EraseFirst` | external/parallel_hashmap/btree.h:2680-2714 | erasing at the lower bound removes the first value with the key, also where keys repeat |
| `BTreeVerify.VerifyIff` | external/parallel_hashmap/btree.h:3235-3263 | `internal_verify` accepts exactly the trees whose nodes are all in range and linked to their places and whose sequence is sorted, and counts their values |
| `BTreeVerify.ValidIsVerified` | external/parallel_hashmap/btree.h:2887-2897 | every valid tree passes the check with its size |
| `BTreeVerify.VerifiedSorted` | external/parallel_hashmap/btree.h:3235-3263 | bounds and neighbours checked node by node make the whole sequence sorted and within bounds |
| `BTreeVerify.SortedVerified` | external/parallel_hashmap/btree.h:3235-3263 | the converse, for all trees with nodes in range and linked to their places |
| `BTreeVerify.HeightIsLogarithmic` | external/parallel_hashmap/btree.h:1881-1890 | a tree of height h has at least 2^(h + 1) - 1 values |
| `BTreeNode.SlotsToLeft` | external/parallel_hashmap/btree.h:2185-2200 | the slots after moving from the right: the joined values cut further on |
| `BTreeNode.SlotsToRight` | external/parallel_hashmap/btree.h:2229-2281 | the slots after moving to the right, both branches: the joined values cut further back |
| `BTreeNode.ChildrenToLeft` | external/parallel_hashmap/btree.h:2202-2212 | the children in order, linked to their new places |
| `BTreeNode.ChildrenToRight` | external/parallel_hashmap/btree.h:2283-2293 | the children in order, linked to their new places |
| `BTreeNode.BNode.EmplaceValue` | external/parallel_hashmap/btree.h:2129-2152 | the value in its place, the rest shifted, children behind it moved up and renumbered |
| `BTreeNode.BNode.RemoveValue` | external/parallel_hashmap/btree.h:2154-2174 | the value gone with the child behind it, the rest moved down and renumbered |
| `BTreeNode.BNode.RebalanceRightToLeft` | external/parallel_hashmap/btree.h:2175-2217 | in place: joined values cut anew, children kept in order, links right, other links untouched |
| `BTreeNode.BNode.RebalanceLeftToRight` | external/parallel_hashmap/btree.h:2219-2298 | the same the other way |
| `BTreeNode.BNode.Split` | external/parallel_hashmap/btree.h:2300-2339 | in place for every insert position: both halves, the parent with delimiter and new child, all links |
| `BTreeNode.BNode.Merge` | external/parallel_hashmap/btree.h:2341-2369 | in place: everything joined, the parent without delimiter and sibling, all links |
| `BTreeRefine.RebalanceRightToLeftRefines` | external/parallel_hashmap/btree.h:2175-2217 | called on nodes that hold a pair of siblings and their parent, it leaves nodes that hold the pair cut further on and its parent: values, children, links |
| `BTreeRefine.RebalanceLeftToRightRefines` | external/parallel_hashmap/btree.h:2219-2298 | the same for the pair cut further back |
| `BTreeRefine.SplitRefines` | external/parallel_hashmap/btree.h:2300-2339 | called on nodes that hold a tree and its parent, it leaves nodes that hold both halves and the parent with the delimiter and the new child |
| `BTreeRefine.MergeRefines` | external/parallel_hashmap/btree.h:2341-2369 | called on nodes that hold a pair and its parent, it leaves nodes that hold the joined tree and the parent around it |
| `Base58.IsSymbolIff` | src/Common/Base58.cpp:24 | the symbols are the ASCII digits and letters without 0, I, O and l |
| `Base58.DigitOrder` | src/Common/Base58.cpp:24 | the digits of the symbols follow the order of the characters |
| `Base58.BlockFits` | src/Common/Base58.cpp:26-28 | 58^encoded size is at least 256^size, and no shorter code would do, for all eight sizes |
| `Base58.BlockRoundTrip` | src/Common/Base58.cpp:112-158 | a block's code is a legal code and decodes to the block |
| `Base58.CodeRoundTrip` | src/Common/Base58.cpp:112-158 | a legal code is the code of what it decodes to |
| `Base58.DecodeEncode` | src/Common/Base58.cpp:161-214 | decoding undoes encoding for every byte string |
| `Base58.EncodeDecode` | src/Common/Base58.cpp:161-214 | whatever decodes is the encoding of the result |
| `Base58.DecodeInjective` | src/Common/Base58.cpp:184-214 | no two strings decode to the same bytes |
| `Base58.DecodesIff` | src/Common/Base58.cpp:184-214 | just the codes of byte strings decode |
| `Base58Order.BlockOrder` | src/Common/Base58.cpp:112-125 | of two blocks of one size the one that comes first has the code that comes first |
| `Base58Order.CodesComeFirst` | src/Common/Base58.cpp:127-158 | every string of symbols before a block code of its length is a block code |
| `Base58Order.EncodeOrder` | src/Common/Base58.cpp:161-182 | encoding keeps the lexicographic order of byte strings of one length |
| `Base58Order.EncodedLength` | src/Common/Base58.cpp:161-182 | eleven symbols for eight bytes, and what the last block needs |
| `Base58Order.KnownCodes` | tests/UnitTests/Base58.cpp:154-156 | the codes of 0x00, 0x39 and 0xFF |
| `Base58Codec.ReverseAlphabet` | src/Common/Base58.cpp:31-54 | the table gives the digit of every character, -1 for others |
| `Base58Codec.DecodedBlockSizes` | src/Common/Base58.cpp:58-79 | the table inverts the encoded sizes, -1 for others |
| `Base58Codec.Uint8beTo64` | src/Common/Base58.cpp:83-102 | the big-endian value of one to eight bytes |
| `Base58Codec.Uint64To8be` | src/Common/Base58.cpp:104-110 | the low bytes of the value, and nothing else is written |
| `Base58Codec.EncodeBlock` | src/Common/Base58.cpp:112-125 | the loop writes the block's code and never before the block |
| `Base58Codec.OverflowTest` | src/Common/Base58.cpp:143-146 | the wrap and high-word tests together hold exactly if the sum does not fit 64 bits |
| `Base58Codec.NextOrder` | src/Common/Base58.cpp:149 | as long as a digit is left the wrapped product is the true next power of 58 |
| `Base58Codec.DecodeNumber` | src/Common/Base58.cpp:135-150 | succeeds exactly if every symbol is legal and the value fits 64 bits, and then gives the value |
| `Base58Codec.DecodeBlock` | src/Common/Base58.cpp:127-158 | succeeds exactly if the size and the symbols are legal and the value is below 256^size; writes just the block |
| `Base58Codec.Encode` | src/Common/Base58.cpp:161-182 | computes the encoding, and what it computes decodes to the data |
| `Base58Codec.Decode` | src/Common/Base58.cpp:184-214 | computes the decoding; succeeds exactly for codes of byte strings |
| `Address.WriteVarint` | src/Common/Varint.h:18-26 | computes the variable-length code |
| `Address.ReadMeans` | src/Common/Varint.h:36-59 | by the bytes alone: -1 iff nine bytes go on and the tenth has more than one bit, -2 iff a zero byte ends a longer number, else the number of which the bytes hold seven bits each, below 2^64 |
| `Address.ReadVarint` | src/Common/Varint.h:36-59 | the loop computes just that |
| `Address.ReadWritten` | src/Common/Varint.h:18-59 | reading undoes writing for every 64-bit value, whatever follows |
| `Address.WrittenRead` | src/Common/Varint.h:18-59 | what is read up to a terminating byte is the code of the value |
| `Address.EncodeAddr` | src/Common/Base58.cpp:216-224 | the address decodes to the code of the tag, the data, and the first four bytes of the hash of both |
| `Address.AddressMeans` | src/Common/Base58.cpp:226-246 | nothing unless there are more than four bytes, the last four are the first four of the hash of the rest, and the tag is a proper number; then the tag and what follows it |
| `Address.DecodeAddr` | src/Common/Base58.cpp:226-246 | computes just that |
| `Address.ChangedChecksum` | src/Common/Base58.cpp:231-238 | an address with one byte of the checksum changed is rejected |
| `Address.AddressRoundTrip` | src/Common/Base58.cpp:216-246 | decoding undoes encoding for every 64-bit tag and every data |
| `Address.ReencodeIffTerminated` | src/Common/Base58.cpp:226-246 | an accepted address is the encoding of its tag and data iff its tag ends in a terminating byte |
| `Address.DecodeAddrNotInjective` | src/Common/Base58.cpp:226-246 | two different addresses with the same tag and data, for every hash |
| `PoolUpdate.StepInv` | src/BlockchainExplorer/BlockchainExplorer.cpp:71-132 | every step of every thread keeps: one holder of the duty to end the update, one mutex owner, matched begins and ends |
| `PoolUpdate.RunInv` | src/BlockchainExplorer/BlockchainExplorer.cpp:71-132 | the invariant in every state of every run |
| `PoolUpdate.RunIsSafe` | src/BlockchainExplorer/BlockchainExplorer.cpp:501-614 | at most one update in flight, in one place; `endUpdate` never in NONE and never under the mutex; begins and ends match |
| `PoolUpdate.RequiredCausesRerun` | src/BlockchainExplorer/BlockchainExplorer.cpp:101-110 | UPDATE_REQUIRED is left only by an `endUpdate` that calls `poolChanged` again |
| `PoolUpdate.TurnedAwayIsServed` | src/BlockchainExplorer/BlockchainExplorer.cpp:75-110 | a notification turned away during an update is followed by a `poolChanged` that comes after its own `beginUpdate` began and before the guard is NONE again |
| `PoolUpdate.Advance` | src/BlockchainExplorer/BlockchainExplorer.cpp:501-614 | while an update is in flight a regular step that brings it nearer to its end is enabled: one of its holder, or of a thread about to leave the mutex |
| `PoolUpdate.CanComplete` | src/BlockchainExplorer/BlockchainExplorer.cpp:501-614 | from every reachable state the update can be completed |
| `PoolUpdate.CanReach` | src/BlockchainExplorer/BlockchainExplorer.cpp:520-614 | an update on its way can make the known set any pool of the node and end |
| `PoolUpdate.PoolIsReached` | src/BlockchainExplorer/BlockchainExplorer.cpp:501-614 | from every state of every run without an update, a waiting notification can lead to one that makes the known set the pool, whatever it is, and ends |
| `PoolUpdate.UpdateDoes` | src/BlockchainExplorer/BlockchainExplorer.cpp:520-614 | every update that ends without an exception and an error code got one difference, applied it once and then got the details, in every run |
| `PoolUpdate.StepDistance` | src/BlockchainExplorer/BlockchainExplorer.cpp:71-132 | no step of any thread, exceptions included, moves the update away from its end; every step of its holder brings it nearer, but for a compare-and-swap that fails for no reason |
| `PoolUpdate.UpdateEnds` | src/BlockchainExplorer/BlockchainExplorer.cpp:71-132 | in every run the update has ended before its holder has taken 23 such steps |
| `PoolUpdate.AppliedIsPool` | src/BlockchainExplorer/BlockchainExplorer.cpp:520-568 | applying a true difference makes the known set the node's pool, since nobody changed it in between |
| `PoolUpdate.KnownPool.Apply` | src/BlockchainExplorer/BlockchainExplorer.cpp:546-568 | the new known set, and lists of just the hashes that came and went, without repeats; replaying all lists gives the known set |
| `Runs.RunTable` | external/parallel_hashmap/phmap.h:1591-1910 | over any run of insert, erase, find, clear, copy and rehash every answer and the contents are those of a set, as long as every rehash(0) keeps the accounts; the capacity never exceeds the first one, five slots for each of the most elements, and twice what was asked for |
| `Runs.RunTree` | external/parallel_hashmap/btree.h:2528-2845 | over any run of insert, erase and find, with unique and with repeated keys, every answer and the contents are those of a sorted sequence |

## Left out

- SSE2 groups, sanitizer poisoning, allocators, memory layout and type traits: platform and template plumbing; the group width 16 is covered at the level of control bytes.
- The table works on control bytes; `GroupWord` proves what a loaded word says about them, and loading eight bytes into a word is not part of the table's code.
- `parallel_hash_set`, `parallel_hash_map`, the container aliases, `phmap_dump.h` and hash mixing: sharding, file input and output, and a function of which only determinism matters.
- Iteration over the hash table, extraction, move and swap of whole tables: easy members.
- Running out of memory, so also that an allocation of a huge capacity fails.
- `Runs.RunTable`: goes on only with a `rehash(0)` that keeps the accounts; what the others leave is in `RawHashSet.Rehash`.
- B-tree range erase, hinted insertion, copying, `clear` and `swap` of trees: built from the operations that are modelled, or easy.
- Freed node memory is not reused in the model: a new node has an identity that was never used.
- The tree algorithms work on trees as values; that node memory follows them is proved for each primitive with its node, sibling and parent, not for a whole tree of nodes in memory.
- `btree_node::swap` as a loop over slots: growing a small root is modelled by its result.
- Exceptions from value construction, comparison or hashing.
- `cn_fast_hash`: any hash function.
- Blocking requests, logging and observer bookkeeping of the explorer; a node that answers a request more than once, or on the stack of the caller while the mutex is held.
- An exception in the middle of applying a pool difference, which would leave a part of it applied.
