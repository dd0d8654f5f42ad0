# Four small storage components, modelled in Dafny

The repository holds four single-threaded C components of a toy database
engine. Each one is modelled here as a pure state-transition system, and its
invariants are proved.

- **Page buffer pool** (`buffer_pool/day_one_bpoll.c`, module `BufferPool`).
  - A fixed table of `NUM_PAGES` = 10 slots holds pages of `PAGE_SIZE` = 4096 bytes.
  - The pool has a soft `capacity` and a `current_size` counter.
  - A lookup is a linear scan. A miss loads a zero page into the lowest empty slot.
  - At or over capacity, a miss first evicts the lowest dirty page and writes it back.
  - Disk writes are simulated; the model records them as an append-only trace.
  - The code has no pin counts, no LRU recency and no I/O failures.
- **Undo-log transactions** (`transaction.c`, module `Transactions`).
  - A key/value array with at most one current transaction.
  - The log holds `(key, old, new)` entries, newest at the head.
  - Rollback walks the log newest-first and restores old values. Commit drops the log.
- **B+ tree leaf operations** (`btree.c`, module `BPlusTree`).
  - Sorted-position search, shifting insert into a leaf, a fixed-midpoint leaf split and the root split, with `MAX_KEYS` = 3.
  - Nodes live in an arena, and pointers are arena indices.
- **First-fit free-list allocator** (`memory.c`, module `MemoryPool`).
  - Headers are a map from offset to size. The free list is a sequence of header offsets.
  - `HEADER` = 16, the size of `Block` on an LP64 target.
  - Allocation is first-fit, with split-or-unlink. `poolFree` pushes onto the front of the list.

Three shared modules:
- `Wrappers` holds `Option`, which stands for NULL.
- `Search.First` is the first-index scan the components use.
- Every C linear scan is stated through `Search.First`, with its full first-index contract.

## Model

| member | source | states |
|---|---|---|
| BufferPool.Init | buffer_pool/day_one_bpoll.c:30-38 | every slot is empty, the counter is 0, capacity is the argument, and the pool invariant holds (counter equals occupancy, distinct resident ids) |
| BufferPool.FindPage | buffer_pool/day_one_bpoll.c:41-48 | the result is the lowest occupied slot holding the id; None exactly when no occupied slot holds it |
| BufferPool.FirstDirty | buffer_pool/day_one_bpoll.c:80-88 | the eviction victim is the lowest occupied dirty slot; None exactly when no page is dirty |
| BufferPool.FirstEmpty | buffer_pool/day_one_bpoll.c:93-99 | a new page goes to the lowest NULL slot; None exactly when every slot is occupied |
| BufferPool.LoadPageFromDisk | buffer_pool/day_one_bpoll.c:51-59 | a loaded page has the requested id, PAGE_SIZE zero bytes, and is clean |
| BufferPool.WritePageToDisk | buffer_pool/day_one_bpoll.c:62-68 | a dirty page is written once and comes back clean with its id and bytes kept; a clean page causes no write and is unchanged |
| BufferPool.WritePageToDiskIdempotent | buffer_pool/day_one_bpoll.c:62-68 | flushing a second time writes nothing and changes nothing |
| BufferPool.EvictFirstDirty | buffer_pool/day_one_bpoll.c:78-89 | the lowest dirty page gets exactly one trace entry, its slot is cleared and the counter drops by one; with no dirty page the pool is unchanged |
| BufferPool.MakeRoom | buffer_pool/day_one_bpoll.c:77-89 | below capacity, or with no dirty page, the pool is unchanged; otherwise the lowest dirty page is written to the disk trace, its slot becomes NULL and the count drops by one |
| BufferPool.MakeRoomFreesSlot | buffer_pool/day_one_bpoll.c:78-100 | on a miss, after the eviction step an empty slot exists exactly when the load can return a page |
| BufferPool.LoadPageToBuffer | buffer_pool/day_one_bpoll.c:71-101 | a returned slot holds the requested page; a page is returned iff the load can succeed; a hit returns the resident slot and changes nothing; a NULL result changes nothing |
| BufferPool.LoadMissEviction | buffer_pool/day_one_bpoll.c:78-89 | a miss at or over capacity evicts only the lowest dirty page: the trace gains its single write, it is no longer resident, every other occupied slot is kept; with no dirty page nothing is written and no occupied slot changes |
| BufferPool.LoadMissFresh | buffer_pool/day_one_bpoll.c:91-100 | a miss that returns a page puts a clean zero page with the id into the lowest empty slot left by the eviction step, adds one to the counter and issues no write |
| BufferPool.OccupancyUpdate | buffer_pool/day_one_bpoll.c:94-96 | emptying or filling one slot moves the occupied-slot count by exactly one, matching the counter updates |
| BufferPool.MakeRoomPreservesValid | buffer_pool/day_one_bpoll.c:78-89 | the eviction step keeps the pool invariant |
| BufferPool.StorePreservesValid | buffer_pool/day_one_bpoll.c:93-97 | storing a page with a fresh id into an empty slot and adding one to the counter keeps the pool invariant |
| BufferPool.LoadPreservesValid | buffer_pool/day_one_bpoll.c:71-101 | loading keeps the counter equal to occupancy (at most NUM_PAGES) and resident ids distinct |
| BufferPool.LoadIntoEmpty | buffer_pool/day_one_bpoll.c:91-98 | a miss that needs no eviction stores a fresh page in the lowest empty slot and adds one to the counter |
| BufferPool.CleanPoolOutgrowsCapacity | buffer_pool/day_one_bpoll.c:78-98 | capacity is not a bound: with capacity 1 and a clean resident page, loading a second page evicts nothing and leaves the counter at 2 |
| BufferPool.FindPageAfterStore | buffer_pool/day_one_bpoll.c:41-48 | after a page is stored in slot k with no lower slot holding its id, find_page reports k |
| BufferPool.LoadedIsFound | buffer_pool/day_one_bpoll.c:71-101 | after a successful load, find_page reports exactly the slot the load returned |
| BufferPool.WritePage | buffer_pool/day_one_bpoll.c:104-108 | afterwards the page is resident with the new bytes and dirty; only its slot differs from the pool the load left |
| BufferPool.ReadPage | buffer_pool/day_one_bpoll.c:111-114 | the bytes returned are those of the page find_page reports after loading; on a hit the pool is unchanged |
| BufferPool.ReadAfterWrite | buffer_pool/day_one_bpoll.c:104-114 | reading a page just written returns the written bytes and leaves the pool, dirty flag included, as the write left it |
| BufferPool.WritePreservesValid | buffer_pool/day_one_bpoll.c:104-108 | writing keeps the pool invariant |
| BufferPool.Destroy | buffer_pool/day_one_bpoll.c:117-125 | the loop appends to the trace exactly the dirty resident pages in slot order, as the recursive reference list gives them |
| BufferPool.DirtyWritesComplete | buffer_pool/day_one_bpoll.c:117-125 | every dirty resident page is written on destroy |
| BufferPool.DirtyWritesSound | buffer_pool/day_one_bpoll.c:117-125 | every write on destroy comes from a dirty resident page |
| BufferPool.DirtyWritesCount | buffer_pool/day_one_bpoll.c:117-125 | destroy issues one write per dirty slot |
| BufferPool.DirtyWritesOfFirstThree | buffer_pool/day_one_bpoll.c:117-125 | a table whose only pages are dirty pages 1, 2, 3 in slots 0..2 is written back as pages 1, 2, 3 in that order |
| BufferPool.WriteIntoEmpty | buffer_pool/day_one_bpoll.c:104-108 | writing a page that is not resident, below capacity, stores it dirty in the lowest empty slot and adds one to the counter |
| BufferPool.InitIsEmptyFilled | buffer_pool/day_one_bpoll.c:128 | the call sequence in main starts from the empty pool of capacity 3 |
| BufferPool.WriteNext | buffer_pool/day_one_bpoll.c:132-134 | each write in main puts the next page, dirty, into the next slot |
| BufferPool.ScenarioWrites | buffer_pool/day_one_bpoll.c:128-134 | main's three writes take the empty pool to pages 1, 2, 3 dirty in slots 0..2 |
| BufferPool.MainScenario | buffer_pool/day_one_bpoll.c:136-142 | reading page 2 afterwards is a hit returning the written bytes, and destroy writes back pages 1, 2, 3 in order |
| BufferPool.ReadResident | buffer_pool/day_one_bpoll.c:111-114 | reading a resident page returns its bytes and changes nothing |
| Transactions.CreateDatabase | transaction.c:36-42 | a new database has no items and no transaction |
| Transactions.CreateTransaction | transaction.c:45-50 | a new transaction is active with an empty log |
| Transactions.FindData | transaction.c:53-60 | the result is the first item whose key matches; None exactly when no item has the key |
| Transactions.FindDataAt | transaction.c:53-60 | the lookup returns i when item i has the key and no earlier item does |
| Transactions.FindDataSameKeys | transaction.c:53-60 | the lookup depends only on the keys, not on the values |
| Transactions.InsertData | transaction.c:63-68 | the item is appended at the end, the count grows by one, earlier items and the transaction are unchanged |
| Transactions.AddTransactionLog | transaction.c:71-78 | the new entry is the head of the log and the older entries follow unchanged |
| Transactions.StartTransaction | transaction.c:81-88 | afterwards a transaction is active; while one is active nothing changes, otherwise a fresh active transaction with an empty log is installed; the store is kept |
| Transactions.CommitTransaction | transaction.c:91-103 | the store is kept and the transaction ends inactive with an empty log; with no active transaction nothing changes |
| Transactions.RestoreEntry | transaction.c:115-119 | restoring one log entry keeps the store's length and every key |
| Transactions.Undo | transaction.c:113-121 | the restore loop keeps the store's length and every key |
| Transactions.UndoRestoresOldest | transaction.c:113-121 | after the loop, the first item with a logged key holds the old value of that key's oldest entry, and every other item is unchanged |
| Transactions.RollbackTransaction | transaction.c:106-129 | an active transaction ends inactive with an empty log and every item as the oldest-entry description gives it; with no active transaction nothing changes |
| Transactions.UpdateData | transaction.c:132-154 | with no active transaction nothing changes. An existing key gets the new value and the log gains (key, previous value, new value) at its head, other items unchanged. A missing key is appended with the new value and logged with old value equal to the new one |
| Transactions.CreateDatabaseValid | transaction.c:36-42 | a new database satisfies the invariant: strings fit their buffers, an inactive transaction has an empty log |
| Transactions.InsertDataKeepsValid | transaction.c:63-68 | inserting keeps the invariant |
| Transactions.FindAfterInsert | transaction.c:53-68 | after an insert the key is found at its first earlier item if any, else at the new last item; other keys are found where they were |
| Transactions.StartTransactionKeepsValid | transaction.c:81-88 | starting a transaction keeps the invariant |
| Transactions.CommitTransactionKeepsValid | transaction.c:91-103 | committing keeps the invariant |
| Transactions.RestoreEntryKeepsValid | transaction.c:115-119 | restoring a logged old value keeps every string within its buffer |
| Transactions.UndoKeepsValid | transaction.c:113-121 | the restore loop writes only logged old values, so every string stays within its buffer |
| Transactions.RollbackTransactionKeepsValid | transaction.c:106-129 | rolling back keeps the invariant |
| Transactions.UpdateDataKeepsValid | transaction.c:132-154 | updating keeps the invariant: the logged old value is one the store held, or the new value |
| Transactions.UpdateAll | transaction.c:132-154 | a run of updates keeps every key and value within its buffer and keeps whether a transaction is active |
| Transactions.UpdateAllKeepsKeys | transaction.c:138-151 | updates of keys already present keep the store's length and keys |
| Transactions.UpdateExistingKeepsKeys | transaction.c:138-151 | one update of a key already present keeps the store's length and keys |
| Transactions.UndoLastUpdate | transaction.c:138-151 | restoring the log entry an update of a present key just added gives back the store before the update |
| Transactions.RollbackUndoesUpdates | transaction.c:106-129 | when every update of a fresh transaction hit a key already present, rollback restores the store as it was when the transaction started |
| Transactions.RollbackKeepsInsertedItem | transaction.c:139-148 | an update that inserted a missing key is not undone by rollback: the item stays |
| Transactions.ScenarioRollback | transaction.c:175-181 | in main, updating key1 and rolling back restores the two inserted items |
| Transactions.ScenarioCommit | transaction.c:187-191 | in main, updating key2 and committing leaves key2 with its new value and no active transaction |
| Transactions.MainScenario | transaction.c:164-197 | after main's calls the store is [key1→value1, key2→value2] after the rollback and [key1→value1, key2→newValue2] after the commit |
| BPlusTree.CreateBPlusNode | btree.c:22-31 | a new node has no keys, only NULL children, no next leaf, and the given leaf flag |
| BPlusTree.CreateBPlusTree | btree.c:34-38 | a new tree's root is a single empty leaf with every child NULL and no next leaf |
| BPlusTree.FindInsertPosition | btree.c:41-47 | the position is in [0, keyCount]; every key before it is smaller, and the key at it, if any, is not smaller |
| BPlusTree.ShiftUp | btree.c:54-57 | the shift loop moves entries pos..top-1 one place up and keeps everything else |
| BPlusTree.ShiftInsert | btree.c:54-61 | shifting and then writing the freed slot inserts the new entry at pos into the first top entries |
| BPlusTree.InsertIntoLeaf | btree.c:50-63 | the live keys become old[..i] + [key] + old[i..] at the search position, children move in lockstep, the count grows by one, and slots past the count are kept |
| BPlusTree.InsertIntoLeafAddsKey | btree.c:50-63 | the multiset of live keys grows by exactly the new key |
| BPlusTree.InsertIntoLeafKeepsOrder | btree.c:50-63 | ascending live keys stay ascending |
| BPlusTree.SortedInsert | btree.c:41-47 | a key above everything before its position and not above anything after it keeps an ascending sequence ascending |
| BPlusTree.SplitLeafNode | btree.c:66-85 | the leaf keeps MAX_KEYS/2 keys, the new leaf takes the rest, their concatenation is the original keys and children, and the new leaf is spliced after the old one in the next chain |
| BPlusTree.SplitKeepsOrder | btree.c:66-85 | splitting an ascending full leaf gives two ascending halves, with every key of the left half at most every key of the right half |
| BPlusTree.InsertIntoRoot | btree.c:88-104 | a root with room takes the key as insertIntoLeaf does; a full root is split as GrowRoot states |
| BPlusTree.GrowRoot | btree.c:92-103 | the new non-leaf root has one key, the new leaf's first key, and children [old root, new leaf]; the old root keeps the first MAX_KEYS/2 keys and values and the new leaf, a leaf, the rest; the new leaf takes over the old root's next link and the old root links to it; the incoming key is not inserted |
| BPlusTree.Insert | btree.c:107-114 | a leaf root becomes insertIntoLeaf's result, so key and value land at the sorted position: one more live key, the key multiset grows by the key, order is kept, other nodes are unchanged; a non-leaf root goes through insertIntoRoot |
| BPlusTree.InsertIntoSingleLeaf | btree.c:107-114 | inserting into a one-leaf tree replaces that leaf by insertIntoLeaf's result |
| BPlusTree.FirstInsertInMain | btree.c:145 | the first insert in main gives the live keys [10] |
| BPlusTree.SecondInsertInMain | btree.c:146 | the second insert gives [10, 20] |
| BPlusTree.ThirdInsertInMain | btree.c:147 | the third insert gives [5, 10, 20] |
| BPlusTree.MainScenarioFourthInsertOverflows | btree.c:141-148 | after three inserts the root is still a leaf holding [5, 10, 20] with no room, so the fourth insert cannot meet insertIntoLeaf's bound |
| MemoryPool.CreateMemoryPool | memory.c:24-45 | the pool has the requested size and its only header is at offset 0; the free list is the single block at offset 0 of size poolSize - HEADER; it covers the whole pool and is well formed and disjoint |
| MemoryPool.FirstFit | memory.c:53-79 | the chosen block is the first listed block of at least the requested size; None exactly when no listed block is large enough |
| MemoryPool.FirstFitAt | memory.c:53-79 | the search stops at block i when it fits and no earlier block does |
| MemoryPool.NoWrap | memory.c:59-61 | in a well-formed pool the size_t sums of the split test and the tail size do not wrap around |
| MemoryPool.Carve | memory.c:59-64 | the split block shrinks to the requested size, and a header just after those bytes holds the remaining size |
| MemoryPool.CarveKeepsHeaders | memory.c:59-64 | splitting adds exactly one header, the tail's, and leaves every header other than the split block's and the tail's unchanged |
| MemoryPool.Replace | memory.c:62-71 | replacing a list entry by pieces changes the list's multiset by exactly that entry and those pieces |
| MemoryPool.PoolMalloc | memory.c:48-84 | as written: the result is the first fitting block's offset plus HEADER, or NULL with the pool unchanged when none fits; a split leaves the block in place followed by its tail; without a split the block leaves the list and the others keep their order |
| MemoryPool.ReplaceKeepsDisjoint | memory.c:59-72 | replacing a block by disjoint pieces of itself keeps the free list disjoint |
| MemoryPool.ReplaceCovered | memory.c:59-72 | the bytes the free list covers change only by the replaced block and the pieces put in its place |
| MemoryPool.CarveFrame | memory.c:59-64 | a split leaves the headers of the other listed blocks alone |
| MemoryPool.CarvePieces | memory.c:59-64 | the pieces of a split block lie inside it and apart from each other |
| MemoryPool.CarveKeepAccounting | memory.c:59-64 | keeping the shrunk block and its tail keeps the list disjoint and covering the same bytes |
| MemoryPool.CarveTailAccounting | memory.c:59-64 | putting only the tail in the block's place keeps the list disjoint and removes exactly HEADER + size bytes |
| MemoryPool.PoolMallocSplitAccounting | memory.c:59-64 | as written, a split keeps the list disjoint, keeps the allocated block listed, and covers the same bytes, handed-out bytes included |
| MemoryPool.PoolMallocTakeAccounting | memory.c:65-72 | without a split the list stays disjoint, loses the handed-out block, and covers exactly that block's bytes less |
| MemoryPool.PoolFree | memory.c:87-93 | the block whose header precedes the pointer becomes the head of the list, the rest of the list is unchanged, and the covered bytes grow by that block |
| MemoryPool.TestDriverDoubleAllocates | memory.c:102-118 | as written, the test's requests of 256, 512 and 128 bytes return 16, 288 and 16 again, and block 0 stays on the free list |
| MemoryPool.DriverSecondRequest | memory.c:113-114 | the 512-byte request splits the tail block at 272 and returns 288 |
| MemoryPool.DriverThirdRequest | memory.c:117-118 | the 128-byte request fits block 0, still listed, and returns 16 |
| MemoryPool.PoolMallocUnlinking | memory.c:48-84 | corrected: as poolMalloc, except that on a split the tail takes the allocated block's place on the list |
| MemoryPool.UnlinkingAllocatesApart | memory.c:48-84 | corrected: the handed-out block is off the free list and apart from every free block, the list stays disjoint, and it covers exactly the handed-out bytes less |
| MemoryPool.UnlinkSplit | memory.c:59-64 | corrected split path: the block is handed out apart from the list, and HEADER + size bytes leave the list |
| MemoryPool.UnlinkWhole | memory.c:65-72 | unlink path: the block is handed out apart from the list, and its bytes leave the list |
| MemoryPool.ReplacedApart | memory.c:65-72 | after a block is replaced by pieces lying past its retained bytes, it is off the list and every listed block lies apart from it |
| MemoryPool.PushApart | memory.c:91-92 | pushing a block apart from every free block onto a disjoint list keeps it disjoint |
| MemoryPool.FreeHandedOut | memory.c:87-93 | freeing a handed-out block keeps the free list disjoint |
| MemoryPool.FreeUndoesUnlinkingMalloc | memory.c:87-93 | freeing the block the corrected allocator just returned is allowed, keeps the list disjoint and restores the covered bytes |
| MemoryPool.TestDriverWithUnlinking | memory.c:102-127 | with the correction the test's requests return 16, 288 and 816; after freeing 16 the next 256-byte request reuses it |

## Left out

- The pthread mutex (buffer_pool/day_one_bpoll.c:23, 33, 124) is never locked, so there is no concurrency to model.
- `printf` output is not modelled: the diagnostics, `printDatabase` and `printTree`.
- malloc, realloc and free are not modelled, and neither are their failures or the memory they leak. This covers the loaded page dropped when no slot is free, and commit freeing only the head of the log.
- `destroyMemoryPool` is not modelled; it only releases host memory.
- Page bytes are an opaque `seq<bv8>` of PAGE_SIZE bytes. The page text main writes is a parameter of the scenario lemmas.
- Uninitialised C memory is written as zeros or NULL: B+ tree key slots and stale array entries.
- LoadPageToBuffer, WritePage, ReadPage: `write_page` and `read_page` dereference the result of `load_page_to_buffer` without a NULL check. The model demands `CanLoad` of their callers, and `LoadPageToBuffer`'s contract shows that `CanLoad` holds exactly when a page is returned.
- Transactions.InsertData, UpdateData, AddTransactionLog: `strcpy` into 100-byte buffers is stated as a precondition rather than modelled as an overflow: fewer than 100 characters, none NUL, each one byte (code point below 256). Multi-byte encodings are not modelled.
- BPlusTree.InsertIntoLeaf, Insert: a full leaf makes `insertIntoLeaf` write past `keys[MAX_KEYS - 1]`. The model requires room instead. MainScenarioFourthInsertOverflows shows that main's fourth insert breaks this requirement, so its fourth and fifth inserts are not modelled.
- BPlusTree.InsertIntoRoot: the full-root branch is stated through `GrowRoot`, which carries the branch's properties.
- MemoryPool.PoolFree: the pointer must come from poolMalloc and its block must not be on the free list. Freeing a listed block makes the C list cyclic.
- MemoryPool.CreateMemoryPool: the pool must hold one header, and its size must fit in `size_t`.
- MemoryPool.PoolMalloc: headers are a map from offset to size, so blocks that overlap in memory are not modelled as clobbering each other's headers. The disjointness lemmas show that this cannot happen while the free list stays disjoint.
- MemoryPool: the bytes of user data are not modelled. `HEADER` = 16 assumes an LP64 target.
- BufferPool.MainScenario: the pool that main's calls leave after its three writes is written in closed form (`Filled`). ScenarioWrites proves that the writes produce it.

## Findings

| source | as written | input that shows it | evidently intended | confidence | as-written member | corrected member |
|---|---|---|---|---|---|---|
| memory.c:59-64 | the split path shrinks the chosen block and links its tail after it, but leaves the block itself on the free list | testMemoryPool: on a new 1 MiB pool, poolMalloc(256), poolMalloc(512), poolMalloc(128) return offsets 16, 288 and 16, so two live allocations share a block; the later poolFree(mem1) then links block 0 to itself | unlink the allocated block and put its tail in its place, as the no-split path unlinks it | high; not executed | MemoryPool.TestDriverDoubleAllocates | MemoryPool.UnlinkingAllocatesApart |
