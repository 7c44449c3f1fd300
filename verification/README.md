# The Zend heap, path resolution, resource table and module order, modelled and proved

A Dafny model of four parts of PHP's engine, with proofs.

**The heap manager** (`Zend/zend_alloc.c`) is a boundary-tag allocator: segments tiled by
blocks, free blocks in 64 small rings, 64 bitwise tries of large sizes and a rest ring, and a
cache of freed small blocks in front. `Tiling` describes segments and tags, `Rings`,
`LargeTrie`, `FreeListSpec` and `FreeListSteps` describe the link words of the free lists and
what they mean, the class `FreeBlocks.FreeLists` holds these words and updates them with the
code's own branches, `LargeSearch` says what the search finds, and `HeapSpec`, `HeapSteps`
and the class `HeapManager.ZendHeap` put everything together; `HeapRuns` serves sequences of
requests, `HeapExamples` builds small heaps. A `Heap` value is everything but the link words;
`live` maps each live block to what its client sees of it (requested size, room, bytes), and
the invariant ties it to the headers and to memory. Between the steps of an operation the blocks it has in work are "in
hand". The model is the release configuration: no debug headers, no cookies, safe unlinking
on, 64-bit words, alignment 8, header 16, minimal block 32.

Memory is one (`Memory`): an address is covered by a header word, by a link word or by a byte
of data, never by two of them (`HeadersApart`, `LinksApart`, parts of the invariant). A
stored word wipes out the data under it, whichever block it belongs to; handing a room to a
client forgets the words in it. So the bytes of live blocks survive an operation because
nothing is stored over them, and the copies of a reallocation read them from memory when the
code does.

**The leak report** of debug builds (`LeakWalk`) walks a tiling twice over.

Contracts of the heap say where a block comes from and what becomes of the rest: the
predicates `GotBlock`, `Regot` and `FreedIn` give, for every way a request can go, the exact
lists, bitmap and headers afterwards, relative to a snapshot (`Past`) of the heap before.
From them follow the laws a client sees: what was released or left over serves later requests
(`Returned`, `LeftServes`), and a block that has room enough, or free space behind it, keeps its
address.

**Path resolution** (`TSRM/tsrm_virtual_cwd.c`): `Resolver.Resolve` is the meaning of
`tsrm_realpath_r` on absolute paths without a cache, and `Routes` tells, without its cases, when
it succeeds and with what: the way from the path to the root, link by link and slash by slash,
the names met on it, and what can be in the way. `Paths` is the component stack,
`RealpathCache.Cache` the expiring hash chains, `CacheSizes` what their size is worth,
`CachedResolver.Walk` the meaning with them, and `VirtualCwd.CwdGlobals` the in-place
resolver on a character buffer, which computes `Walk`, and its callers.

**Module order and handler tables** (`Zend/zend_API.c`) are in `Modules`, **the
thread-safe resource manager** (`TSRM/TSRM.c`) is in `Tsrm`.

Storage, `lstat`, `readlink`, the clock and the callers' checks are parameters. What storage
may answer is in `StorageGives`, `StorageMoves` and `StorageReallocs`: NULL or aligned
memory that is not in use, below 2^64 bytes in all. A failure that the code leaves by
`longjmp` is a NULL result here. Branches that end in `zend_mm_panic` are kept, with a proof
that they are not reached.

Where the code falls short of what one would expect, the statement is about the code:

- The walks at `Zend/zend_alloc.c:1843` and `:1865` go right when there is a left child, so
  the search need not find the best fit. `FindsLeast` is the exact condition, and
  `SearchExample` a heap where it fails.
- `zend_mm_free_cache` lowers `cached` but not `size`; `flushed` counts the difference.
- A small block that leaves the rest ring can clear the bit of a bucket that still holds a
  block. `BitsStayExact` says exactly when, `HidesBehind` exactly which releases do it, and
  `BitmapExample.LoseBit` is one.
- When storage fails to reallocate a segment after the free block behind was unlinked, the
  block stays in no list (`Zend/zend_alloc.c:2281-2293`). `Strands` is the exact condition,
  `Stranded` what is left, and `StrandExample.StrandRun` a run from an empty heap.
- `ZEND_MM_PREV_BLOCK` casts to `int`, so it is exact only in segments below 2 GiB
  (`Sizes.PrevOffsetExact`). A request that takes a larger one leaves a heap that is `Intact`
  in everything else, and `Valid` exactly when it does not (`Oversized`, `Outgrows`); what
  walks back asks for blocks of smaller segments.
- The realpath cache stores for a link that it is no directory when its links end at the
  root, at ".." or at a missing name, so a cached resolution can fail where an uncached one
  succeeds (`LinkFlagCanLie`, `CachedRefusal`). That is the only reason
  (`NeverRefusesExactly`), it cannot happen exactly in file systems where links land
  (`SafeExactlyWhereLinksLand`), and when both succeed they agree.
- A reserve comes back after a request exactly when the oldest segment has room for it or
  storage gives a new one (`ReserveServed`).
- The removal of a cache entry subtracts a resolved path that is the path itself, although
  it was stored and counted once. The size is what the cache holds exactly unless that
  happened since the last cleaning (`SizeIsExactly`). Exactly then the cache can come to hold
  more than its limit, as long as it has room for one more path (`LimitBreaksExactly`,
  `HoldMoreThanLimit`).
- `ts_free_thread` calls destructors with NULL for freed ids (`NullCalls`), and
  `ts_free_worker_threads` reaches one bucket only and leaves its threads with dangling
  local pointers. A thread that makes another one's entry takes it for its own from then on;
  `ResourceEx` says exactly when.

## Model

| member | source | states |
|---|---|---|
| `HeapManager.ZendHeap.constructor` | Zend/zend_alloc.c:1096-1124 | a fresh heap satisfies the whole invariant: nothing live, nothing cached, no segments, all counters 0, no request served without storage |
| `HeapManager.ZendHeap.AllocInt` | Zend/zend_alloc.c:1873-2047 | keeps the heap intact for every answer of storage, and valid exactly unless it takes a new segment of 2 GiB or more; a success adds exactly one live block, aligned, with at least the requested room and less than a minimal block too much, every other live block unchanged with its bytes. The block is the head of its class in the cache if there is one; else the one the searches pick, cut at the wanted size with the remainder in the list of its size; else the first of a new segment at the address that storage gave, with the remainder behind it. A remainder that is listed by its size serves every request up to it; bits of the small bitmap that were right stay right unless a block leaves the rest ring. Fails exactly when the request wraps around or no searched list has a fit and no segment can be had; a failure only releases the reserve, and flushes the cache unless the request wrapped around; segments, counters and peaks move as stated |
| `HeapManager.ZendHeap.NoRoomExactly` | Zend/zend_alloc.c:1886-1978 | what the failure of a request means in terms of the blocks: none in the cache has the size, all that the searches look at are too small, those of the rest ring only near the limit, and a segment wraps around, passes the limit or is refused |
| `HeapManager.ZendHeap.InCacheExactly` | Zend/zend_alloc.c:1891-1904 | a request is served from the cache exactly when some cached block has the very size |
| `HeapManager.ZendHeap.FindFree` | Zend/zend_alloc.c:1891-1942 | the searches together find a listed free block that is large enough, or none exactly when no list that they look at has one; which one: the last block of the first small ring that the bitmap shows, else a block of the tries, of the very size if there is one, else, near the limit only, the smallest fit of the rest ring |
| `HeapManager.ZendHeap.FromCache` | Zend/zend_alloc.c:1891-1904 | a cache hit hands out the head of the chain of exactly the class, the next block becomes the head, and `cached` falls by the class; lists and bitmap stay |
| `HeapManager.ZendHeap.NewBlock` | Zend/zend_alloc.c:1945-2040 | a new segment becomes a guard, a used block at its front and at most one free block behind it, which goes to the rest ring exactly when the segment is oversized and to the list of its size otherwise; the segment heads the list, `real_size` grows by its rounded size and stays the sum of segment sizes |
| `HeapManager.ZendHeap.Carve` | Zend/zend_alloc.c:2014-2037 | the front becomes a used block of the wanted size, the remainder, when it is at least 32 bytes, a free block at the head of the list of its size or at the end of the rest ring; the lists change in nothing else, but for the oldest of the rest ring when it is full |
| `HeapManager.ZendHeap.FreeInt` | Zend/zend_alloc.c:2050-2108 | keeps the heap invariant; exactly the freed block leaves the live blocks; small blocks go to the head of their class in the cache while it holds less than 256 KiB, and `size` stays; others lower `size`, and join with the free blocks beside them into one that is listed by its size, or their segment goes when nothing else in it is used. What is listed so serves every request up to its size, as long as the small bitmap shows its bucket right. Says which bits of the small bitmap stop telling the truth, exactly which segments go, and that nothing comes into the rest ring |
| `HeapManager.ZendHeap.ListedServes` | Zend/zend_alloc.c:1907-1942 | a free block that is listed by its size, in a bucket shown right, serves every request up to that size without storage |
| `HeapManager.ZendHeap.FreePtr` | Zend/zend_alloc.c:2359-2362 | the same for clients, NULL included; the reserve stays; in any intact heap, for blocks of segments below 2 GiB |
| `HeapManager.ZendHeap.FreeToLists` | Zend/zend_alloc.c:2084-2106 | coalesces both ways; the segment is released exactly when nothing else in it is in use, otherwise the joined block, with the exact address and size, is listed by its size, and serves requests up to it; the free blocks beside leave their lists and nothing else changes there; a bit of the small bitmap that was right is wrong afterwards exactly when the free block behind was alone in the rest ring, its own bucket held one block, and that was not the free block before |
| `HeapManager.ZendHeap.Settle` | Zend/zend_alloc.c:936-957 | the same for a block of the cache, in the order of the flush, where the block before goes first: it may leave just one block in the bucket that is hidden then |
| `HeapManager.ZendHeap.DelSegment` | Zend/zend_alloc.c:915-925 | the walk along the segment list finds the segment; only it goes, and `real_size` follows |
| `HeapManager.ZendHeap.FlushBlock` | Zend/zend_alloc.c:936-959 | one cached block becomes coalesced free space; the link to the next one, read before, is the new head; live blocks stay |
| `HeapManager.ZendHeap.FreeCache` | Zend/zend_alloc.c:928-969 | terminates with an empty cache, `cached` 0, every live block, its bytes and its segment unchanged and the invariant intact; exactly the segments go in which only cached blocks were in use, the order of the others stays; nothing comes into the rest ring; `size` stays, the difference is accounted for |
| `HeapManager.ZendHeap.ReallocInt` | Zend/zend_alloc.c:2110-2352 | keeps the heap intact exactly unless storage fails after the free block behind was unlinked, then everything but that block is as it should be; valid exactly unless it takes 2 GiB or more; the new block takes the old one's place among the live blocks, with the bytes both have room for; all other live blocks keep theirs. A block that is large enough stays where it is; so does one that becomes so with the free block behind it, unless a cached block has the very size, and then the head of that chain is taken and the old block is cached; what is cut off is listed by its size. A block that fills its segment grows with it; else a block is had as by AllocInt and the old one released. Fails exactly when the request wraps around, or the block is too small, no cached block and no free block behind will do, and its segment, if it fills one, cannot be resized or else no other block can be had; failures leave the old block live |
| `HeapManager.ZendHeap.Shrink` | Zend/zend_alloc.c:2130-2155 | the tail, joined with a free block behind it, becomes one free block in the list of its size, the lists change in nothing else; the bytes that fit are still in memory when it is done |
| `HeapManager.ZendHeap.SwapCached` | Zend/zend_alloc.c:2158-2198 | the head of the chain of the new class is taken and the bytes are copied into it while the old block still holds them, then the old block heads the chain of its own class, however full the cache is; `cached` stays the sum of the cache, `size` stays |
| `HeapManager.ZendHeap.CopyRoom` | Zend/zend_alloc.c:2179-2184 | memcpy from one live block to another: the target holds the first bytes of the source, nobody else's change |
| `HeapManager.ZendHeap.GrowInPlace` | Zend/zend_alloc.c:2203-2237 | the free block behind is used up, or cut and its remainder listed by its size; the address and the bytes stay |
| `HeapManager.ZendHeap.GrowSegment` | Zend/zend_alloc.c:2238-2341 | the block grows with its segment, moved or not, to the address that storage gave, and what is left over, if it is a block, is in the rest ring; fails exactly when the limit or storage says no; a detached free block is listed again after the first, and lost after the second |
| `HeapManager.ZendHeap.FillsExactly` | Zend/zend_alloc.c:2240-2246 | the first-and-guard tests hold exactly when the block, and at most one free block right behind it, are all that is in the segment |
| `HeapManager.ZendHeap.FailStorage` | Zend/zend_alloc.c:2281-2293 | after a failure of storage the flush and the release of the reserve still work; a free block that was detached is in no list |
| `HeapManager.ZendHeap.WouldStrand` | Zend/zend_alloc.c:2240-2293 | clients can tell beforehand, from the headers, the cache and the limit |
| `StrandExample.StrandRun` | Zend/zend_alloc.c:2240-2293 | on a new heap, 4000 bytes resized to 10000 while storage refuses leave a free block in no list |
| `HeapSteps.UnlistedBreaks` | Zend/zend_alloc.c:2281-2293 | a free block in no list breaks the invariant, whatever the clients are thought to hold |
| `HeapManager.ZendHeap.MoveSegment` | Zend/zend_alloc.c:2281-2315 | the block of a segment that storage moves finds its bytes at the new place, under new headers |
| `HeapManager.ZendHeap.CopyOver` | Zend/zend_alloc.c:2344-2351 | allocation as by AllocInt, copy out of the old block, release: same bytes, both blocks counted in the peak, and failure leaves the old block |
| `HeapManager.ZendHeap.SafeError` | Zend/zend_alloc.c:1736-1747 | releases the reserve, as a release does, and nothing else |
| `HeapManager.ZendHeap.Startup` | Zend/zend_alloc.c:1113-1124 | there is a reserve exactly when one is wanted and there is room for it; it is one more live block, the one that AllocInt serves |
| `HeapManager.ZendHeap.Reset` | Zend/zend_alloc.c:1608-1733 | the heap between requests, from whatever state a request left, a lost free block included: no live block but a new reserve, the oldest segment kept when a reserve is wanted, all counters restarted, an exact small bitmap, invariant intact; there is a reserve exactly when the kept segment has room for it or a new one can be had, and it is at the front of that segment |
| `HeapManager.ZendHeap.ReserveComesBack` | Zend/zend_alloc.c:1686-1731 | a reserve that lies in the oldest segment comes back |
| `HeapManager.ZendHeap.Refill` | Zend/zend_alloc.c:1728-1731 | the reserve comes from the front of the kept segment when it fits there, from a new one otherwise, and the counters count just it |
| `HeapManager.ZendHeap.OnlyWhole` | Zend/zend_alloc.c:1716-1731 | a heap that is one free block serves exactly the requests that fit into it |
| `HeapManager.ZendHeap.SetLimit` | Zend/zend_alloc.c:2592-2599 | the limit never falls below one segment |
| `HeapManager.ZendHeap.MemoryUsage` | Zend/zend_alloc.c:2601-2612 | usage is the live bytes plus what flushes forgot, exactly the live bytes on runs without a flush; the real usage is the sum of segment sizes |
| `HeapManager.ZendHeap.PeakUsage` | Zend/zend_alloc.c:2614-2622 | the peak of the counter asked for; both dominate what they count, cached bytes included |
| `HeapManager.ZendHeap.BlockSizeOf` | Zend/zend_alloc.c:2369-2385 | the whole size of a live block, 0 for NULL |
| `HeapManager.ZendHeap.Write` | Zend/zend_alloc.c:2354-2367 | a client's store into its room changes its block's bytes and nobody else's |
| `HeapManager.ZendHeap.Read` | Zend/zend_alloc.c:2354-2367 | loading from memory gives what the client of the block last wrote or was given there |
| `HeapManager.ZendHeap.GiveLive` | Zend/zend_alloc.c:2039-2047 | the room of a block that is handed out holds bytes only: those that were there |
| `HeapRuns.Serve` | Zend/zend_alloc.c:2354-2367 | over every sequence of allocations, reallocations, releases and stores on a heap, failing ones included, for every storage: the heap stays valid until storage strands a block or gives 2 GiB, each step does what its request asks, and a block that no request is about keeps its place, room and bytes |
| `HeapRuns.ServeOne` | Zend/zend_alloc.c:2354-2367 | one request fails exactly when there is no room for it with what storage answers, and nothing is done exactly when the client does not hold the block |
| `HeapSpec.OthersKeepTheirs` | Zend/zend_alloc.c:2354-2367 | over any run of what operations do for clients a block stays as it is until its own client reallocates, frees or writes it |
| `HeapSteps.EveryBlockHasAPlace` | Zend/zend_alloc.c:723-886 | every block but the guards is free and listed, cached, or live, and only one of these |
| `HeapSteps.OnlyBlocks` | Zend/zend_alloc.c:723-886 | lists, cache and clients hold nothing but blocks of the segments |
| `HeapSteps.LiveInside` | Zend/zend_alloc.c:1873-2047 | rooms of live blocks are aligned, inside their segments and as large as was asked |
| `HeapSteps.LiveApart` | Zend/zend_alloc.c:1873-2047 | no header, no link field of a free or cached block and no room of another live block reaches into the room of a live block |
| `HeapSteps.StoresKeep` | Zend/zend_alloc.c:723-886 | stores to link fields of listed blocks leave the bytes of all other blocks alone |
| `HeapSteps.HeadersKeep` | Zend/zend_alloc.c:502-507 | stores of headers leave the bytes of live blocks alone |
| `HeapSteps.MovedOk` | Zend/zend_alloc.c:2281-2308 | nor does the move of a segment touch live blocks of other segments |
| `HeapSteps.NoFreeNeighbours` | Zend/zend_alloc.c:2084-2106 | no two adjacent blocks are free |
| `HeapSteps.MergeOk` | Zend/zend_alloc.c:2088-2104 | writing one header over a run of blocks in hand keeps the tiling and the ownership of all other blocks |
| `HeapSteps.CutOk` | Zend/zend_alloc.c:2024-2031 | writing two headers into a block in hand does |
| `HeapSteps.DropOk` | Zend/zend_alloc.c:2098-2100 | a segment can go when everything in it is in hand |
| `HeapSteps.GrowOk` | Zend/zend_alloc.c:1994-2003 | a new segment can come |
| `HeapSteps.RunAlone` | Zend/zend_alloc.c:2098-2099 | the first-and-guard test holds exactly when nothing else in the segment is in use |
| `HeapSteps.LinkageOk` | Zend/zend_alloc.c:643-648 | sizes and back links of neighbours agree, also through the cast to int of ZEND_MM_PREV_BLOCK, so the linkage check never fails |
| `HeapSpec.LiveTotalRemove` | Zend/zend_alloc.c:2082 | the live bytes lose exactly a block that leaves, whatever the order of counting |
| `HeapSpec.CacheTotalUpdate` | Zend/zend_alloc.c:2069-2079 | the cached bytes change by one class size per block pushed or popped |
| `HeapSpec.SegmentTotalRemove` | Zend/zend_alloc.c:915-925 | the sum of segment sizes loses exactly the segment that is unlinked |
| `Tiling.SegmentTiled` | Zend/zend_alloc.c:502-522 | following the sizes from the first block meets exactly the blocks of the segment and ends at the guard; header, blocks and guard add up to the segment |
| `Tiling.MergeTiles` | Zend/zend_alloc.c:502-507 | ZEND_MM_BLOCK over several blocks leaves a tiling |
| `Tiling.SplitTiles` | Zend/zend_alloc.c:2024-2031 | two ZEND_MM_BLOCKs inside one block leave a tiling |
| `Tiling.AddSegmentTiles` | Zend/zend_alloc.c:1994-2003 | a new segment, first block and guard, extends the tiling |
| `Tiling.DropSegmentTiles` | Zend/zend_alloc.c:915-925 | a tiling stays one when a segment goes |
| `FreeBlocks.FreeLists.AddToFreeList` | Zend/zend_alloc.c:723-782 | the block is added to the list of its size, nothing else changes lists; link fields change only in this block and in listed ones, and only bytes under these fields are lost |
| `FreeListSpec.StoredUntouched` | Zend/zend_alloc.c:379-404 | what stores to link fields wipe out lies in these fields |
| `FreeListSpec.VacateOk` | Zend/zend_alloc.c:379-404 | words that lie outside all listed blocks mean nothing to the lists |
| `FreeBlocks.FreeLists.AddSmall` | Zend/zend_alloc.c:767-781 | at the front of its bucket's ring; the bit is set |
| `FreeBlocks.FreeLists.AddLarge` | Zend/zend_alloc.c:731-766 | into the trie of its leading one, as a leaf or as a ring mate of the node with its size |
| `FreeBlocks.FreeLists.Descend` | Zend/zend_alloc.c:746-766 | the descent ends within as many steps as the bucket index, at an empty cell on the path of its bits or at the node of its size |
| `FreeBlocks.FreeLists.RemoveFromFreeList` | Zend/zend_alloc.c:784-855 | exactly the block leaves the lists; tries, rings, bitmaps and the rest count stay right; no unlinking, ring or tree check reaches the panic; link fields change only in listed blocks |
| `FreeBlocks.FreeLists.RemoveSmall` | Zend/zend_alloc.c:832-847 | a small block leaves its ring; the small bitmap changes exactly under the two comparisons of the code |
| `FreeBlocks.FreeLists.RemoveLone` | Zend/zend_alloc.c:791-828 | a trie node without ring mates follows itself both ways and goes: the deepest leaf of the walk to the right takes its place |
| `FreeBlocks.FreeLists.RemoveHead` | Zend/zend_alloc.c:817-828 | a trie node with ring mates goes: its predecessor in the ring takes its place |
| `FreeBlocks.FreeLists.TakeOver` | Zend/zend_alloc.c:817-828 | subst_block: cells and parent words afterwards, the tree checks hold |
| `FreeBlocks.FreeLists.AddToRestList` | Zend/zend_alloc.c:857-886 | evicts oldest first, only when sixteen large blocks are there, ends, and appends; never more than sixteen afterwards |
| `FreeBlocks.FreeLists.SearchLargeBlock` | Zend/zend_alloc.c:1800-1871 | NULL exactly when no trie block is large enough, else a block of the tries that is, of the very size when there is one; the best fit exactly when FindsLeast says so |
| `FreeBlocks.FreeLists.SearchSmall` | Zend/zend_alloc.c:1907-1918 | the first ring at or above the class that the bitmap shows, and its last block |
| `FreeBlocks.FreeLists.SearchRest` | Zend/zend_alloc.c:1927-1942 | the smallest rest block that is large enough, or none exactly when there is none |
| `FreeBlocks.FreeLists.Init` | Zend/zend_alloc.c:888-913 | empty rings, empty buckets, no bits mean empty lists |
| `FreeListSteps.AddLeafStep` | Zend/zend_alloc.c:737-757 | a new leaf keeps every node on the path of its size's bits and every parent word right |
| `FreeListSteps.InnerGoneStep` | Zend/zend_alloc.c:810-828 | moving a leaf into the place of a node that goes keeps them |
| `FreeListSteps.HeadGoneStep` | Zend/zend_alloc.c:817-828 | so does promoting a ring mate |
| `FreeListSteps.BitsStayExact` | Zend/zend_alloc.c:840-847 | unlinking a small block keeps an exact small bitmap exact unless the block was alone in the rest ring while its own bucket holds one block |
| `FreeListSteps.TakenBits` | Zend/zend_alloc.c:840-847 | class by class, when the bitmap tells the truth after the two comparisons |
| `FreeListSteps.FreedBits` | Zend/zend_alloc.c:2084-2106 | and after the two removals and the addition of a release |
| `FreeListSteps.FlushedBits` | Zend/zend_alloc.c:936-957 | and of a flush, where the block before goes first |
| `HeapSteps.RestNotBefore` | Zend/zend_alloc.c:857-886 | blocks of the rest ring lie before guards, so none is before a block in use |
| `HeapSteps.ServedShows` | Zend/zend_alloc.c:2011-2037 | which bits stop telling the truth when a free block is taken and cut, whatever is left of it |
| `HeapSteps.ResizedShows` | Zend/zend_alloc.c:2130-2237 | and when a block is cut or grows where it is |
| `HeapSteps.TidiedTrans` | Zend/zend_alloc.c:928-969 | releases add up: over any number of them exactly the segments go that were in use and are no more, the rest ring gets nothing, and a heap with no small block in that ring hides no bucket |
| `BitmapExample.BitmapIsReal` | Zend/zend_alloc.c:840-847 | a heap that satisfies the invariant, with words of the free lists that mean its lists and an exact bitmap: a large block with what was left of its segment in the rest ring, and a small block in the bucket of that size |
| `BitmapExample.LoseBit` | Zend/zend_alloc.c:2084-2106 | the release of that large block clears the bit of the bucket, and the bucket still holds a block |
| `FreeListSteps.InitOk` | Zend/zend_alloc.c:888-913 | the initial words mean empty lists |
| `FreeListSteps.ViewFrame` | Zend/zend_alloc.c:784-855 | headers of blocks outside the lists do not matter to the lists |
| `LargeSearch.WalkFindsLeast` | Zend/zend_alloc.c:1843-1851 | a walk by child[child[0] != NULL] finds the least size below its start exactly when that is at the start |
| `LargeSearch.OwnBucketLeast` | Zend/zend_alloc.c:1818-1855 | when the search in the size's own bucket finds the best fit |
| `LargeSearch.LaterBucketLeast` | Zend/zend_alloc.c:1863-1870 | when the search in a later bucket does |
| `SearchExample.SearchCanMissTheBestFit` | Zend/zend_alloc.c:1863-1870 | a heap where 600 bytes are not served by the best fit of 1024 |
| `SearchExample.ExampleIsReal` | Zend/zend_alloc.c:723-782 | that heap satisfies the invariant, segments, headers and live blocks included, and has words of the free lists that mean its tries |
| `LargeTrie.ShiftStep` | Zend/zend_alloc.c:746-766 | the shift register of the descent names the next bit of the size |
| `LargeTrie.PrefixOccupied` | Zend/zend_alloc.c:746-757 | no gaps on the way to a node |
| `LargeTrie.LeafTakesOverShape` | Zend/zend_alloc.c:810-828 | sizes still lie on their paths after a leaf takes a node's place |
| `Rings.UnlinkRing` | Zend/zend_alloc.c:836-838 | unlinking leaves the ring of the others; the neighbours pointed at the block |
| `Rings.LinkRing` | Zend/zend_alloc.c:777-781 | linking behind an element |
| `Sizes.TrueSizeCovers` | Zend/zend_alloc.c:537-543 | a true size is aligned, at least 32 and covers the request and its header, or the wrap-around shows as a size below the request |
| `Sizes.TrueSizeIsLeast` | Zend/zend_alloc.c:537-539 | and it is the least such size |
| `Sizes.SmallSizesAreClasses` | Zend/zend_alloc.c:541-543 | small sizes and buckets correspond one to one |
| `Sizes.SegmentCovers` | Zend/zend_alloc.c:1945-1954 | a segment covers block, header and guard, or the wrap-around shows as a segment below the block |
| `Sizes.SegmentIsLeast` | Zend/zend_alloc.c:1945-1954 | and it is the least multiple of the block size that does |
| `Sizes.PrevOffsetExact` | Zend/zend_alloc.c:518 | the way back is exact for sizes below 2^31, and only for these |
| `Bits.ZendMmHighBit` | Zend/zend_alloc.c:681-688 | the portable scan is the position of the highest set bit |
| `Bits.ZendMmLowBit` | Zend/zend_alloc.c:707-720 | the table-driven scan is that of the lowest |
| `Tags.WordRoundTrip` | Zend/zend_alloc.c:496-511 | size and type bits share a word without loss |
| `LeakWalk.DebugHeap.CheckLeaks` | Zend/zend_alloc.c:1271-1329 | the reported total is the number of used blocks marked live on entry; exactly these are relabelled; both walks end and no check reaches the panic |
| `LeakWalk.DebugHeap.FindLeaks` | Zend/zend_alloc.c:1230-1269 | relabels and counts exactly the later live blocks of the same file and line |
| `LeakWalk.DebugHeap.Report` | Zend/zend_alloc.c:1289-1316 | a report takes with it all leaks of the same file and line, so each place is reported once, with the number of its blocks |
| `LeakWalk.StepFacts` | Zend/zend_alloc.c:1282-1288 | the walk advances inside the segment, block by block |
| `Resolver.ResolveCanonical` | TSRM/tsrm_virtual_cwd.c:733-1116 | for every lstat and readlink, a success is absolute, fits and has no empty, "." or ".." component; the link budget is kept |
| `Resolver.ResolutionsAgree` | TSRM/tsrm_virtual_cwd.c:1020-1027 | two successes on one path give one string, whichever of CWD_FILEPATH and CWD_REALPATH, budget and directory flag they ran with |
| `Resolver.ExpandNormalises` | TSRM/tsrm_virtual_cwd.c:748-800 | CWD_EXPAND is the component-stack normaliser and does not fail on paths that fit |
| `Resolver.ExpandIdempotent` | TSRM/tsrm_virtual_cwd.c:748-800 | and it is idempotent |
| `Resolver.FlagIsEnd` | TSRM/tsrm_virtual_cwd.c:1031-1072 | what a resolution stores as directory flag tells exactly whether the links end at a directory |
| `Resolver.NeverDirectoryExactly` | TSRM/tsrm_virtual_cwd.c:1031-1072 | a path that resolves is refused as a directory exactly when its links end at a file |
| `Resolver.LinkAgrees` | TSRM/tsrm_virtual_cwd.c:1031-1065 | what every resolution of a link's target comes to, every resolution of the link does |
| `Resolver.NameAgrees` | TSRM/tsrm_virtual_cwd.c:1074-1105 | and likewise for a name behind a directory |
| `Routes.ResolvesExactly` | TSRM/tsrm_virtual_cwd.c:733-1116 | a resolution succeeds with a path exactly when the way to the root leaves that path, the links on it keep to the budget, in CWD_REALPATH the first name that is no link exists, a file is met only where the links from the start end and no directory is asked for, and every directory with its name fits the buffer |
| `Routes.RouteUnique` | TSRM/tsrm_virtual_cwd.c:1031-1105 | there is one way only |
| `Routes.PlainResolvesExactly` | TSRM/tsrm_virtual_cwd.c:733-1116 | a path with no link on it resolves to the normalisation of its components, and fails exactly when a proper prefix is a file, the path itself is one and a directory is asked for, or, in CWD_REALPATH, its last name is missing |
| `Routes.ResolvedLeads` | TSRM/tsrm_virtual_cwd.c:733-1116 | what a resolution gives is where the path leads |
| `Routes.LeadsAgrees` | TSRM/tsrm_virtual_cwd.c:1020-1027 | where a path leads is what all its resolutions that succeed come to |
| `Routes.LinkLeads` | TSRM/tsrm_virtual_cwd.c:1031-1065 | a link leads where its target does |
| `Routes.NameLeads` | TSRM/tsrm_virtual_cwd.c:1074-1105 | a name leads behind where its directory does, ".." to the parent |
| `Routes.ComponentsOfJoined` | TSRM/tsrm_virtual_cwd.c:1188-1191 | the components of a relative path behind a directory are those of both, one after the other |
| `Paths.ComponentsOfJoin` | TSRM/tsrm_virtual_cwd.c:748-763 | splitting a joined path gives its components back |
| `Paths.JoinOfComponents` | TSRM/tsrm_virtual_cwd.c:748-763 | and joining the components of a canonical path gives it back |
| `Paths.AppendName` | TSRM/tsrm_virtual_cwd.c:1074-1105 | a name behind a canonical directory is canonical, and ".." undoes it |
| `VirtualCwd.CwdGlobals.RealpathR` | TSRM/tsrm_virtual_cwd.c:733-1116 | the in-place resolver computes exactly Walk, result and cache; terminates by links left, then length; keeps the cache sound |
| `VirtualCwd.CwdGlobals.Upwards` | TSRM/tsrm_virtual_cwd.c:764-800 | ".." cuts the resolved directory at its last slash, the root absorbs it |
| `VirtualCwd.CwdGlobals.FollowLink` | TSRM/tsrm_virtual_cwd.c:1031-1065 | a link is answered by its target, absolute or spliced behind the link's directory inside the buffer |
| `VirtualCwd.CwdGlobals.PlainName` | TSRM/tsrm_virtual_cwd.c:1066-1105 | a name goes behind the resolved directory |
| `VirtualCwd.CwdGlobals.Last` | TSRM/tsrm_virtual_cwd.c:802-823 | the cache lookup for the last name, with its refusal |
| `VirtualCwd.CwdGlobals.Fresh` | TSRM/tsrm_virtual_cwd.c:855-1111 | lstat, the branch for links and for names, and the saving of the result |
| `VirtualCwd.CwdGlobals.VirtualFileEx` | TSRM/tsrm_virtual_cwd.c:1121-1319 | success gives where the path leads from the state, with its final slash where the mode keeps it, and without links on the way, or in CWD_EXPAND, its components are the normalised ones of the state followed by those of the path; otherwise the state stays; it fails only when the lengths pass the limits, the caller rejects the result, or something is in the way of every uncached resolution: without the cache, with a cache whose visible flags are true, and with any cache where links land |
| `RealpathCache.FlagLiesExactly` | TSRM/tsrm_virtual_cwd.c:1031-1111 | a stored flag lies exactly when the links from its path end at the root, at ".." or at a missing name, and the path resolves |
| `RealpathCache.LandedFlags` | TSRM/tsrm_virtual_cwd.c:1031-1111 | in a file system where links land no stored flag lies |
| `RealpathCache.SweptLookup` | TSRM/tsrm_virtual_cwd.c:691-698 | a lookup does not change what lookups find |
| `VirtualCwd.CwdGlobals.VirtualChdir` | TSRM/tsrm_virtual_cwd.c:1324-1327 | every run keeps the working directory canonical; a failed call leaves it as it was; a success moves it where the path leads from it: without links on the way to the normalised components of both, with ".." to its parent; where links land it fails only when the way is blocked, the lengths pass the limits or the caller rejects the result |
| `VirtualCwd.CwdGlobals.Forget` | TSRM/tsrm_virtual_cwd.c:588-628 | deletions and cleaning keep a sound cache sound, and do just what they say |
| `CachedResolver.WalkAnswers` | TSRM/tsrm_virtual_cwd.c:806-823 | with a sound cache a success is canonical, fits, and is what every uncached success comes to, whichever mode filled the entry; the cache stays sound |
| `CachedResolver.WalkFails` | TSRM/tsrm_virtual_cwd.c:806-823 | while no visible flag lies, a cached resolution fails only where the uncached one does |
| `CachedResolver.WalkUncached` | TSRM/tsrm_virtual_cwd.c:733-1116 | without a cache, and in expansion, resolution is Resolve |
| `CachedResolver.NeverRefusesExactly` | TSRM/tsrm_virtual_cwd.c:806-823 | the cache never makes a resolution fail exactly when no visible entry has links that end at the root, at ".." or at a missing name while its path resolves |
| `CachedResolver.SafeExactlyWhereLinksLand` | TSRM/tsrm_virtual_cwd.c:806-823 | no run of resolutions from an empty cache leaves one that ever does, exactly in file systems where no link that resolves ends there |
| `CachedResolver.LyingRun` | TSRM/tsrm_virtual_cwd.c:806-823 | elsewhere one resolution of such a link is such a run |
| `CachedResolver.EmptyWalk` | TSRM/tsrm_virtual_cwd.c:806-823 | on an empty cache a resolution is Resolve, and adds at most one entry for each path on its way |
| `VirtualCwd.CwdGlobals.ResolveAll` | TSRM/tsrm_virtual_cwd.c:733-1116 | such runs are what calls of the in-place resolver do |
| `CachedResolver.LieRefuses` | TSRM/tsrm_virtual_cwd.c:812-815 | a flag that lies makes the resolution of its path as a directory fail |
| `CachedResolver.LinkFlagCanLie` | TSRM/tsrm_virtual_cwd.c:1031-1065 | a link to "." is stored as no directory, and what is below it is refused although it resolves |
| `CachedResolver.DanglingFlagCanLie` | TSRM/tsrm_virtual_cwd.c:1031-1065 | so is a link to a missing name, and is refused as a directory, as which it resolves |
| `VirtualCwd.CachedRefusal` | TSRM/tsrm_virtual_cwd.c:806-823 | a run of two calls that shows the refusal |
| `VirtualCwd.ReadTarget` | TSRM/tsrm_virtual_cwd.c:1036-1054 | the target is read into the buffer and spliced behind the link's directory, if it fits |
| `RealpathCache.Cache.Find` | TSRM/tsrm_virtual_cwd.c:680-706 | returns what Lookup says and leaves the chain that Swept says, size accounting included |
| `RealpathCache.LookupFindsNewest` | TSRM/tsrm_virtual_cwd.c:680-706 | the newest entry of exactly that path that has not expired, or none exactly when there is none |
| `RealpathCache.SweepKeepsUnexpired` | TSRM/tsrm_virtual_cwd.c:691-698 | only expired entries are unlinked, the order of the others stays |
| `RealpathCache.Cache.Del` | TSRM/tsrm_virtual_cwd.c:605-628 | unlinks the newest entry of the path only, and subtracts what it charges for it |
| `RealpathCache.Cache.Add` | TSRM/tsrm_virtual_cwd.c:630-677 | prepends an entry to the chain of its key when the size allows |
| `RealpathCache.AddedLives` | TSRM/tsrm_virtual_cwd.c:630-706 | an addition at t that fits is found up to t + ttl, and always when entries do not expire; after that, and when it does not fit, what is older; other paths are not concerned |
| `RealpathCache.DeletedGoes` | TSRM/tsrm_virtual_cwd.c:588-628 | a deletion leaves nothing to be found of its path if it had one entry, and other paths alone; cleaning leaves nothing |
| `RealpathCache.Cache.Clean` | TSRM/tsrm_virtual_cwd.c:588-602 | empties every chain, size 0 |
| `RealpathCache.SweepSound` | TSRM/tsrm_virtual_cwd.c:680-706 | lookups, deletions and expiries keep soundness, and hits are sound |
| `CacheSizes.CallKeepsExactly` | TSRM/tsrm_virtual_cwd.c:588-706 | a lookup, deletion, addition or cleaning leaves the size exact exactly when it was and no entry whose resolved path is its path is unlinked, or when it cleans |
| `CacheSizes.SizeIsExactly` | TSRM/tsrm_virtual_cwd.c:588-706 | over all runs from an empty cache |
| `CacheSizes.ExactKeepsLimit` | TSRM/tsrm_virtual_cwd.c:635-641 | on such runs the cache holds no more than its limit |
| `CacheSizes.LimitBreaksExactly` | TSRM/tsrm_virtual_cwd.c:635-641 | while there is room for another path, saving paths can carry the holdings past the limit exactly when the size is not exact |
| `CacheSizes.SaveAndDelete` | TSRM/tsrm_virtual_cwd.c:605-628 | saving and deleting "/a" leaves nothing and a size three bytes lower |
| `CacheSizes.HoldMoreThanLimit` | TSRM/tsrm_virtual_cwd.c:588-706 | a run after which the cache holds more than its limit, for every limit with room for one path |
| `Modules.ZendSortModules` | Zend/zend_API.c:1656-1688 | unless modules depend on each other in a circle it ends, with a permutation in which no unstarted module precedes one it requires or would like, reached by the code's own exchanges, each with the first later module that a module depends on; what is in order stays as it is |
| `Modules.OrderedMeans` | Zend/zend_API.c:1656-1688 | the order in plain words: no module that is not started comes before one whose name, without case, is in its required or optional dependencies |
| `Modules.OrderedStays` | Zend/zend_API.c:1656-1688 | no round of the sort changes a registry that is in order |
| `Modules.SameNameExactly` | Zend/zend_API.c:1671-1674 | names are the same exactly when they have the same letters, without case, in the same places |
| `Modules.OrderedIsAcyclic` | Zend/zend_API.c:1656-1688 | only such modules can be ordered so |
| `Modules.FindLater` | Zend/zend_API.c:1668-1682 | the inner loops find the first later dependency, by the order of the dependencies and then of the registry, or none exactly when there is none |
| `Modules.CollectModuleHandlers` | Zend/zend_API.c:1691-1731 | one allocation holds the forward startup table and the two backward tables, each NULL-terminated, without overlap, with just the modules that have the handler, each as often as it is registered |
| `Modules.FilterExactly` | Zend/zend_API.c:1694-1729 | which modules are in which table: those with a request startup, a request shutdown or a post-deactivate function |
| `Modules.ActivateModules` | Zend/zend_API.c:2270-2284 | calls the startup handlers of all modules that have one in registry order, up to the first failure |
| `Modules.DeactivateModules` | Zend/zend_API.c:2300-2319 | calls the shutdown handlers of all modules that have one in exact reverse order, by table or by registry |
| `Modules.CallsFollowDependencies` | Zend/zend_API.c:1691-1731 | after the sort startups follow dependencies and shutdowns precede them |
| `Tsrm.ResourceManager.AllocateId` | TSRM/TSRM.c:215-267 | every linked entry gets a cell for the new id; the table stays consistent |
| `Tsrm.ResourceManager.AllocateNewResource` | TSRM/TSRM.c:270-304 | a new entry in its thread's bucket with a cell for every id that is not done; the mutex is released |
| `Tsrm.ResourceManager.ResourceEx` | TSRM/TSRM.c:308-378 | by the local pointer or through the table: the entry of the wanted thread, which has exactly one afterwards; its cell is NULL exactly when the id is done; locks and unlocks balance; at most one recursion; local pointers stay attached exactly unless a thread makes another one's entry |
| `Tsrm.LocalIsLinked` | TSRM/TSRM.c:320-341 | an attached thread's fast path gives the one entry that the table has for it |
| `Tsrm.ResourceManager.FreeThread` | TSRM/TSRM.c:442-480 | the thread's entry goes, the others stay; every destructor is called once, for ids that are done with NULL; attached threads stay attached |
| `Tsrm.NullCalls` | TSRM/TSRM.c:456-460 | a destructor is called with NULL exactly for the ids that are done and have one |
| `Tsrm.ResourceManager.FreeWorkerThreads` | TSRM/TSRM.c:484-525 | of the other threads exactly those whose number is that of the current one modulo the table size lose their entries, with the calls of ts_free_thread for each and no others; exactly their local pointers dangle |
| `Tsrm.ResourceManager.FreeId` | TSRM/TSRM.c:530-560 | the cells of one id are destroyed everywhere, no destructor gets anything else, and the id is done |
| `Tsrm.ResourceManager.Shutdown` | TSRM/TSRM.c:165-198 | every cell that ever was in a linked entry has been given to its destructor exactly once, and no destructor is called with NULL |
| `Tsrm.AtMostOnce` | TSRM/TSRM.c:442-480 | at any time a cell has been destroyed at most once, and never while linked |
| `Tsrm.UnlinkOk` | TSRM/TSRM.c:466-470 | chains stay chains of their hash when an entry is unlinked |

## Left out

- HeapManager.ZendHeap.AllocInt: `heap->size` and the segment total are unbounded numbers; storage is assumed not to hand out 2^64 bytes in all. In a heap with a segment of 2 GiB or more only releases into smaller segments and what does not walk back are described.
- HeapManager.ZendHeap.Reset: the compaction of storage and the full shutdown are not modelled; they only hand memory back. A kept segment of 2 GiB or more is not described.
- LeakWalk.DebugHeap.CheckLeaks: takes it that the debug marks agree with the headers; the heap of the other modules is the release one and has none. It uses the header size of the release layout; the walk does not depend on it. The printing of leaks is not modelled, and the total does not wrap around at 2^32.
- VirtualCwd.CwdGlobals.VirtualFileEx: relative paths without a working directory (`start == 0`) and failing `realloc` are not modelled; a `readlink` that fills the whole buffer is excluded.
- RealpathCache.Cache.Add: `malloc` succeeds.
- Tsrm.ResourceManager.ResourceEx: each call is one step, so the fast path does not meet another thread's call half-way; a thread whose entry was freed by `ts_free_worker_threads` must not call it.
- Tsrm.ResourceManager.AllocateId: allocation succeeds; constructors have no effect here.
- Storage back ends, environment variables, cookies, magic numbers of the heap protection, and the move of the heap into its own memory.
- Windows and NetWare branches, and the file operations that wrap one resolution.
- Class cleanup handlers and static members in `zend_collect_module_handlers`, and the start and shutdown of single modules.
- Interpreter contexts of the resource manager that are not linked into the table.
