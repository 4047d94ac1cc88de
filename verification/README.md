# IferrOS: proofs about the kernel heap, the page map and the FAT32 code

A Dafny model of four parts of the IferrOS kernel, with proofs of what they keep.

* **The heap** (`heap.c` on `paging.c`). A first-fit allocator over a doubly linked list of block
  headers that lie in the managed memory itself. It splits and joins blocks, claims runs of pages
  from a packed two-bit page map and gives whole pages back.
* **FAT32 files** (`fat.c`). Next-fit cluster allocation, the loop that writes a file and links its
  chain into a table that already holds others, the loop that reads it back, the chain walk of the
  directory listing. Entry values are those of the Microsoft FAT32 File System Specification,
  section "FAT Data Structure".
* **8.3 names and directory entries** (`fat.c`, `libc/stdlib.c`), section "FAT Directory Structure"
  of the same specification.
* **The keyboard's circular buffer** (`buffer.c`).

## How the model is laid out

| file | contents |
|---|---|
| `Machine.dfy` | word sizes, constants, 32-bit wrap-around |
| `PageTable.dfy`, `PageMap.dfy` | page states as a sequence; the packed map as a class over `array<bv8>` |
| `Layout.dfy` | the block list as a value, its edits, what each edit keeps |
| `ReleaseArithmetic.dfy` | the 32-bit arithmetic of `free_pages` and exactly where it goes wrong |
| `HeapModel.dfy`, `HeapRuns.dfy` | the allocator as functions on states; whole runs; refinement of a map |
| `HeapAlignment.dfy` | short runs after which `kfree` goes wrong, and a discipline under which it does not |
| `Memory.dfy`, `Heap.dfy` | headers as little-endian words in a byte array; the allocator in place |
| `FatTable.dfy`, `FileSystem.dfy` | the table, chains and their updates; the file system class |
| `ShortName.dfy`, `DirEntry.dfy` | names and entries as values; the code that fills and reads them |
| `CircularBuffer.dfy` | the buffer class and the bounded deque it stands for |

The code that changes things in place is modelled in place: class `Heap` has the fields of `mlist`
and a byte array of 2^32 elements in which headers are written word by word; `PageMap` and
`FileSystem` update arrays; `Buffer` has the fields of the C struct. Each method is proved against a
function on values (`Malloc`, `Free`, `Realloc`, `Claimed`, `Carve`, `Joined`, `Release`,
`FindRun`, `SetPages`, `NextFree`, `WriteTurns`, `Encode`, `Decode`, `Applied`), and the properties
below are proved about those functions.

`Heap.Valid` says that memory holds the list (`Memory.Linked`) and that the state is sound
(`HeapModel.Inv`): all block extents, headers included, are inside the heap area and pairwise
disjoint although the list is not in address order; every page a block touches is used; the low
4 MB can not be claimed; and the byte ledger is exact.

## What the proofs found in the code

The code is modelled as it stands. Where it does not do what it is for, the model says exactly when.

* **heap.c:253.** If the next page boundary lies less than a header past the block's address, the
  size of the front part wraps below zero. If the block starts in the last page of the address
  space, `page_start` wraps to 0. `ReleaseArithmetic.ReleaseCorrectIff` shows that releasing pages is
  correct exactly outside these two cases, for every block, and `HeapModel.FreedIffCorrect` that
  `kfree` of a live block goes through exactly then. Both cases are reached from boot:
  `HeapAlignment.SixCallsWrap` takes six calls to the first, `HeapAlignment.FourCallsFreeTheKernel`
  four to the second, where every page of the kernel is set free. `HeapAlignment.GrainRunHalts`
  shows that runs whose request sizes are all 8 modulo 32 meet neither, in `kfree` or in the `kfree`
  inside `krealloc`, unless the last page of the address space is in use. In the wrapped cases
  methods return `FreeWraps` (`Wraps` from `krealloc`) at the point where the kernel would go on with
  the wrapped value.
* **heap.c:222.** A request within a header of 2^32 wraps too. `HeapModel.RequestServedIff` shows
  that the block made of the claimed pages is in the heap area and has room for the request exactly
  when it does not wrap; otherwise it is a block at address 0 that spans all memory, or one of 4072
  bytes. `kmalloc` returns `Wraps` there, as `HeapAlignment.LargestRequestWraps` shows from boot.
* **heap.c:215.** Where the absorbed block was the tail, the store goes through a null pointer. It is
  modelled as the store to low memory that it is (`Memory.LowWriteKeepsPayloads`).
* **heap.c:255-266.** The part of a released block after its last page boundary leaves the list while
  its page stays used. The ghost counter `lost` grows by exactly that much, so the ledger is exact.
* **paging.c:53-62.** No range that `page_set_range` can be given reaches page 0xFFFFF, so that page
  is free after boot whatever the memory map says (`PageMap.PageMap.constructor`). A block that ends
  at 2^32 is never released, which is why `HeapModel.FreeUndoesMalloc` is an equivalence;
  `HeapAlignment.LastPageNotGivenBack` is a state where the other side holds, and
  `HeapAlignment.OnlyLastFreeAtBoot` a memory map that leads to it.
* **fat.c:101.** The mask keeps 24 bits, so the end of a chain is never recognised:
  `FatTable.MaskDecidesEnd`, `FatTable.ReadNeverEnds` and `FatTable.ReadRunsPast`. The round trip is proved with the 28 bits of
  a FAT32 entry, which is a deliberate departure from the code.
* **fat.c:179.** The result of `allocate_cluster` is not looked at. `WriteClusters` stops with
  `ok == false`, which it does exactly when there are too few free clusters;
  `FatTable.LinkToNothing` shows what the store at fat.c:199 would then do.

## Model

| member | source | states |
|---|---|---|
| `HeapRuns.RunFromBoot` | heap.c:20-268 | after any run of calls from boot, as far as it gets: blocks inside the heap area and pairwise disjoint, their pages used, no releasable page left in a free block, kernel and absent pages untouched, listed bytes plus lost bytes equal to the bytes of the used pages, every live payload between HEAP_START and 2^32, so no pointer is null |
| `HeapRuns.RunKeeps` | heap.c:32-268 | the same as an invariant kept by every run from every state that has it, up to the call that does not come back if there is one; kfree of a pointer to no listed block comes back only where memory does not read as used |
| `HeapRuns.StepRefines` | heap.c:32-137 | each call is a step of an abstract allocator, a map from payload address to size: kmalloc and kcalloc add one new range of size n to n + HSIZE, kfree removes the one it names if it is live, krealloc swaps one for one of size n to n + HSIZE where the old one is too small; ranges never meet |
| `HeapRuns.RunRefines` | heap.c:32-137 | every run, as far as it gets, is a run of that abstract allocator |
| `HeapRuns.UnnamedStays` | heap.c:32-137 | a call leaves every block in use as it is, address and size, but the one it names |
| `HeapRuns.ReallocRefines` | heap.c:78-106 | krealloc on a listed block keeps the heap sound; the result is the same block if that is large enough, and otherwise a new one of size n to n + HSIZE in place of the old payload; all other live payloads stay |
| `HeapRuns.ResizedIff` | heap.c:93-105 | a live block that is too small is replaced exactly when kmalloc succeeds and kfree of the old block then goes through |
| `HeapRuns.LiveApart` | heap.c:32-61 | disjoint blocks mean that live payloads are at least a header apart |
| `HeapModel.MallocRefines` | heap.c:32-61 | kmalloc keeps the invariant and adds exactly one payload, at a new address that is not null, of size between n and n + HSIZE |
| `HeapModel.MallocChoice` | heap.c:34-56 | in terms of free blocks and sizes alone: the block taken is the first free one in list order that is large enough; pages are claimed exactly when there is none, a run of exactly as many free ones as header and request need; it fails over the size exactly when that wraps, and otherwise only without such a block |
| `HeapModel.MallocTakes` | heap.c:37-46 | a free block that is large enough is enough: kmalloc succeeds with it or an earlier one and claims nothing |
| `HeapModel.MallocIsFirstFit` | heap.c:37-50 | no pages are claimed exactly when some free block is large enough, and then the first such block is taken |
| `HeapModel.MallocClaims` | heap.c:220-226 | where no block is large enough, any run of enough free pages makes kmalloc succeed with pages from there or below |
| `HeapModel.MallocList` | heap.c:49-56 | the whole list afterwards: the block taken is cut to exactly the size asked where more than a header would be left over, and given whole otherwise |
| `HeapModel.MallocTrimmed` | heap.c:52-54 | splitting and claiming leave no free block with a releasable page |
| `HeapModel.PageCountCovers` | heap.c:222-223 | the pages asked for cover request and header exactly when their sum does not wrap, and never one page too many |
| `HeapModel.FirstFit` | heap.c:37-46 | the first position whose block is free and large enough |
| `HeapModel.RequestServedIff` | heap.c:220-226 | the block made of the claimed pages lies in the heap area and has room for the request exactly when request and header do not wrap; what it is otherwise |
| `HeapModel.FreedIffCorrect` | heap.c:108-137 | kfree of a live block goes through exactly when what free_pages computes for the merged block is right |
| `HeapModel.FreeRefines` | heap.c:108-137 | kfree of a live block keeps the invariant and removes exactly that payload |
| `HeapModel.FreeReturnsOnlyItsPages` | heap.c:240-268 | only pages wholly inside the merged block change, from used to free; none of them holds a byte of a block still listed; the loss is the end of the merged block modulo the page size |
| `HeapModel.FreeExact` | heap.c:240-268 | the whole page map and list after a kfree that goes through: exactly the pages wholly inside the merged block are free, unless it ends at 2^32, and what is left of it is the part before the first of them |
| `HeapModel.ReleaseLedger` | heap.c:240-268 | a release keeps the ledger of bytes exact |
| `HeapModel.FreeTrimmed` | heap.c:108-137 | merging and releasing leave no free block with a releasable page |
| `HeapModel.JoinedCovers` | heap.c:120-134 | which neighbours are joined, where the merged block starts and ends, and that every other block keeps its place in the list |
| `HeapModel.FreeUndoesMalloc` | heap.c:32-137 | with no two list neighbours free and contiguous, kfree after kmalloc restores every block and the whole page map exactly when the block carved from stays clear of the end of the address space |
| `Layout.SplitBytes` | heap.c:179-198 | splitting moves no byte into or out of the list |
| `Layout.SplitSound` | heap.c:179-198 | splitting keeps blocks disjoint, in the heap area and on used pages |
| `Layout.MergeBytes` | heap.c:200-218 | merging moves no byte into or out of the list |
| `Layout.MergeSound` | heap.c:200-218 | merging adjacent blocks keeps them disjoint, in the heap area and on used pages |
| `ReleaseArithmetic.ReleaseCorrectIff` | heap.c:240-268 | the wrapping arithmetic frees only pages wholly inside the block, and leaves a front part that ends where they begin, exactly when the header does not straddle a page boundary and the address does not round up past 2^32 |
| `ReleaseArithmetic.SafeRelease` | heap.c:242-253 | outside those cases the wrapped values are the intended ones and the test fires exactly when a whole page is inside |
| `ReleaseArithmetic.ReleaseCanFail` | heap.c:253 | a concrete block whose front size wraps |
| `HeapAlignment.LargestRequestWraps` | heap.c:222-223 | a run from boot whose first request wraps |
| `HeapAlignment.SixCallsWrap` | heap.c:240-268 | the sixth call of a run from boot, a kfree, makes the front size wrap, and the release it computes is wrong |
| `HeapAlignment.FourCallsFreeTheKernel` | heap.c:240-268 | with only the last page free, the fourth call of a run from boot, a kfree, sets every page below HEAP_START free |
| `HeapAlignment.LastPageNotGivenBack` | heap.c:240-268 | with only the last page free, kfree after kmalloc does not restore the state |
| `HeapAlignment.OnlyLastFreeAtBoot` | paging.c:14-35 | a memory map after which only the last page is free |
| `HeapAlignment.ReallocOnGrain` | heap.c:78-106 | when every request makes header and payload a multiple of 32, the kfree inside krealloc wraps only with the last page in use |
| `HeapAlignment.GrainRunHalts` | heap.c:32-268 | a run of such requests comes to its end or stops for want of pages, at the one such size that wraps, at a pointer to no listed block, or when it frees with the last page in use |
| `Memory.ListWalk` | heap.h:12-31 | following next from head visits every block once, in list order, ending at tail; prev leads back |
| `Memory.BlockBytes` | heap.h:9-21 | size, state, next and previous pointer of a listed block, byte by byte, with the numbers of the two states |
| `Memory.SameList` | heap.h:12-31 | equal block lists mean equal head, tail, size and header words, so restoring the blocks restores every link |
| `Memory.StoreField` | heap.h:12-21 | a store to one header field changes that field and no byte outside the header |
| `Memory.SplitLinks` | heap.c:184-195 | the stores of memory_split leave the split list in memory |
| `Memory.SplitKeeps` | heap.c:184-195 | and change no byte of a live payload |
| `Memory.MergeLinks` | heap.c:208-215 | the stores of memory_merge leave the merged list in memory |
| `Memory.MergeKeeps` | heap.c:208-215 | and change no byte of a live payload, also when the last one goes through a null pointer |
| `Memory.LowWriteKeepsPayloads` | heap.c:215 | the store through a null pointer stays below the heap |
| `Memory.AppendLinks` | heap.c:227-235 | the stores of get_pages append the new block to the list |
| `Memory.UnlinkLinks` | heap.c:257-265 | the stores of free_pages take one block out of the list |
| `Memory.PayloadWrite` | heap.c:72-73 | a caller that writes inside its own payload disturbs neither the list nor another payload |
| `Memory.MovedKeeps` | heap.c:78-106 | allocate, copy, free: the bytes arrive and every other payload keeps its own |
| `Heap.Heap.constructor` | heap.c:20-26 | an empty list over the page map as booted |
| `Heap.StartKernel` | kernel/kernel.c:31-32 | after booting the heap is sound, empty and has lost nothing |
| `Heap.Heap.Kmalloc` | heap.c:32-61 | in memory, exactly `Malloc`; no pages are claimed exactly when some free block is large enough, and then the first such block is returned; no live payload byte changes |
| `Heap.Heap.CarveAt` | heap.c:53-58 | the block found is cut to size and marked used |
| `Heap.Heap.Kcalloc` | heap.c:63-76 | as kmalloc, and the first n payload bytes are 0 |
| `Heap.Heap.Krealloc` | heap.c:78-106 | in memory, exactly `Realloc`, for any listed block; the bytes of a live payload are at the new address and no other live payload changes |
| `Heap.Heap.CopyPayload` | heap.c:99-100 | the bytes of one payload arrive in another, all else is kept |
| `Heap.Heap.Kfree` | heap.c:108-137 | in memory, exactly `Free`; where the state word, at its 32-bit address, does not read as used nothing changes, be the block listed or not; no other live payload changes |
| `Heap.Heap.Serve` | heap.c:32-137 | each call in memory is the step of the model of runs, and changes no live payload but the one it names |
| `Heap.Heap.Perform` | heap.c:32-137 | a run of calls in memory goes through the states of the model; a payload that no call names keeps its place, size and bytes throughout |
| `Heap.Heap.KmallocThenKfree` | heap.c:32-137 | from a trimmed and coalesced heap away from the end of the address space, kmalloc and then kfree restore head, tail, size, every header, the page map and every live payload |
| `Heap.Heap.MergeNeighbours` | heap.c:120-134 | merge with the successor, then with the predecessor |
| `Heap.Heap.CreateBlockAt` | heap.c:169-177 | one header is written, nothing outside it |
| `Heap.Heap.Split` | heap.c:179-198 | the list is split or, where the source returns NULL, unchanged |
| `Heap.Heap.Merge` | heap.c:200-218 | the list is merged exactly when the two blocks are free and contiguous |
| `Heap.Heap.GetPages` | heap.c:220-238 | the lowest run of pages becomes a block at the tail; without one the kernel panics and nothing changes |
| `Heap.Heap.FreePages` | heap.c:240-268 | in memory, exactly `Release`, where the arithmetic does not wrap |
| `Heap.Heap.TakeOut` | heap.c:254-266 | the front part stays listed, the rest leaves the list |
| `PageMap.FieldOfWithField` | paging.c:116-123 | writing the two bits of one page is read back from them and changes no other page of the byte |
| `PageMap.FieldShifts` | paging.c:116-123 | the masks and shifts computed from the part number address exactly those bits |
| `PageMap.UnpackUpdate` | paging.c:108-124 | writing one field of the map changes that page and no other |
| `PageMap.MapByte` | paging.h:9-12 | which bits of a map byte belong to which of its four pages, and the number of each state |
| `PageMap.SameByte` | paging.h:9-12 | a map byte whose pages are all free, used, reserved or absent is 0x00, 0x55, 0xAA or 0xFF |
| `PageMap.PageMap.constructor` | paging.c:14-35 | a page is absent exactly when an unavailable entry covers it, low pages included, and otherwise reserved below HEAP_START and free above; reserved bytes are 0xAA; the last page is free |
| `PageMap.PageMap.SetRange` | paging.c:53-62 | sets exactly the pages from that of the start up to that of the wrapped end |
| `PageMap.PageMap.Claim` | paging.c:65-92 | the lowest run of count free pages becomes used and is returned; panics exactly when there is none; no other page changes; bytes wholly inside the run are 0x55 |
| `PageMap.PageMap.SetWithIndex` | paging.c:108-124 | changes the indexed page and no other; panics exactly for an index out of range |
| `PageMap.PageMap.GetAtIndex` | paging.c:127-142 | the number of the state last set |
| `PageTable.LowestRun` | paging.c:65-92 | the pages of the run found are free, and wherever there is a run one is found, there or below |
| `PageTable.FindRun` | paging.c:65-92 | the lowest start of a run, or none exactly when there is none |
| `FileSystem.FileSystem.WriteClusters` | fat.c:152-204 | succeeds exactly when there are enough free clusters; the new chain has max(1, ceil(len / cluster size)) distinct clusters, each the next free one going round from the hint or from the one before, and holds the data and then zeros; every other entry, cluster and file is unchanged; the table stays well formed; the free count falls by the length of the chain, and the hint ends just past it |
| `FileSystem.PickedIs` | fat.c:440-463 | cluster by cluster: no entry between the start of the search and the one taken was free and not yet taken; each is linked to the next and the last is 0x0FFFFFFF |
| `FileSystem.TurnsPick` | fat.c:178-203 | so it is after any number of turns of the write loop |
| `FileSystem.StoredByte` | fat.c:185-196 | each byte of each cluster of a stored file is the byte of the file at that place, or 0 past its end |
| `FileSystem.ContentsAt` | fat.c:129-145 | the clusters of a chain are laid end to end |
| `FileSystem.LoopBuilds` | fat.c:178-203 | the write loop as a function of table, disk, hint and data does that |
| `FileSystem.FileSystem.BuildChain` | fat.c:172-204 | the loop in place is that function |
| `FileSystem.FileSystem.WriteCluster` | fat.c:179-202 | one turn of the loop |
| `FileSystem.StoredKept` | fat.c:178-203 | building a chain leaves every stored file's chain and bytes as they were |
| `FileSystem.ClustersForIsCeiling` | fat.c:152-154 | the number of clusters is the least that holds the data, and at least one |
| `FileSystem.FileSystem.AllocateCluster` | fat.c:440-463 | the first free entry in circular order from the hint, marked and cleared; 0 exactly when none is free; the free count falls by one; the hint stays in the table |
| `FileSystem.FileSystem.CountFreeClusters` | fat.c:309-321 | the number of free entries |
| `FileSystem.FileSystem.CountClusters` | fat.c:287-296 | on a well-formed table the walk of the listing ends, panics exactly when the first cluster is free, and counts the clusters of the chain |
| `FileSystem.FileSystem.ReadFile` | fat.c:121-148 | the first size bytes of the clusters on the chain |
| `FileSystem.FileSystem.ReadBack` | fat.c:121-148 | a file written earlier reads back byte for byte, whatever else was written since |
| `FileSystem.FileSystem.GetNextClusterId` | fat.c:100-102 | on a 28-bit entry the step is the link itself, and the end test on it is that on the entry; on any entry it is the number below 2^28 that differs from it by a multiple of 2^28 |
| `FatTable.MaskDecidesEnd` | fat.c:100-102 | with the 24-bit mask the end test never succeeds; with 28 bits it succeeds exactly on end marks |
| `FatTable.ReadRunsPast` | fat.c:126-145 | with the 24-bit mask read_file follows a chain of clusters below 2^24 to its end and then goes on to one of the last eight numbers below 2^24 |
| `FatTable.ReadNeverEnds` | fat.c:129-145 | with the 24-bit mask the loop of read_file never sees an end of chain, in any table and from any cluster |
| `FatTable.LinkToNothing` | fat.c:178-203 | the unchecked result 0 of a full table marks the last cluster of the new chain free |
| `FatTable.WalkEnds` | fat.c:289-296 | in a well-formed table the walk from any cluster in use reaches an end mark over distinct clusters |
| `FatTable.ChainUnique` | fat.c:289-296 | there is one chain from a cluster |
| `FatTable.ChainsDisjoint` | fat.c:178-203 | chains of different files share no cluster |
| `FatTable.TakeWellFormed` | fat.c:440-463 | marking a free entry keeps the table well formed |
| `FatTable.LinkWellFormed` | fat.c:198-200 | linking the end of one chain to a one-cluster chain keeps it so, in particular acyclic |
| `FatTable.ExtendChain` | fat.c:178-203 | together they make the chain one cluster longer |
| `FatTable.NextFreeIff` | fat.c:440-463 | the search succeeds exactly when an entry is free, and no entry before the one found, in circular order, is |
| `FatTable.FreeCountUpdate` | fat.c:309-321 | how one store to the table moves the number of free entries |
| `ShortName.EncodeAt` | fat.c:481-531 | the eleven bytes one by one: upper case, padding with spaces, and the tilde form of a long name |
| `ShortName.ReadsBackAs` | fat.c:481-531 | what a reader gets for any name without spaces: a first part over eight is cut to six and "~1", an extension over three to three |
| `ShortName.DecodeIs` | fat.c:607-631 | what any eleven bytes stand for |
| `ShortName.EncodeStable` | fat.c:481-531 | decoding and encoding again gives the same name bytes exactly when spaces only pad |
| `ShortName.SpaceFreeStable` | fat.c:481-531 | so for every name without spaces, of any length |
| `ShortName.NameComesBackIff` | fat.c:607-631 | decoding gives the upper-case name back exactly when it fits 8.3 |
| `DirEntry.TrimSpaces` | libc/stdlib.c:72-78 | the first space among the bytes 0 to max becomes the end of the string |
| `DirEntry.TrimmedField` | fat.c:617-623 | a trimmed field, read as a C string, is the field up to its first space or NUL |
| `DirEntry.WriteFilename` | fat.c:481-531 | the first eleven bytes become the encoded name, the others stay |
| `DirEntry.ReadName` | fat.c:610-631 | the decoded name as a C string |
| `DirEntry.EntryFields` | fat.c:587-642 | which entries are passed over, and at which bytes of the others cluster and size are |
| `DirEntry.ReadUint16` | fat.c:364-367 | two bytes, the low one first |
| `DirEntry.ReadDirEntry` | fat.c:587-642 | read_dir_entry for one entry gives what it decodes to |
| `DirEntry.WriteFields` | fat.c:206-221 | attribute, and at which bytes cluster and size are stored; the name and all other bytes stay |
| `DirEntry.WriteFile` | fat.c:150-226 | the entry decodes to the name, attributes, first cluster and length; a new file is on disk and all earlier files stay; with a given first cluster nothing is allocated or written |
| `DirEntry.FetchFile` | fat.c:121-148 | from such an entry back to the name and the bytes |
| `DirEntry.WriteThenFetch` | fat.c:121-226 | a new file comes back through its directory entry byte for byte, and its name comes back in upper case exactly when it fits 8.3 |
| `CircularBuffer.PushesKeepNewest` | buffer.c:43-61 | after any run of pushes the buffer holds the last min(n, capacity) values in order |
| `CircularBuffer.FrontPops` | buffer.c:63-87 | k pops from the front leave all but the first k values |
| `CircularBuffer.BackPops` | buffer.c:89-113 | k pops from the back leave all but the last k values |
| `CircularBuffer.Buffer.FirstInFirstOut` | buffer.c:43-87 | pushes that fit, followed by as many front pops, return the oldest values first, in the order pushed |
| `CircularBuffer.Buffer.Perform` | buffer.c:43-113 | any run of the three operations leaves what it leaves in a bounded deque |
| `CircularBuffer.PushRing` | buffer.c:49-58 | a store and a step of the indices are a push on the deque |
| `CircularBuffer.PopFrontRing` | buffer.c:78-82 | a step of begin takes the front |
| `CircularBuffer.PopBackRing` | buffer.c:104-108 | a step of end takes the back |
| `CircularBuffer.Buffer.constructor` | buffer.c:26-34 | an empty buffer |
| `CircularBuffer.Buffer.Empty` | buffer.c:7-16 | 1 exactly for the empty deque, -1 for fields out of range |
| `CircularBuffer.Buffer.Full` | buffer.c:18-24 | 1 exactly for a deque at capacity, -1 for fields out of range |
| `CircularBuffer.Buffer.Push` | buffer.c:43-61 | a push on the bounded deque, dropping the oldest value when full; refused for fields out of range |
| `CircularBuffer.Buffer.TakeFront` | buffer.c:63-87 | takes the oldest value and leaves the others; the two error codes, which leave all |
| `CircularBuffer.Buffer.TakeBack` | buffer.c:89-113 | takes the newest value and leaves the others; the two error codes, which leave all |

## Left out

- FreePages: requires that the arithmetic does not wrap; what the kernel does with memory after a wrapped value is not modelled, the wrapped values themselves are.
- TakeOut: asks for a page start at least a header past the block, which is what `FreePages` has.
- Split: asks for room for the new header; the wrapped size of heap.c:253 is not passed on.
- Kfree: a pointer to no listed block is modelled where the word read as its state is not "used"; with stray bytes that read as "used" the kernel would treat them as a header, which is not modelled.
- Serve: asks for a call that does not take stray bytes for a header.
- Perform: likewise for the run, and makes the calls with nothing in between; that a caller's writes inside its own payload keep the list is `PayloadWrite`.
- FreeRefines: speaks of a kfree that goes through; `FreedIffCorrect` says exactly when it does.
- FreeReturnsOnlyItsPages: likewise.
- FreeTrimmed: likewise.
- RunKeeps: says nothing of what happens after a call that does not come back; `Halt` lists the four reasons.
- RunFromBoot: likewise.
- Krealloc: asks for a null pointer or a pointer to a listed block, live or not; the source reads whatever size precedes any other pointer.
- Kmalloc: stops with `Wraps` where the request wraps, where the source goes on with the block that `RequestServedIff` describes.
- Kcalloc: likewise.
- GetPages: asks for a request that does not wrap, for the same reason.
- FreeUndoesMalloc: assumes no two list neighbours that are free and contiguous; unlinking a released block can bring two such blocks together, so this is not an invariant of runs.
- GetNextClusterId: keeps 28 bits where the source keeps 24; see `MaskDecidesEnd`.
- ReadFile: uses that step; with the step of the source it would not end, see `ReadNeverEnds`.
- ReadBack: likewise.
- FetchFile: likewise.
- WriteCluster: stops when no cluster is free, where the source goes on with cluster 0, whose sectors lie before the data area and are not modelled; see `LinkToNothing` for the table.
- BuildChain: likewise.
- LoopBuilds: likewise.
- WriteClusters: likewise.
- CountClusters: asks for a well-formed table and a first cluster inside it that is not marked bad, and of a reserved first entry that it is an end mark.
- Table entries are asked to be below 2^28; entries whose reserved top four bits are set, which the source compares as they are, are not modelled.
- DecodeEntry: gives nothing for a long-name entry, where the source goes on to the next entry and sets all fields but the name.
- WriteFile: takes a directory slot as given, and stops when no cluster is free.
- The file name and line words of a header are written but their values are not tracked.
- The list size is a natural number; disjoint blocks keep it far below 2^32.
- A cluster is one element of the disk; sectors, the ATA driver and loading the table are not modelled.
- Directory slot search and growth, `mkdir`, `populate_dir`, the shell commands and all printing.
- Threads and `l_list.c`, whose scheduling does not do what its names say.
- Long file names, `checksum_fname`, `flushFAT` and `circular_buffer_destroy`, which are unfinished or unused.
- Interrupts: buffer and heap operations are taken as atomic.
- Null buffer pointers in `buffer.c`; the range checks on the fields are modelled.
