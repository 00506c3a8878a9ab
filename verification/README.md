# Octiron kernel model

A Dafny model of the memory and boot-information core of Octiron, a small RISC-V kernel, with
proofs about it. The pieces compose as they do in the kernel: the slab supplies list nodes to the
physical memory manager, the manager supplies zeroed pages to the page-table mapper and the bump
allocator, and the device tree parser turns bytes into a tree and then decodes cell-encoded
properties.

Each operation exists twice. The modules `Pmm`, `Slab`, `Sv39`, `Bump`, `DtBuild` and so on give the
step it takes as a function on values, with the same branches, constants and 64-bit wrap-around as
the source. The classes and methods (`PmmObject`, `Slab.SlabAlloc`, `Sv39Object`, `BumpObject`,
`DtBlob.DeviceTree`, `DtPass.Rewriter`, `Stack.Stack`, the loops in `DtFill`, `DtCells`, `Endian`, `Printer`
and `StrView`) update state in place as the source does and are proved equal to those steps. The results are
lemmas about the steps, about whole runs of them, and about the tables and arrays they leave in memory.

The rewrite pass has its memory in the model: `DtPlace` puts each array where the bump allocator puts it,
with the reservation the code asks for; `DtArena` is byte memory, in which the loops of `DtFill` store;
`DtMemory` says which arrays the pass makes in which order, and what reading them back gives at its end.

The steps are also tied to something outside themselves. `Sv39Plain`, `PmmResults` and `BumpResults` say in
plain numbers which words, addresses and results a call gives, for all inputs; `Sv39Hardware` is the processor's
own address translation, run over the tables that the mapper builds; `DtNames` writes every property name
out in bytes; and `DtSample` is one blob, byte by byte, with the tables the parser makes of it.

A machine word is an integer in [0, 2^64); wrap-around is written out, and `&` and `|` are defined bit
by bit (`Num`). Sv39 follows sections 4.3.2 and 4.4 of the RISC-V Privileged Architecture, version 20211203;
the blob layout follows sections 5.4 and 5.5, and `status`, cells, `reg` and `ranges` sections 2.3.4, 2.3.5,
2.3.6 and 2.3.8, of the Devicetree Specification v0.4.

## Where the code departs from its evident intent

The model keeps the code as it is. For each departure a lemma says exactly when the result is still
right, and another gives a concrete input on which it is wrong.

- Page offset mask (kernel/src/riscv/sv39.cpp:60): exact by `Sv39Theorems.OffsetIff`; the intended mask by `Sv39Theorems.MeantOffset`; wrong in `Sv39Theorems.OffsetWitness`. Only the lookup in software is affected: the processor adds the whole offset, `Sv39Hardware.MapThenHardware`.
- Alignment test by 8 (kernel/src/riscv/sv39.cpp:13): a mapping leads to its page exactly under `Sv39Theorems.MappedPageIff`; wrong in `Sv39Theorems.UnalignedPageWitness`.
- Tail dropped after a two-sided split, no `continue` (kernel/src/pmm.cpp:150-165): exact by `PmmProofs.AlignedGrantIff`; wrong in `PmmCompare.TailLostAfterBoot`; the intended first fit is `PmmMeant`.
- Wrapping size of a region shorter than its padding (kernel/src/pmm.cpp:70-71): exact by `PmmRegions.AcceptedSpan`; wrong in `PmmCompare.ShortRegionWitness`.
- One-sided overlap test (kernel/src/pmm.cpp:80-82): exact by `PmmRegions.DisjointIff` and `PmmRegions.AddRegionIff`, and never wrong for regions in ascending order, `PmmRuns.AscendingIsSafe`; memory handed out twice in `PmmCompare.SwallowAfterBoot`; adjacent regions refused, `PmmRegions.AdjacentRefused`.
- Link of the sentinel behind the buffer (kernel/include/allocators/slab.h:43-50): exact by `Slab.SentinelInsideIff`; outside for every buffer of a whole number of blocks, such as the memory manager's own, `Slab.SentinelOutside`.
- New bump regions that are too small (kernel/src/allocators/bump.cpp:48-49, 80-81): exact by `BumpProofs.InsideIff`; a range that passes its region's end in `BumpWitness.OverfullAfterBoot`.
- `&nodes[0]` taken after the node stack may have moved (kernel/src/devices/device_tree.cpp:547-550): the record the pass starts from is then a copy whose list of children ends early, exact by `DtRoot.RootCompleteIff`, wrong in `DtRoot.RootIncompleteWitness`; and the children's parent links still lead to the original root, which keeps cell counts 0 and 0, so a `reg` below the root stops the kernel, exact by `DtMoved.RootComputesIff`, wrong in `DtMoved.RootStopsWitness`.
- Three-cell reads of 16 bytes (kernel/src/devices/device_tree.cpp:319): exact by `DtCells.ThreeCellsIff`, wrong in `DtCells.ThreeCellsWitness`.
- Parent addresses of `ranges` reserved with the child's size (kernel/src/devices/device_tree.cpp:229): with more parent than child cells they run into the size array behind them. For all columns: exact by `DtOverlap.RangesHeldIff` wherever the arrays are, and by `DtOverlap.RangesTogetherIff` in terms of cells and values when they are in one region; wrong in `DtWitness.BusWitness`.
- Views of `compatible` reserved with the size of a pointer each (kernel/src/devices/device_tree.cpp:362-363): the strings are safe from later allocations exactly when there is at most one, `DtStrings.StringsSafeIff`; the first half is always safe, `DtSurvive.StringsSurvive`; all of them when nothing follows, `DtSurvive.LastHolds`; wrong in `DtWitness.CompatWitness`.
- Both together, for a whole tree: decoded exactly under `DtMemory.RootDecodesIff`; never wrong without such properties, `DtSurvive.NarrowDecodes`; wrong after boot in `DtWitness.NotDecodedAfterBoot`.
- `status` values compared without their final NUL, and `fail-` five bytes too far on (kernel/src/devices/device_tree.cpp:380-398): the meaning of a value is found exactly under `DtStatus.StatusMeantIff`, never for one that has a meaning; nothing is set for such a value in a blob laid out as specified, `DtStatus.NeverSet`; `okay` in `DtStatus.OkayWitness`.
- Reservation loop that looks at its first entry again and again (kernel/src/devices/device_tree.cpp:490-493): left exactly when the list is empty, `DtBlob.ReserveIff`; never left for the blobs of `DtBlob.StuckWitness`.

## Model

| member | source | states |
|---|---|---|
| `Sv39Theorems.RunRefines` | kernel/src/riscv/sv39.cpp:10-50 | Over every sequence of calls from a zeroed root, for all addresses, pages and flags: the tables in memory are the finite map of mapped pages, every call returns what the map operation returns, pages drawn equal valid level-2 plus level-1 entries, and no other assigned word changes |
| `Sv39Theorems.MapOutcome` | kernel/src/riscv/sv39.cpp:13-49 | Each of the four outcomes occurs exactly under its condition on alignment, missing tables, free pages and an existing mapping; only success changes any translation, and by exactly one entry |
| `Sv39Theorems.MapRefines` | kernel/src/riscv/sv39.cpp:10-50 | One call from any reachable state refines the finite-map operation: tables stay a tree of disjoint owned pages, and words outside tables and free memory keep their value |
| `Sv39Map.EnsureRefines` | kernel/src/riscv/sv39.cpp:23-41 | Installing a missing table fails exactly when no page is free, and otherwise adds one empty table without changing any translation |
| `Sv39Theorems.AbsOutcome` | kernel/src/riscv/sv39.cpp:13-49 | The finite-map operation: outcome conditions, the one added entry, and conservation of pages plus tables |
| `Sv39Theorems.RootFromAlloc` | kernel/src/pmm.cpp:179-185 | A page fresh from the manager is a zeroed root that it will not hand out again |
| `Sv39Theorems.WalkResult` | kernel/src/riscv/sv39.cpp:52-85 | On such tables the walk faults exactly for unmapped pages, never meets a superpage, and falls off the loop exactly for a mapping without R, W and X |
| `Sv39Theorems.MapThenTranslate` | kernel/src/riscv/sv39.cpp:43-80 | After a successful call, for every page and flags, what each address of the page translates to: bits 3 to 5 of the page count as permissions, bits 6 to 11 are dropped, flags above bit 9 enter the page number, one offset bit is kept |
| `Sv39Plain.MapPlain` | kernel/src/riscv/sv39.cpp:15-47 | Which words a successful call leaves, in numbers: the entries eight bytes apart at the address's three indices in page-aligned tables, pointers in the upper two, page and flags in the last |
| `Sv39Plain.WalkPlain` | kernel/src/riscv/sv39.cpp:52-85 | virt_to_phys on any memory, superpages included: the three words it reads and its answer on each of them |
| `Sv39Plain.UnalignedIff` | kernel/src/riscv/sv39.cpp:13 | A call is refused as unaligned exactly when one of the two addresses is no multiple of 8 |
| `Sv39Hardware.RunTranslates` | kernel/src/riscv/sv39.cpp:10-50 | After every sequence of calls, for every canonical address: the processor's translation answers from the map of mapped pages and page-faults elsewhere |
| `Sv39Hardware.MapThenHardware` | kernel/src/riscv/sv39.cpp:10-50 | The processor translates every address of a newly mapped page to the requested page plus the full offset exactly when its permissions are legal for a leaf |
| `Sv39Theorems.MappedPageIff` | kernel/src/riscv/sv39.cpp:13-47 | That page is the requested one exactly when it is page-aligned and the high flags add nothing, so always for page-aligned pages and ten flag bits |
| `Sv39Theorems.UnalignedPageWitness` | kernel/src/riscv/sv39.cpp:13-47 | 0x8000_0008 mapped without permissions becomes the readable page 0x8000_0000 |
| `Sv39Theorems.OffsetIff` | kernel/src/riscv/sv39.cpp:60 | The written mask gives page plus offset exactly for offset 0 on a page whose lowest number bit is clear or already set in the physical page |
| `Sv39Theorems.MeantOffset` | kernel/src/riscv/sv39.cpp:60 | The mask PAGE_SIZE - 1 gives page plus offset for every address |
| `Sv39Theorems.OffsetWitness` | kernel/src/riscv/sv39.cpp:60 | A concrete address that the written mask translates wrongly |
| `Sv39Bits.EntryFields` | kernel/include/riscv/sv39.h:42-62 | An entry for a page-aligned page and ten flag bits decodes to the same page and flags |
| `Sv39Bits.EntryAddressIff` | kernel/include/riscv/sv39.h:42-48 | For all pages and flags: the page is recovered exactly when it is page-aligned and the flags above bit 9 add nothing to its number |
| `Sv39Bits.PlainEntryIff` | kernel/src/riscv/sv39.cpp:13 | With flags below 1024 the page is recovered exactly when it is page-aligned, which the alignment test does not ensure |
| `Sv39Bits.VpnIff` | kernel/src/riscv/sv39.cpp:17-21 | Two addresses share the three indices exactly when they agree on the 27-bit page number |
| `Sv39Object.EnsureTableAt` | kernel/src/riscv/sv39.cpp:25-31 | The in-place installation of a table is the step of the model |
| `Sv39Object.MapPage` | kernel/src/riscv/sv39.cpp:9-50 | The in-place map_small_page on physical memory and the memory manager is the step of the model |
| `Sv39Object.Translate` | kernel/src/riscv/sv39.cpp:52-85 | The walking loop computes the modelled walk |
| `PmmRuns.RunIsGood` | kernel/src/pmm.cpp:58-191 | Over every run with sound regions: invariant, pairwise disjoint grants that were available before and are not after, total bytes equal free bytes plus rounded grants |
| `PmmRuns.BootRun` | kernel/src/pmm.cpp:51-56 | From initialize on, such runs never fail an assertion, dereference null or reach the slab refill stop |
| `PmmRuns.BootNodes` | kernel/src/pmm.cpp:38-56 | The static buffer yields exactly 64 list nodes of 24 bytes, from behind a 32-byte header on, one after the other |
| `PmmRuns.AscendingIsSafe` | kernel/src/pmm.cpp:69-85 | Sound regions added in ascending base order never swallow one another, so such runs meet the condition of `PmmRuns.RunIsGood` |
| `PmmProofs.AllocServes` | kernel/src/pmm.cpp:113-206 | A page-aligned request fails exactly when no region has enough free bytes, and otherwise the lowest-index such region serves it from the front of its only block |
| `PmmProofs.AlignedGrantIff` | kernel/src/pmm.cpp:138-185 | For stricter alignments, all of them: served correctly exactly when the aligned range lies in the first large enough region's block and touches one of its ends; otherwise a lost tail, a null dereference, or, where the range wraps around 2^64, a grant outside the block |
| `PmmProofs.CarveSplit` | kernel/src/pmm.cpp:150-165 | A block split on both sides is granted, and exactly its tail is lost: counted as free and in no list |
| `PmmResults.AllocResults` | kernel/src/pmm.cpp:113-145 | Each failure of alloc_aligned, in any state, exactly by alignment, free bytes, slab nodes, policy and regions |
| `PmmResults.GrantAligned` | kernel/src/pmm.cpp:138-146 | Whatever is granted starts at a multiple of the alignment and of a page |
| `PmmProofs.CarveKeepsInv` | kernel/src/pmm.cpp:147-185 | Carving a range at an end of a block removes exactly that range from the available memory |
| `PmmProofs.RoundingCovers` | kernel/src/pmm.cpp:116 | The rounded size covers the request exactly when the rounding does not overflow |
| `PmmRegions.AddRegionIff` | kernel/src/pmm.cpp:58-103 | After an accepted region the manager is well formed exactly when the region does not pass 2^64, is as long as its padding, and swallows the start of no managed region |
| `PmmResults.AddResults` | kernel/src/pmm.cpp:58-103 | Each result of add_region exactly, in comparisons of the page-rounded base and size with the managed regions |
| `PmmResults.SoundRegionAdded` | kernel/src/pmm.cpp:58-103 | A sound region of at least a page is added exactly when fewer than 16 are managed and none has its page-rounded base inside or right behind it; its whole pages are recorded as one free block |
| `PmmRegions.AcceptedSpan` | kernel/src/pmm.cpp:69-76 | The recorded span is well formed and inside the given region exactly for sound arguments |
| `PmmRegions.DisjointIff` | kernel/src/pmm.cpp:79-85 | A span that passed the overlap test is disjoint from all regions exactly when it swallows the start of none |
| `PmmRegions.AdjacentRefused` | kernel/src/pmm.cpp:80-82 | A region that begins where a managed one ends is refused |
| `PmmRegions.AddKeepsAvailable` | kernel/src/pmm.cpp:87-101 | Adding a region changes no address's availability |
| `PmmCompare.WrittenIsMeant` | kernel/src/pmm.cpp:138-187 | On page-aligned requests the written allocator returns and leaves what intended first fit does |
| `PmmCompare.TailLostAfterBoot` | kernel/src/pmm.cpp:150-165 | A concrete run in which a split loses two pages and the next request dereferences null |
| `PmmCompare.ShortRegionWitness` | kernel/src/pmm.cpp:70-76 | One byte at 0x1001 is added to the empty manager as a region of 2^64 - 4096 bytes |
| `PmmCompare.SwallowAfterBoot` | kernel/src/pmm.cpp:79-85 | A concrete run in which a region that holds a managed one is accepted and the same page is granted twice |
| `PmmMeant.MeantAlloc` | kernel/src/pmm.cpp:138-190 | Intended first fit, every alignment: fails exactly when no free block holds an aligned range; otherwise takes the lowest aligned range of the first block that holds one in the first such region; lists stay sorted, disjoint, page-aligned and sum to the free bytes; exactly the granted range stops being free |
| `PmmObject.MemoryManager.constructor` | kernel/src/pmm.cpp:38-56 | The globals after initialize |
| `PmmObject.MemoryManager.Add` | kernel/src/pmm.cpp:58-103 | The in-place add_region is the step of the model |
| `PmmObject.MemoryManager.AllocateAligned` | kernel/src/pmm.cpp:113-191 | The in-place alloc_aligned is the step of the model, and after a grant of any size every word of its whole pages is zero and no other has changed |
| `PmmObject.GrantZeroed` | kernel/src/pmm.cpp:184 | The same about the step: a grant of any number of pages is zeroed and nothing else is written |
| `Slab.RunIsSafe` | kernel/include/allocators/slab.h:26-80 | Over runs of grow on distinct buffers and alloc, the free count is the sum of the regions' counts and no two blocks handed out overlap |
| `Slab.AllocNullIff` | kernel/include/allocators/slab.h:58-67 | alloc returns null exactly when no block is free |
| `Slab.AllocFresh` | kernel/include/allocators/slab.h:69-79 | One new block is handed out, overlapping no earlier block and no sentinel |
| `Slab.NewestFirst` | kernel/include/allocators/slab.h:38-79 | A new buffer is handed out block by block from behind its 32-byte header before any older one |
| `Slab.GrowKeepsInv` | kernel/include/allocators/slab.h:26-55 | A distinct buffer adds a chain in address order with one sentinel node |
| `Slab.SentinelInsideIff` | kernel/include/allocators/slab.h:43-50 | The link of the sentinel lies inside the buffer exactly when the blocks leave eight bytes of it |
| `Slab.SentinelOutside` | kernel/include/allocators/slab.h:43-50 | In a buffer of exactly n blocks it is written right behind the buffer |
| `Slab.ChainLength` | kernel/include/allocators/slab.h:43-50 | Following the links meets exactly the free blocks and then the sentinel |
| `Slab.UserWritesKeepInv` | kernel/include/allocators/slab.h:102-110 | Writes into handed-out blocks leave every free list intact |
| `Slab.SlabAlloc.AddBuffer` | kernel/include/allocators/slab.h:26-55 | The linking loop builds the chain of the model; a buffer is refused exactly when null, no multiple of 8 or too small for the header and one block |
| `Slab.SlabAlloc.Get` | kernel/include/allocators/slab.h:58-80 | The region scan and unlinking are the step of the model |
| `BumpProofs.RunApart` | kernel/src/allocators/bump.cpp:66-96 | Over any run of requests of at most a page aligned to at most a page, ranges are aligned, of the right size, inside one region behind its header, and pairwise disjoint |
| `BumpProofs.AllocAlignedServes` | kernel/src/allocators/bump.cpp:66-96 | An acceptable request gets an aligned range inside its region, behind the header and everything spent |
| `BumpResults.AddRegionResult` | kernel/src/allocators/bump.cpp:19-33 | A region is added exactly when some managed region has its size free, and begins with a 24-byte header |
| `BumpResults.FitsResult` | kernel/src/allocators/bump.cpp:66-96 | A request that ends inside the current region goes to its aligned pointer |
| `BumpResults.GrowsResult` | kernel/src/allocators/bump.cpp:78-95 | Any other request crashes exactly when no managed region has the whole pages of the excess and one more free, and else goes behind the header of such a region |
| `BumpResults.FirstResult` | kernel/src/allocators/bump.cpp:66-76 | An empty allocator starts with one page, and crashes exactly when no region has one |
| `BumpResults.NullIff` | kernel/src/allocators/bump.cpp:35-70 | Which requests get the null pointer |
| `BumpProofs.InsideIff` | kernel/src/allocators/bump.cpp:78-95 | The range ends inside its region exactly when the free tail or the new-region formula is enough |
| `BumpProofs.SmallFits` | kernel/src/allocators/bump.cpp:79-82 | Requests of at most a page aligned to at most a page always fit |
| `BumpProofs.UnalignedFits` | kernel/src/allocators/bump.cpp:47-49 | The unaligned formula is enough for a tail of at most a page less the header or a request of at most two pages less the header |
| `BumpProofs.AllocIsAligned` | kernel/src/allocators/bump.cpp:35-64 | Once a region exists the unaligned form is the aligned one with alignment 1 |
| `BumpProofs.TailUnspent` | kernel/src/allocators/bump.cpp:90-95 | From a range just handed out to the end of its region nothing was handed out before |
| `BumpWitness.OverfullAfterBoot` | kernel/src/allocators/bump.cpp:78-95 | Three requests from boot on, the last of which passes the end of its region by 4095 bytes |
| `BumpObject.BumpAllocator.Allocate` | kernel/src/allocators/bump.cpp:35-64 | The in-place alloc is the step of the model, null on an empty allocator |
| `BumpObject.BumpAllocator.AllocateAligned` | kernel/src/allocators/bump.cpp:66-96 | The in-place alloc_aligned is the step of the model |
| `Stack.PushCost` | kernel/include/types/stack.h:79-106 | n pushes from empty copy fewer than 3 * n * element-size bytes, and every element has room |
| `Stack.GrowIncreases` | kernel/include/types/stack.h:82-84 | Each growth adds at least a page and more than half the buffer, at most half of it and a page, and strictly more capacity |
| `Stack.RecoverBuffer` | kernel/include/types/stack.h:82 | Capacity times element size, rounded up to a page, is the buffer size for elements of at most a page |
| `Stack.FirstGrowthIff` | kernel/include/types/stack.h:82-84 | The first growth makes room exactly for elements of at most a page |
| `Stack.Stack.Grow` | kernel/include/types/stack.h:79-96 | Growing keeps all elements, moves them to the granted pages exactly when the stack was full, and fails exactly when those cannot be granted |
| `Stack.Stack.PushBack` | kernel/include/types/stack.h:98-106 | Pushing appends exactly the value, or nothing when growing fails |
| `DtBlob.ParseFlattened` | kernel/src/devices/device_tree.cpp:478-548 | Parsing a blob that holds a flattened tree, with NOPs anywhere, gives back the tree with property and sibling lists reversed, one forest of links, and a complete root record exactly when the root's last child is among the first 73 nodes |
| `DtBlob.BlobResults` | kernel/src/devices/device_tree.cpp:478-541 | For any bytes, in numbers: magic 0xD00DFEED, the first reservation, and where the token loop reads decide the result |
| `DtSample.Parses` | kernel/src/devices/device_tree.cpp:478-541 | A blob of 140 literal bytes with a NOP, three properties and a child gives exactly these node and property tables |
| `DtBlob.EveryState` | kernel/src/devices/device_tree.cpp:506-541 | On arbitrary bytes, at every point the loop reaches the offset is aligned and the tables are a forest |
| `DtBlob.LoopKeepsShape` | kernel/src/devices/device_tree.cpp:506-541 | On arbitrary bytes the alignment assertion holds throughout, and the loop ends normally only with a forest and all nodes closed |
| `DtBlob.ReserveIff` | kernel/src/devices/device_tree.cpp:489-493 | The reservation loop is left exactly when the list is empty; otherwise each turn pushes the first entry again |
| `DtBlob.StuckWitness` | kernel/src/devices/device_tree.cpp:489-493 | Blobs with one reservation on which the parser stays in that loop |
| `DtBlob.LoopRuns` | kernel/src/devices/device_tree.cpp:506-541 | The loop on laid-out tokens does what the tokens say |
| `DtTokens.LexEncode` | kernel/src/devices/device_tree.cpp:168-200 | Reading a laid-out token gives it back and stops right behind it |
| `DtTokens.LexWords` | kernel/src/devices/device_tree.cpp:168-200 | What is read at an offset, for any bytes, by its first word: 1, 2, 3, 4, 9 or any other |
| `DtTrees.BuildFlattened` | kernel/src/devices/device_tree.cpp:168-200 | The token switch on a flattened tree with NOPs leaves the mirrored tree at node 0 and no open node |
| `DtTrees.BuildTree` | kernel/src/devices/device_tree.cpp:168-200 | The tokens of any tree add one subtree at the head of the open node's children and change nothing else |
| `DtTrees.MirrorTwice` | kernel/src/devices/device_tree.cpp:178-198 | Mirroring is its own inverse |
| `DtTrees.RecordUnique` | kernel/src/devices/device_tree.cpp:131-147 | The links in memory determine the tree |
| `DtBuild.ApplyKeepsShape` | kernel/src/devices/device_tree.cpp:511-527 | Any token keeps parents before children, child and sibling lists exactly the nodes with that parent, and depth the length of the parent chain; null is dereferenced exactly for END_NODE or PROP outside a node |
| `DtBuild.ExecBalance` | kernel/src/devices/device_tree.cpp:512-535 | The current node is null exactly when BEGIN_NODE and END_NODE tokens balance |
| `DtRoot.RootCompleteIff` | kernel/src/devices/device_tree.cpp:547 | The record at &nodes[0] is the whole tree exactly when the root's last child is among the first 73 nodes |
| `DtRoot.RootIncompleteWitness` | kernel/include/types/stack.h:79-95 | A root with 73 leaves loses one |
| `DtBlob.DeviceTree.ParseNode` | kernel/src/devices/device_tree.cpp:168-182 | The in-place linking of a node is the step of the model |
| `DtBlob.DeviceTree.PreParseProperty` | kernel/src/devices/device_tree.cpp:184-200 | The in-place linking of a property is the step of the model |
| `DtBlob.DeviceTree.ParseTokens` | kernel/src/devices/device_tree.cpp:501-541 | The in-place token loop is the modelled loop |
| `DtRoot.FirstBuffer` | kernel/include/types/stack.h:82-84 | The first buffer of the node stack holds 73 nodes |
| `DtLayout.BuildLaid` | kernel/src/devices/device_tree.cpp:168-200 | The tokens of any tree number its nodes and properties consecutively, so that every subtree owns a range of each table |
| `DtMoved.RootLaid` | kernel/src/devices/device_tree.cpp:547 | For every tree, which part of it the pass reaches from the record at &nodes[0], where its records are, and that no node has cells yet |
| `DtMoved.RootComputesIff` | kernel/src/devices/device_tree.cpp:543-555 | parse_from_blob's pass computes the decoded tree exactly when the pass with sound parent links succeeds and either at most 73 nodes exist, or the root keeps all its children and none of them has a reg or a nonempty ranges |
| `DtMoved.RootStopsWitness` | kernel/src/devices/device_tree.cpp:289-294 | A concrete tree of 75 nodes with all values in order on which the pass stops at a reg below the root |
| `DtMemory.RootDecodesIff` | kernel/src/devices/device_tree.cpp:347-559 | A tree is decoded, arrays in memory included, exactly when moreover all arrays find room and no byte written beyond a reservation is a different byte of a later array |
| `DtMemory.RewriteDecodesIff` | kernel/src/devices/device_tree.cpp:347-470 | The same for the pass on any node with sound parent links |
| `DtMemory.MemoryHoldsIff` | kernel/src/devices/device_tree.cpp:286-371 | For any order of reg, ranges and compatible properties: after their loops all arrays read back as computed exactly under that condition |
| `DtPlace.HeldIff` | kernel/src/allocators/bump.cpp:66-96 | The same for arrays of bytes with any reservations, placed by the bump allocator |
| `DtPlace.ReservedSurvives` | kernel/src/allocators/bump.cpp:66-96 | A reserved byte keeps its value through everything written for other properties |
| `DtColumns.HeldIsData` | kernel/src/devices/device_tree.cpp:223-283 | Memory holds the bytes of a property's arrays exactly when loads of the element types give its numbers or views |
| `DtColumns.Requests` | kernel/src/devices/device_tree.cpp:228-299 | The bytes and alignments the pass asks for, for every property that gets arrays |
| `DtPlace.SmallPlaced` | kernel/src/allocators/bump.cpp:66-96 | An array of at most a page that keeps to its reservation is followed whenever the allocator finds memory |
| `DtSurvive.NarrowSurvives` | kernel/src/devices/device_tree.cpp:202-345 | After any pass every reg, and every ranges whose parent has no more address cells, reads back as computed |
| `DtSurvive.NarrowDecodes` | kernel/src/devices/device_tree.cpp:202-345 | Trees with only those are decoded whenever the pass succeeds, the root is usable and all arrays find room |
| `DtSurvive.StringsSurvive` | kernel/src/devices/device_tree.cpp:354-371 | After any pass the first half of the strings of a compatible property reads back |
| `DtSurvive.LastHolds` | kernel/src/devices/device_tree.cpp:354-371 | A compatible property allocated for last is whole, its closing empty view included |
| `DtStrings.StringsSafeIff` | kernel/src/devices/device_tree.cpp:362-370 | The strings of a compatible property survive every later allocation exactly when there is at most one |
| `DtOverlap.RangesHeldIff` | kernel/src/devices/device_tree.cpp:228-276 | After the loop of one ranges property its columns read back exactly when the parent has no more cells, there are no sizes, or every 32-bit word of a parent address that lies in the size array equals the word there |
| `DtOverlap.RangesTogetherIff` | kernel/src/devices/device_tree.cpp:228-276 | With one child and two parent cells in one region: exactly without sizes, or when the upper half of the parent addresses is, word for word, the sizes |
| `DtWitness.BusWitness` | kernel/src/devices/device_tree.cpp:229-230 | A bus with one address cell below a two-cell root, all values in order, whose parent address is overwritten |
| `DtWitness.CompatWitness` | kernel/src/devices/device_tree.cpp:362-370 | A root with two compatible strings and a child with a reg, whose address overwrites the length of the second string |
| `DtWitness.NotDecodedAfterBoot` | kernel/src/devices/device_tree.cpp:543-555 | Both, from boot on |
| `DtPass.ParseFromBlob` | kernel/src/devices/device_tree.cpp:501-559 | Token loop and pass in place: the result, what the links from the root record lead to, and that the arrays in memory read back as computed exactly when no two clash |
| `DtPass.Rewriter.RewriteNode` | kernel/src/devices/device_tree.cpp:347-470 | The three loops over linked properties and children overwrite exactly the subtree's records, its links then lead to the computed tree, and allocator and memory are those of its arrays in order |
| `DtPass.Rewriter.RewriteKids` | kernel/src/devices/device_tree.cpp:464-469 | The loop over linked siblings rewrites each of them and disturbs no other record; memory is that of their arrays in order |
| `DtPass.Rewriter.FirstLapOf` | kernel/src/devices/device_tree.cpp:352-451 | The first loop over linked properties is the modelled lap, reads only raw values, changes only the node's cells and its properties, and allocates and fills the arrays of compatible |
| `DtPass.Rewriter.SecondLapOf` | kernel/src/devices/device_tree.cpp:454-462 | The second loop over linked properties is the modelled lap, reads only values still raw, and allocates and fills the arrays of reg and ranges |
| `DtPass.Rewriter.PropertyRewriteReg` | kernel/src/devices/device_tree.cpp:286-345 | Assertions, two allocations and the loop: result, record, allocator and memory are those of the model |
| `DtPass.Rewriter.PropertyRewriteRanges` | kernel/src/devices/device_tree.cpp:202-284 | The same for ranges, with three allocations |
| `DtPass.Rewriter.RewriteCompatible` | kernel/src/devices/device_tree.cpp:353-371 | The same for compatible, with the reservation as written |
| `DtHeld.HoldsFrame` | kernel/src/devices/device_tree.cpp:464-469 | A decoded subtree depends on its own ranges of the two tables only |
| `DtRewrite.RewriteComputes` | kernel/src/devices/device_tree.cpp:347-470 | On success the values computed are right, by name: words, texts, flags and strings are those of the bytes, each node's reg is decoded with its parent's final cell counts and its ranges with both, whatever the order of properties |
| `DtRewrite.RewriteOutcome` | kernel/src/devices/device_tree.cpp:347-470 | The pass succeeds exactly when all values are readable, all reg and ranges pass the assertions and no node has too many cells; with values in order it errs exactly for too many cells |
| `DtRewrite.ParsedComputes` | kernel/src/devices/device_tree.cpp:347-470 | With sound parent links the pass on the parsed, mirrored tree computes the decoding of the original tree |
| `DtNames.KindNames` | kernel/src/devices/device_tree.cpp:353-451 | Which names, written as bytes, take which branch of the chain of comparisons, in both directions |
| `DtStatus.StatusIff` | kernel/src/devices/device_tree.cpp:380-398 | Each status by the bytes of the value and the five behind it, in both directions |
| `DtStatus.BehindDecides` | kernel/src/devices/device_tree.cpp:395-397 | The bytes behind a value decide about a value of five bytes only |
| `DtStatus.StatusMeantIff` | kernel/src/devices/device_tree.cpp:380-398 | A status has the meaning of its value exactly when the value has none and nothing is found for it |
| `DtStatus.NeverSet` | kernel/src/devices/device_tree.cpp:380-398 | In a blob laid out as specified no status with a meaning is ever set |
| `DtStatus.OkayWitness` | kernel/src/devices/device_tree.cpp:383-395 | `okay` with its NUL is not recognised |
| `DtCells.RegRoundTrip` | kernel/src/devices/device_tree.cpp:286-345 | Decoding a reg value and encoding it again gives back its bytes |
| `DtCells.RangesRoundTrip` | kernel/src/devices/device_tree.cpp:203-283 | The same for ranges |
| `DtCells.RegRowsPlain` | kernel/src/devices/device_tree.cpp:308-339 | Every row of a reg is the big-endian numbers at its place in the value |
| `DtCells.RangesRowsPlain` | kernel/src/devices/device_tree.cpp:232-276 | The same for ranges |
| `DtCells.RowsBack` | kernel/src/devices/device_tree.cpp:308-339 | Numbers that fit their cells are recovered from the encoded value |
| `DtCells.ThreeCellsIff` | kernel/src/devices/device_tree.cpp:318-320 | A three-cell address is right exactly when it and the word behind it are zero |
| `DtCells.ThreeCellsWitness` | kernel/src/devices/device_tree.cpp:318-320 | Address 1 followed by size 1 is read as 2^32 + 1 |
| `DtFill.FillReg` | kernel/src/devices/device_tree.cpp:308-339 | The loop stores exactly the decoded columns, row by row, wherever the two arrays are |
| `DtFill.FillRanges` | kernel/src/devices/device_tree.cpp:232-276 | The same for the three arrays of ranges |
| `DtCells.JoinStrings` | kernel/src/devices/device_tree.cpp:365-369 | Joining the strings of a compatible value with NULs gives it back |
| `DtCells.CountStrings` | kernel/src/devices/device_tree.cpp:355-360 | The counting and filling passes agree |
| `DtFill.FillViews` | kernel/src/devices/device_tree.cpp:365-370 | The loop stores one view per string of the value and an empty one |
| `Endian.Flip32Reverses` | kernel/include/types/number.h:93-98 | The 32-bit flip turns a little-endian read into the big-endian value |
| `Endian.Flip64Reverses` | kernel/include/types/number.h:100-107 | The same for 64 bits |
| `Endian.Flip128Reverses` | kernel/include/types/number.h:109-123 | The same for 128 bits |
| `Endian.FlipBytes` | kernel/include/types/number.h:109-123 | The loop over the union's bytes computes the 128-bit flip |
| `Endian.FlipInvolution` | kernel/include/types/number.h:93-123 | Flipping twice is the identity, for all three widths |
| `Num.BitByBit` | kernel/include/types/number.h:27-44 | Every bit of the defined and and or is that of the two bits |
| `Num.AlignUpValue` | kernel/include/types/number.h:27-31 | align_up gives the least multiple not below the value, and 0 on overflow |
| `Num.AlignDownValue` | kernel/include/types/number.h:40-44 | align_down removes the remainder |
| `Num.PowerOfTwoTest` | kernel/src/pmm.cpp:120 | The bit test recognises exactly the powers of two |
| `Memory.PhysicalMemory.Fill` | kernel/src/memory.cpp:4-11 | The loop zeroes the words of the range and no others |
| `StrView.CompareIsOrder` | kernel/include/types/str_view.h:115-126 | The sign of compare is dictionary order and zero means equal |
| `StrView.Transitive` | kernel/include/types/str_view.h:115-126 | compare is transitive |
| `StrView.CompareLoop` | kernel/include/types/str_view.h:115-126 | The loop computes a total order on byte strings |
| `StrView.Find` | kernel/include/types/str_view.h:104-113 | The first occurrence from the start index on, or the sentinel |
| `Printer.PrintBack` | kernel/include/fmt/printer.h:25-49 | The printed digits denote the value and have no leading zero |
| `Printer.FitsBuffer` | kernel/include/fmt/printer.h:35 | Every 64-bit value fits the digit buffer |
| `Printer.SignedBack` | kernel/include/fmt/printer.h:59-69 | Signed printing can be read back |
| `Printer.PrintUnsigned` | kernel/include/fmt/printer.h:25-49 | The two loops print the digits of the model |

## Left out

- DtPass.ParseFromBlob: stated for blobs that hold a flattened tree, properties before children; `DtBlob.DeviceTree.ParseTokens` covers arbitrary bytes up to the pass. The header and reservation tests, which such blobs pass, are in `DtBlob.ParseBlob`.
- DtBuild.Begin: nodes and properties keep their identity when a stack moves, because old buffers are never reused; only the copy at &nodes[0] is followed.
- DtPlace.PlaceColumn: a run in which the allocator fails, or in which an array passes the end of its region, is not followed further; the bump allocator's own results say when that is.
- DtColumns.ItemOf: arrays of three-cell addresses are asked for with an alignment that is no power of two and are not followed; `DtCells.ThreeCellsIff` says what each read yields.
- DtMemory.World: the addresses of the property values, to which views of strings point, are a parameter; values of other properties stay in the records and point into the blob.
- DtMemory.RootDecodesIff: byte memory holds the arrays; the headers of bump regions, the two tables and the blob lie elsewhere, and `BumpProofs.RunApart` keeps ranges off the headers.
- DtStrings.StringsSafeIff: about the strings; the empty view that ends the array is not safe from later allocations for any number of strings.
- DtRewrite.FirstStep: a value shorter than the word read from it, or a `compatible` value without a final NUL, ends the modelled run.
- DtStatus.StatusOf: a value of five bytes is decided by the bytes behind it, which `DtStatus.StatusRead` has as a parameter; an unset status keeps what lay in the record before, which is not followed.
- Sv39Hardware.Hardware: privilege modes and the accessed and dirty bits are not checked, and nothing is cached.
- Sv39Hardware.RunTranslates: for free memory below 2^56, the physical address space.
- Memory.PhysicalMemory.Fill: memory is a map of 64-bit words, filled word by word instead of byte by byte.
- Null result pointers of pmm::alloc_aligned, and the stack of error codes: a call returns success or one named failure.
- BumpProofs.HhdmOk: the higher-half mapping is a page-aligned constant with 4 GiB of room below 2^64.
- DtBlob.DeviceTree: allocations for the parser's two stacks and for the reservation list always succeed; `Stack.Stack.Grow` has the failure, which stops the kernel.
- PmmMeant.MeantAlloc: lists are sequences; the slab nodes that intended first fit would draw and give back, and the failures that could cause, are not modelled.
- Stack.NextBytes: sizes are unbounded; multiplying a buffer size by 3 would wrap only beyond a third of the address space.
- Printer.PrintSigned: negation is exact; the most negative value of a type is not treated specially. Zero goes to the same output as other digits.
- pmm::free, remove_region, slab free, the other allocation policies and grow_to_min_cap: stubs in the source.
- Installing superpages, current_page_table and control registers: nothing in the repository installs or uses them.
- UART, framebuffer, panic output, tree printing and Limine requests: device output and boot plumbing.
