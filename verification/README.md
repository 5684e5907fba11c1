# Verified model of the linuse servers

A Dafny 4.11 model of the three stateful servers of the repository, and proofs about it.
`dafny verify dfyconfig.toml` checks the whole project.

- **MUSE** (`muse/`), the memory server: demand paging with an enhanced clock, and a first-fit
  heap allocator over it. `Pages`, `PageDiv`, `Clock`, `Paging`, `PageLife`, `FlatMemory`,
  `PageBatch`, `LateListing`, `HeaderWrites`, `FrameBits` are the paging; `Heap`, `Coalesce`,
  `StaleIndices` the heap; `Muse`, `MuseInvariant`, `PageFaults`, `MuseRuns`, `MuseStates`,
  `Headers`, `HeaderRuns`, `Segments` the requests, all on values; `MuseServer` is the server as a
  class.
- **SUSE** (`suse/`), the thread scheduler: `Sjf`, `Suse`, `SuseOps`, `SuseRuns`,
  `SuseStates`, `SuseEstimates`; class in `SuseServer`.
- **SAC** (`SAC-server/`), the block store of the file system: `Blocks`, `Sac`, `SacOwner`,
  `SacAlloc`, `SacFiles`, `SacAppend`, `SacCreate`, `SacUnlink`, `SacZeros`, `SacStates`, `SacRuns`,
  `SacLaws`; class in `SacServer`.

Each C handler is one atomic step. It appears twice: as a function on values (`Muse.Alloc`,
`SuseOps.Wait`, `Sac.Write`, ...), over which the theorems are stated, and as a method of a class
that runs the loops and updates of the C code in place and is proved to compute that function
(`ensures Vista() == ...`). The constructors `None`, `Caida`, `FUERA` and `FueraDeTabla` stand
for a null dereference or an access outside a table. Where the code goes wrong the model goes
wrong with it, and where a promised law then fails there is an exact condition for it. "Left out"
says where the model stops short of the code.

## What the proofs say about the code

MUSE

- Over any run of allocations, frees, copies, reads and header writes by any number of programs,
  as long as each request meets the condition under which it keeps the invariant (below),
  `muse_get` returns at each live address the byte last written there, through every fault and
  eviction (`ReadsLastWritten`). The last write is the client's copy unless a block header was
  written over it since.
- The header writes of `muse_alloc` are steps of the run after the allocation (`WholeAlloc`). Those
  of a new segment and of a free land where blocks start and harm nobody (`NewHeadersMiss`,
  `EnDirMisses`). The second header of a split goes to the offset of the first one: it lands on a
  block in use exactly when it is not cut and such a block is there, and a first header that is cut
  sends it past its frame (`SplitHeadersHit`). A growth whose new header starts a page writes the
  other header one page too early, into a block in use when one is there (`GrowHeadersHit`;
  `GrowHeaderHits` is a heap where it does).
- `muse_alloc` answers -1 exactly in four cases, and otherwise hands out the first free block with
  room (`AllocExact`); `muse_cpy` refuses exactly the addresses no used block holds (`CpyKeeps`).
- The victim search always succeeds (`ClockVictim`); `ClockChoice` says which frame it is. An
  eviction leaves its frame used and not modified, a free frame is handed out modified
  (`DesalojarKeeps`, `AsignarTakes`), so a page brought in by a read may or may not count as modified
  (`AccederBits`). The victim holds a page exactly when it is not
  a frame handed out to a page that no table has yet (`VictimHasPage`). That happens only while a
  new segment is made, whose pages are listed at the end: ownership is kept exactly when no frame
  is handed out twice to them (`CrearTardeExact`). A free frame for each page is enough
  (`MarcosRoom`); on an empty server it is also needed (`FreshExact`), so one page more than there
  are frames puts two pages in one frame (`LateListingShares`).
- `espacioDisponible` is not the free space: a page swapped in keeps its slot marked, and the
  slot is never given back. `SpaceLaw` is the exact account. Until the first swap-in it is the
  free space and there is a place for every page asked for (`NoSwapInNoCrash`); afterwards
  `pasarASwap` can dereference null although the space check passed. A copy or a read does that
  when more of its pages are in swap than there are places, and does not when none is; with no
  place free that is exact (`CpyCrash`, `GetCrash`).
- `indice` goes stale: a split inserts a block and does not renumber the ones after it
  (`SplitNumbered`). A split keeps the tiling exactly when the block's `indice` is its position
  (`SplitExact`), a growth when the last block's is (`GrowExact`). `HoleReuseBreaksNext` is the
  shortest way there. `merge` removes blocks by `indice` too: away from the tail one turn is right
  exactly when the block absorbed is numbered by its position (`PasoExact`), and `FreeRight` says
  exactly when a whole free is. After a hole is reused, freeing the block after the remainder
  removes the wrong block (`StaleFree`).
- The tail formula of `merge` is right exactly when the header of the last block ends before the
  end of its page (`TailExact`, `MergePass`, `FreeExact`); `TailFormulaFails` is a block list
  where it is not.
- A growth refused for want of space has already marked the last block used, and the heap no longer
  tiles (`RefusedGrowBreaks`, `AllocGrowFails`).
- A heap whose blocks are all freed is left with no blocks, and the next allocation dereferences
  null (`EmptiedHeapCrashes`).
- Pages created past the number of frames go straight to a swap slot that is not marked; the
  loop of a growth keeps ownership exactly when it creates at most one page more than there are
  frames (`CrearPaginasExact`).

SUSE

- Over every interleaving of the requests of many programs each live thread is in exactly the
  place its `estado` names, `programasEnMemoria` counts the READY, EXEC and BLOCKED threads and
  respects the cap, and each semaphore counts its waiters (`RunKeeps`). Waiters wake in the order
  they blocked (`SemaphoreRun`). The estimate of each live thread is the exponential average, from
  0, of its bursts (`EstimateRun`).
- A schedule request runs the earliest with the least estimate of the ready threads and, last of
  them, the one that ran (`PlanificarState`, `ScheduleChoosesShortest`). A signal runs the thread it
  wakes at once if its program is idle (`SignalKeeps`).
- For live threads the client rules are exact: a wait that would block a thread still in NEW
  (`WaitExact`), a second join of a thread or a join by a main thread blocked on a semaphore
  (`JoinExact`), and the close of a blocked thread (`CloseExact`) each break the invariant, and
  no other wait, join or close does.

SAC

- Over any run of creates, directories, appends and deletes, refused or not, the image holds
  exactly the bytes of each file and every set bit has one owner (`RunRefines`). Free blocks may
  hold anything, as on a disk made from random bytes and formatted (`FormattedRefines`). Chunk i
  reads back as appended, across pointer blocks (`ChunkReadsBack`).
- `allocate_node` does not clear a data block: past the end of a file, up to the end of its last
  block, a read returns what the block held before (`ReadExact`). Only on an image whose free
  blocks were zeroed is that zero, and then it stays so (`SacZeros`).
- An append reads back, whatever its bytes, exactly when the file ends on a block boundary:
  `sac_write` stores at the start of the block and not at the offset, and grows the file over the
  old bytes of the block (`AppendReadsBack`; `Ampliado` is what an append really leaves). So does a
  write inside a file, exactly when its offset is the start of a block (`OverwriteReadsBack`), but it
  too grows the file, past its blocks unless `OverwriteExact`'s condition holds.
- Create, any appends and unlink restore the bitmap bit for bit (`CreateAppendUnlink`). A create
  that finds fewer than two free blocks keeps its node, and loses a block exactly when there was
  one (`CreateFails`). Without a free node it writes before the node table.

## Model

| member | source | states |
|---|---|---|
| Pages.TechoIsCeiling | muse/src/utils.c:231-238 | `techo` is the least number of pages that hold the bytes |
| Pages.FramesHold | muse/src/utils.c:240-247 | the pages asked for hold the bytes, are at least one, and waste less than a page |
| Pages.FitsInside | muse/src/muse.c:950-1011 | a range fits the pages exactly when it ends inside the segment |
| PageDiv.PageOfIsDiv | muse/src/muse.c:896-926 | page and offset of an address are its quotient and remainder by the page size |
| PageDiv.CalcularFramesNecesarios | muse/src/utils.c:240-247 | the counting loop computes the ceiling, at least one |
| Clock.EachFrameOnce | muse/src/utils.c:421-444 | a full sweep visits every frame exactly once |
| Clock.FirstRankFindsFirst | muse/src/utils.c:421-476 | a sweep fails exactly when no frame qualifies, else stops at the first in circular order |
| Clock.FailedSweeps | muse/src/utils.c:421-476 | a failed sweep restores the pointer; (0,0) changes no bit, (0,1) clears all use bits and nothing else |
| Clock.ClockVictim | muse/src/utils.c:421-508 | the exact victim in each of the three cases, the use bits cleared, the pointer left, and that a victim always exists |
| Clock.ClockChoice | muse/src/utils.c:421-508 | the same in terms of the bits alone: the nearest frame of the best class there is, the bits of all others, and where the pointer stops |
| Clock.UsedVictimOnlyWhenAllUsed | muse/src/utils.c:478-508 | a used frame is evicted only if all were used |
| Clock.VictimKeepsOtherBits | muse/src/utils.c:421-508 | the search changes no occupied or modified bit |
| Paging.VictimHasPage | muse/src/utils.c:478-500 | the victim holds a page if and only if it is not a frame handed out to no page, and then only that frame is left as the search left it; eviction fails only without a slot |
| Paging.SacarKeeps | muse/src/utils.c:387-398 | moving a page to a slot keeps the bijection, the frame left free-standing |
| Paging.DesalojarKeeps | muse/src/utils.c:478-500 | an eviction keeps ownership and every page's bytes; the frame handed out is occupied, used and not modified, every other frame has the bits the search left, and the page that was there, alone, is now in the first free slot |
| Paging.AsignarFails | muse/src/utils.c:68-90 | a frame is refused exactly when every frame and slot is taken |
| Paging.AsignarKeeps | muse/src/utils.c:68-90 | a frame handed out is occupied, belongs to no page, and no page lost a byte |
| Paging.AccederKeeps | muse/src/utils.c:41-66 | a page access keeps ownership and all bytes, leaves the page resident and used, and fails only when all is taken |
| FrameBits.AsignarTakes | muse/src/utils.c:68-90 | a frame handed out is the first free one, used and modified, with nothing else changed; with none free it is the victim |
| FrameBits.AccederBits | muse/src/utils.c:41-68 | an access marks its frame used; a page brought into a free frame is modified, one brought in by an eviction is not; every other bit, the slots and the pointer |
| FrameBits.CopiarBits | muse/src/muse.c:969-1011 | a page a copy touches is left used and modified, and the other bits as its access left them |
| FrameBits.CpyTurns | muse/src/muse.c:969-1011 | a whole copy takes its pages in order, each marked used and modified in its turn |
| FrameBits.GetTurns | muse/src/muse.c:896-926 | a whole read accesses its pages in order and marks none modified |
| FrameBits.EstamparBits | muse/src/utils.c:293-313 | a header write leaves the bits as the access left them |
| FrameBits.AgregarBits | muse/src/muse.c:623-640 | a page made by a growth is resident, its frame used and modified, whether it was free or taken from a victim |
| FrameBits.MarcoTardeBits | muse/src/muse.c:366-377 | so is one made for a new segment |
| FlatMemory.StepWrites | muse/src/muse.c:969-1011 | one turn of the copy loop writes its part of the range and nothing else |
| FlatMemory.CpyWrites | muse/src/muse.c:969-1011 | a copy writes exactly its range in flat memory, whatever faults and evictions happen |
| FlatMemory.GetReads | muse/src/muse.c:896-926 | the page loop returns the pages' bytes in order and changes none |
| FlatMemory.GetReturns | muse/src/muse.c:896-926 | a read returns exactly the bytes at its range |
| PageLife.AsignarBalance | muse/src/utils.c:68-90 | a frame handed out costs exactly one free place and keeps the slot budget |
| PageLife.AccederBalance | muse/src/utils.c:41-66 | an access conserves places, a swap-in losing one for good |
| PageLife.BudgetLeavesSlot | muse/src/utils.c:378-398 | with at most as many evictions as slots, a free slot is always found |
| PageLife.AgregarKeeps | muse/src/muse.c:623-640 | a page added keeps ownership and all bytes, and fails only when all is taken |
| PageLife.DestruirBalance | muse/src/utils.c:196-205 | a destroyed page gives back exactly one place |
| PageLife.DestruirRecorta | muse/src/utils.c:196-205 | a destroyed last page frees its frame or slot and touches no other |
| PageLife.LiberarKeeps | muse/src/utils.c:328-347 | the release loop of `merge` frees exactly the places of the pages cut off |
| PageBatch.AgregarVariasKeeps | muse/src/muse.c:623-640 | n pages listed as they are made cost n places and fail exactly when there are fewer |
| PageBatch.PonerEnSwapBreaks | muse/src/muse.c:633-638 | a page put in swap without marking its slot breaks ownership |
| PageBatch.PonerEnSwapShape | muse/src/muse.c:633-638 | the pages past the frame count all name the first free slot, or none, and nothing else changes |
| PageBatch.CrearPaginasExact | muse/src/muse.c:623-640 | the creation loop of a growth keeps ownership exactly when it makes at most one page more than there are frames |
| PageBatch.CpyCost | muse/src/muse.c:969-1011 | a copy fails only for want of places, never with one a page touched |
| PageBatch.GetCost | muse/src/muse.c:896-926 | a read fails only for want of places, never with one a page touched |
| LateListing.CrearTardeExact | muse/src/muse.c:366-408 | making the pages of a new segment keeps ownership if and only if no frame is handed out twice; then each page costs one place and no old page changes |
| LateListing.MarcosFails | muse/src/muse.c:366-377 | it ends the server only if there are fewer free places than pages |
| LateListing.MarcosRoom | muse/src/muse.c:366-377 | with a free frame a page no frame is handed out twice |
| LateListing.FreshExact | muse/src/muse.c:366-408 | with every frame free, ownership is kept if and only if there are no more pages than frames |
| LateListing.LateListingShares | muse/src/muse.c:366-408 | one page more than frames puts two pages in one frame, where the loop of a growth would not |
| HeaderWrites.EstamparFails | muse/src/utils.c:293-313 | a header write ends the server if and only if its page is in swap and no place is free |
| HeaderWrites.EstamparKeeps | muse/src/utils.c:293-313 | otherwise it changes exactly its bytes, keeps ownership and costs at most one place |
| HeaderWrites.SustituirKeeps | muse/src/utils.c:293-313 | a header cut at a page boundary or not: exactly its bytes change, and ownership is kept |
| Heap.FirstFit | muse/src/utils.c:268-274 | the first free block with room, or none has it |
| Heap.ChainOrder | muse/src/estructuras.h:73-78 | blocks are in address order and do not overlap, headers included |
| Heap.UsedDisjoint | muse/src/estructuras.h:73-78 | payloads of different used blocks are disjoint and inside the segment |
| Heap.NewTiled | muse/src/muse.c:314-402 | a new segment's two blocks tile it, numbered and coalesced |
| Heap.SplitTiled | muse/src/muse.c:477-488 | inserting the remainder right after the block keeps the tiling |
| Heap.SplitUsados | muse/src/muse.c:477-488 | a split adds one used block and keeps the others |
| Heap.SplitKeeps | muse/src/muse.c:477-488 | a split keeps tiling, used blocks and free blocks apart; the new block lies inside the old free one |
| Heap.SplitExact | muse/src/muse.c:485-488 | a split keeps the tiling if and only if `indice` is the position |
| Heap.SplitNumbered | muse/src/muse.c:485-488 | numbering survives a split if and only if the block was the last |
| Heap.GrowIsSplit | muse/src/muse.c:600-686 | growth is a split of the lengthened last block |
| Heap.GrowRoom | muse/src/muse.c:608-619 | when nothing fits, the pages added have room for the block |
| Heap.GrowExact | muse/src/muse.c:600-686 | growth keeps the tiling if and only if the last `indice` is its position, then adds one used block |
| Heap.RefusedGrowBreaks | muse/src/muse.c:600-694 | a refused growth has marked the last block used and breaks the tiling |
| Coalesce.PasoCases | muse/src/utils.c:319-372 | the three outcomes of one turn of `merge` |
| Coalesce.AbsorbedUsados | muse/src/utils.c:349-364 | absorbing a free block keeps every used block |
| Coalesce.MergeCoalesces | muse/src/utils.c:315-374 | one pass leaves no adjacent free blocks, keeps used blocks, and leaves nothing if all was free |
| Coalesce.TailExact | muse/src/utils.c:350-350 | the tail formula is right if and only if the header ends before its page does |
| Coalesce.MergePass | muse/src/utils.c:315-374 | a pass releases only pages past the used bytes, and tiles again if and only if the tail formula fits |
| Coalesce.FreeKeeps | muse/src/muse.c:708-751 | with useful indices a free takes exactly one block out of use, coalesces, renumbers, and tiles if and only if the tail formula fits |
| Coalesce.FreeTail | muse/src/muse.c:708-751 | with useful indices, the exact heap a free leaves: which pages go, and the size of the last block |
| Coalesce.FreeExact | muse/src/muse.c:708-751 | from a numbered heap, free restores the tiling if and only if the tail formula fits |
| Coalesce.BuscarBloque | muse/src/muse.c:722-729 | the first block with this payload address, or none |
| Coalesce.RenumerarKeeps | muse/src/muse.c:743-746 | the renumbering loop numbers blocks by position and changes nothing else |
| Coalesce.HoleReuseBreaksNext | muse/src/muse.c:485-488 | after a hole is reused the next growth or last split breaks the tiling |
| Coalesce.TailFormulaFails | muse/src/utils.c:350-350 | a concrete heap on which free breaks the tiling |
| StaleIndices.PasoExact | muse/src/utils.c:361-371 | away from the tail, a turn of `merge` keeps the chain if and only if the block absorbed is numbered by its position |
| StaleIndices.TailSwap | muse/src/utils.c:334-360 | a run of three at the tail comes out right although its last block is numbered like the middle one |
| StaleIndices.FreeServes | muse/src/muse.c:708-751 | what a free does under those indices |
| StaleIndices.FreeServesTail | muse/src/muse.c:708-751 | the exact heap it leaves under those indices |
| StaleIndices.FreeRight | muse/src/muse.c:708-751 | whatever the indices, with another block in use a free leaves a tiled, coalesced heap without that block alone if and only if its guard holds |
| StaleIndices.StaleFree | muse/src/utils.c:361-371 | after a hole is split, freeing the used block after the remainder goes wrong unless it is the last one in use |
| MuseInvariant.AllocNuevoExact | muse/src/muse.c:314-411 | a new heap keeps the invariant if and only if no frame is handed out twice to its pages; its block is new; it crashes only with too few places, and never with a free frame a page |
| MuseInvariant.AllocSplitExact | muse/src/muse.c:419-490 | a cut keeps the server invariant if and only if the block is numbered by position, and its block is new |
| MuseInvariant.AllocGrowFails | muse/src/muse.c:600-694 | a refused growth has lost the invariant; it crashes only with too few places |
| MuseInvariant.AllocGrowExact | muse/src/muse.c:600-690 | a growth done keeps the invariant if and only if indices and page count allow |
| MuseInvariant.MergeMemKeeps | muse/src/utils.c:322-347 | page lists follow the block list through `merge` |
| MuseInvariant.LiberarExact | muse/src/muse.c:708-751 | under serving indices free removes one used block and keeps the invariant if and only if the tail formula fits |
| MuseInvariant.LiberarRight | muse/src/muse.c:708-751 | whatever the indices, with another block in use free removes that block alone and keeps the invariant if and only if its guard holds |
| MuseInvariant.LiberarKeepsLive | muse/src/muse.c:708-751 | every byte still in use survives a free |
| MuseInvariant.LiberarAnswers | muse/src/muse.c:708-734 | a free is refused if and only if no block has its payload at the address; no two blocks do |
| MuseStates.LiberarState | muse/src/muse.c:708-751 | whatever the indices, the blocks left are numbered, exactly the pages past the segment's new end go and the space grows by them; with serving indices, the exact heap; no other program changes |
| MuseInvariant.CpyKeeps | muse/src/muse.c:934-1051 | a copy is refused if and only if no used block of the program holds the address; one done writes exactly its range and keeps the invariant; it ends the server only past the segment or with fewer places than pages touched |
| MuseInvariant.GetKeeps | muse/src/muse.c:881-932 | a read is refused if and only if it starts outside the segment, copies nothing if and only if it only ends outside; otherwise it returns exactly the bytes and keeps every byte and the invariant |
| PageFaults.AccederFault | muse/src/utils.c:41-66 | an access takes a place if and only if it brings its page in, and brings in no other |
| PageFaults.CpyNeeds | muse/src/muse.c:969-1011 | a copy needs a place for each of its pages in swap, and none if none is |
| PageFaults.GetNeeds | muse/src/muse.c:896-926 | so does a read |
| PageFaults.CpyCrash | muse/src/muse.c:934-1051 | a copy into a block ends the server past the segment or with more pages in swap than places; inside the segment and with no place free, if and only if a page is in swap |
| PageFaults.GetCrash | muse/src/muse.c:881-932 | the same for a read |
| MuseInvariant.ConectarKeeps | muse/src/muse.c:22-60 | a new program, with no heap and no page, keeps the invariant and changes nothing else |
| MuseRuns.AllocExact | muse/src/muse.c:302-706 | `muse_alloc` answers -1 if and only if one of the four refusals holds; a free block with room, the first, is what it hands out; an answer keeps the invariant if and only if the state allowed it, and an address is a new block |
| MuseStates.AllocState | muse/src/muse.c:302-706 | the exact block list, size, space and address each branch leaves, whatever the indices, a refused growth included |
| MuseRuns.EmptiedHeapCrashes | muse/src/muse.c:600-600 | a heap emptied by frees ends the server at the next allocation |
| MuseRuns.CabeceraKeeps | muse/src/muse.c:434-475 | a header write keeps the invariant and sets the live bytes it covers |
| MuseRuns.HeaderMisses | muse/src/muse.c:434-475 | one that covers no live byte changes nothing a client reads |
| MuseRuns.PasoKeeps | muse/src/muse.c:302-1051 | one request or header write keeps the invariant and the flat memory |
| MuseRuns.RunKeeps | muse/src/muse.c:302-1051 | so does every run |
| MuseRuns.ReadsLastWritten | muse/src/muse.c:881-1051 | after any run each live address reads as last written, by a copy or by a header write that reached it |
| MuseRuns.InicialInv | muse/src/muse.c:209-261 | the server at start has the invariant |
| MuseRuns.SpaceLaw | muse/src/muse.c:211-211 | available space plus pages equals memory plus swap; free places are short by one page a swap-in |
| MuseRuns.NoSwapInNoCrash | muse/src/muse.c:305-640 | until a swap-in, the space check guarantees a place for every page of the request |
| Headers.EnDirMisses | muse/src/utils.c:293-313 | a header written where a block starts misses every block in use |
| Headers.NewHeadersMiss | muse/src/muse.c:356-405 | the headers of a new segment miss its block |
| Headers.NewHeadersCover | muse/src/muse.c:356-405 | the bytes the headers of a new segment cover |
| Headers.SplitHeadersHit | muse/src/muse.c:434-475 | when the headers of a split land on a block in use, and when one leaves its frame, both exactly |
| Headers.SplitHeadersCover | muse/src/muse.c:434-475 | the bytes the headers of a split cover |
| Headers.SamePageMisses | muse/src/muse.c:434-475 | they miss when both go in one page |
| Headers.GrowHeadersHit | muse/src/muse.c:649-685 | when the headers of a growth land on a block in use, exactly; they stay in their frames |
| Headers.GrowHeadersCover | muse/src/muse.c:649-685 | the bytes the headers of a growth cover |
| Headers.GrowHeaderHits | muse/src/muse.c:667-685 | a concrete heap on which one does |
| HeaderRuns.HeadersKeep | muse/src/muse.c:434-475 | header writes in a row keep the invariant, end the server only for want of a place each, and change no live byte unless they hit one |
| HeaderRuns.WholeAlloc | muse/src/muse.c:302-706 | an allocation with its header writes keeps the invariant and, when they hit nobody, every live byte |
| Segments.AplicarExact | muse/src/utils.c:284-290 | what each change does to each entry of the table, and that it does no more |
| Segments.AplicarKeeps | muse/src/utils.c:284-290 | each change keeps segments sorted and disjoint if it does not overflow 32 bits, and a new one only then |
| Segments.RunKeepsOrder | muse/src/utils.c:284-290 | so does every sequence of changes |
| Segments.ContieneIsRange | muse/src/utils.c:220-229 | the wrapping comparison is plain containment |
| Segments.UniqueOwner | muse/src/utils.c:32-39 | no address has two owners |
| Segments.LookupFindsOwner | muse/src/utils.c:220-229 | the lookup finds the unique owner or none |
| Segments.OwnerSurvives | muse/src/utils.c:284-290 | a new or grown segment takes no address from another |
| Segments.TablaSegmentos.SegmentoAlQuePertenece | muse/src/utils.c:32-39 | the scan is the lookup |
| Segments.TablaSegmentos.Agregar | muse/src/muse.c:406-408 | a new segment goes after the last and keeps the order |
| Segments.TablaSegmentos.Agrandar | muse/src/muse.c:615-615 | the last segment grows in place and keeps the order |
| Segments.TablaSegmentos.Encoger | muse/src/utils.c:341-347 | a heap shrinks in place and keeps the order |
| Segments.TablaSegmentos.Desmapear | muse/src/utils.c:149-188 | the first mapped segment with this base leaves the list |
| MuseServer.ServidorMuse.constructor | muse/src/muse.c:209-261 | the start state |
| MuseServer.ServidorMuse.BuscarBitLibreMemoria | muse/src/utils.c:76-90 | first free frame |
| MuseServer.ServidorMuse.BuscarBitLibreSwap | muse/src/utils.c:378-385 | first free slot |
| MuseServer.ServidorMuse.BuscarBit00 | muse/src/utils.c:421-444 | the two loops of the (0,0) sweep |
| MuseServer.ServidorMuse.BuscarBit01 | muse/src/utils.c:446-476 | the two loops of the (0,1) sweep, use bits cleared on the way |
| MuseServer.ServidorMuse.EjecutarSegundaVueltaClock | muse/src/utils.c:502-508 | the second round |
| MuseServer.ServidorMuse.BuscarVictima | muse/src/utils.c:478-490 | the four sweeps in order |
| MuseServer.ServidorMuse.BuscarPaginaSegunBit | muse/src/utils.c:400-419 | the scan over all pages; the last match wins |
| MuseServer.ServidorMuse.PasarASwap | muse/src/utils.c:387-398 | the byte copy to a free slot |
| MuseServer.ServidorMuse.EjecutarClockModificado | muse/src/utils.c:478-500 | eviction in place |
| MuseServer.ServidorMuse.AsignarMarcoNuevo | muse/src/utils.c:68-74 | free frame, else the victim |
| MuseServer.ServidorMuse.ObtenerPunteroAMarco | muse/src/utils.c:41-66 | page fault in place |
| MuseServer.ServidorMuse.MuseCpy | muse/src/muse.c:934-1051 | the copy loops in place |
| MuseServer.ServidorMuse.MuseGet | muse/src/muse.c:881-932 | the page loop in place |
| MuseServer.ServidorMuse.SustituirHeapMetadata | muse/src/utils.c:293-313 | a header write in place, cut in two at a page boundary |
| MuseServer.ServidorMuse.CrearPaginasDe | muse/src/muse.c:623-640 | the page-creation loop of a growth |
| MuseServer.ServidorMuse.CrearPaginasNuevas | muse/src/muse.c:366-408 | the loop of a new segment, with its own page list |
| MuseServer.ServidorMuse.DestruirPagina | muse/src/utils.c:196-205 | a page gives back its frame or slot |
| MuseServer.ServidorMuse.LiberarPaginas | muse/src/utils.c:328-340 | the release loop of `merge` |
| MuseServer.ServidorMuse.MergeSegmento | muse/src/utils.c:315-374 | the backward pass, blocks, pages and space together |
| MuseServer.ServidorMuse.RenumerarBloques | muse/src/muse.c:743-746 | the renumbering loop |
| MuseServer.ServidorMuse.MuseFree | muse/src/muse.c:708-751 | free in place |
| MuseServer.ServidorMuse.NuevoSegmento | muse/src/muse.c:314-411 | the branch that creates the heap |
| MuseServer.ServidorMuse.PartirBloque | muse/src/muse.c:419-490 | the branch that cuts a free block |
| MuseServer.ServidorMuse.Agrandar | muse/src/muse.c:598-690 | the branch that grows the last block, marked used before the space check |
| MuseServer.ServidorMuse.MuseAlloc | muse/src/muse.c:302-706 | the three branches of `muse_alloc` |
| Sjf.ClosedForm | suse/src/suse.c:172-174 | from any start, the exponential average in closed form |
| Sjf.NewThreadAverage | suse/src/suse.c:261-261 | from a new thread's 0, exactly the weighted sum of the bursts |
| Sjf.Forgetting | suse/src/suse.c:172-174 | two starting estimates differ by their gap times (1 - alpha)^n |
| Sjf.Bounded | suse/src/suse.c:172-174 | the estimate stays between 0 and the largest burst |
| Suse.MasCorto | suse/src/suse.c:80-88 | the nested-predicate scan returns the first thread no other beats |
| Suse.MasCortoFound | suse/src/suse.c:80-88 | on a non-empty list the search finds the earliest thread with the least estimate |
| SuseOps.ScheduleNextKeeps | suse/src/suse.c:269-285 | a dispatch keeps every invariant, loses no thread, and idles only on an empty ready list |
| SuseOps.ScheduleChoosesShortest | suse/src/suse.c:269-285 | chosen from are the ready list and, last, the running thread: the earliest with the least estimate runs, the others are ready in that order, and with nobody to choose nothing changes |
| SuseOps.CargarKeeps | suse/src/suse.c:175-184 | admission is FIFO and stops only at the cap or with no NEW thread |
| SuseStates.CargarState | suse/src/suse.c:175-184 | NEW threads are admitted from the front, each last in its program, as many as the cap allows; nothing else changes |
| SuseOps.MedirKeeps | suse/src/suse.c:412-416 | measuring a burst moves nobody |
| SuseOps.PlanificarKeeps | suse/src/suse.c:411-420 | a schedule request keeps the invariant, and idles only on an empty ready list |
| SuseStates.PlanificarState | suse/src/suse.c:411-420 | the whole state a schedule request leaves: measured, admitted, and dispatched from the ready threads, those just admitted and, last, the one that ran |
| SuseOps.CrearKeeps | suse/src/suse.c:252-268 | a fresh thread goes last in NEW, outside memory, with estimate 0; nothing else changes and every invariant holds |
| SuseRuns.WaitExact | suse/src/suse.c:286-310 | a wait keeps the invariant if and only if it does not block a NEW thread |
| SuseStates.WaitState | suse/src/suse.c:286-310 | the answer and the whole state of every wait |
| SuseRuns.DesbloquearIs | suse/src/suse.c:212-224 | waking into an idle program runs the thread at once |
| SuseRuns.SignalKeeps | suse/src/suse.c:311-327 | a signal keeps the invariant and wakes exactly the first waiter: it runs if its program had nobody running or ready, else goes last in its ready list; nothing else changes but the value |
| SuseRuns.JoinShape | suse/src/suse.c:376-387 | any join lists the thread last and leaves the main thread BLOCKED and in memory, nobody else moved in or out |
| SuseRuns.JoinKeeps | suse/src/suse.c:376-387 | a well-formed join keeps the invariant |
| SuseRuns.JoinExact | suse/src/suse.c:376-387 | a join keeps the invariant if and only if it is well-formed |
| SuseStates.JoinState | suse/src/suse.c:376-387 | the answer and the whole state of every join |
| SuseRuns.CloseExact | suse/src/suse.c:330-373 | a close keeps the invariant if and only if the thread is not BLOCKED |
| SuseStates.CloseState | suse/src/suse.c:330-373 | the answer and the whole state of every close, the main thread it wakes included |
| SuseRuns.ConectarKeeps | suse/src/suse.c:227-240 | a new program, empty, keeps the invariant and changes nothing else |
| SuseRuns.PasoKeeps | suse/src/suse.c:401-465 | one well-formed request keeps the invariant; only a join with no main thread dereferences null |
| SuseRuns.RunKeeps | suse/src/suse.c:401-465 | so does every interleaving of requests of all programs |
| SuseRuns.InicialInv | suse/src/suse.c:55-71 | the server at start has the invariant |
| SuseRuns.SemaforoPaso | suse/src/suse.c:286-327 | how one request changes the queue and value of one semaphore |
| SuseRuns.SemaphoreRun | suse/src/suse.c:286-327 | over a run waiters wake in the order they blocked, and the value is initial plus counted signals minus waits |
| SuseEstimates.EstimateRun | suse/src/suse.c:411-420 | after any run each live thread's estimate is the exponential average from 0 of the bursts it was measured with |
| SuseServer.ServidorSuse.constructor | suse/src/suse.c:55-71 | the start state |
| SuseServer.ServidorSuse.RemoverDeLista | suse/src/suse.c:150-157 | the scan removes the first occurrence |
| SuseServer.ServidorSuse.BuscarMasCorto | suse/src/suse.c:80-88 | the scan in a scan finds that thread |
| SuseServer.ServidorSuse.CargarHilosAReady | suse/src/suse.c:175-184 | the admission loop |
| SuseServer.ServidorSuse.SuseScheduleNext | suse/src/suse.c:269-285 | preempt and dispatch in place |
| SuseServer.ServidorSuse.MedirHilo | suse/src/suse.c:172-174 | the estimate of the running thread |
| SuseServer.ServidorSuse.AtenderScheduleNext | suse/src/suse.c:411-420 | measure, admit, dispatch; keeps the invariant |
| SuseServer.ServidorSuse.SuseCreate | suse/src/suse.c:252-268 | a thread is created; keeps the invariant |
| SuseServer.ServidorSuse.BloquearHilo | suse/src/suse.c:185-208 | the thread leaves the place of its state |
| SuseServer.ServidorSuse.SuseWait | suse/src/suse.c:286-310 | wait in place |
| SuseServer.ServidorSuse.DesbloquearHilo | suse/src/suse.c:212-224 | run at once or queue |
| SuseServer.ServidorSuse.SuseSignal | suse/src/suse.c:311-327 | signal in place |
| SuseServer.ServidorSuse.SuseJoin | suse/src/suse.c:376-387 | join in place |
| SuseServer.ServidorSuse.DesbloquearJoin | suse/src/suse.c:338-349 | the last joined thread to close wakes the main one |
| SuseServer.ServidorSuse.SuseClose | suse/src/suse.c:330-373 | close in place |
| Blocks.Ptr | SAC-server/src/nodes.h:63-65 | an entry is 0 exactly when its four bytes are |
| Blocks.SetPtrAt | SAC-server/src/nodes.h:63-65 | storing an entry sets it and no other |
| Blocks.AllZero | SAC-server/src/nodes.h:59-65 | a block is zeroed exactly when all its entries are |
| Sac.Posicion | SAC-server/src/nodes.c:105-112 | entry of the node and of the pointer block rebuild the offset |
| Sac.PrimerLibre | SAC-server/src/nodes.c:79-93 | the first clear bit, or none clear |
| Sac.LibresZero | SAC-server/src/nodes.c:95-103 | the count is 0 exactly when the search finds nothing |
| Sac.LibresSet | SAC-server/src/nodes.c:95-103 | one bit changed moves the count by one |
| Sac.NodoLibre | SAC-server/src/nodes.c:66-77 | the first unused node, or none |
| SacOwner.DistinctBlocks | SAC-server/src/nodes.c:118-143 | two references of live files never share a block, and its bit is set |
| SacOwner.EscribirKeeps | SAC-server/src/operations.c:184-184 | writing a data block changes no owner |
| SacAlloc.EnlazarKeeps | SAC-server/src/nodes.c:136-141 | a block linked into a row in use keeps one owner a block |
| SacAlloc.NuevaKeeps | SAC-server/src/nodes.c:127-141 | so does a new row |
| SacFiles.AllocateFails | SAC-server/src/nodes.c:118-143 | `allocate_node` fails if and only if too few blocks are free, and then changes nothing |
| SacFiles.AllocateKeeps | SAC-server/src/nodes.c:118-143 | otherwise the file has one block more, with what that block held, and no other chunk of any file changes |
| SacAppend.AppendExact | SAC-server/src/operations.c:148-193 | an append is refused if and only if blocks are short; else the file and what follows it in its block are exactly as `Ampliado` says, and no other file changes |
| SacStates.AppendSolo | SAC-server/src/operations.c:148-193 | an append changes no other record, and no block that is not of its file |
| SacStates.OverwriteExact | SAC-server/src/operations.c:148-193 | a write inside a file never fails, stores at the start of the block of its offset, grows the file all the same, and keeps the image whole if and only if the longer file fits its blocks |
| SacStates.OverwriteReadsBack | SAC-server/src/operations.c:148-193 | writes inside a file read back at their offset, whatever their bytes, if and only if the offset is the start of a block |
| SacAppend.AgregadoAligned | SAC-server/src/operations.c:176-185 | at a block boundary the file's bytes are the old ones followed by the new ones |
| SacAppend.AgregadoUnaligned | SAC-server/src/operations.c:184-185 | elsewhere a byte appended lands at the start of the block, and the file's new byte is the one that followed it |
| SacCreate.ReadExact | SAC-server/src/operations.c:311-354 | a read returns the file's bytes, past its end what its last block holds, one zero byte past its last block |
| SacCreate.PerdidoKeeps | SAC-server/src/operations.c:381-387 | a block reserved and linked to nothing is lost and harms no file |
| SacCreate.CreateWorks | SAC-server/src/operations.c:79-142 | with two free blocks a create makes an empty file, its first block zeroed, and touches no other |
| SacCreate.CreateFails | SAC-server/src/operations.c:96-121 | with fewer it keeps the node, and the bitmap is unchanged if and only if no block was free |
| SacStates.CreateState | SAC-server/src/operations.c:79-142 | each answer of a create with its exact condition, and all it leaves, a refused one included |
| SacUnlink.SinDatoKeeps | SAC-server/src/operations.c:210-223 | deleting one entry keeps one owner a block |
| SacUnlink.SinFilaKeeps | SAC-server/src/operations.c:224-227 | so does giving back an emptied pointer block, which is all zeros by then |
| SacUnlink.BorrarFilaKeeps | SAC-server/src/operations.c:210-223 | the inner loop deletes exactly the entries of its row |
| SacUnlink.BorrarFilasKeeps | SAC-server/src/operations.c:206-228 | the outer loop deletes exactly the rows of the file |
| SacUnlink.UnlinkExact | SAC-server/src/operations.c:271-286 | unlink always works, leaves the record empty but for its parent, clears exactly the bits of the file's blocks, zeroes those blocks and changes no other block, record or file |
| SacZeros.AppendCerosa | SAC-server/src/operations.c:148-193 | if free blocks and the ends of files hold zeros, an append keeps it so |
| SacZeros.CreateCerosa | SAC-server/src/operations.c:79-142 | so does a create |
| SacZeros.UnlinkCerosa | SAC-server/src/operations.c:200-286 | so does an unlink |
| SacZeros.ReadPadding | SAC-server/src/operations.c:311-354 | then a read past the end of a file, in its last block, returns zeros |
| SacRuns.AppendReadsBack | SAC-server/src/operations.c:148-193 | appends read back, whatever their bytes, if and only if the file ends on a block boundary |
| SacRuns.MkdirExact | SAC-server/src/operations.c:356-400 | a directory takes one node and loses one block, and is refused if and only if either is missing |
| SacStates.MkdirState | SAC-server/src/operations.c:356-400 | each answer of a mkdir with its exact condition, and all it leaves |
| SacRuns.PasoRefina | SAC-server/src/operations.c:79-286 | one request does to the image what it does to byte strings |
| SacRuns.RunRefines | SAC-server/src/operations.c:79-286 | so does every run, whatever free blocks hold; if they were zero they stay so |
| SacRuns.RunTotal | SAC-server/src/operations.c:79-286 | no request a run can take reaches outside the tables |
| SacRuns.ReadAfterRun | SAC-server/src/operations.c:311-354 | after any run a read returns the byte string, then what follows it in its block |
| SacRuns.FormattedRefines | SAC-server/resources/README.md:6-14 | a formatted image, its free blocks any bytes, holds no file and its tables own themselves |
| SacLaws.AppendsJoin | SAC-server/src/operations.c:148-193 | block appends leave their bytes one after another |
| SacLaws.ChunkReadsBack | SAC-server/src/operations.c:148-354 | chunk i reads back as the bytes appended as chunk i, across pointer blocks |
| SacLaws.CreateAppendUnlink | SAC-server/src/operations.c:79-286 | create, appends and unlink restore bitmap, owners and all other files |
| SacServer.ServidorSac.constructor | SAC-server/src/SAC-server.c:60-75 | the mounted image as it is; a formatted one is a start state of the runs |
| SacServer.ServidorSac.ReservarBloque | SAC-server/src/nodes.c:79-93 | the search that sets the bit it finds |
| SacServer.ServidorSac.BloquesLibres | SAC-server/src/nodes.c:95-103 | the count of clear bits |
| SacServer.ServidorSac.BuscarNodoLibre | SAC-server/src/nodes.c:66-77 | the scan of the node table |
| SacServer.ServidorSac.AllocateNode | SAC-server/src/nodes.c:118-143 | allocation in place |
| SacServer.ServidorSac.SacCreate | SAC-server/src/operations.c:79-142 | create in place |
| SacServer.ServidorSac.SacMkdir | SAC-server/src/operations.c:356-400 | mkdir in place, losing a block |
| SacServer.ServidorSac.SacWrite | SAC-server/src/operations.c:148-193 | write in place, at any offset below 2^31 |
| SacServer.ServidorSac.SacRead | SAC-server/src/operations.c:311-354 | read |
| SacServer.ServidorSac.BorrarEntradas | SAC-server/src/operations.c:210-223 | the inner loop |
| SacServer.ServidorSac.DeleteBlocks | SAC-server/src/operations.c:200-231 | the nested loops, blocks included |
| SacServer.ServidorSac.SacUnlink | SAC-server/src/operations.c:271-286 | unlink in place |

## Left out

MUSE

- StaleIndices.FreeRight: with no other block in use, a free through stale indices has no exact
  condition; `FreeServes` covers it when the indices serve.
- PageFaults.CpyCrash: between the two bounds a copy fails exactly when it brings in more pages
  than there are places, which depends on what it evicts on the way; exact with no place free.
- LateListing.CrearTardeExact: the condition is on the frames the clock hands out; in terms of
  counts it is exact only when every frame is free.
- Segments.AplicarKeeps: growth, shrinking and unmapping are shown to keep the order, not to need
  their conditions; only for a new segment is it an equivalence.
- PageBatch.CrearPaginasExact: a page past the frame count put in an unmarked slot is shown to
  break ownership; what later requests do with such a page is not followed.
- MuseInvariant.AllocNuevoExact: the request without its header writes; `WholeAlloc` adds them.
- MuseInvariant.AllocSplitExact: the same.
- MuseInvariant.AllocGrowExact: the same.
- MuseRuns.AllocExact: the same.
- MuseRuns.NoSwapInNoCrash: counts the pages of the request; a header write after it can still
  find its page in swap and no place free.
- MuseInvariant.LiberarExact: the request without its header writes, which are steps of their own
  anywhere in a run; the code makes them before and during the merge, so that one of them can end
  the server before pages are given back.
- MuseInvariant.LiberarKeepsLive: the same.
- MuseServer.ServidorMuse.MergeSegmento: without its header writes.
- MuseServer.ServidorMuse.MuseFree: without its header writes.
- MuseServer.ServidorMuse.NuevoSegmento: without its header writes.
- MuseServer.ServidorMuse.PartirBloque: without its header writes.
- MuseServer.ServidorMuse.Agrandar: without its header writes.
- MuseServer.ServidorMuse.MuseAlloc: without its header writes.
- HeaderRuns.WholeAlloc: the headers are written after the allocation, with any bytes; the code
  writes those of a split before it changes the block list. A header that leaves its frame
  (`muse/src/muse.c:474`) is excluded: what it writes into the next frame is not followed.
- MuseRuns.PasoKeeps: header writes are any writes that stay in one page, at any time; that the
  code makes exactly those of `Headers` is not a statement of the run.
- Mapped files: loading, sync, reference counts, unmap's file side. They appear only as ranges of
  the segment table. `muse_close` and `muse_unmap` are left out (neither returns space).
- `muse_alloc` after a mapped segment when space is short: the failure path sets no result. Each
  program has one heap segment, of base 0.
- 32-bit wrap-around of sizes and of `espacioDisponible` is outside the paging and heap model;
  `Segments` has it explicitly. `techo` works on exact quotients instead of doubles.
- Pointers to pages, bits and blocks are positions in their lists, so aliasing between list
  elements is not captured. The list library is not part of this model: `list_get` past the end is
  NULL and `list_add_in_index`, `list_remove` out of range do nothing.

SUSE

- Locking and pthread preemption: every handler is one step.
- Disconnection of a program (it does nothing to the threads), metrics and messages to clients.
- Thread ids are fresh, and estimates are reals instead of doubles.
- SuseServer.ServidorSuse.SuseSignal: a first waiter that was closed since ends the model with
  None, as a null dereference does; the code still has its record and queues it as READY.

SAC

- Path resolution, rename, rmdir, readdir, getattr and dates: handlers take the node, or the answer
  of path resolution, as a parameter. A create's half-made node has no name and cannot be reached.
- Sac.Write: the value model takes every offset, the theorems those inside a file and where it ends;
  holes have no theorem, and the writes of a run are appends.
- Truncate, and offsets of 2^31 or more, which lose bits in `get_position`.
- SacServer.ServidorSac.DeleteBlocks: deletion from offset 0 with blocks given back, as unlink asks
  for it.
- The formatter is not part of this model: a formatted image has its tables marked, its nodes
  unused with their entries 0, and anything in its data blocks.
- Block numbers are stored least significant byte first.
