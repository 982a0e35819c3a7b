# PSL1GHT: verified models

This project models the parts of PSL1GHT whose correctness rests on state and arithmetic, and proves what they
promise. `dafny verify dfyconfig.toml` checks all of it with Dafny 4.11, and so does

    dafny verify dfyconfig.toml --resource-limit 2000000 --verification-time-limit 0 --warn-contradictory-assumptions

which bounds the effort by a count instead of by time.

| files | part of the system |
|---|---|
| `Heap*.dfy` | the boundary-tag heap of the PPU runtime: a chain of blocks and a free list kept in the same words of memory |
| `AtomicCells.dfy`, `Spu*.dfy` | atomic operations of several SPUs on 128-byte lines, and the splitter for large DMA transfers |
| `Rsx*.dfy`, `Morton.dfy`, `SwizzleAddress.dfy` | command emission for the graphics chip, and an interpreter of the emitted words |
| `Sbrk.dfy`, `SbrkAccounts.dfy` | the stack of mapped regions behind `sbrk` |
| `KeyCounter.dfy`, `Keystream.dfy`, `Npdrm.dfy`, `Package*.dfy` | the keystream and the layout of debug packages, and the block that is replaced in their programs |
| `Sfo*.dfy` | parameter files |
| `Words.dfy`, `Arith.dfy`, `Bits.dfy`, `Bytes.dfy`, `StructFormat.dfy` | word sizes, arithmetic, bitwise operators, byte strings, fixed layouts |

Machine words are integers with explicit wrap-around; memory is a map from word addresses to words (heap), a map from
lines to 32 words (SPUs), or a sequence of bytes. The heap's blocks exist twice: as words in memory, changed by the
same stores as in the C code, and as a picture (`blocks`, `free`, `live`) that the invariant ties to the words. The
graphics part gives emitted words a meaning of their own, a decoder and a chip that launches blits, so that splitting
can be compared with the one draw, upload or copy that was asked for.

Where the code does not do what one would expect, the code is modelled, and a lemma says exactly when it does:

- heap: the hypothesis that alignments are powers of two is not needed. An aligned request tries only the highest
  multiple in each block, so it can fail where a lower one fits: exactly when `HeapWords.AlignedFitMisses` says
  (`AlignedSearchMisses` is an instance).
  `__heap_block_prev` adds `prev_size` instead of subtracting it; it is called only from a branch that is never taken.
- `DrawVertexArray` and `DrawIndexArray` are right exactly as far as the 24-bit start field reaches;
  `LoadVertexProgramParameterBlock` multiplies its count by 4 in 32 bits.
- `SetTransferImage` writes formats for pixels of 2 and 4 bytes only, for the source of 4 bytes one that has no alpha
  value where it is written (`RsxImage.TileColours`), and pitches of more than 16 bits spill into
  other fields of their words. Its loops do not end when a rectangle ends in the last 1024 pixels below 2^32
  (`RsxImage.ImageReturnsWhen`).
- the swizzle formula has terms for twelve bits only. The loops of `SetConvertSwizzleFormat` do not end there either,
  nor when the rectangle reaches below the surface, nor on its linear branch, in `SetTransferData`, for one line or more
  (`RsxConvert.ConvertibleWhen`).
- the package writer plans too little room for a program that is cut off inside the block it replaces
  (`Package.PlannedPositions`, `CutOffProgram`), and looks for that block for ever when a digest block of another type
  has no size and says that one follows (`Npdrm.EndlessWhen`, `EndlessProgram`).
- `sbrk`: a mapping that is not adjacent is sized for the old tail to be used, but the tail is not used. Increments are
  read as signed 32-bit numbers (`SbrkAccounts.GrowExact`, `ShrinkExact`). Shrinking compares wrapping differences; in a
  space at 256 MB or higher they do not wrap (`SbrkAccounts.SpaceNeverWraps`).
- the C keystream sign-extends one byte of its counter, and so does `get_u64` in `tools/geohot/include/ps3_common.h`;
  the two undo each other in any case.
- compare-and-swap returns the value after its step: `compare` is never returned by a successful call unless it is
  the new value.


## Model

| member | source | states |
|---|---|---|
| `Heap.HeapControl.Init` | ppu/librt/heap.c:177-228 | fails, changing nothing, exactly when the area has no room for a header, a minimal block and the end sentinel; otherwise one free block of the returned size tiles the area and the invariant holds |
| `HeapSetup.RoomChecks` | ppu/librt/heap.c:18-35 | the three checks, done on wrapping words, refuse exactly the areas that are too small; no wrap slips past them |
| `HeapSetup.InitialInvariant` | ppu/librt/heap.c:198-218 | the words `heapInit` stores make up the invariant: blocks, flags, ring of free blocks, sentinel |
| `Heap.HeapControl.AllocateAligned` | ppu/librt/heap.c:230-264 | first fit, for any alignment: null exactly when no listed block fits, and then nothing changes; otherwise the chosen block is cut into free front, new block and free rest, which take its place in the list; the new block takes all that lies behind the front, exactly when less than a minimal block would be left behind what it needs, or the least page multiple that holds its header, its bytes and a minimal block; all invariants hold, the pointer is new, and no word of another live area changes |
| `Heap.HeapControl.Allocate` | ppu/librt/heap.c:266-269 | null exactly when every free block is smaller than size + header - bonus; otherwise the first large enough block is used from its front, all of it or the least page multiple that holds header, bytes and a minimal block |
| `Heap.HeapControl.Search` | ppu/librt/heap.c:242-256 | the loop finds the first block that fits, or none fits |
| `Heap.HeapControl.CheckBlock` | ppu/librt/heap.c:145-175 | rounding down twice on wrapping words gives the highest aligned place that leaves room, or 0 |
| `HeapWords.CandidateIsHighest` | ppu/librt/heap.c:154-164 | no higher multiple of the alignment fits into the block |
| `HeapWords.AlignedFitFails` | ppu/librt/heap.c:166-174 | a large enough block is refused exactly when the highest multiple leaves a front that is no block of its own |
| `HeapWords.AlignedFitMisses` | ppu/librt/heap.c:145-175 | of these refusals, exactly those are misses, with a servable multiple of the alignment in the block, where the highest multiple lies at least a page behind the first place and closer than a minimal block, and some multiple lies in the first page |
| `HeapWords.AlignedSearchMisses` | ppu/librt/heap.c:166-174 | so an aligned request can fail although a lower place in the same block would do: a concrete block |
| `HeapWords.FitProperties` | ppu/librt/heap.c:145-175 | a pointer given out is a multiple of the alignment, in the first page of its block, with an empty or minimal-size front and room behind it |
| `HeapWords.TakenSize` | ppu/librt/heap.c:37-78 | the split takes a page multiple, leaves nothing or at least a minimal block, and covers the request with the bonus word |
| `HeapWords.TakenIsLeast` | ppu/librt/heap.c:37-78 | it takes the whole block exactly when less than a minimal block would be left behind the larger of header plus request and a minimal block, and the least page multiple that is not smaller otherwise |
| `Heap.HeapControl.BlockSplit` | ppu/librt/heap.c:37-78 | the stores of a split, with and without a rest; the branch that merges with the next block is never taken |
| `Heap.HeapControl.BlockKeepFront` | ppu/librt/heap.c:86-110 | the stores that put the front back into the list; the branch that merges with the previous block is never taken |
| `Heap.HeapControl.BlockAllocate` | ppu/librt/heap.c:117-143 | either way of carving keeps the invariant with the new picture of the heap, and no word of a live area changes |
| `Heap.HeapControl.BlockAllocateFromBegin` | ppu/librt/heap.c:80-84 | the same, for carving from the front |
| `Heap.HeapControl.BlockAllocateFromEnd` | ppu/librt/heap.c:86-115 | the same, for carving behind a free front |
| `Heap.HeapControl.Free` | ppu/librt/heap.c:271-356 | succeeds exactly for null and for pointers into used blocks; a live pointer is gone afterwards; the block is one with the free ones beside it, at the place in the list of the one in front, of the one behind, or at the head; all others stay; the invariant holds |
| `Heap.HeapControl.FreeUsed` | ppu/librt/heap.c:304-352 | whichever neighbours are free, the block is merged with them, with the new picture of the heap stated, and all other live areas keep their words |
| `Heap.HeapControl.PrevBlock` | ppu/librt/heap.c:308-321 | `prev_size` leads to the free block in front; its two checks never refuse it |
| `Heap.HeapControl.FreeBetween` | ppu/librt/heap.c:323-331 | both neighbours free |
| `Heap.HeapControl.FreeBehind` | ppu/librt/heap.c:332-337 | the block in front free |
| `Heap.HeapControl.FreeBefore` | ppu/librt/heap.c:338-345 | the block behind free |
| `Heap.HeapControl.FreeAlone` | ppu/librt/heap.c:346-352 | no neighbour free |
| `Heap.HeapControl.BlockRemove` | ppu/librt/heap.inl:24-30 | the stores that take a node out of the ring |
| `Heap.HeapControl.BlockReplace` | ppu/librt/heap.inl:32-42 | the stores that put one node in the place of another |
| `Heap.HeapControl.BlockInsertAfter` | ppu/librt/heap.inl:44-53 | the stores that put a node behind another |
| `HeapRing.UnlinkKeepsRing` | ppu/librt/heap.inl:24-30 | the stores of a removal turn the ring of the free list into the ring without that node |
| `HeapRing.LinkAfterKeepsRing` | ppu/librt/heap.inl:44-53 | the stores of an insertion give the ring with the node in its place |
| `HeapRing.RelinkKeepsRing` | ppu/librt/heap.inl:32-42 | the stores of a replacement give the ring with the node exchanged |
| `HeapMoves.CarveWellFormed` | ppu/librt/heap.c:37-115 | cutting a free block keeps tiling, page-multiple sizes, flags and no two free neighbours |
| `HeapMoves.CarveLists` | ppu/librt/heap.c:117-141 | the list after a cut holds exactly the free blocks |
| `HeapMoves.ReleaseWellFormed` | ppu/librt/heap.c:304-352 | releasing a block, with merging, keeps tiling, sizes, flags and no two free neighbours |
| `HeapMoves.ReleaseLists` | ppu/librt/heap.c:323-352 | the list after a release holds exactly the free blocks |
| `HeapMoves.LiveAreasDisjoint` | ppu/librt/heap.c:230-264 | live areas, bonus words included, lie inside the heap and do not overlap |
| `HeapMoves.FullyCoalesced` | ppu/librt/heap.c:304-352 | with nothing live the heap is one free block of the initial size again |
| `HeapMoves.BytesAddUp` | ppu/librt/heap.c:198-218 | used and free bytes add up to the size of the heap |
| `HeapClients.LivePointer` | ppu/librt/heap.inl:97-100 | a live pointer leads back to the header of its own used block |
| `HeapClients.ClientStoreKeeps` | ppu/librt/heap.c:86-115 | a store into a live area, even into the next header's `prev_size` word, keeps the invariant |
| `HeapRuns.Run` | ppu/librt/heap.c:177-356 | every run of allocations, releases and client stores is a fold of the operations over states: each step does what its operation says to the heap and to the slots that hold pointers; at the end the heap is the last state, `live` is the held areas and the leaked ones, live areas are disjoint and hold what was stored, bytes add up; a client that started with nothing live, overwrote no slot in use and gave back every slot ends with one free block of the initial size |
| `HeapRuns.TakeStep` | ppu/librt/heap.c:230-264 | the slot holds the new pointer, with the outcome of the allocation for the picture, or nothing changes |
| `HeapRuns.GiveStep` | ppu/librt/heap.c:271-356 | the slot is empty and its pointer no longer live, with the outcome of the release for the picture |
| `HeapRuns.StoreStep` | ppu/librt/heap.c:86-115 | the slot remembers the word, when its area covers it, and the heap is as it was |
| `HeapRuns.TidyLeaksNothing` | ppu/librt/heap.c:177-356 | a run that overwrites no slot in use leaks nothing, and holds only slots that are open |
| `HeapRuns.TidyEnds` | ppu/librt/heap.c:304-352 | so after giving back every slot the heap is one free block again |
| `HeapRuns.OneOwner` | ppu/librt/heap.c:230-264 | no word holds bytes of two live areas |
| `HeapRuns.NextServed` | ppu/librt/heap.c:230-264 | after an allocation without alignment, the next request that fits behind any page multiple that would have been enough for the first is served |
| `HeapRuns.GivenServesNext` | ppu/librt/heap.c:323-352 | a block that is given back between two used ones serves the next request without alignment that it is large enough for, at the same place |
| `AtomicCells.AfterWords` | spu/libspuatomic/spu_atomic.c:3-131 | an operation gives its cell the new value and leaves the other words of the line alone |
| `AtomicCells.AfterObeys` | spu/libspuatomic/spu_atomic.c:3-409 | what every kind of call does to its cell and returns: sums and differences modulo 2^32 or 2^64, conjunctions and disjunctions of all bits, stores, compare-and-swap |
| `AtomicCells.CellPlace` | spu/libspuatomic/spu_atomic.c:3-25 | an aligned cell lies at its address |
| `AtomicCells.WideCell` | spu/libspuatomic/spu_atomic.c:25-45 | a 64-bit cell is two 32-bit cells, the high one first |
| `AtomicCells.AfterLeavesApart` | spu/libspuatomic/spu_atomic.c:3-131 | cells that share no word do not influence each other, for 32 and 64 bits |
| `AtomicCells.ReturnedBeforeOrAfter` | spu/libspuatomic/spu_atomic.c:87-131 | every operation returns the value before its step, but compare-and-swap, which returns the value after it in both outcomes |
| `SpuAtomic.SpusKept` | spu/libspuatomic/spu_atomic.c:9-19 | while a reservation holds, the line buffer is the line, or what the operation makes of it |
| `SpuAtomic.MemKept` | spu/libspuatomic/spu_atomic.c:9-19 | memory is always what the history of successful stores makes of it |
| `SpuAtomicRuns.Linearizable` | spu/libspuatomic/spu_atomic.c:3-409 | in every interleaving of any number of SPUs the history is a legal run of whole operations; every completed call is one of its steps, between its begin and its return, does to its cell what its kind of operation says, and returns the right result; steps respect the order of calls that do not overlap, and no step belongs to nobody |
| `SpuAtomicRuns.RetriesArePaidFor` | spu/libspuatomic/spu_atomic.c:9-19 | when reservations are lost to stores only, a call has failed at most as often as others have stored to its line |
| `SpuSemaphore.SemaphoreCounts` | spu/libspuatomic/spu_atomic.c:175-215 | along a legal history in which no single increment wraps, the cell is its first value plus increments minus successful decrements |
| `SpuSemaphore.SemaphoreSafe` | spu/libspuatomic/spu_atomic.c:365-409 | the same over every run of the machine, however long, for both widths, as long as no single increment wraps |
| `SpuCounter.CellCounts` | spu/libspuatomic/spu_atomic.c:3-409 | along a legal history in which a cell sees only additions, subtractions, steps up and down and tests, it holds its first value plus all that was added minus all that was subtracted, modulo 2^32 or 2^64 |
| `SpuCounter.RunCounts` | spu/libspuatomic/spu_atomic.c:3-409 | the same over every run of the machine |
| `RsxStream.MethodReads` | ppu/librsx/rsx_internal.h:18-19 | a header word decodes to its method and its count |
| `RsxStream.FixedMethodReads` | ppu/librsx/rsx_internal.h:18-19 | the same for a header whose method does not advance |
| `RsxStream.DecodeAppend` | ppu/librsx/rsx_internal.h:18-19 | decoding distributes over complete packets |
| `RsxDraw.VertexArrayCovers` | ppu/librsx/commands_impl.h:1271-1331 | the decoded batches draw start .. start+count once and in order exactly when count is not 0 and the last batch starts below 2^24 |
| `RsxDraw.DrawVertexArray` | ppu/librsx/commands_impl.h:1271-1331 | the words decode to the prologue, those batches and the end of the draw, and fill every reservation exactly |
| `RsxDraw.FullPacket` | ppu/librsx/commands_impl.h:1298-1323 | a packet of full batches, for any number of them up to 2047 |
| `RsxDrawing.VertexArrayDraws` | ppu/librsx/commands_impl.h:1271-1331 | decoded, the stream draws exactly the vertices asked for, in order, as primitives of the kind asked for and with the vertex cache invalidated before, if and only if there are any and the last batch starts below 2^24 |
| `RsxIndex.IndexArrayCovers` | ppu/librsx/commands_impl.h:1392-1470 | the batches draw 0 .. count once and in order exactly when count is at most 2^24 plus the length of the head batch |
| `RsxIndex.HeadBounds` | ppu/librsx/commands_impl.h:1397-1425 | the head batch takes what lies in front of the next 128-byte boundary if there is more behind it, and nothing otherwise |
| `RsxIndex.BatchesAligned` | ppu/librsx/commands_impl.h:1397-1462 | behind a head batch every batch starts on a 128-byte boundary |
| `RsxIndex.DrawIndexArray` | ppu/librsx/commands_impl.h:1392-1470 | the words decode to the set-up, those batches and the end of the draw, and fill every reservation exactly |
| `RsxIndex.FullIndexPackets` | ppu/librsx/commands_impl.h:1429-1442 | the packets of 2047 batches, and what is left |
| `RsxIndex.TailPacket` | ppu/librsx/commands_impl.h:1444-1462 | the last packet, with a short last batch |
| `RsxDrawing.IndexArrayDraws` | ppu/librsx/commands_impl.h:1392-1470 | decoded, the stream draws through exactly the elements 0 to count of the index array at the location and offset, of the size of its type, as primitives of the kind asked for, if and only if the part after the head has at most 2^24 indices |
| `RsxUpload.BlocksDecode` | ppu/librsx/commands_impl.h:709-743 | the packets put the values into consecutive constants, whatever was selected before |
| `RsxUpload.ParameterBlockLoads` | ppu/librsx/commands_impl.h:709-743 | all constants arrive exactly when there are fewer than 2^30 of them; beyond that only the excess is loaded |
| `RsxUpload.LoadVertexProgramParameterBlock` | ppu/librsx/commands_impl.h:709-743 | the words decode to those packets, and fill the reservation exactly when its size does not wrap |
| `RsxInline.InlineDecodes` | ppu/librsx/commands_impl.h:1477-1544 | the stream draws exactly the given indices, for odd and even counts |
| `RsxInline.DrawInlineIndexArray16` | ppu/librsx/commands_impl.h:1477-1544 | the words decode to that stream, and fill every reservation exactly |
| `RsxDrawing.InlineDraws` | ppu/librsx/commands_impl.h:1477-1540 | decoded, the stream draws exactly the given indices as primitives of the kind asked for |
| `RsxBlit.CutHits` | ppu/librsx/commands_impl.h:1957-1997 | cutting a span at multiples of 1024 loses and doubles nothing |
| `RsxBlit.CutInBlocks` | ppu/librsx/commands_impl.h:1957-1997 | every piece lies inside one aligned block of 1024 |
| `RsxBlit.GridCovers` | ppu/librsx/commands_impl.h:1957-1997 | the tiles of both loops cover the rectangle exactly once, and nothing else |
| `RsxImage.FormatsDecode` | ppu/librsx/commands_impl.h:1966-1979 | the surface and source formats written stand for the same pixel size exactly for pixels of 2 and 4 bytes, and then for that size |
| `RsxImage.TileColours` | ppu/librsx/commands_impl.h:1975-1979 | the formats written for 2 bytes are of the same colours; for 4 bytes the surface has an alpha value, and the number written for the source means that it has none |
| `RsxImage.TileCopies` | ppu/librsx/commands_impl.h:1971-1992 | the blit of a tile, read with the words it is given, copies exactly its pixels if these have 2 or 4 bytes and the source pitch leaves the other fields of its word alone, and nothing otherwise |
| `RsxImage.TileMoves` | ppu/librsx/commands_impl.h:1966-1991 | and each from its byte in the source to its byte in the destination, with pixel sizes and pitches as the words say, on exactly those lines that the pitches read leave in their places |
| `RsxImage.LinesRight` | ppu/librsx/commands_impl.h:1971-1991 | which are all lines of a block exactly when the pitch fits 16 bits |
| `RsxImage.ImageCopies` | ppu/librsx/commands_impl.h:1940-1998 | whatever was in the registers before, for every rectangle and every pitch, the stream launches one blit a tile; together they cover the rectangle once, and each does its part of the copy, for pixels of 2 or 4 bytes on exactly the lines just named, and for other sizes none; it reads and writes main memory exactly when bit 0 and bit 1 of the mode are set |
| `RsxImage.SetTransferImage` | ppu/librsx/commands_impl.h:1940-1998 | whenever the nested loops end, they emit that stream |
| `RsxImage.ImageReturnsWhen` | ppu/librsx/commands_impl.h:1957-1997 | they end if and only if the rectangle has no rows, or its bottom is not in the last block of 1024 below 2^32 and neither is its right end, unless it has no columns |
| `RsxImage.LoopEndsWhen` | ppu/librsx/commands_impl.h:1957-1997 | either loop reaches its end after some turn if and only if it has nothing to do or its end is not in that block |
| `RsxImage.LoopNeverEnds` | ppu/librsx/commands_impl.h:1957-1997 | there they do not end: every turn stays below the end |
| `RsxImage.NextSpan` | ppu/librsx/commands_impl.h:1957-1960 | below that block a turn advances to the end of the block or of the rectangle |
| `Morton.BlockAddress` | ppu/librsx/commands_impl.h:2192-2225 | the swizzled address of a texel is its block's address plus its address inside the block |
| `Morton.AddressBits` | ppu/librsx/commands_impl.h:2192-2212 | bit by bit: as far as both coordinates go, x has the even and y the odd bits, and the rest of the longer one follows |
| `Morton.AddressSplits` | ppu/librsx/commands_impl.h:2192-2212 | recursive interleaving is interleaving of the common bits with the rest above |
| `Morton.AddressInjective` | ppu/librsx/commands_impl.h:2192-2212 | swizzled addresses of different texels differ and stay inside the surface |
| `SwizzleAddress.OffsetIsAddress` | ppu/librsx/commands_impl.h:2192-2212 | the twelve masked and shifted pairs or-ed together are the swizzled address exactly when the shorter side has at most twelve bits, or the corner has nothing in the common bits beyond |
| `SwizzleAddress.OffsetFallsShort` | ppu/librsx/commands_impl.h:2192-2212 | otherwise they fall short of it, by less than 2^30 |
| `RsxSwizzle.SwizzleFormats` | ppu/librsx/commands_impl.h:2139-2152 | the swizzled surface and the source are written with formats of the same pixel size, which is the one asked for, and of the same colours |
| `RsxSwizzle.SwizzleTileMoves` | ppu/librsx/commands_impl.h:2187-2246 | the blit of a tile, with the pixel size and the dimensions read from the format word, puts each pixel at its swizzled address in the whole surface if the formula is right at the corner of its block, and none of them otherwise |
| `RsxSwizzle.SwizzleCopies` | ppu/librsx/commands_impl.h:2130-2250 | the blits of the stream cover the rectangle once, and each takes its pixels to their swizzled places exactly if its corner is good, from their places in the source on exactly the lines that the pitch read leaves there; it reads and writes main memory exactly when bit 0 and bit 1 of the mode are set |
| `RsxSwizzle.SmallSurface` | ppu/librsx/commands_impl.h:2192-2212 | it is right at the corners of all tiles when the shorter side has at most twelve bits |
| `RsxSwizzle.LargeSurfaceMisplaced` | ppu/librsx/commands_impl.h:2192-2212 | a corner where it is wrong: x = 4096 on a surface of 2^13 by 2^13 |
| `RsxSwizzle.ConvertBlocks` | ppu/librsx/commands_impl.h:2125-2250 | whenever the nested loops end, they emit that stream |
| `RsxSwizzle.EndsWhen` | ppu/librsx/commands_impl.h:2158-2248 | they end if and only if there are no rows, or the rectangle does not reach below the surface and has no columns or ends at least 1024 before 2^32, where all ends are wrapped words |
| `RsxSwizzle.RowsStopWhen` | ppu/librsx/commands_impl.h:2162-2172 | the outer loop reaches its end after some turn if and only if it has nothing to do or does not reach below the surface |
| `RsxSwizzle.ColumnsStopWhen` | ppu/librsx/commands_impl.h:2174-2185 | the inner loop if and only if it has nothing to do or does not end in the last block of 1024 below 2^32 |
| `RsxConvert.SetConvertSwizzleFormat` | ppu/librsx/commands_impl.h:2074-2257 | whenever the call returns, other pixel sizes than 2, 4, 8 and 16 bytes, and surfaces too small to be swizzled, emit nothing; for a rectangle inside a larger surface the words move every byte of every pixel once, in units of at most 4 bytes: from the same byte of the source pixel on exactly the lines that the pitch read leaves there, to its place on the swizzled surface exactly if the corner of its block is good, between the memories that the mode selects |
| `RsxConvert.ConvertibleWhen` | ppu/librsx/commands_impl.h:2074-2250 | it returns if and only if the pixel size is not converted, or there are no lines on a surface too small to be swizzled, or the loops over the blocks of a larger one end |
| `RsxConvert.TransferDataNeverReturns` | ppu/librsx/commands_impl.h:1826-1860 | the row loop of `SetTransferData` is taken for every pair of pitches, and its guard, an unsigned count that is not negative, holds in every turn |
| `SpuDma.LargeCmd` | spu/libspudma/spu_dma.c:3-20 | for every size: contiguous chunks of legal sizes that add up to the size, exactly counted and at most size/16384 + 5; from 16-aligned addresses every chunk is naturally aligned |
| `SpuDma.EachByteOnce` | spu/libspudma/spu_dma.c:3-20 | every byte is moved by exactly one command, at the same distance on both sides |
| `SpuDma.ChunkIsLargest` | spu/libspudma/spu_dma.c:7-13 | each chunk is the largest legal size that fits |
| `SpuDma.SelectChunk` | spu/libspudma/spu_dma.c:7-13 | the cascade of selections computes it |
| `SpuDma.OneCommandLess` | spu/libspudma/spu_dma.c:6-19 | each turn leaves exactly one command less to issue |
| `Sbrk.RegionStack.constructor` | ppu/librt/sbrk.c:65-77 | the stack begins with the entry that stands for no memory |
| `Sbrk.RegionStack.RegionListAppend` | ppu/librt/sbrk.c:38-51 | pushes the new region, or fails and changes nothing |
| `Sbrk.RegionStack.RegionListRemove` | ppu/librt/sbrk.c:53-63 | pops the topmost region, or fails and changes nothing |
| `Sbrk.RegionStack.Move` | ppu/librt/sbrk.c:102-188 | every call, with 32-bit truncation and pointer wrap-around, is the step of the model, whatever the kernel answers |
| `Sbrk.RegionStack.Raise` | ppu/librt/sbrk.c:111-147 | the growing half |
| `Sbrk.RegionStack.Lower` | ppu/librt/sbrk.c:148-182 | the shrinking half, with its loop |
| `Sbrk.CeilRoundsUp` | ppu/librt/sbrk.c:17-17 | the mask rounds up to the least multiple of 1 MB |
| `SbrkAccounts.GrowAccounts` | ppu/librt/sbrk.c:111-147 | a growth succeeds exactly when nothing is needed or everything is granted; then it hands out exactly `incr` bytes; they begin at the old break exactly when nothing was mapped or the mapping is adjacent |
| `SbrkAccounts.GrowKeeps` | ppu/librt/sbrk.c:111-147 | every break stays inside its region exactly when the mapping is adjacent or large enough on its own |
| `SbrkAccounts.DistantMappingTooSmall` | ppu/librt/sbrk.c:111-147 | a concrete distant mapping after which it does not |
| `SbrkAccounts.GrowRefused` | ppu/librt/sbrk.c:120-144 | a refused growth changes nothing, but an adjacent mapping without a list entry uses up the tail; the error is that of the first kernel call that refused |
| `SbrkAccounts.GrowHandsOut` | ppu/librt/sbrk.c:111-147 | every successful growth, for every increment of any size, hands out the increment read as a signed 32-bit number, or what wrap-around makes of that when it is negative |
| `SbrkAccounts.GrowExact` | ppu/librt/sbrk.c:111-147 | so it hands out exactly `incr` if and only if `incr` is below 2^31, or below 2^32, missing less than 2^31, with an adjacent mapping |
| `SbrkAccounts.CeilTooLarge` | ppu/librt/sbrk.c:17-17 | between 0x7fff0001 and 2^31 the rounded size is 2^31, which as a signed number is negative |
| `SbrkAccounts.HugeIncrementTruncated` | ppu/librt/sbrk.c:112-113 | 4 GB are truncated to nothing and reported as a success |
| `SbrkAccounts.ShrinkKeeps` | ppu/librt/sbrk.c:148-182 | whatever is asked for and answered, shrinking keeps the stack sound and touches its upper part only |
| `SbrkAccounts.ShrinkAccounts` | ppu/librt/sbrk.c:148-182 | a successful shrink takes back exactly that many bytes, for every amount that fits a signed word |
| `SbrkAccounts.ShrinkRefused` | ppu/librt/sbrk.c:147-171 | a shrink that fails for another reason than that there was not enough has given up regions from the top as often as the kernel agreed, and returns the error with which it refused the next |
| `SbrkAccounts.NegativeShrink` | ppu/librt/sbrk.c:148-182 | an amount that reads as negative raises the break into the tail of the topmost region, and if that is too short fails and empties the region |
| `SbrkAccounts.ShrinkTakesBack` | ppu/librt/sbrk.c:148-182 | every successful call with a negative increment, of any size, takes back what its negation reads as in 32 bits |
| `SbrkAccounts.ShrinkExact` | ppu/librt/sbrk.c:148-182 | so it takes back exactly what was asked for if and only if that is less than 2^31 |
| `SbrkAccounts.HugeDecrementTruncated` | ppu/librt/sbrk.c:148-149 | taking back 4 GB takes back nothing, and 5 bytes less hand out 5 |
| `SbrkAccounts.ShrinkSucceeds` | ppu/librt/sbrk.c:148-182 | with a willing kernel it succeeds exactly if that much is handed out and the comparison does not wrap at any region on the way, or, for a negative amount, if the tail is long enough; without a wrap a failure leaves nothing |
| `SbrkAccounts.SpaceNeverWraps` | ppu/librt/sbrk.c:72-72 | it never wraps for mappings in one reserved space of 256 MB that begins at 256 MB or higher, for up to 256 MB |
| `SbrkAccounts.GrowThenShrink` | ppu/librt/sbrk.c:111-182 | giving back what was just taken returns the address where it began, and restores the stack when the new region went with it |
| `SbrkAccounts.RunKeeps` | ppu/librt/sbrk.c:102-188 | over every run of suitable calls, failing ones included, the stack stays sound; if all succeed, the total is the sum of the increments |
| `KeyCounter.LoadMisreads` | tools/ps3py/crypt.c:8-15 | the eight bytes put together with one unwidened shift give the number, or all ones in its upper half when the lower half is negative |
| `KeyCounter.StepsRightMeans` | tools/ps3py/crypt.c:5-25 | so the counter steps right exactly when its lower word is below 2^31 or its upper word is all ones |
| `KeyCounter.PythonCounts` | tools/ps3py/pkg.py:207-228 | the Python code counts modulo 2^64 |
| `KeyCounter.ContextsUnaffected` | tools/ps3py/crypt.c:5-25 | the first n contexts of the C code are right exactly when n is at most 1, the lower word stays below 2^31, or the upper word is all ones |
| `Keystream.ManipulateC` | tools/ps3py/crypt.c:5-25 | the in-place step is that step |
| `Keystream.ManipulatePython` | tools/ps3py/pkg.py:207-216 | the in-place step of the reference |
| `Keystream.SetContextNum` | tools/ps3py/pkg.py:217-228 | eight bytes, highest first, by shifting and masking |
| `Keystream.KeyToContext` | tools/ps3py/pkg.py:188-203 | each half of the digest twice, and a counter of zero |
| `Keystream.PkgCrypt` | tools/ps3py/crypt.c:27-59 | byte i is xored with byte i%16 of the digest of context i/16, for every length with a partial last block |
| `Keystream.CryptReference` | tools/ps3py/pkg.py:231-250 | the same for the reference loop |
| `Keystream.CryptTwice` | tools/ps3py/crypt.c:41-53 | encryption undoes itself from the same context |
| `Keystream.VariantsAgree` | tools/ps3py/pkg.py:231-250 | C and Python agree on unaffected counters |
| `Keystream.VariantsDiffer` | tools/ps3py/crypt.c:5-25 | on affected ones there is a digest function that tells them apart |
| `Keystream.AgreeFromZero` | tools/ps3py/pkg.py:188-203 | from a fresh context they agree for every length below 2^31 |
| `Keystream.EncryptedByte` | tools/ps3py/crypt.c:27-59 | every bit of byte i is that of the data plus that of byte i mod 16 of the digest of the halves of the key, twice each, zeros, and i / 16 in eight bytes, modulo 2 |
| `Keystream.DecryptDebug` | tools/geohot/package_finalize.c:45-63 | the area the header names, rounded up to whole blocks, is xored in place with the keystream of the header's digest, and nothing else changes |
| `Keystream.FinalizeUndoes` | tools/geohot/package_finalize.c:57-63 | for a multiple of 16 bytes this gives the plain data back |
| `PackageFile.WritePackage` | tools/ps3py/pkg.py:421-538 | writes the one file its specification names, digests and replaced blocks included; otherwise it raises an error, or never ends, as the first file that is not fine decides |
| `PackageFile.WrittenWhen` | tools/ps3py/pkg.py:421-538 | a package is written if and only if the data is shorter than 2^31 bytes and for no file the search for the NPDRM block raises an error or never ends |
| `PackageDigests.MakeDigests` | tools/ps3py/pkg.py:492-533 | QA digest, licensee and the block behind the header are computed as declared |
| `PackageFile.PackageChecks` | tools/ps3py/pkg.py:516-533 | in every package written that block answers for the header and for itself: both digests are those of the bytes in front of them, and decrypting its ends gives one from the other, and zeros from that |
| `Npdrm.FindPatch` | tools/ps3py/pkg.py:448-465 | reading the structures decides as the bytes at their places say; what is too short is an error |
| `Npdrm.FindDigest` | tools/ps3py/pkg.py:453-463 | the loop over digest blocks ends as its turns do, one after the other |
| `Npdrm.FoundWhen` | tools/ps3py/pkg.py:453-463 | the loop finds a block if and only if it is of type 3 and a path of others, each saying that one follows, leads to it |
| `Npdrm.EndlessWhen` | tools/ps3py/pkg.py:453-463 | after every number of turns the loop is still running if and only if such a path comes to a block of another type that has no size and says that one follows |
| `Npdrm.EndlessProgram` | tools/ps3py/pkg.py:448-463 | a program of 0x90 bytes for which it never ends |
| `Npdrm.ReplacedWhen` | tools/ps3py/pkg.py:448-466 | a block is replaced if and only if the file begins as a signed program of application type 8 and the header leads to a block of type 3; it is what follows that block |
| `Npdrm.BuildMeta` | tools/ps3py/pkg.py:468-483 | the block that is put in: identifier, digest of the whole file, its complement and the masked complement |
| `Package.PackingAgain` | tools/ps3py/pkg.py:448-486 | a program whose header lies in front of the block is handled as before when it comes out of a package and is packed again: the same block is replaced, and nothing else changes |
| `PackageFile.PlaceNames` | tools/ps3py/pkg.py:426-430 | the first pass gives every name its offset |
| `PackageFile.PlaceContents` | tools/ps3py/pkg.py:431-434 | the second pass gives every file its offset and writes the descriptors; it fails if and only if a number of a descriptor does not fit |
| `PackageFile.AppendNames` | tools/ps3py/pkg.py:435-438 | the names, padded |
| `PackageFile.AppendContents` | tools/ps3py/pkg.py:440-490 | the contents, padded, with the replaced blocks, and what goes into the digest; the first file that is not fine decides what happens |
| `PackageFile.NewHeader` | tools/ps3py/pkg.py:345-368 | sizes and flags of directories, files and the program |
| `Package.EbootSizeMeans` | tools/ps3py/pkg.py:363-364 | the program is rounded up to the least number that is 0x30 more than a multiple of 64 |
| `Package.OffsetsAligned` | tools/ps3py/pkg.py:427-434 | names and contents begin at multiples of 16 |
| `Package.AreasApart` | tools/ps3py/pkg.py:427-434 | descriptors, names and contents do not overlap and are in order |
| `Package.PlannedPositions` | tools/ps3py/pkg.py:431-434 | a file is appended as far behind its planned offset as the NPDRM blocks before it reach out of their files, and so at that offset if and only if none of them does |
| `Package.CutOffProgram` | tools/ps3py/pkg.py:448-490 | a program of 0x90 bytes that passes every test, cut off where the block begins: the next file is appended 0x80 bytes behind its planned offset |
| `PackageReader.ReadPackage` | tools/ps3py/pkg.py:302-331 | the reader is its specification, refusals included |
| `PackageReader.RoundTrip` | tools/ps3py/pkg.py:302-331 | reading any package that was written gives every name up to its first NUL and the flags, in order, and the bytes of every file whose planned offset is its place |
| `PackageReader.NothingLost` | tools/ps3py/pkg.py:302-331 | so when no NPDRM block reaches out of its file everything comes back |
| `PackageReader.ExpectedIsTheFile` | tools/ps3py/pkg.py:176-186 | names without NUL and files other than the program come back unchanged; the program, with its NPDRM block replaced inside it, is only lengthened with zeros |
| `PackageReader.FinalizeReveals` | tools/geohot/package_finalize.c:45-63 | `package_finalize` finds the numbers of the header and puts the plain data in place of the encrypted, whatever the length; nothing else changes when the blocks reach out of their files by a multiple of 16 bytes, in particular when none does |
| `PackageFormat.PackageBegins` | tools/ps3py/pkg.py:374-510 | at fixed offsets every package written holds its mark, type, counts and sizes, the identifier, the digest of files, numbers, descriptors and names, and the licensee |
| `PackageFormat.PackageDescribes` | tools/ps3py/pkg.py:421-434 | decrypted, the data holds for every file a descriptor that leads to its name, its size, its type, and in place its contents |
| `PackageFormat.PackageInfo` | tools/ps3py/pkg.py:386-417 | the numbers of the block behind the header |
| `PackageFormat.EbootMetaIs` | tools/ps3py/pkg.py:468-483 | the block put into a program, byte by byte: the digest as it is, inverted, and masked |
| `PackageFormat.RefusedWhen` | tools/ps3py/pkg.py:287-310 | a file is refused if and only if its header is cut off, its type is another, or its data is shorter than the header says, 2 GB long, or shorter than the descriptors |
| `PackageFormat.ItemIsRead` | tools/ps3py/pkg.py:311-331 | an item is the name up to its first NUL, the type, and the bytes that the descriptor names |
| `Npdrm.BrokenWhen` | tools/ps3py/pkg.py:448-463 | the search raises an error if and only if a signed program ends in its header, in the description, or in a digest block on the way |
| `StructFormat.UnpackPack` | tools/ps3py/Struct.py:216-278 | numbers that fit their fields are read back, in both byte orders |
| `Sfo.ConvertToSfo` | tools/ps3py/sfo.py:194-249 | writes the file, or fails exactly when a number does not fit its field |
| `Sfo.AlignMeans` | tools/ps3py/sfo.py:170-171 | the least multiple that is large enough |
| `Sfo.AlignMasks` | tools/ps3py/sfo.py:170-171 | for powers of two that is what masking gives |
| `SfoReader.ConvertToXml` | tools/ps3py/sfo.py:119-155 | the reader is its specification, refusals included |
| `SfoReader.RoundTrip` | tools/ps3py/sfo.py:194-249 | whatever was written is read back: the same pairs in order, strings up to their first NUL |
| `SfoReader.StrippedIsSame` | tools/ps3py/sfo.py:14-19 | they are the very same pairs exactly if no key and no string holds a NUL |
| `SfoReader.WrittenWhen` | tools/ps3py/sfo.py:201-224 | files below 4 GB with 32-bit integers are written exactly if the last key begins below 64 KB |
| `SfoFormat.FileBegins` | tools/ps3py/sfo.py:230-236 | at fixed offsets the file holds its mark, its version, where keys and values begin, and their number |
| `SfoFormat.EntryNames` | tools/ps3py/sfo.py:205-249 | entry i leads to the key and to the value, of its type and length, padded with zeros to the least multiple that its key asks for |

## Left out

- The spinlocks: every heap and `sbrk` call is one step. Syscalls, reent and errno plumbing: kernel answers are parameters of `Sbrk.RegionStack.Move`.
- Heap: double frees and wild pointers into the heap; a pointer given to `Heap.HeapControl.Free` is null, outside the heap, or leads back to a header.
- Heap: client stores are whole words of a live area; the page size is the fixed `CPU_ALIGNMENT` of 8 bytes and words are 64 bits wide.
- `heap_cntrl` overlapping the memory it manages: the list sentinel lies outside of it.
- SPU atomics: the retry loops are steps of a machine, not Dafny loops, because they end only under fairness; `Lose` stands for reservations lost for no visible reason. A line that nobody has stored to reads as zeros.
- RSX: the BEGIN callback that makes room (it either makes room or aborts the function), and the unsafe variants without it.
- RsxImage.ImageCopies: what the chip makes of the alpha value when the source has none.
- RsxSwizzle.SwizzleCopies: rectangles that reach out of the surface, where a swizzled address has no meaning.
- RsxConvert.SetConvertSwizzleFormat: surfaces without a texel, whose logarithm wraps, or with more than 2^31 texels, and the words that an endless loop writes.
- `SetVertexProgramConstants`, which copies the same values twice; the setters that write fixed registers.
- SbrkAccounts.RunKeeps: increments beyond the range of a signed word and mappings that leave the 32-bit address space.
- Sbrk.RegionStack.Move: which region, and of what size, the kernel is asked to map or to take back; its answers are parameters.
- `sbrk_deinit`.
- SHA-1 is any function to 20 bytes. AES, the retail re-encryption and the final digest of `package_finalize`.
- PackageFile.WritePackage: walking the directory and opening files; the part of the output that is already written when the data turns out to be too long to be encrypted. Where the search for the NPDRM block never ends, the model stops and says so.
- PackageReader.RoundTrip: which wrong bytes are read for a file that is not at its planned offset.
- PackageReader.ReadPackage: the files already written when a later descriptor turns out to be cut off; data areas shorter than the header says are refused, where the C code reads past its input.
- `listPkg`, which decrypts names with a context that does not count on.
- Sfo.ConvertToSfo: the partial file left behind by an error; parsing and writing XML, and the forced title and application id.
- `globfile.c`, `make_self.c`, `fself.py`, `linker.c`, libsimdmath: foreign libraries or straight-line layout.
