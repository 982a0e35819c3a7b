/** The boundary-tag heap of ppu/librt/heap.c and heap.inl. */
module Heap {
  import opened Arith
  import opened HeapLayout
  import opened HeapMoves
  import opened HeapRing
  import opened HeapMemory
  import opened HeapCarving
  import opened HeapReleasing
  import opened HeapWords
  import opened HeapSetup
  import opened HeapClients
  import opened Words

  /** The control block, and the memory it lives in. `freeList` is the address of its list sentinel, which
    serves as head and as tail of the free list. */
  class HeapControl {
    var mem: Mem
    const freeList: Word
    var firstBlock: Word
    var lastBlock: Word
    var heapBegin: Word
    var heapEnd: Word

    ghost var blocks: Blocks
    ghost var free: seq<int>
    ghost var live: map<int, int>

    ghost predicate Valid()
      reads this
    {
      Invariant(firstBlock, lastBlock, freeList, mem, blocks, free, live)
    }

    constructor (memory: Mem, freeList: Word)
      ensures mem == memory && this.freeList == freeList
    {
      this.mem := memory;
      this.freeList := freeList;
      firstBlock, lastBlock, heapBegin, heapEnd := 0, 0, 0, 0;
    }

    // ----- setting up

    /** `heapInit` over the `size` bytes at `start`. */
    method Init(start: Word, size: Word) returns (firstBlockSize: Word)
      requires forall a | start <= a && a + 8 <= start + size && a % PAGE_SIZE == 0 :: a in mem
      requires freeList + MIN_BLOCK <= start || (start + size <= freeList && freeList + MIN_BLOCK <= TWO_64)
      modifies this
      ensures firstBlockSize != 0 <==> HasRoom(start, size)
      ensures firstBlockSize == 0 ==> unchanged(this)
      ensures firstBlockSize != 0 ==>
        && Valid() && heapBegin == start && heapEnd == start + size
        && firstBlock == AlignUp(start, PAGE_SIZE) && lastBlock == firstBlock + firstBlockSize
        && firstBlockSize == AlignDown(start + size - firstBlock - HEADER, PAGE_SIZE)
        && blocks == InitialBlocks(firstBlock, lastBlock) && free == [firstBlock] && live == map[]
    {
      RoomChecks(start, size);
      var end := Add64(start, size);
      var first: Word := FirstBlock(start);
      var overhead := Overhead(start);
      AlignDownIsMultiple(Sub64(size, overhead), PAGE_SIZE);
      firstBlockSize := AlignDown(Sub64(size, overhead), PAGE_SIZE);
      if end < start || size <= overhead || firstBlockSize < MIN_BLOCK {
        return 0;
      }
      var last: Word := first + firstBlockSize;
      MultiplesAdd(first, firstBlockSize, PAGE_SIZE);
      AreaWords(start, size, first, last, mem);
      StoreInitial(first, last, end, firstBlockSize);
      heapBegin, heapEnd, firstBlock, lastBlock := start, end, first, last;
      blocks, free, live := InitialBlocks(first, last), [first], map[];
      InitialInvariant(first, last, freeList, mem);
    }

    method StoreInitial(first: Word, last: Word, end: Word, firstBlockSize: Word)
      requires last == first + firstBlockSize && firstBlockSize >= MIN_BLOCK
      requires first % PAGE_SIZE == 0 && last % PAGE_SIZE == 0 && 0 < last - first
      requires freeList + MIN_BLOCK <= first || last + HEADER <= freeList
      modifies `mem
      ensures InitialWords(first, last, freeList, mem) && old(mem).Keys <= mem.Keys
    {
      mem := mem[freeList := 0][freeList + 8 := 0][freeList + 16 := 0][freeList + 24 := 0];
      mem := mem[first := end][first + 8 := firstBlockSize + 1][first + 16 := freeList][first + 24 := freeList];
      mem := mem[freeList + 16 := first][freeList + 24 := first];
      mem := mem[last := firstBlockSize][last + 8 := 0];
      WrapCases(first - last);
      mem := mem[last + 8 := Sub64(first, last) + FlagOf(mem[last + 8])];
    }

    // ----- list helpers

    method BlockRemove(block: int)
      requires block + 16 in mem && block + 24 in mem
      requires mem[block + 24] + 16 in mem && mem[block + 16] + 24 in mem
      modifies `mem
      ensures mem == Unlink(old(mem), block)
    {
      var next, prev := mem[block + 16], mem[block + 24];
      mem := mem[prev + 16 := next];
      mem := mem[next + 24 := prev];
    }

    method BlockReplace(oldBlock: int, block: int)
      requires oldBlock + 16 in mem && oldBlock + 24 in mem && block + 16 in mem && block + 24 in mem
      requires mem[oldBlock + 24] + 16 in mem && mem[oldBlock + 16] + 24 in mem
      modifies `mem
      ensures mem == Relink(old(mem), oldBlock, block)
    {
      var next, prev := mem[oldBlock + 16], mem[oldBlock + 24];
      mem := mem[block + 16 := next];
      mem := mem[block + 24 := prev];
      mem := mem[next + 24 := block];
      mem := mem[prev + 16 := block];
    }

    method BlockInsertAfter(before: int, block: int)
      requires before + 16 in mem && block + 16 in mem && block + 24 in mem
      requires mem[before + 16] + 24 in mem
      modifies `mem
      ensures mem == LinkAfter(old(mem), before, block)
    {
      var next := mem[before + 16];
      mem := mem[block + 16 := next];
      mem := mem[block + 24 := before];
      mem := mem[before + 16 := block];
      mem := mem[next + 24 := block];
    }

    // ----- allocating

    /** `__heap_check_block` on a free block of `total` bytes that is large enough for the request. */
    method CheckBlock(block: Word, allocSize: Word, alignment: Word, ghost total: int) returns (area: Word)
      requires block + 8 in mem && mem[block + 8] == total + 1 && total % PAGE_SIZE == 0 && total >= MIN_BLOCK
      requires block + total + HEADER < TWO_64 && allocSize + HEADER - BONUS <= total && alignment > 0
      ensures area == Fit(block, total, allocSize, alignment)
    {
      HeaderWord(total, true);
      var blockEnd: Word := block + SizeOf(mem[block + 8]);
      var allocBeginFloor: Word := block + HEADER;
      var allocBeginCeiling: Word := blockEnd - MIN_BLOCK + HEADER + PAGE_SIZE - 1;
      var allocEnd: Word := blockEnd + BONUS;
      var allocBegin: Word := allocEnd - allocSize;
      AlignDownTwice(allocBegin, allocBeginCeiling, alignment);
      allocBegin := AlignDown(allocBegin, alignment);
      if allocBegin > allocBeginCeiling {
        allocBegin := AlignDown(allocBeginCeiling, alignment);
      }
      assert allocBegin == Candidate(block, total, allocSize, alignment);
      if allocBegin >= allocBeginFloor {
        var allocBlockBegin: int := BlockOf(allocBegin);
        var freeSize: int := allocBlockBegin - block;
        if freeSize >= MIN_BLOCK || freeSize == 0 {
          return allocBegin;
        }
      }
      return 0;
    }

    /** The ghost parameters say what the header words of the block and its successor hold. */
    method BlockSplit(block: Word, nextBlock: Word, freeAnchor: int, allocSize: Word,
                      ghost total: int, ghost flag: bool, ghost nextSize: int, ghost taken: int, ghost header: int,
                      ghost rest: int)
      requires SplitReady(mem, block, nextBlock, freeAnchor, allocSize, total, flag, nextSize)
      requires taken == Taken(total, allocSize) && header == taken + (if flag then 1 else 0) && rest == total - taken
      modifies `mem
      ensures SplitStep(old(mem), mem, block, nextBlock, freeAnchor, taken, header, rest, nextSize)
    {
      HeaderWord(total, flag);
      HeaderWord(nextSize, false);
      TakenSize(total, allocSize);
      var minAllocSize := MIN_BLOCK - HEADER;
      var blockSize := SizeOf(mem[block + 8]);
      var usedSize: Word := (if allocSize > minAllocSize then allocSize as int else minAllocSize) + HEADER;
      var usedBlockSize := AlignUp(usedSize, PAGE_SIZE);
      var freeSize: Word := blockSize + BONUS - usedSize;
      SplitSizes(total, allocSize, usedSize, usedBlockSize, freeSize);
      if freeSize >= MIN_BLOCK + BONUS {
        HeaderWord(usedBlockSize, flag);
        BlockSplitOff(block, nextBlock, freeAnchor, blockSize, usedBlockSize, flag, header, nextSize);
      } else {
        mem := mem[nextBlock + 8 := SizeOf(mem[nextBlock + 8]) + 1];
      }
    }

    /** The branch of the split that makes the end of the block a free block of its own. */
    method BlockSplitOff(block: Word, nextBlock: Word, freeAnchor: int, blockSize: Word, usedBlockSize: Word,
                         ghost flag: bool, ghost header: int, ghost nextSize: Word)
      requires block + 8 in mem && FlagOf(mem[block + 8]) == (if flag then 1 else 0) && nextBlock == block + blockSize
      requires nextBlock + 8 in mem && mem[nextBlock + 8] == nextSize == SizeOf(nextSize)
      requires MIN_BLOCK <= usedBlockSize <= blockSize - MIN_BLOCK && header == usedBlockSize + (if flag then 1 else 0)
      requires Add64(nextBlock, nextSize) + 8 in mem && PrevUsed(mem[Add64(nextBlock, nextSize) + 8])
      requires PrevUsed(header) == flag
      requires SplitKeys(mem, block, nextBlock, usedBlockSize, blockSize - usedBlockSize)
      requires AnchorApart(mem, freeAnchor, block + 8) && AnchorApart(mem, freeAnchor, nextBlock + 8)
      modifies `mem
      ensures SplitStep(old(mem), mem, block, nextBlock, freeAnchor, usedBlockSize, header, blockSize - usedBlockSize,
                        nextSize)
    {
      var freeBlock: Word := block + usedBlockSize;
      var freeBlockSize: Word := blockSize - usedBlockSize;
      var nextBlockSize := SizeOf(mem[nextBlock + 8]);
      var nextNextBlock: int := Add64(nextBlock, nextBlockSize);
      mem := mem[block + 8 := usedBlockSize + FlagOf(mem[block + 8])];
      ghost var headed := mem;
      assert headed == old(mem)[block + 8 := header];
      if PrevUsed(mem[nextNextBlock + 8]) {
        BlockInsertAfter(freeAnchor, freeBlock);
      } else {
        assert false;  // no two free blocks are neighbours
      }
      LinkAfterKeeps(headed, freeAnchor, freeBlock, nextBlock + 8);
      ghost var linked := mem;
      assert linked == LinkAfter(headed, freeAnchor, freeBlock) && linked[nextBlock + 8] == nextSize;
      StoreRest(freeBlock, nextBlock, freeBlockSize, nextSize);
    }

    method StoreRest(freeBlock: Word, nextBlock: Word, freeBlockSize: Word, ghost nextSize: Word)
      requires freeBlockSize + 1 < TWO_64 && freeBlock != nextBlock && freeBlock + 8 != nextBlock
      requires nextBlock + 8 in mem && mem[nextBlock + 8] == nextSize == SizeOf(nextSize)
      modifies `mem
      ensures mem == old(mem)[freeBlock + 8 := freeBlockSize + 1][nextBlock := freeBlockSize][nextBlock + 8 := nextSize]
    {
      mem := mem[freeBlock + 8 := freeBlockSize + 1];
      mem := mem[nextBlock := freeBlockSize];
      mem := mem[nextBlock + 8 := SizeOf(mem[nextBlock + 8])];
    }

    /** The first half of `__heap_block_allocate_from_end`: the front of the block goes back into the list. */
    method BlockKeepFront(block: Word, newBlock: Word, nextBlock: Word, freeAnchor: int, ghost lead: int,
                          ghost behind: int)
      requires newBlock == block + lead && nextBlock == newBlock + behind && MIN_BLOCK <= lead && MIN_BLOCK <= behind
      requires {block + 8, block + 16, block + 24, newBlock, newBlock + 8} <= mem.Keys
      requires PrevUsed(mem[block + 8]) && AnchorApart(mem, freeAnchor, block + 8)
      modifies `mem
      ensures LeadStep(old(mem), mem, block, freeAnchor, lead, behind)
    {
      var newBlockSize: Word := nextBlock - newBlock;
      var blockSizeAdjusted: Word := newBlock - block;
      if PrevUsed(mem[block + 8]) {
        BlockInsertAfter(freeAnchor, block);
      } else {
        assert false;  // the block before a free block is used
      }
      mem := mem[block + 8 := blockSizeAdjusted + 1];
      mem := mem[newBlock := blockSizeAdjusted];
      mem := mem[newBlock + 8 := newBlockSize];
    }

    /** The stores of `__heap_block_allocate_from_end`. The new block's address and the memory before the split
      come back. */
    method BlockKeepFrontAndSplit(block: Word, nextBlock: Word, freeAnchor: int, allocBegin: Word, allocSize: Word,
                                  ghost lead: int, ghost behind: int, ghost taken: int, ghost rest: int,
                                  ghost nextSize: int, ghost nextNext: int)
      returns (newBlock: Word, ghost between: Mem)
      requires lead == Lead(block, allocBegin) && taken == Taken(behind, allocSize) && rest == behind - taken
      requires BackReady(mem, block, nextBlock, freeAnchor, lead, behind, allocSize, nextSize, nextNext)
      modifies `mem
      ensures newBlock == block + lead
      ensures LeadStep(old(mem), between, block, freeAnchor, lead, behind)
      ensures SplitStep(between, mem, newBlock, nextBlock, block, taken, taken, rest, nextSize)
    {
      newBlock := BlockOf(allocBegin);
      BlockKeepFront(block, newBlock, nextBlock, freeAnchor, lead, behind);
      between := mem;
      BackSplitReady(old(mem), mem, block, newBlock, nextBlock, freeAnchor, lead, behind, allocSize, nextSize,
                     nextNext);
      BlockSplit(newBlock, nextBlock, block, allocSize, behind, false, nextSize, taken, taken, rest);
    }

    /** `__heap_block_allocate` on the free block at place `k` of the list: it is unlinked, and its front, its end
      or neither goes back into the list. */
    method BlockAllocate(block: Word, allocBegin: Word, allocSize: Word, ghost k: nat, ghost lead: int,
                         ghost taken: int,
                         ghost blocks': Blocks, ghost free': seq<int>, ghost live': map<int, int>)
      requires Valid() && k < |free| && block == free[k]
      requires GoodFit(lastBlock, blocks, block, allocBegin, allocSize, lead, taken)
      requires Carved(blocks, blocks', free, free', live, live', k, lead, taken, allocBegin, allocSize)
      modifies `mem
      ensures Invariant(firstBlock, lastBlock, freeList, mem, blocks', free', live')
      ensures allocBegin !in live && SameClientWords(live, old(mem), mem)
    {
      ghost var m := mem;
      UnlinkReady(firstBlock, lastBlock, freeList, blocks, free, mem, k);
      HeaderWord(blocks[block].size, true);
      var blockSize := SizeOf(mem[block + 8]);
      var nextBlock: Word := block + blockSize;
      var freeAnchor := mem[block + 24];
      if PrevUsed(mem[nextBlock + 8]) {
        assert false;  // the block is free
      } else {
        BlockRemove(block);
      }
      ghost var list := Splice(free, k, []);
      ghost var nn := Unlinks(firstBlock, lastBlock, freeList, m, mem, blocks, free, list, live, k);
      BlockCarve(block, nextBlock, freeAnchor, allocBegin, allocSize,
                 m, list, k, nn, lead, taken, blocks', free', live');
    }

    /** From its front or behind a free front. */
    method BlockCarve(block: Word, nextBlock: Word, freeAnchor: int, allocBegin: Word, allocSize: Word,
                      ghost m: Mem, ghost list: seq<int>, ghost k: nat, ghost nn: int, ghost lead: int,
                      ghost taken: int,
                      ghost blocks': Blocks, ghost free': seq<int>, ghost live': map<int, int>)
      requires Unlinking(firstBlock, lastBlock, freeList, m, mem, blocks, free, list, live, k, nn)
      requires block == free[k] && nextBlock == Next(blocks, block) && freeAnchor == Node(freeList, list, k)
      requires GoodFit(lastBlock, blocks, block, allocBegin, allocSize, lead, taken)
      requires Carved(blocks, blocks', free, free', live, live', k, lead, taken, allocBegin, allocSize)
      modifies `mem
      ensures Invariant(firstBlock, lastBlock, freeList, mem, blocks', free', live')
      ensures allocBegin !in live && SameClientWords(live, m, mem)
    {
      var allocAreaOffset: Word := allocBegin - (block + HEADER);
      if allocAreaOffset < PAGE_SIZE {
        var frontSize: Word := allocSize + allocAreaOffset;
        BlockAllocateFromBegin(block, nextBlock, freeAnchor, frontSize,
                               m, list, k, nn, allocBegin, allocSize, lead, taken, blocks', free', live');
      } else {
        BlockAllocateFromEnd(block, nextBlock, freeAnchor, allocBegin, allocSize,
                             m, list, k, nn, lead, taken, blocks', free', live');
      }
    }

    /** `__heap_block_allocate_from_begin`; `m` is the memory before the block was unlinked. */
    method BlockAllocateFromBegin(block: Word, nextBlock: Word, freeAnchor: int, allocSize: Word,
                                  ghost m: Mem, ghost list: seq<int>, ghost k: nat, ghost nn: int,
                                  ghost area: int, ghost request: int, ghost lead: int, ghost taken: int,
                                  ghost blocks': Blocks, ghost free': seq<int>, ghost live': map<int, int>)
      requires Unlinking(firstBlock, lastBlock, freeList, m, mem, blocks, free, list, live, k, nn)
      requires block == free[k] && nextBlock == Next(blocks, block) && freeAnchor == Node(freeList, list, k)
      requires lead == 0 && GoodFit(lastBlock, blocks, block, area, request, lead, taken)
      requires allocSize == request + (area - block - HEADER)
      requires Carved(blocks, blocks', free, free', live, live', k, lead, taken, area, request)
      modifies `mem
      ensures Invariant(firstBlock, lastBlock, freeList, mem, blocks', free', live')
      ensures area !in live && SameClientWords(live, m, mem)
    {
      ghost var m1 := mem;
      ghost var total, nextSize := blocks[block].size, blocks[nextBlock].size;
      ghost var header, rest := taken + 1, total - taken;
      FrontBegin(firstBlock, lastBlock, freeList, blocks, free, list, live, m, m1, k, nn, area, request, lead, taken,
                 block, nextBlock, freeAnchor, allocSize, total, nextSize);
      BlockSplit(block, nextBlock, freeAnchor, allocSize, total, true, nextSize, taken, header, rest);
      FrontEnd(firstBlock, lastBlock, freeList, blocks, free, list, live, m, m1, mem, k, nn, area, request, lead, taken,
               block, nextBlock, freeAnchor, allocSize, total, nextSize, header, rest, blocks', free', live');
    }

    /** `__heap_block_allocate_from_end`: the front of the block goes back into the list before the split. */
    method BlockAllocateFromEnd(block: Word, nextBlock: Word, freeAnchor: int, allocBegin: Word, allocSize: Word,
                                ghost m: Mem, ghost list: seq<int>, ghost k: nat, ghost nn: int, ghost lead: int,
                                ghost taken: int,
                                ghost blocks': Blocks, ghost free': seq<int>, ghost live': map<int, int>)
      requires Unlinking(firstBlock, lastBlock, freeList, m, mem, blocks, free, list, live, k, nn)
      requires block == free[k] && nextBlock == Next(blocks, block) && freeAnchor == Node(freeList, list, k)
      requires GoodFit(lastBlock, blocks, block, allocBegin, allocSize, lead, taken) && lead != 0
      requires Carved(blocks, blocks', free, free', live, live', k, lead, taken, allocBegin, allocSize)
      modifies `mem
      ensures Invariant(firstBlock, lastBlock, freeList, mem, blocks', free', live')
      ensures allocBegin !in live && SameClientWords(live, m, mem)
    {
      ghost var m1 := mem;
      ghost var behind, nextSize := blocks[block].size - lead, blocks[nextBlock].size;
      ghost var rest := behind - taken;
      assert BackCase(firstBlock, lastBlock, freeList, blocks, free, list, live, m, m1, k, nn, allocBegin, allocSize,
                      lead, taken, block, nextBlock, freeAnchor, behind, nextSize);
      BackBegin(firstBlock, lastBlock, freeList, blocks, free, list, live, m, m1, k, nn, allocBegin, allocSize, lead,
                taken, block, nextBlock, freeAnchor, behind, nextSize);
      var newBlock; ghost var m2;
      newBlock, m2 := BlockKeepFrontAndSplit(block, nextBlock, freeAnchor, allocBegin, allocSize,
                                             lead, behind, taken, rest, nextSize, nn);
      BackEnd(firstBlock, lastBlock, freeList, blocks, free, list, live, m, m1, m2, mem, k, nn, allocBegin, allocSize,
              lead, taken, block, newBlock, nextBlock, freeAnchor, behind, rest, nextSize, blocks', free', live');
    }

    /** The search loop of `heapAllocateAligned`: the first listed block that can serve the request. */
    method Search(size: Word, alignment: Word, blockSizeFloor: Word) returns (block: int, area: Word, ghost k: nat)
      requires Valid() && blockSizeFloor == size + HEADER - BONUS
      ensures area == 0 ==> forall i | 0 <= i < |free| :: !Fits(blocks, free[i], size, alignment)
      ensures area != 0 ==> FirstFit(blocks, free, k, size, alignment, area) && block == free[k]
    {
      k, area := 0, 0;
      var tail := freeList as int;
      RingAt(freeList, free, mem, 0);
      block := mem[tail + 16];
      while block != tail
        invariant 0 <= k <= |free| && block == Node(freeList, free, k + 1)
        invariant area == 0
        invariant forall j | 0 <= j < k :: !Fits(blocks, free[j], size, alignment)
        decreases |free| - k
      {
        ListedBlock(firstBlock, lastBlock, freeList, mem, blocks, free, k);
        if mem[block + 8] > blockSizeFloor {
          if alignment == 0 {
            area := block + HEADER;
          } else {
            area := CheckBlock(block, size, alignment, blocks[block].size);
          }
        }
        assert area == Fit(free[k], blocks[free[k]].size, size, alignment);
        if area != 0 {
          return;
        }
        RingAt(freeList, free, mem, k + 1);
        block := mem[block + 16];
        k := k + 1;
      }
      TailReached(firstBlock, lastBlock, freeList, blocks, free, k);
    }

    /** `heapAllocateAligned`: first fit over the free list. The ghost results say which free block served the
      request, and how it was cut. */
    method AllocateAligned(size: Word, alignment: Word)
      returns (area: Word, ghost k: nat, ghost lead: int, ghost taken: int)
      requires Valid()
      modifies `mem, `blocks, `free, `live
      ensures Valid()
      ensures area == 0 <==> forall i | 0 <= i < |old(free)| :: !Fits(old(blocks), old(free)[i], size, alignment)
      ensures area == 0 ==> mem == old(mem) && blocks == old(blocks) && free == old(free) && live == old(live)
      ensures area != 0 ==> Served(lastBlock, old(blocks), blocks, old(free), free, old(live), live, k, lead, taken,
                                   size, alignment, area)
      ensures area != 0 ==> area !in old(live)
      ensures SameClientWords(old(live), old(mem), mem)
    {
      k, lead, taken := 0, 0, 0;
      var blockSizeFloor: Word := Sub64(Add64(size, HEADER), BONUS);
      if blockSizeFloor < size {
        NothingFits(firstBlock, lastBlock, freeList, mem, blocks, free, size, alignment);
        return 0, 0, 0, 0;
      }
      var block;
      block, area, k := Search(size, alignment, blockSizeFloor);
      if area != 0 {
        lead, taken := Serve(block, area, size, alignment, k);
      }
    }

    method Serve(block: int, area: Word, size: Word, ghost alignment: Word, ghost k: nat)
      returns (ghost lead: int, ghost taken: int)
      requires Valid() && FirstFit(blocks, free, k, size, alignment, area) && block == free[k]
      modifies `mem, `blocks, `free, `live
      ensures Valid() && area !in old(live) && SameClientWords(old(live), old(mem), mem)
      ensures Served(lastBlock, old(blocks), blocks, old(free), free, old(live), live, k, lead, taken, size, alignment,
                     area)
    {
      ghost var blocks', free', live';
      lead, taken, blocks', free', live' := Carving(firstBlock, lastBlock, freeList, mem, blocks, free, live, k,
                                                    size, alignment, area);
      BlockAllocate(block, area, size, k, lead, taken, blocks', free', live');
      blocks, free, live := blocks', free', live';
    }

    /** `heapAllocate`: the first free block that is large enough serves the request, from its front. */
    method Allocate(size: Word) returns (area: Word, ghost k: nat, ghost taken: int)
      requires Valid()
      modifies `mem, `blocks, `free, `live
      ensures Valid()
      ensures area == 0 <==> forall b | IsFree(lastBlock, old(blocks), b) :: old(blocks)[b].size < size + HEADER - BONUS
      ensures area == 0 ==> mem == old(mem) && blocks == old(blocks) && free == old(free) && live == old(live)
      ensures area != 0 ==>
        && k < |old(free)| && IsFree(lastBlock, old(blocks), old(free)[k])
        && area == old(free)[k] + HEADER && old(blocks)[old(free)[k]].size >= size + HEADER - BONUS
        && Carved(old(blocks), blocks, old(free), free, old(live), live, k, 0, taken, area, size)
        && CutUp(lastBlock, old(blocks), blocks, old(free)[k], area, size)
        && old(free)[k] in blocks && LeastBlock(old(blocks)[old(free)[k]].size, size, blocks[old(free)[k]].size)
        && area !in old(live)
      ensures SameClientWords(old(live), old(mem), mem)
    {
      ghost var lead;
      area, k, lead, taken := AllocateAligned(size, 0);
      UnalignedSearch(firstBlock, lastBlock, freeList, old(mem), old(blocks), old(free), size);
    }

    // ----- freeing

    predicate BlockIn(block: Word)
      reads this
    {
      firstBlock <= block <= lastBlock
    }

    /** Both neighbours are free: the block behind leaves the list, the one in front grows. */
    method FreeBetween(block: Word, prevBlock: Word, nextBlock: Word, size: Word,
                       ghost bs': Blocks, ghost free': seq<int>, ghost live': map<int, int>, ghost end: int,
                       ghost k: int)
      requires Freeing(firstBlock, lastBlock, freeList, mem, blocks, bs', free, free', live, live', block, nextBlock,
                       prevBlock, end, k)
      requires IsFree(lastBlock, blocks, nextBlock) && prevBlock != block && size == end - prevBlock
      modifies `mem
      ensures Invariant(firstBlock, lastBlock, freeList, mem, bs', free', live')
        && SameClientWords(live', old(mem), mem)
    {
      ghost var m := mem;
      NextListed(firstBlock, lastBlock, freeList, m, blocks, bs', free, free', live, live', block, nextBlock,
                 prevBlock, end, k);
      StoreBetween(prevBlock, nextBlock, size);
      BothMerged(firstBlock, lastBlock, freeList, m, mem, blocks, bs', free, free', live, live', block, nextBlock,
                 prevBlock, end, k);
    }

    method StoreBetween(prevBlock: Word, nextBlock: Word, size: Word)
      requires LinksMapped(mem, nextBlock)
      modifies `mem
      ensures BetweenStep(old(mem), mem, nextBlock, prevBlock, size)
    {
      BlockRemove(nextBlock);
      mem := mem[prevBlock + 8 := size + 1];
      var after: int := prevBlock + size;
      mem := mem[after := size];
    }

    /** Only the block in front is free: it grows. */
    method FreeBehind(block: Word, prevBlock: Word, nextBlock: Word, size: Word,
                      ghost bs': Blocks, ghost free': seq<int>, ghost live': map<int, int>, ghost end: int,
                      ghost k: int)
      requires Freeing(firstBlock, lastBlock, freeList, mem, blocks, bs', free, free', live, live', block, nextBlock,
                       prevBlock, end, k)
      requires !IsFree(lastBlock, blocks, nextBlock) && prevBlock != block && size == end - prevBlock
      modifies `mem
      ensures Invariant(firstBlock, lastBlock, freeList, mem, bs', free', live')
        && SameClientWords(live', old(mem), mem)
    {
      ghost var m := mem;
      ghost var nextSize := blocks[nextBlock].size;
      HeaderWord(nextSize, true);
      StoreBehind(prevBlock, nextBlock, size, nextSize);
      PrevMerged(firstBlock, lastBlock, freeList, m, mem, blocks, bs', free, free', live, live', block, nextBlock,
                 nextSize, prevBlock, end, k);
    }

    method StoreBehind(prevBlock: Word, nextBlock: Word, size: Word, ghost nextSize: int)
      requires nextBlock != prevBlock && nextBlock + 8 in mem && SizeOf(mem[nextBlock + 8]) == nextSize
      modifies `mem
      ensures BehindStep(old(mem), mem, nextBlock, nextSize, prevBlock, size)
    {
      mem := mem[prevBlock + 8 := size + 1];
      mem := mem[nextBlock + 8 := SizeOf(mem[nextBlock + 8])];
      mem := mem[nextBlock := size];
    }

    /** Only the block behind is free: the released block takes its place in the list. */
    method FreeBefore(block: Word, nextBlock: Word, size: Word,
                      ghost bs': Blocks, ghost free': seq<int>, ghost live': map<int, int>, ghost end: int,
                      ghost k: int)
      requires Freeing(firstBlock, lastBlock, freeList, mem, blocks, bs', free, free', live, live', block, nextBlock,
                       block, end, k)
      requires IsFree(lastBlock, blocks, nextBlock) && size == end - block
      modifies `mem
      ensures Invariant(firstBlock, lastBlock, freeList, mem, bs', free', live')
        && SameClientWords(live', old(mem), mem)
    {
      ghost var m := mem;
      NextListed(firstBlock, lastBlock, freeList, m, blocks, bs', free, free', live, live', block, nextBlock, block,
                 end, k);
      StoreBefore(block, nextBlock, size);
      NextMerged(firstBlock, lastBlock, freeList, m, mem, blocks, bs', free, free', live, live', block, nextBlock, end,
                 k);
    }

    method StoreBefore(block: Word, nextBlock: Word, size: Word)
      requires LinksMapped(mem, nextBlock) && block + 16 in mem && block + 24 in mem
      modifies `mem
      ensures BeforeStep(old(mem), mem, block, nextBlock, size)
    {
      BlockReplace(nextBlock, block);
      mem := mem[block + 8 := size + 1];
      var after: int := block + size;
      mem := mem[after := size];
    }

    /** No neighbour is free: the block goes to the head of the list. */
    method FreeAlone(block: Word, nextBlock: Word, blockSize: Word,
                     ghost bs': Blocks, ghost free': seq<int>, ghost live': map<int, int>, ghost end: int, ghost k: int)
      requires Freeing(firstBlock, lastBlock, freeList, mem, blocks, bs', free, free', live, live', block, nextBlock,
                       block, end, k)
      requires !IsFree(lastBlock, blocks, nextBlock) && blockSize == end - block
      modifies `mem
      ensures Invariant(firstBlock, lastBlock, freeList, mem, bs', free', live')
        && SameClientWords(live', old(mem), mem)
    {
      ghost var m := mem;
      ghost var nextSize := blocks[nextBlock].size;
      HeadReady(firstBlock, lastBlock, freeList, m, blocks, bs', free, free', live, live', block, nextBlock, end, k);
      StoreAlone(block, nextBlock, blockSize, nextSize);
      NoneMerged(firstBlock, lastBlock, freeList, m, mem, blocks, bs', free, free', live, live', block, nextBlock,
                 nextSize, end, k);
    }

    method StoreAlone(block: Word, nextBlock: Word, blockSize: Word, ghost nextSize: int)
      requires freeList + 16 in mem && mem[freeList + 16] + 24 in mem && block + 16 in mem && block + 24 in mem
      requires block != nextBlock && nextBlock + 8 in LinkAfter(mem, freeList, block)
      requires SizeOf(LinkAfter(mem, freeList, block)[nextBlock + 8]) == nextSize
      modifies `mem
      ensures AloneStep(old(mem), mem, freeList, block, nextBlock, nextSize, blockSize)
    {
      BlockInsertAfter(freeList, block);
      mem := mem[block + 8 := blockSize + 1];
      mem := mem[nextBlock + 8 := SizeOf(mem[nextBlock + 8])];
      mem := mem[nextBlock := blockSize];
    }

    /** The free block in front of `block`, with the two checks that never refuse it. */
    method PrevBlock(block: Word, prevSize: int, ghost start: int) returns (prevBlock: Word)
      requires firstBlock <= start <= block <= lastBlock && prevSize == block - start
      requires start + 8 in mem && PrevUsed(mem[start + 8])
      ensures prevBlock == start
    {
      prevBlock := block - prevSize;
      if !BlockIn(prevBlock) {
        assert false;  // `prev_size` leads to the free block in front
      }
      if !PrevUsed(mem[prevBlock + 8]) {
        assert false;  // no two free blocks are neighbours
      }
    }

    /** The rest of `heapFree`, once the block is known to be used: what happens depends on its neighbours. */
    method FreeUsed(block: Word, blockSize: Word, nextBlock: Word) returns (ghost start: int, ghost k: int)
      requires Valid() && IsUsed(lastBlock, blocks, block) && blockSize == blocks[block].size
        && nextBlock == Next(blocks, block)
      modifies `mem, `blocks, `free, `live
      ensures Valid()
      ensures Released(lastBlock, old(blocks), blocks, old(free), free, old(live), live, block, start, k)
      ensures SameClientWords(live, old(mem), mem)
    {
      ghost var bs', free', live', end;
      start, end, k, bs', free', live' := FreeReady(firstBlock, lastBlock, freeList, mem, blocks, free, live, block,
                                                    nextBlock);
      FreeMerging(block, blockSize, nextBlock, bs', free', live', start, end, k);
      blocks, free, live := bs', free', live';
    }

    /** Merges the block with the free ones beside it. */
    method FreeMerging(block: Word, blockSize: Word, nextBlock: Word, ghost bs': Blocks, ghost free': seq<int>,
                       ghost live': map<int, int>, ghost start: int, ghost end: int, ghost k: int)
      requires FreeFound(firstBlock, lastBlock, freeList, mem, blocks, bs', free, free', live, live', block, nextBlock,
                         start, end, k)
      requires blockSize == blocks[block].size
      modifies `mem
      ensures Invariant(firstBlock, lastBlock, freeList, mem, bs', free', live')
        && SameClientWords(live', old(mem), mem)
    {
      var nextBlockSize := SizeOf(mem[nextBlock + 8]);
      var nextFree := nextBlock != lastBlock && !PrevUsed(mem[nextBlock + nextBlockSize + 8]);
      if !PrevUsed(mem[block + 8]) {
        var prevSize := mem[block];
        var prevBlock := PrevBlock(block, prevSize, start);
        if nextFree {
          FreeBetween(block, prevBlock, nextBlock, blockSize + prevSize + nextBlockSize, bs', free', live', end, k);
        } else {
          FreeBehind(block, prevBlock, nextBlock, blockSize + prevSize, bs', free', live', end, k);
        }
      } else if nextFree {
        FreeBefore(block, nextBlock, blockSize + nextBlockSize, bs', free', live', end, k);
      } else {
        FreeAlone(block, nextBlock, blockSize, bs', free', live', end, k);
      }
    }

    /** `heapFree`. A pointer outside the heap, or into a block that is free already, is refused. */
    method Free(ptr: Word) returns (ok: bool, ghost start: int, ghost k: int)
      requires Valid()
      requires ptr == 0 || !BlockIn(Header64(ptr)) || (Header64(ptr) in blocks && Header64(ptr) != lastBlock)
      modifies `mem, `blocks, `free, `live
      ensures Valid()
      ensures ok <==> ptr == 0 || IsUsed(lastBlock, old(blocks), Header64(ptr))
      ensures ptr in old(live) ==> ok && live == old(live) - {ptr}
      ensures ptr == 0 || !ok ==> mem == old(mem) && blocks == old(blocks) && free == old(free) && live == old(live)
      ensures ptr != 0 && ok ==>
        && Released(lastBlock, old(blocks), blocks, old(free), free, old(live), live, Header64(ptr), start, k)
        && Joined(lastBlock, old(blocks), blocks, Header64(ptr), start)
        && ListJoined(lastBlock, old(blocks), old(free), free, Header64(ptr), k)
        && SameClientWords(live, old(mem), mem)
    {
      start, k := 0, 0;
      if ptr in live {
        LivePointer(firstBlock, lastBlock, freeList, mem, blocks, free, live, ptr);
      }
      if ptr == 0 {
        return true, 0, 0;
      }
      var block := Header64(ptr);
      if !BlockIn(block) {
        return false, 0, 0;
      }
      BlockReads(firstBlock, lastBlock, freeList, blocks, mem, block);
      var blockSize: Word := SizeOf(mem[block + 8]);
      var nextBlock: Word := block + blockSize;
      if !BlockIn(nextBlock) {
        assert false;  // the blocks tile the heap
      }
      if !PrevUsed(mem[nextBlock + 8]) {
        return false, 0, 0;
      }
      start, k := FreeUsed(block, blockSize, nextBlock);
      ReleasedIsJoined(firstBlock, lastBlock, old(blocks), blocks, old(free), free, old(live), live, block, start, k);
      ok := true;
    }
  }

  // ----- what an allocation promises

  /** The free block `b` can serve the request. */
  ghost predicate Fits(bs: Blocks, b: int, size: int, alignment: int)
    requires alignment >= 0
  {
    b in bs && Fit(b, bs[b].size, size, alignment) != 0
  }

  /** Without an alignment, every free block that is large enough serves the request. */
  lemma UnalignedSearch(first: int, last: int, anchor: int, m: Mem, bs: Blocks, free: seq<int>, size: Word)
    requires Mapped(first, last, anchor, m) && WellFormed(first, last, bs) && Headers(last, bs, m)
      && ListsFree(last, bs, free)
    ensures forall i | 0 <= i < |free| :: IsFree(last, bs, free[i]) && free[i] >= 0
    ensures (forall i | 0 <= i < |free| :: !Fits(bs, free[i], size, 0))
            <==> (forall b | IsFree(last, bs, b) :: bs[b].size < size + HEADER - BONUS)
  {
    forall i | 0 <= i < |free| ensures IsFree(last, bs, free[i]) && free[i] >= 0 {
      assert free[i] in free;
    }
    forall b | IsFree(last, bs, b) ensures Fits(bs, b, size, 0) <==> bs[b].size >= size + HEADER - BONUS {
      assert b >= first >= 0;
    }
    if forall i | 0 <= i < |free| :: !Fits(bs, free[i], size, 0) {
      forall b | IsFree(last, bs, b) ensures bs[b].size < size + HEADER - BONUS {
        assert b in free;
      }
    }
  }

  /** An allocation: the first free block that can serve the request is cut up, and the area is live. */
  ghost predicate Served(last: int, bs: Blocks, bs': Blocks, free: seq<int>, free': seq<int>, live: map<int, int>,
                         live': map<int, int>, k: int, lead: int, taken: int, size: int, alignment: int, area: int)
    requires alignment >= 0
  {
    && FirstFit(bs, free, k, size, alignment, area) && GoodFit(last, bs, free[k], area, size, lead, taken)
    && Carved(bs, bs', free, free', live, live', k, lead, taken, area, size)
    && CutUp(last, bs, bs', free[k], area, size) && ListCut(bs, bs', free, free', k, area)
  }

  /** The free block `b` after `area` in it has been given out for `request` bytes: the header lies in front of the
    area's page, the new block takes the least it can of what lies from there on, and what is left in front of it and
    behind it stays free. All other blocks stay what they are. */
  ghost predicate CutUp(last: int, bs: Blocks, bs': Blocks, b: int, area: int, request: int) {
    && b in bs
    && var x := area - area % PAGE_SIZE - HEADER; var end := b + bs[b].size;
    && IsUsed(last, bs', x) && bs'[x].area == area
    && LeastBlock(end - x, if x == b then request + (area - b - HEADER) else request, bs'[x].size)
    && (x == b || (IsFree(last, bs', b) && bs'[b].size == x - b))
    && var rest := x + bs'[x].size;
    && (rest == end || (IsFree(last, bs', rest) && bs'[rest].size == end - rest))
    && (forall c | c in bs && c != b :: c in bs' && bs'[c] == bs[c].(prevUsed := bs'[c].prevUsed))
    && (forall c | c in bs' :: c in bs || c == x || c == rest)
  }

  /** In the free list, what is left of the block takes its place, in the order of addresses. */
  ghost predicate ListCut(bs: Blocks, bs': Blocks, free: seq<int>, free': seq<int>, k: int, area: int) {
    && 0 <= k < |free| && free[k] in bs
    && var b, x := free[k], area - area % PAGE_SIZE - HEADER;
    && x in bs'
    && var rest, end := x + bs'[x].size, b + bs[b].size;
       free' == free[..k] + (if x == b then [] else [b]) + (if rest == end then [] else [rest]) + free[k + 1..]
  }

  lemma CarvedIsCut(first: int, last: int, bs: Blocks, bs': Blocks, free: seq<int>, free': seq<int>,
                    live: map<int, int>, live': map<int, int>, k: int, lead: int, taken: int, area: int, request: int)
    requires Tiling(first, last, bs) && PageAligned(last, bs)
    requires Carved(bs, bs', free, free', live, live', k, lead, taken, area, request)
    requires GoodFit(last, bs, free[k], area, request, lead, taken)
    ensures CutUp(last, bs, bs', free[k], area, request) && ListCut(bs, bs', free, free', k, area)
  {
    var b := free[k];
    GoodFitCarves(first, last, bs, b, area, request, lead, taken);
    TakenIsLeast(bs[b].size - lead, if lead == 0 then request + (area - b - HEADER) else request);
    MultiplesAdd(b, lead, PAGE_SIZE);
    HeaderInFront(b + lead, area);
    BlocksAreCut(first, last, bs, bs', b, lead, taken, area, request);
    ListIsCut(first, last, bs, bs', free, free', k, lead, taken, area);
  }

  lemma BlocksAreCut(first: int, last: int, bs: Blocks, bs': Blocks, b: int, lead: int, taken: int, area: int,
                     request: int)
    requires Tiling(first, last, bs) && CanCarve(last, bs, b, lead, taken) && Next(bs, b) in bs
    requires bs' == Carve(bs, b, lead, taken, area) && area - area % PAGE_SIZE - HEADER == b + lead
    requires LeastBlock(bs[b].size - lead, if lead == 0 then request + (area - b - HEADER) else request, taken)
    ensures CutUp(last, bs, bs', b, area, request)
  {
    CarvedPieces(first, last, bs, bs', b, lead, taken, area);
    CarvedOthers(first, last, bs, bs', b, lead, taken, area);
  }

  lemma ListIsCut(first: int, last: int, bs: Blocks, bs': Blocks, free: seq<int>, free': seq<int>, k: int, lead: int,
                  taken: int, area: int)
    requires 0 <= k < |free| && Tiling(first, last, bs) && CanCarve(last, bs, free[k], lead, taken)
    requires Next(bs, free[k]) in bs && bs' == Carve(bs, free[k], lead, taken, area)
    requires free' == CarvedList(free, k, lead, taken, bs[free[k]].size - lead - taken)
    requires area - area % PAGE_SIZE - HEADER == free[k] + lead
    ensures ListCut(bs, bs', free, free', k, area)
  {
    CarvedPieces(first, last, bs, bs', free[k], lead, taken, area);
    CarvedPlaces(free, k, lead, taken, bs[free[k]].size - lead - taken);
  }

  lemma HeaderInFront(x: int, area: int)
    requires x % PAGE_SIZE == 0 && x + HEADER <= area < x + HEADER + PAGE_SIZE
    ensures area - area % PAGE_SIZE - HEADER == x
  {
  }

  lemma CarvedPieces(first: int, last: int, bs: Blocks, bs': Blocks, b: int, lead: int, taken: int, area: int)
    requires Tiling(first, last, bs) && CanCarve(last, bs, b, lead, taken) && Next(bs, b) in bs
    requires bs' == Carve(bs, b, lead, taken, area)
    ensures IsUsed(last, bs', b + lead) && bs'[b + lead].area == area && bs'[b + lead].size == taken
    ensures lead != 0 ==> IsFree(last, bs', b) && bs'[b].size == lead
    ensures lead + taken != bs[b].size ==>
      IsFree(last, bs', b + lead + taken) && bs'[b + lead + taken].size == bs[b].size - lead - taken
  {
    TilingOrder(first, last, bs, b, last);
    CarveAt(first, last, bs, b, lead, taken, area, b + lead);
    CarveAt(first, last, bs, b, lead, taken, area, b);
    CarveAt(first, last, bs, b, lead, taken, area, b + lead + taken);
  }

  lemma CarvedOthers(first: int, last: int, bs: Blocks, bs': Blocks, b: int, lead: int, taken: int, area: int)
    requires Tiling(first, last, bs) && CanCarve(last, bs, b, lead, taken) && Next(bs, b) in bs
    requires bs' == Carve(bs, b, lead, taken, area)
    ensures forall c | c in bs && c != b :: c in bs' && bs'[c] == bs[c].(prevUsed := bs'[c].prevUsed)
    ensures forall c | c in bs' :: c in bs || c == b + lead || c == b + lead + taken
  {
    forall c | c in bs && c != b ensures c in bs' && bs'[c] == bs[c].(prevUsed := bs'[c].prevUsed) {
      TilingOrder(first, last, bs, b, c);
      CarveAt(first, last, bs, b, lead, taken, area, c);
    }
  }

  lemma CarvedPlaces(free: seq<int>, k: int, lead: int, taken: int, rest: int)
    requires 0 <= k < |free|
    ensures CarvedList(free, k, lead, taken, rest)
         == free[..k] + (if lead == 0 then [] else [free[k]]) + (if rest == 0 then [] else [free[k] + lead + taken])
            + free[k + 1..]
  {
    assert free[..k + 1] == free[..k] + [free[k]];
    assert free == free[..k] + [free[k]] + free[k + 1..];
  }

  /** What the split computes: the least block, or the whole one when the rest is too small. */
  lemma SplitSizes(total: int, allocSize: Word, usedSize: int, usedBlockSize: int, freeSize: int)
    requires total % PAGE_SIZE == 0 && total >= MIN_BLOCK && allocSize + HEADER - BONUS <= total
    requires usedSize == UsedSize(allocSize) && usedBlockSize == AlignUp(usedSize, PAGE_SIZE)
    requires freeSize == total + BONUS - usedSize
    ensures freeSize >= MIN_BLOCK + BONUS ==>
      usedBlockSize == Taken(total, allocSize) && usedBlockSize % PAGE_SIZE == 0
      && MIN_BLOCK <= usedBlockSize <= total - MIN_BLOCK
    ensures freeSize < MIN_BLOCK + BONUS ==> Taken(total, allocSize) == total
  {
    TakenSize(total, allocSize);
  }

  /** Place `k` of the free list is the first that can serve the request, with `area`. */
  ghost predicate FirstFit(bs: Blocks, free: seq<int>, k: int, size: int, alignment: int, area: int)
    requires alignment >= 0
  {
    && 0 <= k < |free| && free[k] in bs && area == Fit(free[k], bs[free[k]].size, size, alignment) != 0
    && forall j | 0 <= j < k :: !Fits(bs, free[j], size, alignment)
  }

  /** What a split needs of the header words, and that the words it touches exist and do not overlap. */
  ghost predicate SplitReady(m: Mem, block: int, nextBlock: int, freeAnchor: int, allocSize: int, total: int,
                             flag: bool, nextSize: int) {
    && block + 8 in m && m[block + 8] == total + (if flag then 1 else 0) && nextBlock == block + total
    && nextBlock + 8 in m && m[nextBlock + 8] == nextSize && nextBlock + HEADER < TWO_64
    && total % PAGE_SIZE == 0 && nextSize % PAGE_SIZE == 0 && 0 <= nextSize < TWO_64
    && total >= MIN_BLOCK && 0 <= allocSize && allocSize + HEADER <= total + BONUS
    && (var nextNext := (nextBlock + nextSize) % TWO_64; nextNext + 8 in m && PrevUsed(m[nextNext + 8]))
    && SplitKeys(m, block, nextBlock, Taken(total, allocSize), total - Taken(total, allocSize))
    && AnchorApart(m, freeAnchor, block + 8) && AnchorApart(m, freeAnchor, nextBlock + 8)
  }

  /** What carving behind a front needs: the words it touches exist and do not overlap. `nextNext` is the
    block after the next one. */
  ghost predicate BackReady(m: Mem, block: int, nextBlock: int, freeAnchor: int, lead: int, behind: int, allocSize: int,
                            nextSize: int, nextNext: int) {
    && lead % PAGE_SIZE == 0 && behind % PAGE_SIZE == 0 && nextSize % PAGE_SIZE == 0
    && MIN_BLOCK <= lead && MIN_BLOCK <= behind && nextBlock == block + lead + behind && nextBlock + HEADER < TWO_64
    && 0 <= allocSize && allocSize + HEADER <= behind + BONUS
    && {block + 8, block + 16, block + 24, block + lead, block + lead + 8, nextBlock + 8, nextNext + 8} <= m.Keys
    && PrevUsed(m[block + 8]) && m[nextBlock + 8] == nextSize && PrevUsed(m[nextNext + 8])
    && nextNext == (nextBlock + nextSize) % TWO_64 && 0 <= nextSize < TWO_64
    && SplitKeys(m, block + lead, nextBlock, Taken(behind, allocSize), behind - Taken(behind, allocSize))
    && AnchorApart(m, freeAnchor, block + 8) && AnchorApart(m, freeAnchor, block + 16)
    && AnchorApart(m, freeAnchor, block + lead + 8) && AnchorApart(m, freeAnchor, nextBlock + 8)
    && AnchorApart(m, freeAnchor, nextNext + 8)
    && (nextNext == block || nextNext + HEADER <= block || nextBlock <= nextNext)
  }

  /** The words the split reads next are still what they were. */
  lemma LeadStays(m: Mem, m2: Mem, block: int, nextBlock: int, freeAnchor: int, lead: int, behind: int, nextNext: int)
    requires MIN_BLOCK <= lead && MIN_BLOCK <= behind && nextBlock == block + lead + behind
    requires {block + 8, block + 16, block + 24, block + lead, block + lead + 8, nextBlock + 8, nextNext + 8} <= m.Keys
    requires AnchorApart(m, freeAnchor, block + 8) && AnchorApart(m, freeAnchor, block + 16)
    requires AnchorApart(m, freeAnchor, block + lead + 8) && AnchorApart(m, freeAnchor, nextBlock + 8)
    requires AnchorApart(m, freeAnchor, nextNext + 8)
    requires nextNext == block || nextNext + HEADER <= block || nextBlock <= nextNext
    requires LeadStep(m, m2, block, freeAnchor, lead, behind)
    ensures m2.Keys == m.Keys && m2[block + lead + 8] == behind && m2[nextBlock + 8] == m[nextBlock + 8]
    ensures m2[nextNext + 8] == if nextNext == block then lead + 1 else m[nextNext + 8]
    ensures AnchorApart(m2, block, block + lead + 8) && AnchorApart(m2, block, nextBlock + 8)
  {
  }

  lemma BackSplitReady(m: Mem, m2: Mem, block: int, newBlock: int, nextBlock: int, freeAnchor: int, lead: int,
                       behind: int,
                       allocSize: int, nextSize: int, nextNext: int)
    requires BackReady(m, block, nextBlock, freeAnchor, lead, behind, allocSize, nextSize, nextNext)
    requires LeadStep(m, m2, block, freeAnchor, lead, behind)
    requires newBlock == block + lead
    ensures SplitReady(m2, newBlock, nextBlock, block, allocSize, behind, false, nextSize)
  {
    HeaderWord(lead, true);
    LeadStays(m, m2, block, nextBlock, freeAnchor, lead, behind, nextNext);
  }

  /** The links around `anchor` exist and are no part of the word at `a`. */
  ghost predicate AnchorApart(m: Mem, anchor: int, a: int) {
    anchor + 16 in m && m[anchor + 16] + 24 in m && a != anchor + 16 && a != m[anchor + 16] + 24
  }

  // ----- from the invariant to what the code needs

  /** No list node but `b` itself has a link inside the free block `b` or in the header after it. */
  lemma InsideOffLinks(first: int, last: int, anchor: int, bs: Blocks, list: seq<int>, b: int, a: int)
    requires Tiling(first, last, bs) && Nodes(last, bs, list)
      && (anchor + MIN_BLOCK <= first || last + HEADER <= anchor)
    requires IsFree(last, bs, b) && b <= a < Next(bs, b) + HEADER
    requires forall i | 0 <= i < |list| :: list[i] != b
    ensures OffLinks(anchor, list, a)
  {
    assert Next(bs, b) in bs;
    forall i | 0 <= i < |list| ensures a != list[i] + 16 && a != list[i] + 24 {
      assert list[i] < b ==> Next(bs, list[i]) <= b;
      assert b < list[i] ==> Next(bs, b) <= list[i];
      assert Next(bs, list[i]) in bs;
    }
  }

  lemma AnchorApartFrom(anchor: int, list: seq<int>, m: Mem, k: int, a: int)
    requires Ring(anchor, list, m) && 0 <= k <= |list| && OffLinks(anchor, list, a)
    ensures AnchorApart(m, Node(anchor, list, k), a)
  {
    RingAt(anchor, list, m, k);
  }

  lemma SplicedNodes(first: int, last: int, bs: Blocks, free: seq<int>, k: int)
    requires ListsFree(last, bs, free) && 0 <= k < |free|
    ensures Nodes(last, bs, Splice(free, k, []))
    ensures forall i | 0 <= i < |Splice(free, k, [])| :: Splice(free, k, [])[i] != free[k]
  {
    var list := Splice(free, k, []);
    FreeListNodes(last, bs, free);
    forall i | 0 <= i < |list| ensures list[i] in bs && list[i] != last && list[i] != free[k] {
      assert list[i] == free[if i < k then i else i + 1];
    }
  }

  /** After the block is unlinked, the words around it still read the same, and lie apart from the links. */
  ghost predicate Unlinked(m1: Mem, b: int, total: int, next: int, nextSize: int, nextNext: int, before: int) {
    && FreeBlockWords(m1, b, total, next, nextSize) && nextNext == (next + nextSize) % TWO_64
    && (nextNext == b || nextNext + HEADER <= b || next <= nextNext)
    && AnchorApart(m1, before, nextNext + 8) && next + HEADER < TWO_64
    && (forall a {:trigger AnchorApart(m1, before, a)} | b <= a < next + HEADER :: AnchorApart(m1, before, a))
  }

  lemma UnlinkedBlock(first: int, last: int, anchor: int, bs: Blocks, list: seq<int>, m: Mem, m1: Mem, k: int, b: int)
    returns (nn: int)
    requires Mapped(first, last, anchor, m) && WellFormed(first, last, bs) && Headers(last, bs, m)
    requires IsFree(last, bs, b) && Nodes(last, bs, list) && (forall i | 0 <= i < |list| :: list[i] != b)
    requires 0 <= k <= |list| && Ring(anchor, list, m1) && SameOffLinks(anchor, list, m, m1)
    ensures Next(bs, b) in bs
    ensures Unlinked(m1, b, bs[b].size, Next(bs, b), bs[Next(bs, b)].size, nn, Node(anchor, list, k))
  {
    nn := BlockAfterNext(first, last, anchor, bs, m, b);
    var n := Next(bs, b);
    HeadersOffLinks(first, last, anchor, bs, list, b);
    HeadersOffLinks(first, last, anchor, bs, list, n);
    HeadersOffLinks(first, last, anchor, bs, list, nn);
    SameWordsAround(m, m1, b, bs[b].size, n, bs[n].size, nn);
    AnchorApartFrom(anchor, list, m1, k, nn + 8);
    UnlinkedApart(first, last, anchor, bs, list, m1, k, b);
    OtherHeaderOrSame(first, last, bs, b, nn);
  }

  lemma BlockAfterNext(first: int, last: int, anchor: int, bs: Blocks, m: Mem, b: int) returns (nn: int)
    requires Mapped(first, last, anchor, m) && WellFormed(first, last, bs) && Headers(last, bs, m)
      && IsFree(last, bs, b)
    ensures nn in bs && Next(bs, b) in bs && first <= b < Next(bs, b) <= last
    ensures FreeBlockWords(m, b, bs[b].size, Next(bs, b), bs[Next(bs, b)].size)
    ensures nn == (Next(bs, b) + bs[Next(bs, b)].size) % TWO_64
  {
    FreeNeighbours(first, last, bs, m, b);
    FreeBlock(first, last, anchor, bs, m, b);
    var n := Next(bs, b);
    nn := if n == last then first else Next(bs, n);
    FreeBlockArithmetic(first, last, bs[b].size, bs[n].size, n, nn, 0);
  }

  lemma SameWordsAround(m: Mem, m1: Mem, b: int, total: int, next: int, nextSize: int, nextNext: int)
    requires FreeBlockWords(m, b, total, next, nextSize) && nextNext == (next + nextSize) % TWO_64
    requires m1.Keys == m.Keys && m1[b + 8] == m[b + 8] && m1[next + 8] == m[next + 8]
      && m1[nextNext + 8] == m[nextNext + 8]
    ensures FreeBlockWords(m1, b, total, next, nextSize)
  {
  }

  lemma UnlinkedApart(first: int, last: int, anchor: int, bs: Blocks, list: seq<int>, m1: Mem, k: int, b: int)
    requires Tiling(first, last, bs) && (anchor + MIN_BLOCK <= first || last + HEADER <= anchor)
    requires IsFree(last, bs, b) && Nodes(last, bs, list) && (forall i | 0 <= i < |list| :: list[i] != b)
    requires 0 <= k <= |list| && Ring(anchor, list, m1)
    ensures var before := Node(anchor, list, k);
      forall a {:trigger AnchorApart(m1, before, a)} | b <= a < Next(bs, b) + HEADER :: AnchorApart(m1, before, a)
  {
    forall a | b <= a < Next(bs, b) + HEADER ensures AnchorApart(m1, Node(anchor, list, k), a) {
      InsideOffLinks(first, last, anchor, bs, list, b, a);
      AnchorApartFrom(anchor, list, m1, k, a);
    }
  }

  lemma OtherHeaderOrSame(first: int, last: int, bs: Blocks, b: int, c: int)
    requires Tiling(first, last, bs) && b in bs && c in bs && b != last
    ensures c == b || c + HEADER <= b || Next(bs, b) <= c
  {
    if c < b {
      assert Next(bs, c) <= b;
    }
  }

  lemma FrontReady(m1: Mem, b: int, total: int, next: int, nextSize: int, nextNext: int, before: int, allocSize: int)
    requires Unlinked(m1, b, total, next, nextSize, nextNext, before)
    requires 0 <= allocSize && allocSize + HEADER <= total + BONUS
    requires SplitKeys(m1, b, next, Taken(total, allocSize), total - Taken(total, allocSize))
    ensures SplitReady(m1, b, next, before, allocSize, total, true, nextSize)
  {
    assert AnchorApart(m1, before, b + 8) && AnchorApart(m1, before, next + 8);
  }

  lemma BackReadyHolds(m: Mem, m1: Mem, b: int, total: int, next: int, nextSize: int, nextNext: int, before: int,
                       lead: int, behind: int, allocSize: int, taken: int, rest: int)
    requires Unlinked(m1, b, total, next, nextSize, nextNext, before)
    requires lead % PAGE_SIZE == 0 && MIN_BLOCK <= lead && MIN_BLOCK <= behind == total - lead
    requires 0 <= allocSize && allocSize + HEADER <= behind + BONUS
    requires m1.Keys == m.Keys && {b + 8, b + 16, b + 24, b + lead, b + lead + 8} <= m.Keys
    requires SplitKeys(m, b + lead, next, taken, rest) && taken == Taken(behind, allocSize) && rest == behind - taken
    ensures BackReady(m1, b, next, before, lead, behind, allocSize, nextSize, nextNext)
  {
    HeaderWord(total, true);
    MultiplesAdd(total, lead, PAGE_SIZE);
    assert AnchorApart(m1, before, b + 8) && AnchorApart(m1, before, b + 16) && AnchorApart(m1, before, b + lead + 8)
        && AnchorApart(m1, before, next + 8);
  }

  /** What a placement must satisfy. `taken` is the size of the new block. */
  ghost predicate GoodFit(last: int, bs: Blocks, b: int, area: int, request: int, lead: int, taken: int) {
    && IsFree(last, bs, b) && lead == Lead(b, area) && lead % PAGE_SIZE == 0 && (lead == 0 || lead >= MIN_BLOCK)
    && b + lead + HEADER <= area < b + lead + HEADER + PAGE_SIZE
    && 0 <= request && area + request <= b + bs[b].size + BONUS && lead + MIN_BLOCK <= bs[b].size
    && taken == Taken(bs[b].size - lead, if lead == 0 then request + (area - b - HEADER) else request)
  }

  lemma GoodFitCarves(first: int, last: int, bs: Blocks, b: int, area: int, request: int, lead: int, taken: int)
    requires Tiling(first, last, bs) && PageAligned(last, bs) && GoodFit(last, bs, b, area, request, lead, taken)
    ensures CanCarve(last, bs, b, lead, taken) && taken % PAGE_SIZE == 0
    ensures area + request <= b + lead + taken + BONUS
    ensures 0 <= b && lead == 0 ==> request + (area - b - HEADER) + HEADER <= bs[b].size + BONUS
    ensures lead != 0 ==> request + HEADER <= bs[b].size - lead + BONUS
  {
    TakenSize(bs[b].size - lead, if lead == 0 then request + (area - b - HEADER) else request);
  }

  lemma GoodFitKeys(first: int, last: int, anchor: int, bs: Blocks, m: Mem, b: int, area: int, request: int, lead: int,
                    taken: int)
    requires Mapped(first, last, anchor, m) && Tiling(first, last, bs) && PageAligned(last, bs)
    requires GoodFit(last, bs, b, area, request, lead, taken)
    ensures Next(bs, b) in bs && 0 <= b
    ensures {b + 8, b + 16, b + 24, b + lead, b + lead + 8} <= m.Keys
    ensures SplitKeys(m, b + lead, Next(bs, b), taken, bs[b].size - lead - taken)
    ensures lead == 0 ==> request + (area - b - HEADER) + HEADER <= bs[b].size + BONUS
    ensures lead != 0 ==> request + HEADER <= bs[b].size - lead + BONUS
  {
    GoodFitCarves(first, last, bs, b, area, request, lead, taken);
    CarveKeys(first, last, anchor, bs, m, b, lead, taken);
  }

  /** The moment after `free[k]` has been unlinked: `m` was the memory before, `m1` is the memory now. */
  ghost predicate Unlinking(first: int, last: int, anchor: int, m: Mem, m1: Mem, bs: Blocks, free: seq<int>,
                            list: seq<int>,
                            live: map<int, int>, k: int, nn: int) {
    && Invariant(first, last, anchor, m, bs, free, live)
    && 0 <= k < |free| && free[k] in bs && Next(bs, free[k]) in bs
    && list == Splice(free, k, []) && Ring(anchor, list, m1) && SameOffLinks(anchor, list, m, m1)
    && Node(anchor, list, k) == Node(anchor, free, k)
    && Unlinked(m1, free[k], bs[free[k]].size, Next(bs, free[k]), bs[Next(bs, free[k])].size, nn, Node(anchor, list, k))
  }

  lemma UnlinkReady(first: int, last: int, anchor: int, bs: Blocks, free: seq<int>, m: Mem, k: int)
    requires Mapped(first, last, anchor, m) && WellFormed(first, last, bs) && Headers(last, bs, m)
    requires ListsFree(last, bs, free) && Ring(anchor, free, m) && 0 <= k < |free|
    ensures free[k] in bs && Next(bs, free[k]) in bs && 0 <= free[k] < Next(bs, free[k]) <= last
    ensures FreeBlockWords(m, free[k], bs[free[k]].size, Next(bs, free[k]), bs[Next(bs, free[k])].size)
    ensures Linked(m, Node(anchor, free, k), free[k]) && Linked(m, free[k], Node(anchor, free, k + 2))
  {
    assert free[k] in free && IsFree(last, bs, free[k]);
    FreeBlock(first, last, anchor, bs, m, free[k]);
    RingAt(anchor, free, m, k);
    RingAt(anchor, free, m, k + 1);
  }

  lemma Unlinks(first: int, last: int, anchor: int, m: Mem, m1: Mem, bs: Blocks, free: seq<int>, list: seq<int>,
                live: map<int, int>, k: int)
    returns (nn: int)
    requires Invariant(first, last, anchor, m, bs, free, live)
    requires 0 <= k < |free| && list == Splice(free, k, [])
    requires free[k] + 16 in m && free[k] + 24 in m && m1 == Unlink(m, free[k])
    ensures Unlinking(first, last, anchor, m, m1, bs, free, list, live, k, nn)
  {
    FreeNodesApart(first, last, anchor, bs, free);
    UnlinkKeepsRing(anchor, free, m, k);
    UnlinkFrame(anchor, free, m, k);
    SplicedNodes(first, last, bs, free, k);
    assert free[k] in free && IsFree(last, bs, free[k]);
    nn := UnlinkedBlock(first, last, anchor, bs, list, m, m1, k, free[k]);
  }

  lemma FrontBegin(first: int, last: int, anchor: int, bs: Blocks, free: seq<int>, list: seq<int>, live: map<int, int>,
                   m: Mem, m1: Mem, k: int, nn: int, area: int, request: int, lead: int, taken: int,
                   b: int, n: int, before: int, allocSize: int, total: int, nextSize: int)
    requires Unlinking(first, last, anchor, m, m1, bs, free, list, live, k, nn)
    requires b == free[k] && n == Next(bs, b) && before == Node(anchor, list, k)
    requires total == bs[b].size && nextSize == bs[n].size && allocSize == request + (area - b - HEADER)
    requires GoodFit(last, bs, b, area, request, lead, taken) && lead == 0
    ensures SplitReady(m1, b, n, before, allocSize, total, true, nextSize)
  {
    GoodFitKeys(first, last, anchor, bs, m, b, area, request, lead, taken);
    FrontReady(m1, b, total, n, nextSize, nn, before, allocSize);
  }

  lemma FrontEnd(first: int, last: int, anchor: int, bs: Blocks, free: seq<int>, list: seq<int>, live: map<int, int>,
                 m: Mem, m1: Mem, m': Mem, k: int, nn: int, area: int, request: int, lead: int, taken: int,
                 b: int, n: int, before: int, allocSize: int, total: int, nextSize: int, header: int, rest: int,
                 bs': Blocks, free': seq<int>, live': map<int, int>)
    requires Unlinking(first, last, anchor, m, m1, bs, free, list, live, k, nn)
    requires b == free[k] && n == Next(bs, b) && before == Node(anchor, list, k)
    requires total == bs[b].size && nextSize == bs[n].size && allocSize == request + (area - b - HEADER)
    requires GoodFit(last, bs, b, area, request, lead, taken) && lead == 0
    requires header == taken + 1 && rest == total - taken
    requires SplitStep(m1, m', b, n, before, taken, header, rest, nextSize)
    requires Carved(bs, bs', free, free', live, live', k, lead, taken, area, request)
    ensures Invariant(first, last, anchor, m', bs', free', live')
    ensures area !in live && SameClientWords(live, m, m')
  {
    GoodFitCarves(first, last, bs, b, area, request, 0, taken);
    FrontInvariant(first, last, anchor, bs, bs', free, list, free', live, live', m, m1, m', k, taken, area, request);
  }

  /** The free block `b`, taken off the list, is cut so that its front stays free. */
  ghost predicate BackCase(first: int, last: int, anchor: int, bs: Blocks, free: seq<int>, list: seq<int>,
                           live: map<int, int>, m: Mem, m1: Mem, k: int, nn: int, area: int, request: int, lead: int,
                           taken: int, b: int, n: int, before: int, behind: int, nextSize: int) {
    && Unlinking(first, last, anchor, m, m1, bs, free, list, live, k, nn)
    && b == free[k] && n == Next(bs, b) && before == Node(anchor, list, k)
    && b in bs && n in bs && behind == bs[b].size - lead && nextSize == bs[n].size
    && GoodFit(last, bs, b, area, request, lead, taken) && lead != 0
  }

  lemma BackBegin(first: int, last: int, anchor: int, bs: Blocks, free: seq<int>, list: seq<int>, live: map<int, int>,
                  m: Mem, m1: Mem, k: int, nn: int, area: int, request: int, lead: int, taken: int,
                  b: int, n: int, before: int, behind: int, nextSize: int)
    requires BackCase(first, last, anchor, bs, free, list, live, m, m1, k, nn, area, request, lead, taken,
                      b, n, before, behind, nextSize)
    ensures BackReady(m1, b, n, before, lead, behind, request, nextSize, nn)
  {
    GoodFitKeys(first, last, anchor, bs, m, b, area, request, lead, taken);
    BackReadyHolds(m, m1, b, bs[b].size, n, nextSize, nn, before, lead, behind, request, taken,
                   bs[b].size - lead - taken);
  }

  lemma BackEnd(first: int, last: int, anchor: int, bs: Blocks, free: seq<int>, list: seq<int>, live: map<int, int>,
                m: Mem, m1: Mem, m2: Mem, m': Mem, k: int, nn: int, area: int, request: int, lead: int, taken: int,
                b: int, block: int, n: int, before: int, behind: int, rest: int, nextSize: int,
                bs': Blocks, free': seq<int>, live': map<int, int>)
    requires BackCase(first, last, anchor, bs, free, list, live, m, m1, k, nn, area, request, lead, taken,
                      b, n, before, behind, nextSize)
    requires block == b + lead
    requires LeadStep(m1, m2, b, before, lead, behind)
    requires SplitStep(m2, m', block, n, b, taken, taken, rest, nextSize) && rest == behind - taken
    requires Carved(bs, bs', free, free', live, live', k, lead, taken, area, request)
    ensures Invariant(first, last, anchor, m', bs', free', live')
    ensures area !in live && SameClientWords(live, m, m')
  {
    GoodFitCarves(first, last, bs, b, area, request, lead, taken);
    SplicedOffLinks(anchor, free, k);
    SameOffLinksWider(anchor, list, free, m, m1);
    BackInvariant(first, last, anchor, bs, bs', free, free', live, live', m, m1, m2, m', k, lead, taken, area, request);
  }

  lemma SameOffLinksWider(anchor: int, list: seq<int>, free: seq<int>, m: Mem, m1: Mem)
    requires SameOffLinks(anchor, list, m, m1)
    requires forall i | 0 <= i < |list| :: list[i] in free
    ensures SameOffLinks(anchor, free, m, m1)
  {
    forall a | OffLinks(anchor, free, a) ensures OffLinks(anchor, list, a) {
      forall i | 0 <= i < |list| ensures a != list[i] + 16 && a != list[i] + 24 {
        assert list[i] in free;
      }
    }
  }

  lemma FreeSizes(first: int, last: int, anchor: int, m: Mem, bs: Blocks, b: int)
    requires Mapped(first, last, anchor, m) && WellFormed(first, last, bs) && Headers(last, bs, m)
    requires IsFree(last, bs, b)
    ensures 0 <= b && b % PAGE_SIZE == 0 && bs[b].size % PAGE_SIZE == 0 && bs[b].size >= MIN_BLOCK
    ensures b + bs[b].size + HEADER < TWO_64
    ensures b + 8 in m && m[b + 8] == bs[b].size + 1
  {
    FreeNeighbours(first, last, bs, m, b);
    AlignedBlock(last, bs, b);
  }

  lemma ListedBlock(first: int, last: int, anchor: int, m: Mem, bs: Blocks, free: seq<int>, i: int)
    requires Mapped(first, last, anchor, m) && WellFormed(first, last, bs) && Headers(last, bs, m)
    requires ListsFree(last, bs, free) && 0 <= i <= |free| && Node(anchor, free, i + 1) != anchor
    ensures i < |free| && Node(anchor, free, i + 1) == free[i] && IsFree(last, bs, free[i])
    ensures 0 <= free[i] && free[i] % PAGE_SIZE == 0 && bs[free[i]].size % PAGE_SIZE == 0
      && bs[free[i]].size >= MIN_BLOCK
    ensures free[i] + bs[free[i]].size + HEADER < TWO_64
    ensures free[i] + 8 in m && m[free[i] + 8] == bs[free[i]].size + 1
  {
    assert free[i] in free;
    FreeSizes(first, last, anchor, m, bs, free[i]);
  }

  lemma GoodFitFound(first: int, last: int, bs: Blocks, free: seq<int>, k: int, size: Word, alignment: Word, area: int)
    returns (lead: int, taken: int)
    requires Tiling(first, last, bs) && PageAligned(last, bs) && ListsFree(last, bs, free) && 0 <= first
    requires FirstFit(bs, free, k, size, alignment, area)
    ensures GoodFit(last, bs, free[k], area, size, lead, taken)
  {
    var b := free[k];
    assert b in free && IsFree(last, bs, b);
    assert Next(bs, b) in bs;
    AlignedBlock(last, bs, b);
    FitProperties(b, bs[b].size, size, alignment);
    lead := Lead(b, area);
    taken := Taken(bs[b].size - lead, if lead == 0 then size + (area - b - HEADER) else size);
  }

  /** A request so large that its block size wraps around fits nowhere. */
  lemma NothingFits(first: int, last: int, anchor: int, m: Mem, bs: Blocks, free: seq<int>, size: Word, alignment: Word)
    requires Mapped(first, last, anchor, m) && WellFormed(first, last, bs) && Headers(last, bs, m)
      && ListsFree(last, bs, free)
    requires Sub64(Add64(size, HEADER), BONUS) < size
    ensures forall i | 0 <= i < |free| :: !Fits(bs, free[i], size, alignment)
  {
    assert size + HEADER - BONUS >= TWO_64;
    forall i | 0 <= i < |free| ensures !Fits(bs, free[i], size, alignment) {
      assert free[i] in free;
      FreeSizes(first, last, anchor, m, bs, free[i]);
    }
  }

  lemma TailReached(first: int, last: int, anchor: int, bs: Blocks, free: seq<int>, k: int)
    requires Tiling(first, last, bs) && ListsFree(last, bs, free)
    requires anchor + MIN_BLOCK <= first || last + HEADER <= anchor
    requires 0 <= k <= |free| && Node(anchor, free, k + 1) == anchor
    ensures k == |free|
  {
    FreeNodesApart(first, last, anchor, bs, free);
  }

  /** How the block found is cut, and the picture afterwards. */
  lemma Carving(first: int, last: int, anchor: int, m: Mem, bs: Blocks, free: seq<int>, live: map<int, int>,
                k: int, size: Word, alignment: Word, area: int)
    returns (lead: int, taken: int, bs': Blocks, free': seq<int>, live': map<int, int>)
    requires Invariant(first, last, anchor, m, bs, free, live)
    requires FirstFit(bs, free, k, size, alignment, area)
    ensures 0 <= free[k] < TWO_64
    ensures Served(last, bs, bs', free, free', live, live', k, lead, taken, size, alignment, area)
  {
    lead, taken := GoodFitFound(first, last, bs, free, k, size, alignment, area);
    assert Next(bs, free[k]) in bs;
    bs' := Carve(bs, free[k], lead, taken, area);
    free' := CarvedList(free, k, lead, taken, bs[free[k]].size - lead - taken);
    live' := live[area := size];
    CarvedIsCut(first, last, bs, bs', free, free', live, live', k, lead, taken, area, size);
  }

  // ----- freeing

  /** The used block `b` after it has been given back: what was free in front of it, it, and what was free behind it are
    one free block, and all others stay what they are. */
  ghost predicate Joined(last: int, bs: Blocks, bs': Blocks, b: int, start: int) {
    && b in bs && Next(bs, b) in bs
    && (if bs[b].prevUsed then start == b else IsFree(last, bs, start) && Next(bs, start) == b)
    && var n := Next(bs, b); var end := if n != last && !bs[n].used then n + bs[n].size else n;
    && IsFree(last, bs', start) && bs'[start].size == end - start
    && (forall c | c in bs' && c != start :: c in bs && bs'[c] == bs[c].(prevUsed := bs'[c].prevUsed))
    && (forall c | c in bs && c != b && (c == last || c != n || bs[n].used) :: c in bs')
  }

  /** The free block has the place of the one in front, or of the one behind, or it is the first of the list. */
  ghost predicate ListJoined(last: int, bs: Blocks, free: seq<int>, free': seq<int>, b: int, k: int) {
    && b in bs && Next(bs, b) in bs
    && var n := Next(bs, b);
       if n != last && !bs[n].used then
         && 0 <= k < |free| && free[k] == n
         && free' == free[..k] + (if bs[b].prevUsed then [b] else []) + free[k + 1..]
       else free' == (if bs[b].prevUsed then [b] else []) + free
  }

  lemma ReleasedIsJoined(first: int, last: int, bs: Blocks, bs': Blocks, free: seq<int>, free': seq<int>,
                         live: map<int, int>, live': map<int, int>, b: int, start: int, k: int)
    requires Tiling(first, last, bs) && Flags(first, last, bs)
    requires Released(last, bs, bs', free, free', live, live', b, start, k)
    ensures Joined(last, bs, bs', b, start) && ListJoined(last, bs, free, free', b, k)
  {
    JoinedBlocks(first, last, bs, bs', b, start);
    assert [] + free == free;
  }

  lemma JoinedBlocks(first: int, last: int, bs: Blocks, bs': Blocks, b: int, start: int)
    requires Tiling(first, last, bs) && Flags(first, last, bs)
    requires CanRelease(last, bs, b, start) && bs' == Release(last, bs, b, start)
    ensures Joined(last, bs, bs', b, start)
  {
    ReleaseAt(first, last, bs, b, start, start);
    forall c | c in bs' && c != start ensures c in bs && bs'[c] == bs[c].(prevUsed := bs'[c].prevUsed) {
      ReleaseAt(first, last, bs, b, start, c);
    }
    forall c | c in bs && c != b && (c == last || c != Next(bs, b) || bs[c].used) ensures c in bs' {
      ReleaseAt(first, last, bs, b, start, c);
    }
  }

  /** The words `heapFree` reads before it knows whether the block is used. */
  lemma BlockReads(first: int, last: int, anchor: int, bs: Blocks, m: Mem, b: int)
    requires Mapped(first, last, anchor, m) && WellFormed(first, last, bs) && Headers(last, bs, m)
    requires b in bs && b != last
    ensures b + 8 in m && SizeOf(m[b + 8]) == bs[b].size
    ensures Next(bs, b) in bs && 0 <= first <= b < Next(bs, b) <= last
    ensures Next(bs, b) + 8 in m && PrevUsed(m[Next(bs, b) + 8]) == bs[b].used
  {
    var n := Next(bs, b);
    assert n in bs;
    SizeAligned(first, last, bs, b);
    SizeAligned(first, last, bs, n);
    HeaderWord(bs[b].size, bs[b].prevUsed);
    HeaderWord(bs[n].size, bs[n].prevUsed);
  }

  /** The picture after the release, and the values the code computes on the way there. */
  lemma FreeReady(first: int, last: int, anchor: int, m: Mem, bs: Blocks, free: seq<int>, live: map<int, int>, b: int,
                  n: int)
    returns (start: int, end: int, k: int, bs': Blocks, free': seq<int>, live': map<int, int>)
    requires Invariant(first, last, anchor, m, bs, free, live) && IsUsed(last, bs, b) && n == Next(bs, b)
    ensures FreeFound(first, last, anchor, m, bs, bs', free, free', live, live', b, n, start, end, k)
    ensures Released(last, bs, bs', free, free', live, live', b, start, k)
  {
    start, k := UsedBlock(first, last, anchor, bs, free, live, m, b);
    end := End(last, bs, b);
    bs' := Release(last, bs, b, start);
    free' := ReleasedList(free, IsFree(last, bs, n), k, b, start);
    live' := live - {bs[b].area};
    HeaderWord(bs[n].size, true);
    HeaderWord(bs[b].size, bs[b].prevUsed);
  }

  /** What the words around a used block say. */
  ghost predicate FreeFound(first: int, last: int, anchor: int, m: Mem, bs: Blocks, bs': Blocks, free: seq<int>,
                            free': seq<int>, live: map<int, int>, live': map<int, int>, b: int, n: int, start: int,
                            end: int, k: int) {
    && Freeing(first, last, anchor, m, bs, bs', free, free', live, live', b, n, start, end, k)
    && b in bs && n in bs && 0 <= start && end < TWO_64
    && n + 8 in m && SizeOf(m[n + 8]) == bs[n].size && b + 8 in m && PrevUsed(m[b + 8]) == bs[b].prevUsed
    && (start != b ==> b in m && m[b] == b - start && start + 8 in m && PrevUsed(m[start + 8]))
    && first <= start <= b <= last && (bs[b].prevUsed <==> start == b)
    && (n != last ==> 0 <= n + bs[n].size <= last && n + bs[n].size + 8 in m
                      && PrevUsed(m[n + bs[n].size + 8]) == !IsFree(last, bs, n))
    && end == (if IsFree(last, bs, n) then n + bs[n].size else n)
  }
}
