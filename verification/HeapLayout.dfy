/** The block structure behind ppu/librt/heap.c, over raw memory words.

  Memory is a map from byte addresses to 64-bit words. A block header is the two words at the block's
  address: `prev_size` and then `size`, whose low bit says whether the PREVIOUS block is in use. A free
  block also holds its two free-list links, in the next two words. The `prev_size` word of a block
  belongs to the usable area of the block before it as long as that block is in use (the bonus word).

  Next to the memory stands a ghost picture of the blocks, `bs`, from block address to Block. The
  predicates below say when the memory shows that picture. */
module HeapLayout {
  import opened Arith
  import opened Words

  const PAGE_SIZE := 8         // PPU_ALIGNMENT
  const HEADER := 16           // HEAP_BLOCK_HEADER_SIZE
  const BONUS := 8             // HEAP_BLOCK_ALLOC_BONUS
  const MIN_BLOCK := 32        // sizeof(heap_block), a multiple of PAGE_SIZE

  type Word = x: int | 0 <= x < TWO_64
  type Mem = map<int, int>

  /** `area` is the pointer handed to the client of a used block. */
  datatype Block = Block(size: int, used: bool, prevUsed: bool, area: int)
  type Blocks = map<int, Block>

  function AlignDown(value: int, alignment: int): int
    requires alignment > 0
  {
    value - value % alignment
  }

  function AlignUp(value: int, alignment: int): int
    requires alignment > 0
  {
    var remainder := value % alignment;
    if remainder != 0 then value - remainder + alignment else value
  }

  lemma AlignDownIsMultiple(value: int, alignment: int)
    requires alignment > 0
    ensures AlignDown(value, alignment) % alignment == 0
    ensures AlignDown(value, alignment) <= value < AlignDown(value, alignment) + alignment
    ensures value >= 0 ==> AlignDown(value, alignment) >= 0
  {
    var q := value / alignment;
    MultipleHasNoRemainder(q, alignment);
    assert AlignDown(value, alignment) == q * alignment;
    if value >= 0 {
      ProductMonotone(0, q, alignment);
    }
  }

  /** The header of the block whose area contains `area`. */
  function BlockOf(area: int): int {
    AlignDown(area, PAGE_SIZE) - HEADER
  }

  function Next(bs: Blocks, b: int): int
    requires b in bs
  {
    b + bs[b].size
  }

  // ----- the ghost picture

  /** The blocks from `first` tile the memory up to `last`, which is the sentinel header at the end. */
  ghost predicate Tiling(first: int, last: int, bs: Blocks) {
    && first in bs && last in bs && first < last
    && (forall b <- bs :: first <= b <= last)
    && (forall b {:trigger Next(bs, b)} | b in bs && b != last :: MIN_BLOCK <= bs[b].size && Next(bs, b) in bs)
    && (forall b, c {:trigger Next(bs, b), c in bs} | b in bs && c in bs && b < c :: Next(bs, b) <= c)
  }

  ghost predicate PageAligned(last: int, bs: Blocks) {
    forall b <- bs :: b % PAGE_SIZE == 0 && (b != last ==> bs[b].size % PAGE_SIZE == 0)
  }

  /** The flags agree with the neighbours, and no two free blocks are neighbours. */
  ghost predicate Flags(first: int, last: int, bs: Blocks)
    requires Tiling(first, last, bs)
  {
    && bs[first].prevUsed
    && bs[last].used && bs[last].size == TWO_64 + first - last
    && (forall b {:trigger Next(bs, b)} | b in bs && b != last :: bs[Next(bs, b)].prevUsed == bs[b].used)
    && (forall b <- bs :: bs[b].used || bs[b].prevUsed)
  }

  ghost predicate IsFree(last: int, bs: Blocks, b: int) {
    b in bs && b != last && !bs[b].used
  }

  ghost predicate IsUsed(last: int, bs: Blocks, b: int) {
    b in bs && b != last && bs[b].used
  }

  ghost predicate WellFormed(first: int, last: int, bs: Blocks) {
    Tiling(first, last, bs) && PageAligned(last, bs) && Flags(first, last, bs)
  }

  /** The header words show the picture; the `prev_size` word counts only after a free block. */
  ghost predicate Headers(last: int, bs: Blocks, m: Mem) {
    && (forall b <- bs :: b + 8 in m && m[b + 8] == bs[b].size + (if bs[b].prevUsed then 1 else 0))
    && (forall b {:trigger Next(bs, b)} | b in bs && b != last && !bs[b].used ::
          Next(bs, b) in m && m[Next(bs, b)] == bs[b].size)
  }

  /** `live` maps every pointer handed out and not yet freed to the size asked for. Each starts in the
    first page of its own used block's area, and its bytes end at the latest with the bonus word. */
  ghost predicate Areas(last: int, bs: Blocks, live: map<int, int>) {
    UsedFit(last, bs, live) && AllOwned(last, bs, live)
  }

  ghost predicate UsedFit(last: int, bs: Blocks, live: map<int, int>) {
    forall b {:trigger IsUsed(last, bs, b)} | IsUsed(last, bs, b) ::
      && b + HEADER <= bs[b].area < b + HEADER + PAGE_SIZE
      && bs[b].area in live
      && 0 <= live[bs[b].area]
      && bs[b].area + live[bs[b].area] <= Next(bs, b) + BONUS
  }

  ghost predicate AllOwned(last: int, bs: Blocks, live: map<int, int>) {
    forall p <- live :: exists b :: IsUsed(last, bs, b) && bs[b].area == p
  }

  // ----- the free list, a ring through the sentinel at address `anchor`

  function Node(anchor: int, free: seq<int>, i: int): int {
    if 1 <= i <= |free| then free[i - 1] else anchor
  }

  ghost predicate Linked(m: Mem, x: int, y: int) {
    x + 16 in m && m[x + 16] == y && y + 24 in m && m[y + 24] == x
  }

  ghost predicate Ring(anchor: int, free: seq<int>, m: Mem) {
    forall i, j {:trigger Node(anchor, free, i), Node(anchor, free, j)} | 0 <= i <= |free| && j == i + 1 ::
      Linked(m, Node(anchor, free, i), Node(anchor, free, j))
  }

  /** The nodes of the ring do not overlap. */
  ghost predicate Apart(anchor: int, free: seq<int>) {
    && (forall i, j | 0 <= i < j < |free| :: free[i] + MIN_BLOCK <= free[j] || free[j] + MIN_BLOCK <= free[i])
    && (forall i | 0 <= i < |free| :: free[i] + MIN_BLOCK <= anchor || anchor + MIN_BLOCK <= free[i])
  }

  ghost predicate ListsFree(last: int, bs: Blocks, free: seq<int>) {
    && (forall b {:trigger b in free} | b in free :: IsFree(last, bs, b))
    && (forall b {:trigger IsFree(last, bs, b)} | IsFree(last, bs, b) :: b in free)
    && (forall i, j | 0 <= i < j < |free| :: free[i] != free[j])
  }

  // ----- everything together

  /** The words of the headers, the links and the sentinel exist; the sentinel lies outside the heap. */
  ghost predicate Mapped(first: int, last: int, anchor: int, m: Mem) {
    && 0 <= first && last + HEADER < TWO_64
    && 0 <= anchor && anchor + MIN_BLOCK <= TWO_64
    && (anchor + MIN_BLOCK <= first || last + HEADER <= anchor)
    && anchor + 16 in m && anchor + 24 in m
    && (forall a | first <= a < last + HEADER && a % PAGE_SIZE == 0 :: a in m)
  }

  ghost predicate Invariant(first: int, last: int, anchor: int, m: Mem, bs: Blocks, free: seq<int>,
                            live: map<int, int>) {
    && Mapped(first, last, anchor, m)
    && WellFormed(first, last, bs)
    && Headers(last, bs, m)
    && ListsFree(last, bs, free)
    && Ring(anchor, free, m)
    && Areas(last, bs, live)
  }

  /** Every live pointer gives its bytes [p, p+live[p]) a place inside the heap, apart from the others. */
  ghost predicate LiveDisjoint(first: int, last: int, live: map<int, int>) {
    && (forall p <- live :: first + HEADER <= p && 0 <= live[p] && p + live[p] <= last + BONUS)
    && (forall p, q | p in live && q in live && p < q :: p + live[p] <= q)
  }

  /** A word that holds a byte of a live area, perhaps the bonus word. */
  ghost predicate ClientWord(live: map<int, int>, a: int) {
    exists p :: p in live && p < a + 8 && a < p + live[p]
  }

  ghost predicate SameClientWords(live: map<int, int>, m: Mem, m': Mem) {
    forall a <- m | ClientWord(live, a) :: a in m' && m'[a] == m[a]
  }
}
