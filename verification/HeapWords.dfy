/** The arithmetic of heap.c on 64-bit words: size words with a flag, where an allocation goes, and how much
  it takes. */
module HeapWords {
  import opened Arith
  import opened HeapLayout
  import opened Words

  // ----- 64-bit words

  function Add64(a: Word, b: Word): Word { (a + b) % TWO_64 }
  function Sub64(a: Word, b: Word): Word { (a - b) % TWO_64 }

  /** The size in a `size` word, without the flag in its low bit. */
  function SizeOf(word: int): int { word - word % 2 }
  function FlagOf(word: int): int { word % 2 }
  function PrevUsed(word: int): bool { FlagOf(word) == 1 }

  lemma HeaderWord(size: int, flag: bool)
    requires size % PAGE_SIZE == 0
    ensures var word := size + (if flag then 1 else 0);
      SizeOf(word) == size && PrevUsed(word) == flag && FlagOf(word) == if flag then 1 else 0
  {
    var half := size / PAGE_SIZE * 4;
    DivModUnique(size + (if flag then 1 else 0), 2, half, if flag then 1 else 0);
  }

  // ----- where an allocation goes

  /** The highest multiple of `alignment` that leaves `size` bytes, and a block of minimal size, up to the end. */
  function Candidate(b: int, blockSize: int, size: int, alignment: int): int
    requires alignment > 0
  {
    var end := b + blockSize;
    var highest := end - MIN_BLOCK + HEADER + PAGE_SIZE - 1;
    AlignDown(if end + BONUS - size < highest then end + BONUS - size else highest, alignment)
  }

  function Lead(b: int, area: int): int { BlockOf(area) - b }

  /** The pointer that the free block `b` gives to a request, or 0. */
  function Fit(b: int, blockSize: int, size: int, alignment: int): int
    requires alignment >= 0
  {
    if blockSize < size + HEADER - BONUS then 0
    else if alignment == 0 then b + HEADER
    else
      var area := Candidate(b, blockSize, size, alignment);
      if area >= b + HEADER && (Lead(b, area) == 0 || Lead(b, area) >= MIN_BLOCK) then area else 0
  }

  function UsedSize(allocSize: int): int {
    (if allocSize > MIN_BLOCK - HEADER then allocSize else MIN_BLOCK - HEADER) + HEADER
  }

  /** How much of `total` bytes a block for `allocSize` bytes takes: all of it if what is left would be too
    small for a block of its own. */
  function Taken(total: int, allocSize: int): int {
    if UsedSize(allocSize) + MIN_BLOCK <= total then AlignUp(UsedSize(allocSize), PAGE_SIZE) else total
  }

  /** Rounding down twice, as the code does, finds the same multiple as rounding down the smaller bound. */
  lemma AlignDownTwice(value: int, ceiling: int, alignment: int)
    requires alignment > 0 && value >= 0 && ceiling >= 0
    ensures var once := AlignDown(value, alignment);
      && 0 <= once <= value && 0 <= AlignDown(ceiling, alignment) <= ceiling
      && (if once > ceiling then AlignDown(ceiling, alignment) else once)
         == AlignDown(if value < ceiling then value else ceiling, alignment)
  {
    AlignDownIsMultiple(value, alignment);
    AlignDownIsMultiple(ceiling, alignment);
    var q := value / alignment;
    assert AlignDown(value, alignment) == q * alignment;
    if q * alignment <= ceiling <= value {
      DivModUnique(ceiling, alignment, q, ceiling - q * alignment);
    }
  }

  /** The candidate is the highest multiple of the alignment at which the request still fits. */
  lemma CandidateIsHighest(b: int, blockSize: int, size: int, alignment: int, p: int)
    requires alignment > 0 && p % alignment == 0
    ensures var c := Candidate(b, blockSize, size, alignment); var end := b + blockSize;
      && c % alignment == 0 && c + size <= end + BONUS && c < end - MIN_BLOCK + HEADER + PAGE_SIZE
      && (p + size <= end + BONUS && p < end - MIN_BLOCK + HEADER + PAGE_SIZE ==> p <= c)
  {
    var end := b + blockSize;
    var highest := end - MIN_BLOCK + HEADER + PAGE_SIZE - 1;
    var bound := if end + BONUS - size < highest then end + BONUS - size else highest;
    AlignDownIsMultiple(bound, alignment);
    NoMultipleBetween(bound, alignment, p);
  }

  lemma NoMultipleBetween(bound: int, alignment: int, p: int)
    requires alignment > 0 && p % alignment == 0
    ensures p <= bound ==> p <= AlignDown(bound, alignment)
  {
    var q, top := p / alignment, bound / alignment;
    assert p == q * alignment && AlignDown(bound, alignment) == top * alignment;
    assert (top + 1) * alignment == top * alignment + alignment;
    if q <= top {
      ProductMonotone(q, top, alignment);
    } else {
      ProductMonotone(top + 1, q, alignment);
    }
  }

  /** An aligned request fails in a block that is large enough exactly when the highest multiple lies below the
    area, or leaves a front that is too small for a block of its own; lower multiples are not tried. */
  lemma AlignedFitFails(b: int, blockSize: int, size: int, alignment: int)
    requires b >= 0 && b % PAGE_SIZE == 0 && alignment > 0 && blockSize >= size + HEADER - BONUS
    ensures var c := Candidate(b, blockSize, size, alignment);
      Fit(b, blockSize, size, alignment) == 0
      <==> c < b + HEADER || b + HEADER + PAGE_SIZE <= c < b + HEADER + MIN_BLOCK
  {
    var c := Candidate(b, blockSize, size, alignment);
    BlockOfArea(b, c);
    LeadBounds(Lead(b, c), c - b - HEADER);
  }

  /** The request could be served at `p`: aligned, inside the block with the bonus word, with no front or one that is a
    block of its own, and with a minimal block from there on. */
  predicate Servable(b: int, blockSize: int, size: int, alignment: int, p: int)
    requires alignment > 0
  {
    && p % alignment == 0 && b + HEADER <= p && p + size <= b + blockSize + BONUS
    && p < b + blockSize - MIN_BLOCK + HEADER + PAGE_SIZE
    && (Lead(b, p) == 0 || Lead(b, p) >= MIN_BLOCK)
  }

  predicate InFirstPage(b: int, alignment: int, p: int)
    requires alignment > 0
  {
    p % alignment == 0 && b + HEADER <= p < b + HEADER + PAGE_SIZE
  }

  /** A block that could serve the request is missed exactly when the highest multiple leaves too small a front, and a
    lower one lies in the first page. */
  lemma AlignedFitMisses(b: int, blockSize: int, size: int, alignment: int)
    requires b >= 0 && b % PAGE_SIZE == 0 && alignment > 0 && blockSize >= size + HEADER - BONUS
    ensures var c := Candidate(b, blockSize, size, alignment);
      (Fit(b, blockSize, size, alignment) == 0 && exists p :: Servable(b, blockSize, size, alignment, p))
      <==> (b + HEADER + PAGE_SIZE <= c < b + HEADER + MIN_BLOCK && exists p :: InFirstPage(b, alignment, p))
  {
    var c := Candidate(b, blockSize, size, alignment);
    AlignedFitFails(b, blockSize, size, alignment);
    if Fit(b, blockSize, size, alignment) == 0 && exists p :: Servable(b, blockSize, size, alignment, p) {
      var p :| Servable(b, blockSize, size, alignment, p);
      CandidateIsHighest(b, blockSize, size, alignment, p);
      BlockOfArea(b, p);
      LeadBounds(Lead(b, p), p - b - HEADER);
      assert InFirstPage(b, alignment, p);
    }
    if b + HEADER + PAGE_SIZE <= c < b + HEADER + MIN_BLOCK && exists p :: InFirstPage(b, alignment, p) {
      var p :| InFirstPage(b, alignment, p);
      CandidateIsHighest(b, blockSize, size, alignment, p);
      BlockOfArea(b, p);
      LeadBounds(Lead(b, p), p - b - HEADER);
      assert Servable(b, blockSize, size, alignment, p);
    }
  }

  lemma LeadBounds(lead: int, offset: int)
    requires lead % PAGE_SIZE == 0 && lead <= offset < lead + PAGE_SIZE
    ensures lead == 0 <==> 0 <= offset < PAGE_SIZE
    ensures lead >= MIN_BLOCK <==> offset >= MIN_BLOCK
  {
  }

  /** So 32 bytes aligned to 8 are refused by a free block of 64 bytes that gives them out unaligned, at an
    address that is a multiple of 8. */
  lemma AlignedSearchMisses()
    ensures Fit(64, 64, 32, 8) == 0 && Fit(64, 64, 32, 0) == 80 && 80 % 8 == 0
  {
  }

  /** Of `total` bytes, a block for `n` bytes of area takes all, exactly when less than a block of minimal size would be
    left behind the bytes it needs; otherwise it takes the least whole number of pages that holds them. It needs its
    header and `n` bytes, and at least a block of minimal size. */
  predicate LeastBlock(total: int, n: int, taken: int) {
    if n + HEADER + MIN_BLOCK <= total && MIN_BLOCK + MIN_BLOCK <= total then
      && taken % PAGE_SIZE == 0 && n + HEADER <= taken && MIN_BLOCK <= taken
      && (taken - PAGE_SIZE < n + HEADER || taken - PAGE_SIZE < MIN_BLOCK)
    else taken == total
  }

  lemma TakenIsLeast(total: int, n: int)
    ensures LeastBlock(total, n, Taken(total, n))
  {
  }

  /** So what a block takes leaves all that is left behind any other whole number of pages that would do. */
  lemma LeastLeavesMost(total: int, n: int, taken: int, room: int)
    requires LeastBlock(total, n, taken) && total % PAGE_SIZE == 0
    requires room % PAGE_SIZE == 0 && n + HEADER <= room && MIN_BLOCK <= room && room + MIN_BLOCK <= total
    ensures taken <= room && taken % PAGE_SIZE == 0 && taken + MIN_BLOCK <= total
  {
  }

  lemma TakenSize(total: int, allocSize: int)
    requires total % PAGE_SIZE == 0 && total >= MIN_BLOCK && allocSize >= 0
    requires allocSize + HEADER - BONUS <= total
    ensures var t := Taken(total, allocSize);
      && t % PAGE_SIZE == 0 && MIN_BLOCK <= t && (t == total || t + MIN_BLOCK <= total)
      && allocSize + HEADER <= t + BONUS && (t != total ==> allocSize + HEADER <= t)
      && FlagOf(t) == 0 && FlagOf(total) == 0
      && (t != total <==> UsedSize(allocSize) + MIN_BLOCK <= total)
      && (t != total ==> t == AlignUp(UsedSize(allocSize), PAGE_SIZE))
  {
  }

  lemma FitProperties(b: int, blockSize: int, size: int, alignment: int)
    requires b % PAGE_SIZE == 0 && blockSize % PAGE_SIZE == 0 && blockSize >= MIN_BLOCK && b >= 0
    requires size >= 0 && alignment >= 0
    ensures var p := Fit(b, blockSize, size, alignment);
      p != 0 ==>
        && b + HEADER <= p && p + size <= b + blockSize + BONUS
        && (alignment != 0 ==> p % alignment == 0)
        && Lead(b, p) % PAGE_SIZE == 0 && (Lead(b, p) == 0 || Lead(b, p) >= MIN_BLOCK)
        && Lead(b, p) + MIN_BLOCK <= blockSize
        && b + Lead(b, p) + HEADER <= p < b + Lead(b, p) + HEADER + PAGE_SIZE
  {
    var p := Fit(b, blockSize, size, alignment);
    if p != 0 {
      if alignment != 0 {
        var end := b + blockSize;
        var highest := end - MIN_BLOCK + HEADER + PAGE_SIZE - 1;
        AlignDownIsMultiple(if end + BONUS - size < highest then end + BONUS - size else highest, alignment);
      }
      BlockOfArea(b, p);
    }
  }

  lemma BlockOfArea(b: int, p: int)
    requires b % PAGE_SIZE == 0
    ensures Lead(b, p) % PAGE_SIZE == 0
    ensures b + Lead(b, p) + HEADER <= p < b + Lead(b, p) + HEADER + PAGE_SIZE
  {
  }

  // ----- facts about a free block that the code relies on

  /** The words around a free block, as the code reads them. */
  ghost predicate FreeBlockWords(m: Mem, b: int, total: int, next: int, nextSize: int) {
    && b + 8 in m && next + 8 in m && m[b + 8] == total + 1 && m[next + 8] == nextSize
    && next == b + total && total % PAGE_SIZE == 0 && nextSize % PAGE_SIZE == 0 && total >= MIN_BLOCK
    && 0 <= next < TWO_64 && 0 <= nextSize < TWO_64
    && (next + nextSize) % TWO_64 + 8 in m && PrevUsed(m[(next + nextSize) % TWO_64 + 8])
  }

  lemma SentinelSize(first: int, last: int)
    requires 0 <= first < last < TWO_64 && first % PAGE_SIZE == 0 && last % PAGE_SIZE == 0
    ensures (last + (TWO_64 + first - last)) % TWO_64 == first
    ensures (TWO_64 + first - last) % PAGE_SIZE == 0 && 0 <= TWO_64 + first - last < TWO_64
  {
  }

  /** The neighbours of a free block are used, and the sentinel is followed by the first block. */
  lemma FreeNeighbours(first: int, last: int, bs: Blocks, m: Mem, b: int)
    requires Tiling(first, last, bs) && Flags(first, last, bs) && Headers(last, bs, m)
    requires IsFree(last, bs, b)
    ensures Next(bs, b) in bs && bs[b].prevUsed && first <= b < Next(bs, b) <= last && bs[b].size >= MIN_BLOCK
    ensures b + 8 in m && Next(bs, b) + 8 in m
    ensures m[b + 8] == bs[b].size + 1 && m[Next(bs, b) + 8] == bs[Next(bs, b)].size
    ensures var n := Next(bs, b); var nn := if n == last then first else Next(bs, n);
      nn in bs && nn + 8 in m && m[nn + 8] == bs[nn].size + 1 && (n != last ==> nn <= last)
  {
    var n := Next(bs, b);
    assert n in bs && bs[n].used && !bs[n].prevUsed;
    if n != last {
      assert Next(bs, n) in bs && bs[Next(bs, n)].prevUsed;
    }
  }

  lemma SizeAligned(first: int, last: int, bs: Blocks, b: int)
    requires PageAligned(last, bs) && first in bs && last in bs && 0 <= first < last < TWO_64 && b in bs
    requires bs[last].size == TWO_64 + first - last
    ensures b % PAGE_SIZE == 0 && bs[b].size % PAGE_SIZE == 0
  {
    SentinelSize(first, last);
  }

  lemma FreeBlock(first: int, last: int, anchor: int, bs: Blocks, m: Mem, b: int)
    requires Mapped(first, last, anchor, m) && WellFormed(first, last, bs) && Headers(last, bs, m)
    requires IsFree(last, bs, b)
    ensures Next(bs, b) in bs && bs[b].prevUsed && first <= b < Next(bs, b) <= last
    ensures FreeBlockWords(m, b, bs[b].size, Next(bs, b), bs[Next(bs, b)].size)
  {
    FreeNeighbours(first, last, bs, m, b);
    var n := Next(bs, b);
    var nn := if n == last then first else Next(bs, n);
    SizeAligned(first, last, bs, b);
    SizeAligned(first, last, bs, n);
    SizeAligned(first, last, bs, nn);
    SentinelSize(first, last);
    FreeBlockArithmetic(first, last, bs[b].size, bs[n].size, n, nn, bs[nn].size);
  }

  lemma FreeBlockArithmetic(first: int, last: int, total: int, nextSize: int, n: int, nn: int, size: int)
    requires 0 <= first < n <= last && last + HEADER < TWO_64 && size % PAGE_SIZE == 0
    requires if n == last then nextSize == TWO_64 + first - last && nn == first
             else nn == n + nextSize && n < nn <= last
    ensures (n + nextSize) % TWO_64 == nn && 0 <= nextSize < TWO_64 && PrevUsed(size + 1)
  {
  }
}
