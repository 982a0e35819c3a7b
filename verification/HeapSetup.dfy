/** The picture `heapInit` draws, and why the memory shows it. */
module HeapSetup {
  import opened Arith
  import opened HeapLayout
  import opened HeapWords
  import opened Words

  /** One free block, and the sentinel behind it. */
  ghost function InitialBlocks(first: int, last: int): Blocks {
    map[first := Block(last - first, false, true, 0), last := Block(TWO_64 + first - last, true, false, 0)]
  }

  /** The words the set-up leaves behind. */
  ghost predicate InitialWords(first: int, last: int, anchor: int, m: Mem) {
    && {first + 8, first + 16, first + 24, last, last + 8, anchor + 16, anchor + 24} <= m.Keys
    && m[first + 8] == last - first + 1 && m[last] == last - first && m[last + 8] == TWO_64 + first - last
    && m[first + 16] == anchor && m[first + 24] == anchor && m[anchor + 16] == first && m[anchor + 24] == first
  }

  lemma InitialInvariant(first: int, last: int, anchor: int, m: Mem)
    requires Mapped(first, last, anchor, m) && first + MIN_BLOCK <= last
    requires first % PAGE_SIZE == 0 && last % PAGE_SIZE == 0
    requires InitialWords(first, last, anchor, m)
    ensures Invariant(first, last, anchor, m, InitialBlocks(first, last), [first], map[])
  {
    var bs := InitialBlocks(first, last);
    MultiplesAdd(last, first, PAGE_SIZE);
    assert Next(bs, first) == last;
    assert Tiling(first, last, bs) && Flags(first, last, bs);
    assert IsFree(last, bs, first) && [first][0] == first;
    assert Linked(m, anchor, first) && Linked(m, first, anchor);
  }

  /** Where the first block and the sentinel go, and when there is room for them. The overhead is computed on
    wrapping words; a wrap never slips past the checks. */
  predicate HasRoom(start: int, size: int) {
    start + size < TWO_64 && AlignUp(start, PAGE_SIZE) + HEADER + MIN_BLOCK <= start + size
  }

  /** `__heap_align_up` to the page size, on words. */
  function AlignUp64(value: Word): Word { AlignUp(value, PAGE_SIZE) % TWO_64 }

  function FirstBlock(start: Word): Word { Sub64(AlignUp64(Add64(start, HEADER)), HEADER) }
  function Overhead(start: Word): Word { Add64(HEADER, Sub64(FirstBlock(start), start)) }

  lemma WrapCases(x: int)
    requires -TWO_64 <= x < 2 * TWO_64
    ensures x % TWO_64 == if x < 0 then x + TWO_64 else if x < TWO_64 then x else x - TWO_64
  {
    if x < 0 {
      DivModUnique(x, TWO_64, -1, x + TWO_64);
    } else if x < TWO_64 {
      DivModUnique(x, TWO_64, 0, x);
    } else {
      DivModUnique(x, TWO_64, 1, x - TWO_64);
    }
  }

  /** How far rounding up goes. */
  function Gap(value: int): int {
    if value % PAGE_SIZE == 0 then 0 else PAGE_SIZE - value % PAGE_SIZE
  }

  lemma GapShifts(value: int, step: int)
    requires step % PAGE_SIZE == 0
    ensures Gap(value + step) == Gap(value) && 0 <= Gap(value) < PAGE_SIZE
    ensures AlignUp(value, PAGE_SIZE) == value + Gap(value) && AlignUp(value, PAGE_SIZE) % PAGE_SIZE == 0
  {
    var q, r := value / PAGE_SIZE, value % PAGE_SIZE;
    var p := step / PAGE_SIZE;
    DivModUnique(value + step, PAGE_SIZE, q + p, r);
    MultipleHasNoRemainder(if r == 0 then q else q + 1, PAGE_SIZE);
  }

  lemma FirstBlockWraps(start: Word)
    ensures Sub64(FirstBlock(start), start) == Gap(start)
    ensures start + Gap(start) < TWO_64 ==> FirstBlock(start) == start + Gap(start)
  {
    var u := Add64(start, HEADER);
    WrapCases(start + HEADER);
    GapShifts(start, u - start);
    GapShifts(u, 0);
    WrapCases(u + Gap(u));
    WrapCases(AlignUp64(u) - HEADER);
    WrapCases(FirstBlock(start) - start);
  }

  lemma RoomChecks(start: Word, size: Word)
    ensures var first, overhead := FirstBlock(start), Overhead(start);
            var r := AlignDown(Sub64(size, overhead), PAGE_SIZE);
      && (Add64(start, size) < start || size <= overhead || r < MIN_BLOCK <==> !HasRoom(start, size))
      && (HasRoom(start, size) ==>
            && first == AlignUp(start, PAGE_SIZE) && r == AlignDown(start + size - first - HEADER, PAGE_SIZE)
            && first % PAGE_SIZE == 0 && r % PAGE_SIZE == 0 && start <= first
            && r >= MIN_BLOCK && first + r + HEADER <= start + size && Add64(start, size) == start + size)
  {
    var gap, room := RoomParts(start, size);
    AlignDownIsMultiple(room, PAGE_SIZE);
    RoundedRoom(room);
  }

  /** What the gap in front of the first block is, and what is left behind its header. */
  lemma RoomParts(start: Word, size: Word) returns (gap: int, room: Word)
    ensures 0 <= gap < PAGE_SIZE && (start + gap) % PAGE_SIZE == 0 && AlignUp(start, PAGE_SIZE) == start + gap
    ensures Overhead(start) == HEADER + gap && room == Sub64(size, HEADER + gap)
    ensures start + gap < TWO_64 ==> FirstBlock(start) == start + gap
    ensures room == if size < HEADER + gap then size - HEADER - gap + TWO_64 else size - HEADER - gap
    ensures Add64(start, size) == if start + size < TWO_64 then start + size else start + size - TWO_64
  {
    gap := Gap(start);
    room := Sub64(size, HEADER + gap);
    FirstBlockWraps(start);
    GapShifts(start, 0);
    WrapCases(start + size);
    WrapCases(HEADER + gap);
    WrapCases(size - HEADER - gap);
  }

  lemma RoundedRoom(room: int)
    ensures AlignDown(room, PAGE_SIZE) < MIN_BLOCK <==> room < MIN_BLOCK
  {
  }

  lemma AreaWords(start: int, size: int, first: int, last: int, m: Mem)
    requires start <= first && last + HEADER <= start + size && first + MIN_BLOCK <= last
    requires first % PAGE_SIZE == 0 && last % PAGE_SIZE == 0
    requires forall a | start <= a && a + 8 <= start + size && a % PAGE_SIZE == 0 :: a in m
    ensures forall a | first <= a < last + HEADER && a % PAGE_SIZE == 0 :: a in m
  {
    forall a | first <= a < last + HEADER && a % PAGE_SIZE == 0 ensures a + 8 <= last + HEADER {
      var p, q := a / PAGE_SIZE, last / PAGE_SIZE;
      assert a == 8 * p && last == 8 * q;
    }
  }
}
