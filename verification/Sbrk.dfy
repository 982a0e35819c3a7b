/** The region stack behind `sbrk`: a stack of mappings whose topmost one holds the break. */
module Sbrk {
  import opened Arith
  import Bits
  import opened Words

  const MEM_PAGE_SIZE := 0x10_0000
  const SPACE_SIZE := 0x1000_0000
  /** The largest increment whose rounding up still fits a signed word. */
  const MAX_INCREMENT := 0x7FF0_0000

  type Address = x: int | 0 <= x < TWO_64
  type Size = x: int | 0 <= x < TWO_32

  datatype Region = Region(topAllocated: Address, topReserved: Address, reserveSize: Size, memId: Size)

  datatype Errno = Kernel(code: int) | NoMemory | Unset

  datatype Result = Break(address: Address) | Failed(errno: Errno)

  /** What the kernel answers when a call has to map: zero is success; `listed` says that the list entry could be
    allocated. */
  datatype Mapping = Mapping(allocateError: int, memId: Size, mapError: int, base: Size, listed: bool)

  /** What the kernel answers when a region is given back, and whether its list entry could be freed. */
  datatype Release = Release(unmapError: int, freeError: int, delisted: bool)

  datatype Outcome = Outcome(regions: seq<Region>, result: Result)

  // ----- machine arithmetic

  /** A pointer. */
  function Wrap(x: int): Address { x % TWO_64 }

  /** A signed 32-bit word. */
  function Signed(x: int): int {
    var low := x % TWO_32;
    if low < TWO_31 then low else low - TWO_32
  }

  /** `CEIL(size, MEM_PAGE_SIZE)` on a positive size, as an unsigned word. */
  function Ceil(size: int): Size
    requires 0 < size < TWO_31
  {
    Bits.PowersOfTwo();
    Bits.And(size + (MEM_PAGE_SIZE - 1), TWO_32 - MEM_PAGE_SIZE)
  }

  lemma CeilRoundsUp(size: int)
    requires 0 < size < TWO_31
    ensures size <= Ceil(size) < size + MEM_PAGE_SIZE && Ceil(size) % MEM_PAGE_SIZE == 0
    ensures size <= MAX_INCREMENT ==> Ceil(size) <= MAX_INCREMENT
  {
    var x := size + (MEM_PAGE_SIZE - 1);
    Bits.PowersOfTwo();
    MegaPower();
    Bits.ClearLow(x, 32, 20);
    CeilMultiple(x, size);
  }

  lemma MegaPower()
    ensures Bits.Pow2(20) == MEM_PAGE_SIZE
  {
    Bits.PowersOfTwo();
    Bits.Pow2Adds(4, 16);
  }

  lemma CeilMultiple(x: int, size: int)
    requires x == size + (MEM_PAGE_SIZE - 1)
    ensures var c := x - x % MEM_PAGE_SIZE; size <= c < size + MEM_PAGE_SIZE && c % MEM_PAGE_SIZE == 0
    ensures size <= MAX_INCREMENT ==> x - x % MEM_PAGE_SIZE <= MAX_INCREMENT
  {
    var q := x / MEM_PAGE_SIZE;
    DivModUnique(q * MEM_PAGE_SIZE, MEM_PAGE_SIZE, q, 0);
  }

  // ----- the stack

  function Last(rs: seq<Region>): Region
    requires |rs| > 0
  {
    rs[|rs| - 1]
  }

  function Below(rs: seq<Region>): seq<Region>
    requires |rs| > 0
  {
    rs[..|rs| - 1]
  }

  function WithTop(rs: seq<Region>, top: Address): seq<Region>
    requires |rs| > 0
  {
    Below(rs) + [Last(rs).(topAllocated := top)]
  }

  /** The entry `sbrk_init` puts at the bottom. */
  predicate Rooted(rs: seq<Region>) {
    |rs| > 0 && rs[0].topReserved == 0 && rs[0].reserveSize == 0
  }

  function Base(r: Region): int { r.topReserved - r.reserveSize }

  /** A region lies in the 32-bit address space, and the break is within it. */
  predicate SoundRegion(r: Region) {
    0 <= Base(r) < TWO_32 && Base(r) <= r.topAllocated <= r.topReserved <= TWO_32 && r.reserveSize < TWO_31
  }

  predicate Sound(rs: seq<Region>) {
    Rooted(rs) && forall r | r in rs :: SoundRegion(r)
  }

  /** How much of the regions is handed out. */
  function Total(rs: seq<Region>): int {
    if rs == [] then 0 else Total(rs[..|rs| - 1]) + (rs[|rs| - 1].topAllocated - Base(rs[|rs| - 1]))
  }

  lemma RootAlone(rs: seq<Region>, root: Region)
    requires rs == [root] && root == Region(0, 0, 0, 0)
    ensures Sound(rs) && Total(rs) == 0
  {
    forall r | r in rs ensures SoundRegion(r) {
      assert r == root;
    }
    TotalOfOne(rs);
  }

  lemma TotalOfOne(rs: seq<Region>)
    requires |rs| == 1
    ensures Total(rs) == rs[0].topAllocated - Base(rs[0])
  {
    assert rs[..0] == [];
  }

  // ----- one call, in machine arithmetic

  function Grow(rs: seq<Region>, incr: int, m: Mapping): Outcome
    requires |rs| > 0
  {
    var r := Last(rs);
    var allocate := Signed(incr);
    var reserve := Signed(r.topAllocated + allocate - r.topReserved);
    if reserve <= 0 then Advance(rs, allocate, incr)
    else if m.allocateError != 0 then Outcome(rs, Failed(Kernel(m.allocateError)))
    else if m.mapError != 0 then Outcome(rs, Failed(Kernel(m.mapError)))
    else Map(rs, incr, allocate, Ceil(reserve), m)
  }

  function Map(rs: seq<Region>, incr: int, allocate: int, size: Size, m: Mapping): Outcome
    requires |rs| > 0
  {
    var r := Last(rs);
    var adjacent := r.topReserved == m.base;
    var left := if adjacent then Signed(allocate - Signed(r.topReserved - r.topAllocated)) else allocate;
    var rs' := if adjacent then WithTop(rs, r.topReserved) else rs;
    if m.listed then Advance(rs' + [Region(m.base, m.base + size, size, m.memId)], left, incr)
    else Outcome(rs', Failed(NoMemory))
  }

  function Advance(rs: seq<Region>, allocate: int, incr: int): Outcome
    requires |rs| > 0
  {
    var top := Wrap(Last(rs).topAllocated + allocate);
    Outcome(WithTop(rs, top), Break(Wrap(top - incr)))
  }

  /** Shrinking by `n`; `releases(k)` is the answer to the attempt to give back the `k`th region. */
  function Shrink(rs: seq<Region>, n: int, releases: nat -> Release, k: nat): Outcome
    requires Rooted(rs)
    decreases |rs|
  {
    var r := Last(rs);
    var base := Wrap(Base(r));
    if Wrap(r.topAllocated - n) < base then
      var x := releases(k);
      if x.unmapError != 0 then Outcome(rs, Failed(Kernel(x.unmapError)))
      else if x.freeError != 0 then Outcome(rs, Failed(Kernel(x.freeError)))
      else if !x.delisted then Outcome(rs, Failed(Unset))
      else Shrink(Below(rs), Signed(n - (r.topAllocated - base % TWO_32)), releases, k + 1)
    else
      var top := Wrap(r.topAllocated - n);
      if base > top || top > r.topReserved then Outcome(WithTop(rs, base), Failed(NoMemory))
      else Outcome(WithTop(rs, top), Break(top))
  }

  lemma StayUnfolds(rs: seq<Region>, n: int, releases: nat -> Release, k: nat, top: Address, base: Address)
    requires Rooted(rs) && top == Wrap(Last(rs).topAllocated - n) && base == Wrap(Base(Last(rs))) && base <= top
    ensures Shrink(rs, n, releases, k) ==
      if top > Last(rs).topReserved then Outcome(WithTop(rs, base), Failed(NoMemory))
      else Outcome(WithTop(rs, top), Break(top))
    ensures Last(WithTop(rs, top)) == Last(rs).(topAllocated := top)
    ensures WithTop(WithTop(rs, top), base) == WithTop(rs, base)
  {
  }

  lemma PopUnfolds(rs: seq<Region>, n: int, releases: nat -> Release, k: nat, base: int)
    requires Rooted(rs) && base == Wrap(Base(Last(rs))) % TWO_32
    requires Wrap(Last(rs).topAllocated - n) < Wrap(Base(Last(rs)))
    requires releases(k).unmapError == 0 && releases(k).freeError == 0 && releases(k).delisted
    ensures Rooted(Below(rs))
    ensures Shrink(rs, n, releases, k)
      == Shrink(Below(rs), Signed(n - (Last(rs).topAllocated - base)), releases, k + 1)
  {
  }

  function Step(rs: seq<Region>, incr: int, m: Mapping, releases: nat -> Release): Outcome
    requires Rooted(rs)
  {
    if incr >= 0 then Grow(rs, incr, m) else Shrink(rs, Signed(-incr), releases, 0)
  }

  class RegionStack {
    var regions: seq<Region>

    /** `sbrk_init`: the entry at the bottom stands for no memory. */
    constructor ()
      ensures Sound(regions) && Total(regions) == 0 && |regions| == 1
    {
      regions := [];
      new;
      var listed := RegionListAppend(0, 0, 0, true);
      RootAlone(regions, Region(0, 0, 0, 0));
    }

    method RegionListAppend(base: Size, size: Size, memId: Size, room: bool) returns (listed: bool)
      modifies this
      ensures listed == room
      ensures regions == if room then old(regions) + [Region(base, base + size, size, memId)] else old(regions)
    {
      if !room {
        return false;
      }
      regions := regions + [Region(base, base + size, size, memId)];
      return true;
    }

    method RegionListRemove(delisted: bool) returns (removed: bool)
      requires |regions| > 0
      modifies this
      ensures removed == delisted
      ensures regions == if delisted then Below(old(regions)) else old(regions)
    {
      if !delisted {
        return false;
      }
      regions := regions[..|regions| - 1];
      return true;
    }

    method SetTop(top: Address)
      requires |regions| > 0
      modifies this
      ensures regions == WithTop(old(regions), top)
    {
      regions := regions[|regions| - 1 := Last(regions).(topAllocated := top)];
    }

    /** `__librt_sbrk_r`. */
    method Move(incr: int, m: Mapping, releases: nat -> Release) returns (result: Result)
      requires Rooted(regions)
      modifies this
      ensures Outcome(regions, result) == Step(old(regions), incr, m, releases)
    {
      if incr >= 0 {
        result := Raise(incr, m);
      } else {
        result := Lower(Signed(-incr), releases);
      }
    }

    method Raise(incr: int, m: Mapping) returns (result: Result)
      requires |regions| > 0
      modifies this
      ensures Outcome(regions, result) == Grow(old(regions), incr, m)
    {
      var r := Last(regions);
      var allocate := Signed(incr);
      var reserve := Signed(r.topAllocated + allocate - r.topReserved);
      if reserve > 0 {
        var size := Ceil(reserve);
        if m.allocateError != 0 {
          return Failed(Kernel(m.allocateError));
        }
        if m.mapError != 0 {
          return Failed(Kernel(m.mapError));
        }
        if r.topReserved == m.base {
          allocate := Signed(allocate - Signed(r.topReserved - r.topAllocated));
          SetTop(r.topReserved);
        }
        var listed := RegionListAppend(m.base, size, m.memId, m.listed);
        if !listed {
          return Failed(NoMemory);
        }
      }
      SetTop(Wrap(Last(regions).topAllocated + allocate));
      return Break(Wrap(Last(regions).topAllocated - incr));
    }

    method Lower(size: int, releases: nat -> Release) returns (result: Result)
      requires Rooted(regions)
      modifies this
      ensures Outcome(regions, result) == Shrink(old(regions), size, releases, 0)
    {
      var left, k := size, 0;
      while Wrap(Last(regions).topAllocated - left) < Wrap(Base(Last(regions)))
        invariant Rooted(regions)
        invariant Shrink(regions, left, releases, k) == Shrink(old(regions), size, releases, 0)
        decreases |regions|
      {
        var r, x := Last(regions), releases(k);
        var base := Wrap(Base(r)) % TWO_32;
        if x.unmapError != 0 {
          return Failed(Kernel(x.unmapError));
        }
        if x.freeError != 0 {
          return Failed(Kernel(x.freeError));
        }
        ghost var before, n := regions, left;  // as the turn began
        left := Signed(left - (r.topAllocated - base));
        var removed := RegionListRemove(x.delisted);
        if !removed {
          return Failed(Unset);
        }
        PopUnfolds(before, n, releases, k, base);
        k := k + 1;
      }
      StayUnfolds(regions, left, releases, k, Wrap(Last(regions).topAllocated - left), Wrap(Base(Last(regions))));
      SetTop(Wrap(Last(regions).topAllocated - left));
      var r := Last(regions);
      if Wrap(Base(r)) > r.topAllocated || r.topAllocated > r.topReserved {
        SetTop(Wrap(Base(r)));
        return Failed(NoMemory);
      }
      return Break(r.topAllocated);
    }
  }
}
