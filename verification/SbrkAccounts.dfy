/** What `sbrk` promises its callers: where the break goes, what is handed out, and when the stack stays sound. */
module SbrkAccounts {
  import opened Sbrk
  import opened Words

  lemma PlainSigned(x: int)
    requires -TWO_31 <= x < TWO_31
    ensures Signed(x) == x
  {
    if x >= 0 {
      assert x % TWO_32 == x;
    } else {
      assert x % TWO_32 == x + TWO_32;
    }
  }

  lemma PlainWrap(x: int)
    requires 0 <= x < TWO_64
    ensures Wrap(x) == x
  {
  }

  lemma WithTopParts(rs: seq<Region>, top: Address)
    requires |rs| > 0
    ensures var after := WithTop(rs, top);
      && |after| == |rs| && Below(after) == Below(rs) && Last(after) == Last(rs).(topAllocated := top)
      && Total(after) == Total(rs) + top - Last(rs).topAllocated
      && (Rooted(rs) ==> Rooted(after))
  {
    var after := WithTop(rs, top);
    assert after[..|after| - 1] == rs[..|rs| - 1];
  }

  lemma PushedParts(rs: seq<Region>, r: Region)
    ensures var after := rs + [r];
      && Below(after) == rs && Last(after) == r
      && Total(after) == Total(rs) + r.topAllocated - Base(r)
      && (Rooted(rs) ==> Rooted(after))
  {
    var after := rs + [r];
    assert after[..|after| - 1] == rs;
  }

  lemma SoundParts(rs: seq<Region>)
    requires |rs| > 0
    ensures Sound(rs) <==> Rooted(rs) && SoundRegion(Last(rs)) && forall r | r in Below(rs) :: SoundRegion(r)
  {
    assert rs == Below(rs) + [Last(rs)];
  }

  lemma {:induction false} TotalNonNegative(rs: seq<Region>)
    requires forall r | r in rs :: SoundRegion(r)
    ensures Total(rs) >= 0
  {
    if rs != [] {
      assert SoundRegion(rs[|rs| - 1]);
      TotalNonNegative(rs[..|rs| - 1]);
    }
  }

  // ----- growing

  predicate InRange(rs: seq<Region>, incr: int) {
    |rs| > 0 && SoundRegion(Last(rs)) && 0 <= incr <= MAX_INCREMENT
  }

  function Tail(rs: seq<Region>): int
    requires |rs| > 0
  {
    Last(rs).topReserved - Last(rs).topAllocated
  }

  /** The call has to ask the kernel for memory. */
  predicate Maps(rs: seq<Region>, incr: int)
    requires |rs| > 0
  {
    incr > Tail(rs)
  }

  predicate Adjacent(rs: seq<Region>, m: Mapping)
    requires |rs| > 0
  {
    m.base == Last(rs).topReserved
  }

  /** The kernel maps inside the 32-bit address space. */
  predicate Fits(rs: seq<Region>, incr: int, m: Mapping)
    requires InRange(rs, incr)
  {
    Maps(rs, incr) ==> m.base + Ceil(incr - Tail(rs)) <= TWO_32
  }

  predicate Granted(m: Mapping) {
    m.allocateError == 0 && m.mapError == 0
  }

  /** The new region has room for what is taken from it: an adjacent one always has. */
  predicate Roomy(rs: seq<Region>, incr: int, m: Mapping)
    requires InRange(rs, incr)
  {
    Maps(rs, incr) ==> Adjacent(rs, m) || incr <= Ceil(incr - Tail(rs))
  }

  lemma GrowInRange(rs: seq<Region>, incr: int)
    requires InRange(rs, incr)
    ensures Signed(incr) == incr && Signed(Tail(rs)) == Tail(rs) && Signed(incr - Tail(rs)) == incr - Tail(rs)
  {
    PlainSigned(incr);
    PlainSigned(Tail(rs));
    PlainSigned(incr - Tail(rs));
  }

  /** Within the region: nothing but the break moves. */
  lemma GrowInside(rs: seq<Region>, incr: int, m: Mapping)
    requires InRange(rs, incr) && !Maps(rs, incr)
    ensures Grow(rs, incr, m) == Outcome(WithTop(rs, Last(rs).topAllocated + incr), Break(Last(rs).topAllocated))
  {
    GrowInRange(rs, incr);
    assert Last(rs).topAllocated + incr - Last(rs).topReserved == incr - Tail(rs);
  }

  /** What the stack looks like after a mapping. */
  function Mapped(rs: seq<Region>, incr: int, m: Mapping): seq<Region>
    requires InRange(rs, incr) && Maps(rs, incr) && Fits(rs, incr, m)
  {
    var size := Ceil(incr - Tail(rs));
    if Adjacent(rs, m) then
      WithTop(rs, Last(rs).topReserved) + [Region(m.base + incr - Tail(rs), m.base + size, size, m.memId)]
    else rs + [Region(m.base + incr, m.base + size, size, m.memId)]
  }

  lemma GrowMapping(rs: seq<Region>, incr: int, m: Mapping)
    requires InRange(rs, incr) && Maps(rs, incr) && Fits(rs, incr, m) && Granted(m) && m.listed
    ensures Grow(rs, incr, m) == Outcome(Mapped(rs, incr, m),
                                         Break(if Adjacent(rs, m) then Last(rs).topAllocated else m.base))
  {
    var need := incr - Tail(rs);
    var size := Ceil(need);
    var added := Region(m.base, m.base + size, size, m.memId);
    GrowIsMap(rs, incr, m, need);
    MappedIs(rs, incr, m, need, size, added);
    MapIs(rs, incr, m, need, size, added);
  }

  lemma MapIs(rs: seq<Region>, incr: int, m: Mapping, need: int, size: Size, added: Region)
    requires InRange(rs, incr) && Fits(rs, incr, m) && m.listed && need == incr - Tail(rs) > 0
    requires Signed(Tail(rs)) == Tail(rs) && Signed(need) == need && m.base < TWO_32
    requires added == Region(m.base, m.base + size, size, m.memId)
    ensures Map(rs, incr, incr, size, m) ==
      if Adjacent(rs, m) then
        Outcome(WithTop(rs, Last(rs).topReserved) + [added.(topAllocated := m.base + need)],
                Break(Last(rs).topAllocated))
      else Outcome(rs + [added.(topAllocated := m.base + incr)], Break(m.base))
  {
    MapAdvances(rs, incr, incr, size, m, added, Tail(rs), Last(rs).topReserved);
    if Adjacent(rs, m) {
      PushAdvance(WithTop(rs, Last(rs).topReserved), added, need, incr);
    } else {
      PushAdvance(rs, added, incr, incr);
    }
  }

  lemma MappedIs(rs: seq<Region>, incr: int, m: Mapping, need: int, size: Size, added: Region)
    requires InRange(rs, incr) && Maps(rs, incr) && Fits(rs, incr, m) && need == incr - Tail(rs)
    requires size == Ceil(need) && added == Region(m.base, m.base + size, size, m.memId)
    ensures Mapped(rs, incr, m) ==
      if Adjacent(rs, m) then WithTop(rs, Last(rs).topReserved) + [added.(topAllocated := m.base + need)]
      else rs + [added.(topAllocated := m.base + incr)]
  {
  }

  lemma GrowIsMap(rs: seq<Region>, incr: int, m: Mapping, need: int)
    requires InRange(rs, incr) && Maps(rs, incr) && Fits(rs, incr, m) && Granted(m) && m.listed
    requires need == incr - Tail(rs)
    ensures Grow(rs, incr, m) == Map(rs, incr, incr, Ceil(need), m)
    ensures Signed(Tail(rs)) == Tail(rs) && Signed(need) == need
  {
    GrowInRange(rs, incr);
    GrowCases(rs, incr, m, incr, Tail(rs), need);
  }

  /** Advancing into a region just pushed. */
  lemma PushAdvance(rs: seq<Region>, added: Region, left: int, incr: int)
    requires added.topAllocated < TWO_32 && 0 <= left < TWO_31 && 0 <= incr <= added.topAllocated + left
    ensures Advance(rs + [added], left, incr)
      == Outcome(rs + [added.(topAllocated := added.topAllocated + left)], Break(added.topAllocated + left - incr))
  {
    AdvanceFresh(rs + [added], left, incr);
  }

  lemma AdvanceFresh(rs: seq<Region>, allocate: int, incr: int)
    requires |rs| > 0 && Last(rs).topAllocated < TWO_32 && 0 <= allocate < TWO_31
    requires 0 <= incr <= Last(rs).topAllocated + allocate
    ensures Advance(rs, allocate, incr)
         == Outcome(WithTop(rs, Last(rs).topAllocated + allocate), Break(Last(rs).topAllocated + allocate - incr))
  {
  }

  /** A successful growth hands out exactly `incr` bytes, and says where they begin. */
  lemma GrowAccounts(rs: seq<Region>, incr: int, m: Mapping)
    requires InRange(rs, incr) && Fits(rs, incr, m)
    ensures var o := Grow(rs, incr, m);
      && (o.result.Break? <==> !Maps(rs, incr) || (Granted(m) && m.listed))
      && (o.result.Break? ==>
            && |o.regions| > 0 && Total(o.regions) == Total(rs) + incr
            && o.result.address + incr == Last(o.regions).topAllocated)
      && (o.result.Break? ==>
            (o.result.address == Last(rs).topAllocated
             <==> !Maps(rs, incr) || Adjacent(rs, m) || m.base == Last(rs).topAllocated))
  {
    if !Maps(rs, incr) {
      GrowInside(rs, incr, m);
      WithTopParts(rs, Last(rs).topAllocated + incr);
    } else if Granted(m) && m.listed {
      GrowMapping(rs, incr, m);
      MappedParts(rs, incr, m);
    } else {
      GrowRefused(rs, incr, m);
    }
  }

  lemma MappedParts(rs: seq<Region>, incr: int, m: Mapping)
    requires InRange(rs, incr) && Maps(rs, incr) && Fits(rs, incr, m)
    ensures var after := Mapped(rs, incr, m); var size := Ceil(incr - Tail(rs));
      && Total(after) == Total(rs) + incr
      && (Rooted(rs) ==> Rooted(after))
      && Below(after) == (if Adjacent(rs, m) then WithTop(rs, Last(rs).topReserved) else rs)
      && Last(after) == Region(m.base + (if Adjacent(rs, m) then incr - Tail(rs) else incr), m.base + size, size,
                               m.memId)
  {
    var size := Ceil(incr - Tail(rs));
    var used := if Adjacent(rs, m) then incr - Tail(rs) else incr;
    var below := if Adjacent(rs, m) then WithTop(rs, Last(rs).topReserved) else rs;
    WithTopParts(rs, Last(rs).topReserved);
    PushedParts(below, Region(m.base + used, m.base + size, size, m.memId));
  }

  /** A refused growth changes nothing, except that an adjacent mapping without a list entry has used up the tail. */
  lemma GrowRefused(rs: seq<Region>, incr: int, m: Mapping)
    requires InRange(rs, incr) && Maps(rs, incr) && !(Granted(m) && m.listed)
    ensures var o := Grow(rs, incr, m);
      && o.result == Failed(if m.allocateError != 0 then Kernel(m.allocateError)
                            else if m.mapError != 0 then Kernel(m.mapError) else NoMemory)
      && o.regions == (if Granted(m) && Adjacent(rs, m) then WithTop(rs, Last(rs).topReserved) else rs)
  {
    GrowInRange(rs, incr);
    assert Last(rs).topAllocated + incr - Last(rs).topReserved == incr - Tail(rs);
  }

  /** Growing keeps every region's break inside the region exactly when the new mapping is adjacent or large enough on
    its own. */
  lemma GrowKeeps(rs: seq<Region>, incr: int, m: Mapping)
    requires Sound(rs) && InRange(rs, incr) && Fits(rs, incr, m)
    ensures Sound(Grow(rs, incr, m).regions) <==> !Granted(m) || !m.listed || Roomy(rs, incr, m)
  {
    var r := Last(rs);
    SoundParts(rs);
    WithTopSound(rs, r.topReserved);
    if !Maps(rs, incr) {
      GrowInside(rs, incr, m);
      WithTopSound(rs, r.topAllocated + incr);
    } else if Granted(m) && m.listed {
      GrowMapping(rs, incr, m);
      MappedSound(rs, incr, m);
    } else {
      GrowRefused(rs, incr, m);
    }
  }

  lemma MappedSound(rs: seq<Region>, incr: int, m: Mapping)
    requires Sound(rs) && InRange(rs, incr) && Maps(rs, incr) && Fits(rs, incr, m)
    ensures Sound(Mapped(rs, incr, m)) <==> Roomy(rs, incr, m)
  {
    var after := Mapped(rs, incr, m);
    SoundParts(rs);
    MappedParts(rs, incr, m);
    CeilRoundsUp(incr - Tail(rs));
    SoundParts(after);
    if Adjacent(rs, m) {
      WithTopSound(rs, Last(rs).topReserved);
      assert Below(after) == WithTop(rs, Last(rs).topReserved);
    } else {
      assert Below(after) == rs;
    }
  }

  lemma WithTopSound(rs: seq<Region>, top: Address)
    requires Sound(rs) && Base(Last(rs)) <= top <= Last(rs).topReserved
    ensures Sound(WithTop(rs, top))
  {
    SoundParts(rs);
    WithTopParts(rs, top);
    SoundParts(WithTop(rs, top));
  }

  /** The tail is what makes the difference: a distant mapping for 2 MB, when 1 MB was still free, is 1 MB short. */
  lemma DistantMappingTooSmall()
    ensures var rs := [Region(0, 0, 0, 0), Region(0x3000_0000, 0x3010_0000, 0x10_0000, 1)];
      var m := Mapping(0, 2, 0, 0x3080_0000, true);
      && Sound(rs) && Fits(rs, 0x20_0000, m) && Grow(rs, 0x20_0000, m).result.Break?
      && !Sound(Grow(rs, 0x20_0000, m).regions)
  {
    var rs := [Region(0, 0, 0, 0), Region(0x3000_0000, 0x3010_0000, 0x10_0000, 1)];
    var m := Mapping(0, 2, 0, 0x3080_0000, true);
    CeilRoundsUp(0x10_0000);
    var q := Ceil(0x10_0000) / MEM_PAGE_SIZE;
    assert q * MEM_PAGE_SIZE == Ceil(0x10_0000);
    GrowAccounts(rs, 0x20_0000, m);
    GrowKeeps(rs, 0x20_0000, m);
  }

  /** Just below 2 GB the rounded size is negative as a signed word; the region is recorded with 2 GB. */
  lemma CeilTooLarge(size: int)
    requires MAX_INCREMENT < size < TWO_31
    ensures Ceil(size) == TWO_31 && Signed(Ceil(size)) == -TWO_31
  {
    var q := Ceil(size) / MEM_PAGE_SIZE;
    CeilRoundsUp(size);
    assert Ceil(size) == q * MEM_PAGE_SIZE;
  }

  /** An increment of 4 GB is truncated to nothing, and reported as a success. */
  lemma HugeIncrementTruncated(rs: seq<Region>, m: Mapping)
    requires Sound(rs)
    ensures var o := Grow(rs, TWO_32, m); o.result.Break? && o.regions == rs
  {
    SoundParts(rs);
    var r := Last(rs);
    assert Signed(TWO_32) == 0;
    PlainSigned(r.topAllocated - r.topReserved);
    WithTopParts(rs, r.topAllocated);
    assert WithTop(rs, r.topAllocated) == rs;
  }

  /** What a successful call adds to the total, for any increment at all: the increment as a signed word, unless a
    pointer or the size of a mapping wraps. */
  function HandedOut(rs: seq<Region>, incr: int, m: Mapping): int
    requires |rs| > 0
  {
    var a := Signed(incr);
    if a >= 0 then a
    else if a - Tail(rs) >= -TWO_31 then a + (if Last(rs).topAllocated + a < 0 then TWO_64 else 0)
    else if Adjacent(rs, m) then a + TWO_32
    else a + (if m.base + a < 0 then TWO_64 else 0)
  }

  lemma GrowHandsOut(rs: seq<Region>, incr: int, m: Mapping)
    requires |rs| > 0 && SoundRegion(Last(rs)) && Grow(rs, incr, m).result.Break?
    ensures Total(Grow(rs, incr, m).regions) == Total(rs) + HandedOut(rs, incr, m)
  {
    var a, tail, missing := Missing(rs, incr);
    SignedDifference(a, tail);
    GrowCases(rs, incr, m, a, tail, missing);
    if missing <= 0 {
      AdvanceTotal(rs, a, incr);
    } else {
      MapTotal(rs, incr, a, Ceil(missing), m);
    }
  }

  /** What a growth has to reserve. */
  lemma Missing(rs: seq<Region>, incr: int) returns (a: int, tail: int, missing: int)
    requires |rs| > 0
    ensures a == Signed(incr) && tail == Tail(rs) && missing == Signed(a - tail)
  {
    a, tail := Signed(incr), Tail(rs);
    missing := Signed(a - tail);
  }

  lemma GrowCases(rs: seq<Region>, incr: int, m: Mapping, a: int, tail: int, missing: int)
    requires |rs| > 0 && a == Signed(incr) && tail == Tail(rs) && missing == Signed(a - tail)
    ensures missing <= 0 ==> Grow(rs, incr, m) == Advance(rs, a, incr)
    ensures missing > 0 && Grow(rs, incr, m).result.Break? ==>
      m.listed && Grow(rs, incr, m) == Map(rs, incr, a, Ceil(missing), m)
  {
    var r := Last(rs);
    assert r.topAllocated + a - r.topReserved == a - tail;
  }

  lemma SignedDifference(a: int, tail: int)
    requires -TWO_31 <= a < TWO_31 && 0 <= tail < TWO_31
    ensures Signed(tail) == tail && Signed(a - tail) == if a - tail < -TWO_31 then a - tail + TWO_32 else a - tail
  {
    PlainSigned(tail);
    if a - tail >= -TWO_31 {
      PlainSigned(a - tail);
    } else {
      assert (a - tail) % TWO_32 == a - tail + TWO_32;
    }
  }

  lemma AdvanceTotal(rs: seq<Region>, allocate: int, incr: int)
    requires |rs| > 0 && Last(rs).topAllocated <= TWO_32 && -TWO_31 <= allocate < TWO_31
    ensures var top := Last(rs).topAllocated;
      Total(Advance(rs, allocate, incr).regions) == Total(rs) + allocate + (if top + allocate < 0 then TWO_64 else 0)
  {
    WithTopParts(rs, Wrap(Last(rs).topAllocated + allocate));
  }

  lemma MapTotal(rs: seq<Region>, incr: int, a: int, size: Size, m: Mapping)
    requires |rs| > 0 && SoundRegion(Last(rs)) && m.listed && -TWO_31 <= a < TWO_31
    requires a - Tail(rs) < -TWO_31 || a - Tail(rs) > 0
    ensures Total(Map(rs, incr, a, size, m).regions) == Total(rs) + MappedBytes(a, Tail(rs), Adjacent(rs, m), m.base)
  {
    var tail, top := Tail(rs), Last(rs).topReserved;
    var added := Region(m.base, m.base + size, size, m.memId);
    SignedDifference(a, tail);
    MapAdvances(rs, incr, a, size, m, added, tail, top);
    if Adjacent(rs, m) {
      WithTopParts(rs, top);
      PushTotal(WithTop(rs, top), added, Signed(a - tail), incr);
    } else {
      PushTotal(rs, added, a, incr);
    }
  }

  lemma MapAdvances(rs: seq<Region>, incr: int, a: int, size: Size, m: Mapping, added: Region, tail: int, top: Address)
    requires |rs| > 0 && m.listed && added == Region(m.base, m.base + size, size, m.memId)
    requires tail == Tail(rs) == Signed(tail) && top == Last(rs).topReserved
    ensures Adjacent(rs, m) ==> Map(rs, incr, a, size, m) == Advance(WithTop(rs, top) + [added], Signed(a - tail), incr)
    ensures !Adjacent(rs, m) ==> Map(rs, incr, a, size, m) == Advance(rs + [added], a, incr)
  {
  }

  /** What is handed out by way of a mapping. */
  function MappedBytes(a: int, tail: int, adjacent: bool, base: int): int {
    if !adjacent then a + (if base + a < 0 then TWO_64 else 0)
    else if a - tail < -TWO_31 then a + TWO_32 else a
  }

  lemma PushTotal(rs: seq<Region>, r: Region, left: int, incr: int)
    requires Base(r) == r.topAllocated < TWO_32 && -TWO_31 <= left < TWO_31
    ensures Total(Advance(rs + [r], left, incr).regions)
      == Total(rs) + left + (if r.topAllocated + left < 0 then TWO_64 else 0)
  {
    PushedParts(rs, r);
    AdvanceTotal(rs + [r], left, incr);
  }

  /** So a successful call hands out exactly what was asked for if that fits a signed word, or if the part that has to
    be mapped does, and is mapped next to the old region. */
  lemma GrowExact(rs: seq<Region>, incr: int, m: Mapping)
    requires |rs| > 0 && SoundRegion(Last(rs)) && 0 <= incr < TWO_64 / 2 && Grow(rs, incr, m).result.Break?
    ensures Total(Grow(rs, incr, m).regions) == Total(rs) + incr
      <==> incr < TWO_31 || (incr < TWO_32 && incr - Tail(rs) < TWO_31 && Adjacent(rs, m))
  {
    GrowHandsOut(rs, incr, m);
    ExactlyHandedOut(rs, incr, m);
  }

  lemma ExactlyHandedOut(rs: seq<Region>, incr: int, m: Mapping)
    requires |rs| > 0 && SoundRegion(Last(rs)) && 0 <= incr < TWO_64 / 2
    ensures HandedOut(rs, incr, m) == incr
      <==> incr < TWO_31 || (incr < TWO_32 && incr - Tail(rs) < TWO_31 && Adjacent(rs, m))
  {
    WhichIncrements(incr, incr / TWO_32, incr % TWO_32);
  }

  lemma WhichIncrements(incr: int, q: int, low: int)
    requires 0 <= incr < TWO_64 / 2 && q == incr / TWO_32 && low == incr % TWO_32
    ensures incr == q * TWO_32 + low && Signed(incr) == (if low < TWO_31 then low else low - TWO_32) && 0 <= q
    ensures Signed(incr) == incr <==> incr < TWO_31
    ensures Signed(incr) + TWO_32 == incr <==> TWO_31 <= incr < TWO_32 + TWO_31
    ensures Signed(incr) + TWO_64 != incr
  {
  }

  // ----- shrinking

  /** Whatever is asked for and whatever the kernel answers, the stack stays sound, and only its upper part is
    touched. */
  lemma {:induction false} ShrinkKeeps(rs: seq<Region>, n: int, releases: nat -> Release, k: nat)
    requires Sound(rs)
    ensures var after := Shrink(rs, n, releases, k).regions;
      && Sound(after) && |after| <= |rs| && Below(after) <= rs
    decreases |rs|
  {
    SoundParts(rs);
    var r := Last(rs);
    if Popped(rs, n) && Released(releases(k)) {
      assert |rs| > 1;
      SoundParts(Below(rs));
      ShrinkKeeps(Below(rs), Signed(n - (r.topAllocated - Wrap(Base(r)) % TWO_32)), releases, k + 1);
    } else if !Popped(rs, n) {
      StayKeeps(rs, n, releases, k, Wrap(r.topAllocated - n));
    }
  }

  lemma StayKeeps(rs: seq<Region>, n: int, releases: nat -> Release, k: nat, top: Address)
    requires Sound(rs) && !Popped(rs, n) && top == Wrap(Last(rs).topAllocated - n)
    ensures var after := Shrink(rs, n, releases, k).regions;
      && Sound(after) && |after| == |rs| && Below(after) == Below(rs)
  {
    var r := Last(rs);
    SoundParts(rs);
    WithTopParts(rs, top);
    WithTopParts(rs, Base(r));
    WithTopSound(rs, Base(r));
    if Base(r) <= top <= r.topReserved {
      WithTopSound(rs, top);
    }
  }

  predicate Popped(rs: seq<Region>, n: int)
    requires |rs| > 0
  {
    Wrap(Last(rs).topAllocated - n) < Wrap(Base(Last(rs)))
  }

  predicate Released(x: Release) {
    x.unmapError == 0 && x.freeError == 0 && x.delisted
  }

  lemma PopArithmetic(r: Region, n: int)
    requires SoundRegion(r) && 0 <= n < TWO_31 && Wrap(r.topAllocated - n) < Wrap(Base(r))
    ensures Wrap(Base(r)) % TWO_32 == Base(r) && 0 <= r.topAllocated - Base(r) < n <= r.topAllocated
    ensures Signed(n - (r.topAllocated - Base(r))) == n - (r.topAllocated - Base(r))
  {
    BelowWraps(r.topAllocated, n);
    PlainWrap(Base(r));
    PlainSigned(n - (r.topAllocated - Base(r)));
  }

  /** Popping a region leaves that much less to give back. */
  lemma PopStep(rs: seq<Region>, n: int, releases: nat -> Release, k: nat, used: int)
    requires Sound(rs) && 0 <= n < TWO_31 && Popped(rs, n) && Released(releases(k))
    requires used == Last(rs).topAllocated - Base(Last(rs))
    ensures |rs| > 1 && Sound(Below(rs))
    ensures 0 <= used < n && Total(rs) == Total(Below(rs)) + used
    ensures Shrink(rs, n, releases, k) == Shrink(Below(rs), n - used, releases, k + 1)
  {
    NotTheRoot(rs, n);
    SoundParts(rs);
    SoundParts(Below(rs));
    PopArithmetic(Last(rs), n);
  }

  lemma NotTheRoot(rs: seq<Region>, n: int)
    requires Rooted(rs) && Popped(rs, n)
    ensures |rs| > 1
  {
  }

  lemma BelowWraps(top: int, n: int)
    requires 0 <= top <= TWO_32 && 0 <= n < TWO_31
    ensures Wrap(top - n) == if n <= top then top - n else top - n + TWO_64
  {
  }

  ghost predicate AllReleased(releases: nat -> Release) {
    forall k :: Released(releases(k))
  }

  /** A successful shrink takes back exactly `n` bytes, and returns the new break; an amount that reads as negative
    raises it. */
  lemma {:induction false} ShrinkAccounts(rs: seq<Region>, n: int, releases: nat -> Release, k: nat)
    requires Sound(rs) && -TWO_31 <= n < TWO_31
    ensures var o := Shrink(rs, n, releases, k);
      o.result.Break? ==>
        && |o.regions| > 0 && Total(o.regions) == Total(rs) - n
        && o.result.address == Last(o.regions).topAllocated
    decreases |rs|
  {
    SoundParts(rs);
    if n < 0 {
      NegativeShrink(rs, n, releases, k);
    } else if !Popped(rs, n) {
      StayStep(rs, n, releases, k);
    } else if Released(releases(k)) {
      var used := Last(rs).topAllocated - Base(Last(rs));
      PopStep(rs, n, releases, k, used);
      ShrinkAccounts(Below(rs), n - used, releases, k + 1);
    }
  }

  /** The error with which a call gives up on a region that is not released. */
  function Refusal(x: Release): Errno {
    if x.unmapError != 0 then Kernel(x.unmapError) else if x.freeError != 0 then Kernel(x.freeError) else Unset
  }

  /** A shrink gives up regions from the top, each as often as the kernel agrees. When it fails for another reason than
    that there was not enough, the next one was refused, and stays as it is with all below it. */
  lemma {:induction false} ShrinkRefused(rs: seq<Region>, n: int, releases: nat -> Release, k: nat) returns (gone: nat)
    requires Rooted(rs) && Shrink(rs, n, releases, k).result.Failed?
    requires Shrink(rs, n, releases, k).result != Failed(NoMemory)
    ensures gone < |rs| && (forall j | k <= j < k + gone :: Released(releases(j))) && !Released(releases(k + gone))
    ensures Shrink(rs, n, releases, k) == Outcome(rs[..|rs| - gone], Failed(Refusal(releases(k + gone))))
    decreases |rs|
  {
    gone := 0;
    if Popped(rs, n) && Released(releases(k)) {
      var used := Last(rs).topAllocated - Wrap(Base(Last(rs))) % TWO_32;
      NotTheRoot(rs, n);
      gone := ShrinkRefused(Below(rs), Signed(n - used), releases, k + 1);
      assert Below(rs)[..|Below(rs)| - gone] == rs[..|rs| - (gone + 1)];
      gone := gone + 1;
    } else {
      assert rs[..|rs|] == rs;
    }
  }

  /** A negative amount pops nothing: the break rises into the tail, and if that is too short the topmost region is
    emptied. */
  lemma NegativeShrink(rs: seq<Region>, n: int, releases: nat -> Release, k: nat)
    requires Sound(rs) && -TWO_31 <= n < 0
    ensures var o := Shrink(rs, n, releases, k); var top := Last(rs).topAllocated - n;
      && |o.regions| == |rs|
      && (o.result.Break? <==> -n <= Tail(rs))
      && (o.result.Break? ==> o.result == Break(top) && Last(o.regions).topAllocated == top
                              && Total(o.regions) == Total(rs) - n)
      && (!o.result.Break? ==> o.result == Failed(NoMemory) && Total(o.regions) == Total(Below(rs)))
  {
    SoundParts(rs);
    var r, top := Last(rs), Last(rs).topAllocated - n;
    HighWraps(top);
    HighWraps(Base(r));
    assert Wrap(r.topAllocated - n) == top && Wrap(Base(r)) == Base(r);
    WithTopParts(rs, top);
    WithTopParts(rs, Base(r));
  }

  lemma HighWraps(x: int)
    requires 0 <= x < TWO_64
    ensures Wrap(x) == x
  {
  }

  /** A successful call with a negative increment, however large, takes back what its negation reads as in 32 bits. */
  lemma ShrinkTakesBack(rs: seq<Region>, incr: int, m: Mapping, releases: nat -> Release)
    requires Sound(rs) && incr < 0
    ensures var o := Step(rs, incr, m, releases);
      o.result.Break? ==> Total(o.regions) == Total(rs) - Signed(-incr)
  {
    SignedBounds(-incr);
    ShrinkAccounts(rs, Signed(-incr), releases, 0);
  }

  lemma SignedBounds(x: int)
    ensures -TWO_31 <= Signed(x) < TWO_31
    ensures x > 0 ==> (Signed(x) == x <==> x < TWO_31)
  {
  }

  /** So it takes back exactly what was asked for if and only if that is less than 2 GB. */
  lemma ShrinkExact(rs: seq<Region>, incr: int, m: Mapping, releases: nat -> Release)
    requires Sound(rs) && incr < 0 && Step(rs, incr, m, releases).result.Break?
    ensures Total(Step(rs, incr, m, releases).regions) == Total(rs) + incr <==> incr > -TWO_31
  {
    ShrinkTakesBack(rs, incr, m, releases);
    SignedBounds(-incr);
  }

  /** Taking back 4 GB takes back nothing, and with five bytes less it hands out five. */
  lemma HugeDecrementTruncated(rs: seq<Region>, m: Mapping, releases: nat -> Release)
    requires Sound(rs) && Tail(rs) >= 5
    ensures Step(rs, -TWO_32, m, releases) == Outcome(rs, Break(Last(rs).topAllocated))
    ensures var o := Step(rs, 5 - TWO_32, m, releases);
      o.result == Break(Last(rs).topAllocated + 5) && Total(o.regions) == Total(rs) + 5
  {
    SoundParts(rs);
    assert Signed(TWO_32) == 0 && Signed(TWO_32 - 5) == -5;
    NegativeShrink(rs, -5, releases, 0);
    StayStep(rs, 0, releases, 0);
    HighWraps(Last(rs).topAllocated);
    assert WithTop(rs, Last(rs).topAllocated) == rs;
  }

  /** The break stays in the topmost region, or there is nothing left to take. */
  lemma StayStep(rs: seq<Region>, n: int, releases: nat -> Release, k: nat)
    requires Sound(rs) && 0 <= n < TWO_31 && !Popped(rs, n)
    ensures var o := Shrink(rs, n, releases, k); var r := Last(rs);
      && |o.regions| == |rs|
      && (o.result.Break? <==> n <= r.topAllocated)
      && (n <= r.topAllocated ==>
            && n <= r.topAllocated - Base(r) && o.result == Break(r.topAllocated - n)
            && Last(o.regions).topAllocated == r.topAllocated - n && Total(o.regions) == Total(rs) - n)
      && (n > r.topAllocated ==> o.result == Failed(NoMemory) && Total(o.regions) == Total(Below(rs)))
  {
    SoundParts(rs);
    var r := Last(rs);
    BelowWraps(r.topAllocated, n);
    WithTopParts(rs, Wrap(r.topAllocated - n));
    WithTopParts(rs, Base(r));
  }

  /** No subtraction of what is left to give back wraps on the way down. */
  predicate NoWrap(rs: seq<Region>, n: int)
    requires |rs| > 0
    decreases |rs|
  {
    var used := Last(rs).topAllocated - Base(Last(rs));
    |rs| == 1 || n <= used || (n <= Last(rs).topAllocated && NoWrap(Below(rs), n - used))
  }

  /** When the kernel takes everything back, a shrink succeeds exactly if that much is handed out and nothing wraps;
    if it is too much, nothing is left. */
  lemma {:induction false} ShrinkSucceeds(rs: seq<Region>, n: int, releases: nat -> Release, k: nat)
    requires Sound(rs) && -TWO_31 <= n < TWO_31 && AllReleased(releases)
    ensures var o := Shrink(rs, n, releases, k);
      && (o.result.Break? <==> if n < 0 then -n <= Tail(rs) else n <= Total(rs) && NoWrap(rs, n))
      && (n > Total(rs) && NoWrap(rs, n) ==> o.result == Failed(NoMemory) && |o.regions| == 1 && Total(o.regions) == 0)
    decreases |rs|
  {
    SoundParts(rs);
    TotalNonNegative(Below(rs));
    if n < 0 {
      NegativeShrink(rs, n, releases, k);
      TotalNonNegative(rs);
    } else if Popped(rs, n) {
      var used := Last(rs).topAllocated - Base(Last(rs));
      assert Released(releases(k));
      PopStep(rs, n, releases, k, used);
      PopArithmetic(Last(rs), n);
      ShrinkSucceeds(Below(rs), n - used, releases, k + 1);
    } else {
      StayStep(rs, n, releases, k);
      if |rs| == 1 {
        RootTotal(rs);
      }
    }
  }

  /** All mappings lie in the space that `sbrk_init` reserves at `start`. */
  predicate InSpace(rs: seq<Region>, start: int) {
    forall i | 0 < i < |rs| :: start <= Base(rs[i]) && rs[i].topReserved <= start + SPACE_SIZE
  }

  /** The kernel places that space at a multiple of its size, so nothing that fits into it wraps. */
  lemma {:induction false} SpaceNeverWraps(rs: seq<Region>, start: int, n: int)
    requires Sound(rs) && InSpace(rs, start) && start >= SPACE_SIZE && n <= SPACE_SIZE
    ensures NoWrap(rs, n)
    decreases |rs|
  {
    if |rs| > 1 {
      var used := Last(rs).topAllocated - Base(Last(rs));
      SoundParts(rs);
      SoundParts(Below(rs));
      SpaceNeverWraps(Below(rs), start, n - used);
    }
  }

  lemma RootTotal(rs: seq<Region>)
    requires Sound(rs) && |rs| == 1
    ensures Total(rs) == 0 && Total(Below(rs)) == 0 && Last(rs).topAllocated == 0
  {
    assert Last(rs) == rs[0] && rs[0] in rs;
    assert Below(rs) == [];
  }

  // ----- growing and shrinking

  /** Giving back what was just taken: the break is again where the growth began, whatever the kernel had mapped for
    it. */
  lemma GrowThenShrink(rs: seq<Region>, n: int, m: Mapping, releases: nat -> Release)
    requires Sound(rs) && InRange(rs, n) && Fits(rs, n, m) && Roomy(rs, n, m) && AllReleased(releases)
    requires Grow(rs, n, m).result.Break?
    ensures var grown := Grow(rs, n, m);
      && Rooted(grown.regions)
      && var after := Shrink(grown.regions, n, releases, 0);
      && after.result == grown.result && Total(after.regions) == Total(rs)
      && (Maps(rs, n) && Adjacent(rs, m) && Tail(rs) > 0 ==> after.regions == rs)
  {
    SoundParts(rs);
    GrowAccounts(rs, n, m);
    GrowKeeps(rs, n, m);
    assert Released(releases(0));
    if !Maps(rs, n) {
      GrowInside(rs, n, m);
      WithTopParts(rs, Last(rs).topAllocated + n);
      UndoWithin(Grow(rs, n, m).regions, n, Last(rs).topAllocated, releases);
    } else {
      GrowMapping(rs, n, m);
      MappedParts(rs, n, m);
      if Adjacent(rs, m) && Tail(rs) > 0 {
        UndoInto(rs, n, m, releases);
      } else {
        UndoWithin(Mapped(rs, n, m), n, m.base, releases);
      }
    }
  }

  /** What was taken lies in the topmost region. */
  lemma UndoWithin(rs: seq<Region>, n: int, from: int, releases: nat -> Release)
    requires Sound(rs) && 0 <= n < TWO_31 && Base(Last(rs)) <= from == Last(rs).topAllocated - n
    ensures var after := Shrink(rs, n, releases, 0);
      after.result.Break? && after.result.address == from && Total(after.regions) == Total(rs) - n
  {
    SoundParts(rs);
    BelowWraps(Last(rs).topAllocated, n);
    StayStep(rs, n, releases, 0);
  }

  /** The new region is given back, and the rest is taken from the tail of the old one. */
  lemma UndoInto(rs: seq<Region>, n: int, m: Mapping, releases: nat -> Release)
    requires Sound(rs) && InRange(rs, n) && Maps(rs, n) && Fits(rs, n, m) && Adjacent(rs, m) && Tail(rs) > 0
    requires Sound(Mapped(rs, n, m)) && Released(releases(0))
    ensures Shrink(Mapped(rs, n, m), n, releases, 0) == Outcome(rs, Break(Last(rs).topAllocated))
  {
    var after, filled := Mapped(rs, n, m), WithTop(rs, Last(rs).topReserved);
    MappedParts(rs, n, m);
    SoundParts(after);
    BelowWraps(Last(after).topAllocated, n);
    PopStep(after, n, releases, 0, n - Tail(rs));
    UndoTail(rs, filled, Tail(rs), releases);
  }

  /** Taking back the bytes that filled a region up. */
  lemma UndoTail(rs: seq<Region>, filled: seq<Region>, tail: int, releases: nat -> Release)
    requires Sound(rs) && tail == Tail(rs) > 0 && filled == WithTop(rs, Last(rs).topReserved)
    ensures Shrink(filled, tail, releases, 1) == Outcome(rs, Break(Last(rs).topAllocated))
  {
    WithTopParts(rs, Last(rs).topReserved);
    SoundParts(rs);
    SoundParts(filled);
    BelowWraps(Last(filled).topAllocated, tail);
    StayStep(filled, tail, releases, 1);
    assert WithTop(filled, Last(rs).topAllocated) == rs;
  }

  // ----- runs

  datatype Call = Call(incr: int, mapping: Mapping, releases: nat -> Release)

  function After(rs: seq<Region>, c: Call): seq<Region>
    requires Rooted(rs)
  {
    Step(rs, c.incr, c.mapping, c.releases).regions
  }

  /** What a call has to satisfy: an increment in range, and a mapping that is adjacent or large enough. */
  predicate Suitable(rs: seq<Region>, c: Call)
    requires Sound(rs)
  {
    && -TWO_31 < c.incr <= MAX_INCREMENT
    && (c.incr >= 0 ==> InRange(rs, c.incr) && Fits(rs, c.incr, c.mapping) && Roomy(rs, c.incr, c.mapping))
  }

  lemma StepKeeps(rs: seq<Region>, c: Call)
    requires Sound(rs) && Suitable(rs, c)
    ensures Sound(After(rs, c))
    ensures Step(rs, c.incr, c.mapping, c.releases).result.Break? ==> Total(After(rs, c)) == Total(rs) + c.incr
  {
    if c.incr >= 0 {
      GrowKeeps(rs, c.incr, c.mapping);
      GrowAccounts(rs, c.incr, c.mapping);
      if Maps(rs, c.incr) && !(Granted(c.mapping) && c.mapping.listed) {
        GrowRefused(rs, c.incr, c.mapping);
      }
    } else {
      PlainSigned(-c.incr);
      ShrinkKeeps(rs, -c.incr, c.releases, 0);
      ShrinkAccounts(rs, -c.incr, c.releases, 0);
    }
  }

  /** Every call of a run is suitable in the state it finds. */
  predicate SuitableRun(rs: seq<Region>, calls: seq<Call>)
    requires Sound(rs)
    decreases |calls|
  {
    calls == [] ||
    (Suitable(rs, calls[0]) && (StepKeeps(rs, calls[0]); SuitableRun(After(rs, calls[0]), calls[1..])))
  }

  function Run(rs: seq<Region>, calls: seq<Call>): seq<Region>
    requires Sound(rs) && SuitableRun(rs, calls)
    decreases |calls|
  {
    if calls == [] then rs else (StepKeeps(rs, calls[0]); Run(After(rs, calls[0]), calls[1..]))
  }

  predicate Succeeds(rs: seq<Region>, c: Call)
    requires Rooted(rs)
  {
    Step(rs, c.incr, c.mapping, c.releases).result.Break?
  }

  function Sum(calls: seq<Call>): int {
    if calls == [] then 0 else calls[0].incr + Sum(calls[1..])
  }

  predicate AllSucceed(rs: seq<Region>, calls: seq<Call>)
    requires Sound(rs) && SuitableRun(rs, calls)
    decreases |calls|
  {
    calls == [] ||
    (Succeeds(rs, calls[0]) && (StepKeeps(rs, calls[0]); AllSucceed(After(rs, calls[0]), calls[1..])))
  }

  /** Over every run of suitable calls, successful or not, the stack stays sound; what is handed out is the sum of the
    increments. */
  lemma {:induction false} RunKeeps(rs: seq<Region>, calls: seq<Call>)
    requires Sound(rs) && SuitableRun(rs, calls)
    ensures Sound(Run(rs, calls))
    ensures AllSucceed(rs, calls) ==> Total(Run(rs, calls)) == Total(rs) + Sum(calls)
    decreases |calls|
  {
    if calls != [] {
      StepKeeps(rs, calls[0]);
      RunKeeps(After(rs, calls[0]), calls[1..]);
    }
  }
}
