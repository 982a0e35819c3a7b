/** The two changes the heap makes to the picture of its blocks: carving a used block out of a free one,
  and releasing a used block, merging it with its free neighbours. */
module HeapMoves {
  import opened Arith
  import opened HeapLayout

  lemma TilingOrder(first: int, last: int, bs: Blocks, b: int, c: int)
    requires Tiling(first, last, bs) && b in bs && c in bs
    ensures b < c ==> Next(bs, b) <= c
    ensures c < b ==> Next(bs, c) <= b
  {
  }

  lemma OwnerOf(last: int, bs: Blocks, live: map<int, int>, p: int) returns (b: int)
    requires AllOwned(last, bs, live) && p in live
    ensures IsUsed(last, bs, b) && bs[b].area == p
  {
    b :| IsUsed(last, bs, b) && bs[b].area == p;
  }

  // ----- carving

  /** `lead` bytes in front of the new block stay free, and so does what is left behind it. */
  ghost predicate CanCarve(last: int, bs: Blocks, b: int, lead: int, size: int) {
    && IsFree(last, bs, b)
    && (lead == 0 || lead >= MIN_BLOCK) && size >= MIN_BLOCK
    && (lead + size == bs[b].size || lead + size + MIN_BLOCK <= bs[b].size)
  }

  ghost function Carve(bs: Blocks, b: int, lead: int, size: int, area: int): Blocks
    requires b in bs && Next(bs, b) in bs
  {
    var rest := bs[b].size - lead - size;
    var leading := if lead == 0 then bs else bs[b := Block(lead, false, true, 0)];
    var carved := leading[b + lead := Block(size, true, lead == 0, area)];
    if rest == 0 then carved[Next(bs, b) := bs[Next(bs, b)].(prevUsed := true)]
    else carved[b + lead + size := Block(rest, false, true, 0)]
  }

  // ----- the free list as a sequence

  ghost predicate Distinct(s: seq<int>) {
    forall i, j | 0 <= i < j < |s| :: s[i] != s[j]
  }

  ghost function Splice(s: seq<int>, k: int, mid: seq<int>): seq<int>
    requires 0 <= k < |s|
  {
    s[..k] + mid + s[k + 1..]
  }

  ghost function Inserted(s: seq<int>, k: int, x: int): seq<int>
    requires 0 <= k <= |s|
  {
    s[..k] + [x] + s[k..]
  }

  lemma InsertedMembers(s: seq<int>, k: int, x: int)
    requires 0 <= k <= |s| && Distinct(s) && x !in s
    ensures forall y :: y in Inserted(s, k, x) <==> y == x || y in s
    ensures Distinct(Inserted(s, k, x))
  {
    var t := Inserted(s, k, x);
    assert forall y <- s :: y in s[..k] || y in s[k..];
    assert forall i | 0 <= i < |t| :: t[i] == if i < k then s[i] else if i == k then x else s[i - 1];
  }

  lemma SpliceMembers(s: seq<int>, k: int, mid: seq<int>)
    requires 0 <= k < |s| && Distinct(s) && Distinct(mid)
    requires forall x <- mid :: x in s ==> x == s[k]
    ensures forall x :: x in Splice(s, k, mid) <==> x in mid || (x in s && x != s[k])
    ensures Distinct(Splice(s, k, mid))
  {
    assert forall x <- s :: x in s[..k] || x == s[k] || x in s[k + 1..];
    var t := Splice(s, k, mid);
    assert forall i | 0 <= i < |t| :: t[i] == if i < k then s[i] else if i < k + |mid| then mid[i - k]
                                      else s[i - |mid| + 1];
    forall i, j | 0 <= i < j < |t| ensures t[i] != t[j] {
      if k <= i < k + |mid| {
        assert t[i] in mid;
      }
      if k <= j < k + |mid| {
        assert t[j] in mid;
      }
    }
  }

  // ----- tilings

  /** `bs'` has the addresses and sizes of `bs`, but for the block `b`, which is cut in two at `b + k`. */
  ghost predicate CutAt(bs: Blocks, bs': Blocks, b: int, k: int) {
    && b in bs
    && bs'.Keys == bs.Keys + {b + k}
    && bs'[b].size == k && bs'[b + k].size == bs[b].size - k
    && (forall c <- bs | c != b :: bs'[c].size == bs[c].size)
  }

  lemma CutKeepsTiling(first: int, last: int, bs: Blocks, bs': Blocks, b: int, k: int)
    requires Tiling(first, last, bs) && b != last && CutAt(bs, bs', b, k)
    requires MIN_BLOCK <= k && k + MIN_BLOCK <= bs[b].size
    ensures Tiling(first, last, bs')
  {
    var n := Next(bs, b);
    forall c {:trigger Next(bs', c)} | c in bs' && c != last
      ensures MIN_BLOCK <= bs'[c].size && Next(bs', c) in bs'
    {
      if c in bs && c != b {
        assert Next(bs', c) == Next(bs, c);
      }
    }
    forall c, d | c in bs' && d in bs' && c < d
      ensures Next(bs', c) <= d
    {
      if c == b + k {
        assert Next(bs', c) == n;
      } else if c != b {
        assert Next(bs', c) == Next(bs, c);
      }
    }
  }

  /** `bs'` has the addresses and sizes of `bs`, but `b` has swallowed its successor. */
  ghost predicate MergedAt(bs: Blocks, bs': Blocks, b: int) {
    && b in bs && Next(bs, b) in bs && b != Next(bs, b)
    && bs'.Keys == bs.Keys - {Next(bs, b)}
    && bs'[b].size == bs[b].size + bs[Next(bs, b)].size
    && (forall c <- bs' | c != b :: bs'[c].size == bs[c].size)
  }

  lemma MergeKeepsTiling(first: int, last: int, bs: Blocks, bs': Blocks, b: int)
    requires Tiling(first, last, bs) && MergedAt(bs, bs', b) && b != last && Next(bs, b) != last
    ensures Tiling(first, last, bs')
    ensures Next(bs', b) == Next(bs, Next(bs, b))
  {
    var n := Next(bs, b);
    forall c {:trigger Next(bs', c)} | c in bs' && c != last
      ensures MIN_BLOCK <= bs'[c].size && Next(bs', c) in bs'
    {
      assert Next(bs, n) in bs;
      if c != b {
        assert Next(bs', c) == Next(bs, c);
      }
    }
    forall c, d | c in bs' && d in bs' && c < d
      ensures Next(bs', c) <= d
    {
      if c != b {
        assert Next(bs', c) == Next(bs, c);
      } else {
        assert n <= d;
        assert Next(bs, n) <= d;
      }
    }
  }

  ghost predicate SameSizes(bs: Blocks, bs': Blocks) {
    bs'.Keys == bs.Keys && forall c <- bs :: bs'[c].size == bs[c].size
  }

  lemma SameSizesKeepTiling(first: int, last: int, bs: Blocks, bs': Blocks)
    requires Tiling(first, last, bs) && SameSizes(bs, bs')
    ensures Tiling(first, last, bs')
  {
    forall c <- bs ensures Next(bs', c) == Next(bs, c) {}
  }

  // ----- carving keeps the picture well formed

  lemma CarveTiles(first: int, last: int, bs: Blocks, b: int, lead: int, size: int, area: int)
    requires Tiling(first, last, bs) && CanCarve(last, bs, b, lead, size)
    ensures Next(bs, b) in bs && Tiling(first, last, Carve(bs, b, lead, size, area))
  {
    var rest := bs[b].size - lead - size;
    assert Next(bs, b) in bs;
    var cs := Carve(bs, b, lead, size, area);
    var led := if lead == 0 then bs
      else bs[b := Block(lead, false, true, 0)][b + lead := Block(size + rest, true, true, 0)];
    if lead != 0 {
      CutKeepsTiling(first, last, bs, led, b, lead);
    }
    if rest != 0 {
      CutKeepsTiling(first, last, led, cs, b + lead, size);
    } else {
      SameSizesKeepTiling(first, last, led, cs);
    }
  }

  lemma CarvedParts(b: int, total: int, lead: int, size: int)
    requires b % PAGE_SIZE == 0 && total % PAGE_SIZE == 0 && lead % PAGE_SIZE == 0 && size % PAGE_SIZE == 0
    ensures (b + lead) % PAGE_SIZE == 0 && (b + lead + size) % PAGE_SIZE == 0 && (total - lead - size) % PAGE_SIZE == 0
    ensures (b + total) % PAGE_SIZE == 0
  {
    MultiplesAdd(b, lead, PAGE_SIZE);
    MultiplesAdd(b + lead, size, PAGE_SIZE);
    MultiplesAdd(total, lead, PAGE_SIZE);
    MultiplesAdd(total - lead, size, PAGE_SIZE);
    MultiplesAdd(b, total, PAGE_SIZE);
  }

  lemma CarveAligns(first: int, last: int, bs: Blocks, b: int, lead: int, size: int, area: int)
    requires Tiling(first, last, bs) && PageAligned(last, bs) && CanCarve(last, bs, b, lead, size)
    requires lead % PAGE_SIZE == 0 && size % PAGE_SIZE == 0
    ensures Next(bs, b) in bs && PageAligned(last, Carve(bs, b, lead, size, area))
  {
    assert Next(bs, b) in bs;
    assert b % PAGE_SIZE == 0 && bs[b].size % PAGE_SIZE == 0;
    CarvedParts(b, bs[b].size, lead, size);
  }

  /** The blocks after a cut, one by one. */
  lemma CarveAt(first: int, last: int, bs: Blocks, b: int, lead: int, size: int, area: int, c: int)
    requires Tiling(first, last, bs) && CanCarve(last, bs, b, lead, size) && Next(bs, b) in bs
    ensures c in Carve(bs, b, lead, size, area) <==>
      c in bs || c == b + lead || (lead + size != bs[b].size && c == b + lead + size)
    ensures c in Carve(bs, b, lead, size, area) ==>
      Carve(bs, b, lead, size, area)[c] == CarvedBlock(bs, b, lead, size, area, c)
  {
  }

  ghost function CarvedBlock(bs: Blocks, b: int, lead: int, size: int, area: int, c: int): Block
    requires b in bs && (c in bs || c == b + lead || (lead + size != bs[b].size && c == b + lead + size))
  {
    if c == b + lead then Block(size, true, lead == 0, area)
    else if c == b then Block(lead, false, true, 0)
    else if c != b + lead + size then bs[c]
    else if lead + size != bs[b].size then Block(bs[b].size - lead - size, false, true, 0)
    else bs[c].(prevUsed := true)
  }

  /** Where a block after a cut ends. */
  lemma CarveNext(first: int, last: int, bs: Blocks, b: int, lead: int, size: int, area: int, c: int)
    requires Tiling(first, last, bs) && CanCarve(last, bs, b, lead, size) && Next(bs, b) in bs
    requires c in Carve(bs, b, lead, size, area) && c != last
    ensures var n := Next(Carve(bs, b, lead, size, area), c);
      && (c == b + lead ==> n == b + lead + size)
      && (c == b && lead != 0 ==> n == b + lead)
      && (c == b + lead + size && lead + size != bs[b].size ==> n == Next(bs, b))
      && (c != b && c != b + lead && (c != b + lead + size || lead + size == bs[b].size) ==>
            c in bs && n == Next(bs, c) && n in bs && (n == b || n < b || n > Next(bs, b)))
  {
    CarveAt(first, last, bs, b, lead, size, area, c);
    if c in bs && c != b {
      TilingOrder(first, last, bs, b, c);
      TilingOrder(first, last, bs, c, Next(bs, b));
    }
  }

  lemma CarveFlag(first: int, last: int, bs: Blocks, b: int, lead: int, size: int, area: int, c: int)
    requires Tiling(first, last, bs) && Flags(first, last, bs) && CanCarve(last, bs, b, lead, size)
    requires Next(bs, b) in bs && c in Carve(bs, b, lead, size, area)
    ensures var cs := Carve(bs, b, lead, size, area);
      && (cs[c].used || cs[c].prevUsed)
      && (c != last && Next(cs, c) in cs ==> cs[Next(cs, c)].prevUsed == cs[c].used)
  {
    CarveAt(first, last, bs, b, lead, size, area, c);
    if c != last {
      CarveNext(first, last, bs, b, lead, size, area, c);
      CarveAt(first, last, bs, b, lead, size, area, Next(Carve(bs, b, lead, size, area), c));
    }
  }

  lemma CarveFlags(first: int, last: int, bs: Blocks, b: int, lead: int, size: int, area: int)
    requires Tiling(first, last, bs) && Flags(first, last, bs) && CanCarve(last, bs, b, lead, size)
    requires Next(bs, b) in bs
    requires Tiling(first, last, Carve(bs, b, lead, size, area))
    ensures Flags(first, last, Carve(bs, b, lead, size, area))
  {
    var cs := Carve(bs, b, lead, size, area);
    CarveAt(first, last, bs, b, lead, size, area, first);
    CarveAt(first, last, bs, b, lead, size, area, last);
    forall c <- cs ensures
      (cs[c].used || cs[c].prevUsed) && (c != last ==> cs[Next(cs, c)].prevUsed == cs[c].used)
    {
      CarveFlag(first, last, bs, b, lead, size, area, c);
    }
  }

  lemma CarveWellFormed(first: int, last: int, bs: Blocks, b: int, lead: int, size: int, area: int)
    requires WellFormed(first, last, bs) && CanCarve(last, bs, b, lead, size)
    requires lead % PAGE_SIZE == 0 && size % PAGE_SIZE == 0
    ensures Next(bs, b) in bs && WellFormed(first, last, Carve(bs, b, lead, size, area))
  {
    CarveTiles(first, last, bs, b, lead, size, area);
    CarveAligns(first, last, bs, b, lead, size, area);
    CarveFlags(first, last, bs, b, lead, size, area);
  }

  /** The list after a split: the rest, when there is one, goes in after node `k`. */
  ghost function SplitList(list: seq<int>, k: int, rest: int, x: int): seq<int>
    requires 0 <= k <= |list|
  {
    if rest == 0 then list else Inserted(list, k, x)
  }

  /** A free front keeps its place in the list; what is left behind the new block goes right after it, or
    takes its place. */
  ghost function CarvedList(free: seq<int>, k: int, lead: int, size: int, rest: int): seq<int>
    requires 0 <= k < |free|
  {
    SplitList(if lead == 0 then Splice(free, k, []) else free, if lead == 0 then k else k + 1, rest,
              free[k] + lead + size)
  }

  lemma CarveFrees(first: int, last: int, bs: Blocks, b: int, lead: int, size: int, area: int)
    requires Tiling(first, last, bs) && Flags(first, last, bs) && CanCarve(last, bs, b, lead, size)
    ensures Next(bs, b) in bs
    ensures var cs := Carve(bs, b, lead, size, area);
      forall c {:trigger IsFree(last, bs, c)} {:trigger IsFree(last, cs, c)} ::
        IsFree(last, cs, c) <==> (IsFree(last, bs, c) && (c != b || lead != 0))
                                 || (c == b + lead + size && c != Next(bs, b))
    ensures b + lead + size != Next(bs, b) ==> b + lead + size !in bs
  {
    assert bs[Next(bs, b)].used;
  }

  lemma CarveLists(first: int, last: int, bs: Blocks, free: seq<int>, k: int, lead: int, size: int, area: int)
    requires Tiling(first, last, bs) && Flags(first, last, bs) && ListsFree(last, bs, free)
    requires 0 <= k < |free| && CanCarve(last, bs, free[k], lead, size)
    ensures Next(bs, free[k]) in bs
    ensures ListsFree(last, Carve(bs, free[k], lead, size, area),
                      CarvedList(free, k, lead, size, bs[free[k]].size - lead - size))
  {
    var b := free[k];
    var cs, rest := Carve(bs, b, lead, size, area), bs[b].size - lead - size;
    CarveFrees(first, last, bs, b, lead, size, area);
    CarvedMembers(free, k, lead, size, rest);
    var list := CarvedList(free, k, lead, size, rest);
    forall c {:trigger IsFree(last, cs, c)} {:trigger c in list} ensures IsFree(last, cs, c) <==> c in list {
      assert IsFree(last, bs, c) <==> c in free;
    }
  }

  lemma CarvedMembers(free: seq<int>, k: int, lead: int, size: int, rest: int)
    requires 0 <= k < |free| && Distinct(free) && (rest != 0 ==> free[k] + lead + size !in free)
    ensures var list := CarvedList(free, k, lead, size, rest);
      && Distinct(list)
      && forall c {:trigger c in list} {:trigger c in free} ::
           c in list <==> (c in free && (c != free[k] || lead != 0)) || (rest != 0 && c == free[k] + lead + size)
  {
    SpliceMembers(free, k, []);
    var list := if lead == 0 then Splice(free, k, []) else free;
    if rest != 0 {
      InsertedMembers(list, if lead == 0 then k else k + 1, free[k] + lead + size);
    }
  }

  lemma CarveAreas(first: int, last: int, bs: Blocks, live: map<int, int>, b: int, lead: int, size: int,
                   area: int, request: int)
    requires Tiling(first, last, bs) && Areas(last, bs, live) && CanCarve(last, bs, b, lead, size)
    requires b + lead + HEADER <= area < b + lead + HEADER + PAGE_SIZE
    requires 0 <= request && area + request <= b + lead + size + BONUS
    ensures Next(bs, b) in bs
    ensures area !in live
    ensures Areas(last, Carve(bs, b, lead, size, area), live[area := request])
  {
    assert Next(bs, b) in bs;
    var cs := Carve(bs, b, lead, size, area);
    CarveKeepsUsed(first, last, bs, b, lead, size, area);
    NewArea(first, last, bs, live, b, lead, area);
    MoreFit(last, bs, cs, live, b + lead, area, request);
    MoreOwned(last, bs, cs, live, b + lead, area, request);
  }

  lemma CarveKeepsUsed(first: int, last: int, bs: Blocks, b: int, lead: int, size: int, area: int)
    requires Tiling(first, last, bs) && CanCarve(last, bs, b, lead, size) && Next(bs, b) in bs
    ensures OneMoreUsed(last, bs, Carve(bs, b, lead, size, area), b + lead)
    ensures var cs := Carve(bs, b, lead, size, area);
      IsUsed(last, cs, b + lead) && cs[b + lead].area == area && Next(cs, b + lead) == b + lead + size
  {
    var cs := Carve(bs, b, lead, size, area);
    CarveAt(first, last, bs, b, lead, size, area, b + lead);
    TilingOrder(first, last, bs, b, last);
    forall c {:trigger IsUsed(last, bs, c)} {:trigger IsUsed(last, cs, c)}
      ensures IsUsed(last, cs, c) <==> c == b + lead || IsUsed(last, bs, c)
      ensures IsUsed(last, bs, c) ==> c != b + lead && cs[c].area == bs[c].area && Next(cs, c) == Next(bs, c)
    {
      CarveAt(first, last, bs, b, lead, size, area, c);
      if c in bs {
        TilingOrder(first, last, bs, b, c);
      }
    }
  }

  /** The used blocks are those of before and `x`. */
  ghost predicate OneMoreUsed(last: int, bs: Blocks, cs: Blocks, x: int) {
    forall c {:trigger IsUsed(last, bs, c)} {:trigger IsUsed(last, cs, c)} ::
      && (IsUsed(last, cs, c) <==> c == x || IsUsed(last, bs, c))
      && (IsUsed(last, bs, c) ==> c != x && cs[c].area == bs[c].area && Next(cs, c) == Next(bs, c))
  }

  lemma NewArea(first: int, last: int, bs: Blocks, live: map<int, int>, b: int, lead: int, area: int)
    requires Tiling(first, last, bs) && Areas(last, bs, live) && IsFree(last, bs, b) && 0 <= lead
    requires b + lead + MIN_BLOCK <= Next(bs, b) && b + lead + HEADER <= area < b + lead + HEADER + PAGE_SIZE
    ensures area !in live
  {
    if area in live {
      var c := OwnerOf(last, bs, live, area);
      TilingOrder(first, last, bs, b, c);
      assert false;
    }
  }

  lemma MoreFit(last: int, bs: Blocks, cs: Blocks, live: map<int, int>, x: int, area: int, request: int)
    requires UsedFit(last, bs, live) && OneMoreUsed(last, bs, cs, x) && area !in live
    requires IsUsed(last, cs, x) && cs[x].area == area && x + HEADER <= area < x + HEADER + PAGE_SIZE
    requires 0 <= request && area + request <= Next(cs, x) + BONUS
    ensures UsedFit(last, cs, live[area := request])
  {
    var live' := live[area := request];
    forall c {:trigger IsUsed(last, cs, c)} | IsUsed(last, cs, c)
      ensures && c + HEADER <= cs[c].area < c + HEADER + PAGE_SIZE
              && cs[c].area in live'
              && 0 <= live'[cs[c].area]
              && cs[c].area + live'[cs[c].area] <= Next(cs, c) + BONUS
    {
      assert c == x || IsUsed(last, bs, c);
    }
  }

  lemma MoreOwned(last: int, bs: Blocks, cs: Blocks, live: map<int, int>, x: int, area: int, request: int)
    requires AllOwned(last, bs, live) && OneMoreUsed(last, bs, cs, x)
    requires IsUsed(last, cs, x) && cs[x].area == area
    ensures AllOwned(last, cs, live[area := request])
  {
    var live' := live[area := request];
    forall p <- live' ensures exists c :: IsUsed(last, cs, c) && cs[c].area == p {
      if p != area {
        var c := OwnerOf(last, bs, live, p);
        assert IsUsed(last, cs, c);
      }
    }
  }

  // ----- releasing

  /** Every block but the first has a predecessor. */
  lemma {:induction false} Predecessor(first: int, last: int, bs: Blocks, from: int, b: int) returns (prev: int)
    requires Tiling(first, last, bs) && from in bs && b in bs && from < b
    ensures prev in bs && prev != last && Next(bs, prev) == b
    decreases b - from
  {
    assert Next(bs, from) in bs;
    if Next(bs, from) == b {
      prev := from;
    } else {
      prev := Predecessor(first, last, bs, Next(bs, from), b);
    }
  }

  /** `start` is `b`, or its predecessor when that one is free. */
  ghost predicate CanRelease(last: int, bs: Blocks, b: int, start: int) {
    && IsUsed(last, bs, b) && Next(bs, b) in bs
    && (if bs[b].prevUsed then start == b else IsFree(last, bs, start) && Next(bs, start) == b)
    && (IsFree(last, bs, Next(bs, b)) ==> Next(bs, Next(bs, b)) in bs)
  }

  ghost function End(last: int, bs: Blocks, b: int): int
    requires b in bs && Next(bs, b) in bs
  {
    if IsFree(last, bs, Next(bs, b)) then Next(bs, Next(bs, b)) else Next(bs, b)
  }

  ghost function Release(last: int, bs: Blocks, b: int, start: int): Blocks
    requires CanRelease(last, bs, b, start)
  {
    var n := Next(bs, b);
    var end := End(last, bs, b);
    var kept := bs - (if start != b then {b} else {}) - (if IsFree(last, bs, n) then {n} else {});
    var freed := kept[start := Block(end - start, false, true, 0)];
    if end in freed then freed[end := freed[end].(prevUsed := false)] else freed
  }

  lemma ReleaseTiles(first: int, last: int, bs: Blocks, b: int, start: int)
    requires Tiling(first, last, bs) && Flags(first, last, bs) && CanRelease(last, bs, b, start)
    ensures Tiling(first, last, Release(last, bs, b, start))
    ensures End(last, bs, b) in bs && End(last, bs, b) in Release(last, bs, b, start)
    ensures bs[End(last, bs, b)].used && End(last, bs, b) > b
  {
    var n := Next(bs, b);
    var rs := Release(last, bs, b, start);
    var grown := if IsFree(last, bs, n) then (bs - {n})[b := bs[b].(size := bs[b].size + bs[n].size)] else bs;
    if IsFree(last, bs, n) {
      MergeKeepsTiling(first, last, bs, grown, b);
    }
    if start != b {
      assert Next(grown, start) == Next(bs, start);
      var joined := (grown - {b})[start := grown[start].(size := grown[start].size + grown[b].size)];
      MergeKeepsTiling(first, last, grown, joined, start);
      SameSizesKeepTiling(first, last, joined, rs);
    } else {
      SameSizesKeepTiling(first, last, grown, rs);
    }
  }

  /** The blocks after a release, one by one. */
  lemma ReleaseAt(first: int, last: int, bs: Blocks, b: int, start: int, c: int)
    requires Tiling(first, last, bs) && Flags(first, last, bs) && CanRelease(last, bs, b, start)
    ensures c in Release(last, bs, b, start) <==>
      c in bs && (c != b || start == b) && (c != Next(bs, b) || !IsFree(last, bs, c))
    ensures c in Release(last, bs, b, start) ==>
      Release(last, bs, b, start)[c] == ReleasedBlock(last, bs, b, start, c)
  {
    TilingOrder(first, last, bs, b, start);
    TilingOrder(first, last, bs, start, Next(bs, b));
  }

  ghost function ReleasedBlock(last: int, bs: Blocks, b: int, start: int, c: int): Block
    requires CanRelease(last, bs, b, start) && c in bs
  {
    if c == start then Block(End(last, bs, b) - start, false, true, 0)
    else if c == End(last, bs, b) then bs[c].(prevUsed := false)
    else bs[c]
  }

  lemma ReleaseAligns(first: int, last: int, bs: Blocks, b: int, start: int)
    requires Tiling(first, last, bs) && PageAligned(last, bs) && Flags(first, last, bs)
    requires CanRelease(last, bs, b, start) && End(last, bs, b) in bs
    ensures PageAligned(last, Release(last, bs, b, start))
  {
    var rs, end := Release(last, bs, b, start), End(last, bs, b);
    forall c <- rs ensures c % PAGE_SIZE == 0 && (c != last ==> rs[c].size % PAGE_SIZE == 0) {
      ReleaseAt(first, last, bs, b, start, c);
      if c == start {
        MultiplesDiffer(end, start);
      }
    }
  }

  lemma MultiplesDiffer(a: int, b: int)
    requires a % PAGE_SIZE == 0 && b % PAGE_SIZE == 0
    ensures (a - b) % PAGE_SIZE == 0
  {
  }

  lemma ReleaseFlag(first: int, last: int, bs: Blocks, b: int, start: int, c: int)
    requires Tiling(first, last, bs) && Flags(first, last, bs) && CanRelease(last, bs, b, start)
    requires End(last, bs, b) in bs && bs[End(last, bs, b)].used && End(last, bs, b) > b
    requires c in Release(last, bs, b, start)
    ensures var rs := Release(last, bs, b, start);
      && (rs[c].used || rs[c].prevUsed)
      && (c != last && Next(rs, c) in rs ==> rs[Next(rs, c)].prevUsed == rs[c].used)
  {
    var rs := Release(last, bs, b, start);
    ReleaseAt(first, last, bs, b, start, c);
    if c != last {
      ReleaseAt(first, last, bs, b, start, Next(rs, c));
      if c != start {
        assert Next(rs, c) == Next(bs, c) && bs[Next(bs, c)].prevUsed == bs[c].used;
        TilingOrder(first, last, bs, c, b);
        TilingOrder(first, last, bs, c, Next(bs, b));
        assert bs[start].prevUsed && Next(bs, c) != End(last, bs, b);
      }
    }
  }

  lemma ReleaseFlags(first: int, last: int, bs: Blocks, b: int, start: int)
    requires Tiling(first, last, bs) && Flags(first, last, bs) && CanRelease(last, bs, b, start)
    requires Tiling(first, last, Release(last, bs, b, start))
    requires End(last, bs, b) in bs && bs[End(last, bs, b)].used && End(last, bs, b) > b
    ensures Flags(first, last, Release(last, bs, b, start))
  {
    var rs := Release(last, bs, b, start);
    ReleaseAt(first, last, bs, b, start, first);
    ReleaseAt(first, last, bs, b, start, last);
    TilingOrder(first, last, bs, first, start);
    forall c <- rs ensures
      (rs[c].used || rs[c].prevUsed) && (c != last ==> rs[Next(rs, c)].prevUsed == rs[c].used)
    {
      ReleaseFlag(first, last, bs, b, start, c);
    }
  }

  lemma ReleaseWellFormed(first: int, last: int, bs: Blocks, b: int, start: int)
    requires WellFormed(first, last, bs) && CanRelease(last, bs, b, start)
    ensures WellFormed(first, last, Release(last, bs, b, start))
  {
    ReleaseTiles(first, last, bs, b, start);
    ReleaseAligns(first, last, bs, b, start);
    ReleaseFlags(first, last, bs, b, start);
  }

  /** A free block in front stays in the list and grows; otherwise the released block takes the place of
    the free block behind it, or goes to the head of the list. */
  ghost function ReleasedList(free: seq<int>, nextFree: bool, k: int, b: int, start: int): seq<int>
    requires nextFree ==> 0 <= k < |free|
  {
    if nextFree then Splice(free, k, if start == b then [b] else [])
    else if start == b then [b] + free else free
  }

  lemma ReleaseLists(first: int, last: int, bs: Blocks, free: seq<int>, k: int, b: int, start: int)
    requires Tiling(first, last, bs) && Flags(first, last, bs) && CanRelease(last, bs, b, start)
    requires ListsFree(last, bs, free)
    requires IsFree(last, bs, Next(bs, b)) ==> 0 <= k < |free| && free[k] == Next(bs, b)
    ensures ListsFree(last, Release(last, bs, b, start),
                      ReleasedList(free, IsFree(last, bs, Next(bs, b)), k, b, start))
  {
    ReleaseFrees(first, last, bs, b, start);
    assert !IsFree(last, bs, b) && b !in free;
    if IsFree(last, bs, Next(bs, b)) {
      SpliceMembers(free, k, if start == b then [b] else []);
    }
  }

  lemma ReleaseFrees(first: int, last: int, bs: Blocks, b: int, start: int)
    requires Tiling(first, last, bs) && Flags(first, last, bs) && CanRelease(last, bs, b, start)
    ensures var rs := Release(last, bs, b, start);
      forall c {:trigger IsFree(last, bs, c)} {:trigger IsFree(last, rs, c)} ::
        IsFree(last, rs, c) <==> c == start || (IsFree(last, bs, c) && c != Next(bs, b))
  {
    ReleaseTiles(first, last, bs, b, start);
  }

  lemma ReleaseKeepsUsed(first: int, last: int, bs: Blocks, b: int, start: int)
    requires Tiling(first, last, bs) && Flags(first, last, bs) && CanRelease(last, bs, b, start)
    ensures var rs := Release(last, bs, b, start);
      forall c {:trigger IsUsed(last, bs, c)} {:trigger IsUsed(last, rs, c)} ::
        && (IsUsed(last, rs, c) <==> IsUsed(last, bs, c) && c != b)
        && (IsUsed(last, rs, c) ==> rs[c].area == bs[c].area && rs[c].size == bs[c].size)
  {
    ReleaseTiles(first, last, bs, b, start);
  }

  lemma ReleaseAreas(first: int, last: int, bs: Blocks, live: map<int, int>, b: int, start: int)
    requires Tiling(first, last, bs) && Flags(first, last, bs) && CanRelease(last, bs, b, start)
    requires Areas(last, bs, live)
    ensures Areas(last, Release(last, bs, b, start), live - {bs[b].area})
  {
    ReleaseKeepsUsed(first, last, bs, b, start);
    AreasApart(first, last, bs, live);
    AreasWithout(last, bs, Release(last, bs, b, start), live, b);
  }

  lemma AreasApart(first: int, last: int, bs: Blocks, live: map<int, int>)
    requires Tiling(first, last, bs) && UsedFit(last, bs, live)
    ensures forall b, c | IsUsed(last, bs, b) && IsUsed(last, bs, c) && b < c ::
              bs[b].area + live[bs[b].area] <= bs[c].area && bs[b].area < bs[c].area
  {
    forall b, c | IsUsed(last, bs, b) && IsUsed(last, bs, c) && b < c
      ensures bs[b].area + live[bs[b].area] <= bs[c].area && bs[b].area < bs[c].area
    {
      AreaApart(first, last, bs, live, b, c);
    }
  }

  lemma AreaApart(first: int, last: int, bs: Blocks, live: map<int, int>, b: int, c: int)
    requires Tiling(first, last, bs) && UsedFit(last, bs, live) && IsUsed(last, bs, b) && IsUsed(last, bs, c) && b < c
    ensures bs[b].area + live[bs[b].area] <= bs[c].area && bs[b].area < bs[c].area
  {
    TilingOrder(first, last, bs, b, c);
    assert b + MIN_BLOCK <= Next(bs, b);
  }

  lemma AreasWithout(last: int, bs: Blocks, rs: Blocks, live: map<int, int>, b: int)
    requires Areas(last, bs, live) && IsUsed(last, bs, b)
    requires forall c {:trigger IsUsed(last, bs, c)} {:trigger IsUsed(last, rs, c)} ::
               && (IsUsed(last, rs, c) <==> IsUsed(last, bs, c) && c != b)
               && (IsUsed(last, rs, c) ==> rs[c].area == bs[c].area && rs[c].size == bs[c].size)
    requires forall c, d | IsUsed(last, bs, c) && IsUsed(last, bs, d) && c < d :: bs[c].area < bs[d].area
    ensures Areas(last, rs, live - {bs[b].area})
  {
    var live' := live - {bs[b].area};
    forall p <- live' ensures exists c :: IsUsed(last, rs, c) && rs[c].area == p {
      var c := OwnerOf(last, bs, live, p);
      assert IsUsed(last, rs, c);
    }
    forall c | IsUsed(last, rs, c) ensures bs[c].area in live' {
      assert IsUsed(last, bs, c) && c != b;
      assert c < b || b < c;
    }
  }

  // ----- what the picture says about the heap as a whole

  /** Live areas, with their bonus words, lie inside the heap and do not overlap. */
  lemma LiveAreasDisjoint(first: int, last: int, bs: Blocks, live: map<int, int>)
    requires Tiling(first, last, bs) && Areas(last, bs, live)
    ensures LiveDisjoint(first, last, live)
  {
    forall p <- live ensures first + HEADER <= p && 0 <= live[p] && p + live[p] <= last + BONUS {
      LiveInside(first, last, bs, live, p);
    }
    forall p, q | p in live && q in live && p < q ensures p + live[p] <= q {
      LiveApart(first, last, bs, live, p, q);
    }
  }

  lemma LiveInside(first: int, last: int, bs: Blocks, live: map<int, int>, p: int)
    requires Tiling(first, last, bs) && Areas(last, bs, live) && p in live
    ensures first + HEADER <= p && 0 <= live[p] && p + live[p] <= last + BONUS
  {
    var b := OwnerOf(last, bs, live, p);
    TilingOrder(first, last, bs, b, last);
  }

  lemma LiveApart(first: int, last: int, bs: Blocks, live: map<int, int>, p: int, q: int)
    requires Tiling(first, last, bs) && Areas(last, bs, live) && p in live && q in live && p < q
    ensures p + live[p] <= q
  {
    var b := OwnerOf(last, bs, live, p);
    var c := OwnerOf(last, bs, live, q);
    if b < c {
      AreaApart(first, last, bs, live, b, c);
    } else if c < b {
      AreaApart(first, last, bs, live, c, b);
    }
  }

  /** With nothing live, all the memory is one free block again, whatever was allocated and freed before. */
  lemma FullyCoalesced(first: int, last: int, bs: Blocks, free: seq<int>, live: map<int, int>)
    requires WellFormed(first, last, bs) && ListsFree(last, bs, free) && Areas(last, bs, live)
    requires live == map[]
    ensures bs.Keys == {first, last} && bs[first] == Block(last - first, false, true, bs[first].area)
    ensures free == [first]
  {
    assert !IsUsed(last, bs, first);
    assert Next(bs, first) in bs;
    assert !IsUsed(last, bs, Next(bs, first));
    assert IsFree(last, bs, first);
    assert forall b <- bs :: b == first || b == last;
    forall i | 0 <= i < |free| ensures free[i] == first {
      assert free[i] in free;
    }
    assert free[0] == first && free[|free| - 1] == first;
  }

  /** The bytes in used (or free) blocks from address `b` on. */
  ghost function Bytes(first: int, last: int, bs: Blocks, b: int, used: bool): int
    requires Tiling(first, last, bs) && b in bs
    decreases last - b
  {
    if b == last then 0
    else
      assert Next(bs, b) in bs;
      (if bs[b].used == used then bs[b].size else 0) + Bytes(first, last, bs, Next(bs, b), used)
  }

  /** Used and free bytes always add up to the size of the heap. */
  lemma {:induction false} BytesAddUp(first: int, last: int, bs: Blocks, b: int)
    requires Tiling(first, last, bs) && b in bs
    ensures Bytes(first, last, bs, b, true) + Bytes(first, last, bs, b, false) == last - b
    decreases last - b
  {
    if b != last {
      assert Next(bs, b) in bs;
      BytesAddUp(first, last, bs, Next(bs, b));
    }
  }
}
