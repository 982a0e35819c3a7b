/** Why `heapFree` keeps the invariant, branch by branch. */
module HeapReleasing {
  import opened HeapLayout
  import opened HeapMoves
  import opened HeapRing
  import opened HeapMemory
  import opened HeapWords

  /** The picture after the used block `b` has been released. `start` is where the merged free block begins,
    and `k` the list place of the free block behind `b`, if there is one. */
  ghost predicate Released(last: int, bs: Blocks, bs': Blocks, free: seq<int>, free': seq<int>,
                           live: map<int, int>, live': map<int, int>, b: int, start: int, k: int) {
    && CanRelease(last, bs, b, start) && End(last, bs, b) in bs
    && (IsFree(last, bs, Next(bs, b)) ==> 0 <= k < |free| && free[k] == Next(bs, b))
    && bs' == Release(last, bs, b, start)
    && free' == ReleasedList(free, IsFree(last, bs, Next(bs, b)), k, b, start)
    && live' == live - {bs[b].area}
  }

  /** The words around the used block `b`, as the code reads them. */
  ghost predicate UsedBlockWords(first: int, last: int, bs: Blocks, m: Mem, b: int, start: int) {
    && CanRelease(last, bs, b, start) && first <= start <= b && start % PAGE_SIZE == 0 && b % PAGE_SIZE == 0
    && var n, end := Next(bs, b), End(last, bs, b);
       && end in bs && b < n <= end <= last && bs[b].size % PAGE_SIZE == 0
       && b + 8 in m && m[b + 8] == bs[b].size + (if bs[b].prevUsed then 1 else 0)
       && n + 8 in m && m[n + 8] == bs[n].size + 1
       && bs[n].size % PAGE_SIZE == 0
       && end + 8 in m && m[end + 8] == bs[end].size + (if end == n then 1 else 0)
       && start + 8 in m && end in m && b + 16 in m && b + 24 in m
       && (n != last ==> var nn := Next(bs, n); nn <= last && nn + 8 in m && PrevUsed(m[nn + 8]) == bs[n].used)
       && (start != b ==> b in m && m[b] == b - start && PrevUsed(m[start + 8]))
  }

  lemma UsedBlock(first: int, last: int, anchor: int, bs: Blocks, free: seq<int>, live: map<int, int>, m: Mem, b: int)
    returns (start: int, k: int)
    requires Invariant(first, last, anchor, m, bs, free, live) && IsUsed(last, bs, b)
    ensures UsedBlockWords(first, last, bs, m, b, start)
    ensures IsFree(last, bs, Next(bs, b)) ==> 0 <= k < |free| && free[k] == Next(bs, b)
  {
    k := 0;
    start := b;
    if !bs[b].prevUsed {
      start := Predecessor(first, last, bs, first, b);
    }
    assert Next(bs, b) in bs;
    if IsFree(last, bs, Next(bs, b)) {
      assert Next(bs, b) in free;
      k :| 0 <= k < |free| && free[k] == Next(bs, b);
      assert Next(bs, Next(bs, b)) in bs;
    }
    UsedBlockReads(first, last, anchor, bs, m, b, start);
  }

  lemma UsedBlockReads(first: int, last: int, anchor: int, bs: Blocks, m: Mem, b: int, start: int)
    requires Mapped(first, last, anchor, m) && WellFormed(first, last, bs) && Headers(last, bs, m)
    requires CanRelease(last, bs, b, start)
    ensures UsedBlockWords(first, last, bs, m, b, start)
  {
    ReleaseTiles(first, last, bs, b, start);
    var n, end := Next(bs, b), End(last, bs, b);
    SizeAligned(first, last, bs, b);
    SizeAligned(first, last, bs, start);
    SizeAligned(first, last, bs, n);
    SizeAligned(first, last, bs, end);
    HeaderMapped(first, last, anchor, m, b);
    HeaderMapped(first, last, anchor, m, end);
    HeaderMapped(first, last, anchor, m, start);
    HeaderWord(bs[start].size, true);
    if n != last {
      assert Next(bs, n) in bs;
      SizeAligned(first, last, bs, Next(bs, n));
      HeaderWord(bs[Next(bs, n)].size, bs[n].used);
    }
  }

  lemma ReleaseKeeps(first: int, last: int, anchor: int, bs: Blocks, bs': Blocks, free: seq<int>, free': seq<int>,
                     live: map<int, int>, live': map<int, int>, m: Mem, m1: Mem, m': Mem, b: int, start: int, end: int,
                     k: int)
    requires Invariant(first, last, anchor, m, bs, free, live)
    requires Released(last, bs, bs', free, free', live, live', b, start, k) && end == End(last, bs, b)
    requires SameOffLinks(anchor, free + [b], m, m1) && Ring(anchor, free', m1)
    requires m' == ReleaseStores(bs, m1, start, end)
    ensures Invariant(first, last, anchor, m', bs', free', live')
    ensures SameClientWords(live', m, m')
  {
    ReleaseInvariant(first, last, anchor, bs, free, live, m, m1, b, start, k);
  }

  // ----- the list after each of the four merges

  lemma WiderOffLinks(anchor: int, nodes: seq<int>, more: seq<int>, m: Mem, m1: Mem)
    requires SameOffLinks(anchor, nodes, m, m1)
    requires forall i | 0 <= i < |nodes| :: nodes[i] in more
    ensures SameOffLinks(anchor, more, m, m1)
  {
    forall a | OffLinks(anchor, more, a) ensures OffLinks(anchor, nodes, a) {
      forall i | 0 <= i < |nodes| ensures a != nodes[i] + 16 && a != nodes[i] + 24 {
        assert nodes[i] in more;
        var j :| 0 <= j < |more| && more[j] == nodes[i];
      }
    }
  }

  lemma UsedClearOf(first: int, last: int, anchor: int, bs: Blocks, free: seq<int>, b: int)
    requires Tiling(first, last, bs) && ListsFree(last, bs, free) && IsUsed(last, bs, b)
    requires anchor + MIN_BLOCK <= first || last + HEADER <= anchor
    ensures ClearOf(anchor, free, b)
  {
    assert Next(bs, b) in bs && Next(bs, b) <= last;
    forall i | 0 <= i < |free| ensures b + MIN_BLOCK <= free[i] || free[i] + MIN_BLOCK <= b {
      assert free[i] in free && IsFree(last, bs, free[i]);
      assert Next(bs, free[i]) in bs;
    }
  }

  lemma NextUnlinked(first: int, last: int, anchor: int, bs: Blocks, free: seq<int>, m: Mem, b: int, k: int)
    requires Tiling(first, last, bs) && ListsFree(last, bs, free) && Ring(anchor, free, m)
    requires anchor + MIN_BLOCK <= first || last + HEADER <= anchor
    requires 0 <= k < |free|
    ensures Linked(m, Node(anchor, free, k), free[k]) && Linked(m, free[k], Node(anchor, free, k + 2))
    ensures Ring(anchor, Splice(free, k, []), Unlink(m, free[k]))
    ensures SameOffLinks(anchor, free + [b], m, Unlink(m, free[k]))
  {
    FreeNodesApart(first, last, anchor, bs, free);
    RingAt(anchor, free, m, k);
    RingAt(anchor, free, m, k + 1);
    UnlinkKeepsRing(anchor, free, m, k);
    UnlinkFrame(anchor, free, m, k);
    SplicedIn(free, k, b);
    WiderOffLinks(anchor, Splice(free, k, []), free + [b], m, Unlink(m, free[k]));
  }

  lemma SplicedIn(free: seq<int>, k: int, b: int)
    requires 0 <= k < |free|
    ensures forall i | 0 <= i < |Splice(free, k, [])| :: Splice(free, k, [])[i] in free + [b]
  {
    var list := Splice(free, k, []);
    forall i | 0 <= i < |list| ensures list[i] in free + [b] {
      assert list[i] == free[if i < k then i else i + 1];
    }
  }

  lemma NextRelinked(first: int, last: int, anchor: int, bs: Blocks, free: seq<int>, m: Mem, b: int, k: int)
    requires Tiling(first, last, bs) && ListsFree(last, bs, free) && Ring(anchor, free, m)
    requires anchor + MIN_BLOCK <= first || last + HEADER <= anchor
    requires 0 <= k < |free| && IsUsed(last, bs, b) && b + 16 in m && b + 24 in m
    ensures Linked(m, Node(anchor, free, k), free[k]) && Linked(m, free[k], Node(anchor, free, k + 2))
    ensures Ring(anchor, Splice(free, k, [b]), Relink(m, free[k], b))
    ensures SameOffLinks(anchor, free + [b], m, Relink(m, free[k], b))
  {
    FreeNodesApart(first, last, anchor, bs, free);
    UsedClearOf(first, last, anchor, bs, free, b);
    RingAt(anchor, free, m, k);
    RingAt(anchor, free, m, k + 1);
    RelinkKeepsRing(anchor, free, m, k, b);
    RelinkFrame(anchor, free, m, k, b);
  }

  lemma HeadLinked(first: int, last: int, anchor: int, bs: Blocks, free: seq<int>, m: Mem, b: int)
    requires Tiling(first, last, bs) && ListsFree(last, bs, free) && Ring(anchor, free, m)
    requires anchor + MIN_BLOCK <= first || last + HEADER <= anchor
    requires IsUsed(last, bs, b) && b + 16 in m && b + 24 in m
    ensures anchor + 16 in m && m[anchor + 16] + 24 in m
    ensures Ring(anchor, [b] + free, LinkAfter(m, anchor, b))
    ensures SameOffLinks(anchor, free + [b], m, LinkAfter(m, anchor, b))
  {
    FreeNodesApart(first, last, anchor, bs, free);
    UsedClearOf(first, last, anchor, bs, free, b);
    RingAt(anchor, free, m, 0);
    LinkAfterKeepsRing(anchor, free, m, 0, b);
    LinkAfterFrame(anchor, free, m, 0, b);
    assert Inserted(free, 0, b) == [b] + free;
  }

  // ----- the four merges as the code runs them

  /** `b` is about to be released; the primed picture is the one to be reached. */
  ghost predicate Freeing(first: int, last: int, anchor: int, m: Mem, bs: Blocks, bs': Blocks, free: seq<int>,
                          free': seq<int>,
                          live: map<int, int>, live': map<int, int>, b: int, n: int, start: int, end: int, k: int) {
    && Invariant(first, last, anchor, m, bs, free, live)
    && IsUsed(last, bs, b) && n == Next(bs, b)
    && Released(last, bs, bs', free, free', live, live', b, start, k) && end == End(last, bs, b)
    && UsedBlockWords(first, last, bs, m, b, start)
  }

  /** Where the code leaves out the store to a `size` word, that word holds the right value already. */
  lemma EndKept(first: int, last: int, anchor: int, bs: Blocks, nodes: seq<int>, m: Mem, m1: Mem, b: int, start: int,
                end: int)
    requires Tiling(first, last, bs) && (anchor + MIN_BLOCK <= first || last + HEADER <= anchor)
    requires Nodes(last, bs, nodes) && SameOffLinks(anchor, nodes, m, m1)
    requires UsedBlockWords(first, last, bs, m, b, start) && end == End(last, bs, b)
    ensures end + 8 in m1 && m1[end + 8] == m[end + 8]
    ensures end != Next(bs, b) ==>
      m1[start + 8 := end - start + 1][end := end - start] == ReleaseStores(bs, m1, start, end)
  {
    HeadersOffLinks(first, last, anchor, bs, nodes, end);
  }

  lemma NodesWith(last: int, bs: Blocks, free: seq<int>, b: int)
    requires ListsFree(last, bs, free) && b in bs && b != last
    ensures Nodes(last, bs, free + [b])
  {
    FreeListNodes(last, bs, free);
  }

  ghost predicate BetweenStep(m: Mem, m': Mem, n: int, start: int, size: int) {
    n + 16 in m && n + 24 in m && m' == Unlink(m, n)[start + 8 := size + 1][start + size := size]
  }

  ghost predicate BehindStep(m: Mem, m': Mem, n: int, nextSize: int, start: int, size: int) {
    m' == m[start + 8 := size + 1][n + 8 := nextSize][n := size]
  }

  ghost predicate BeforeStep(m: Mem, m': Mem, b: int, n: int, size: int) {
    n + 16 in m && n + 24 in m && m' == Relink(m, n, b)[b + 8 := size + 1][b + size := size]
  }

  ghost predicate AloneStep(m: Mem, m': Mem, anchor: int, b: int, n: int, nextSize: int, size: int) {
    anchor + 16 in m && m' == LinkAfter(m, anchor, b)[b + 8 := size + 1][n + 8 := nextSize][n := size]
  }

  lemma BothMerged(first: int, last: int, anchor: int, m: Mem, m': Mem, bs: Blocks, bs': Blocks, free: seq<int>,
                   free': seq<int>,
                   live: map<int, int>, live': map<int, int>, b: int, n: int, start: int, end: int, k: int)
    requires Freeing(first, last, anchor, m, bs, bs', free, free', live, live', b, n, start, end, k)
    requires IsFree(last, bs, n) && start != b
    requires BetweenStep(m, m', n, start, end - start)
    ensures Invariant(first, last, anchor, m', bs', free', live') && SameClientWords(live', m, m')
  {
    var m1 := Unlink(m, n);
    NextUnlinked(first, last, anchor, bs, free, m, b, k);
    NodesWith(last, bs, free, b);
    EndKept(first, last, anchor, bs, free + [b], m, m1, b, start, end);
    ReleaseKeeps(first, last, anchor, bs, bs', free, free', live, live', m, m1, m', b, start, end, k);
  }

  lemma PrevMerged(first: int, last: int, anchor: int, m: Mem, m': Mem, bs: Blocks, bs': Blocks, free: seq<int>,
                   free': seq<int>,
                   live: map<int, int>, live': map<int, int>, b: int, n: int, nextSize: int, start: int, end: int,
                   k: int)
    requires Freeing(first, last, anchor, m, bs, bs', free, free', live, live', b, n, start, end, k)
    requires !IsFree(last, bs, n) && start != b && nextSize == bs[n].size
    requires BehindStep(m, m', n, nextSize, start, end - start)
    ensures Invariant(first, last, anchor, m', bs', free', live') && SameClientWords(live', m, m')
  {
    ReleaseKeeps(first, last, anchor, bs, bs', free, free', live, live', m, m, m', b, start, end, k);
  }

  lemma NextMerged(first: int, last: int, anchor: int, m: Mem, m': Mem, bs: Blocks, bs': Blocks, free: seq<int>,
                   free': seq<int>,
                   live: map<int, int>, live': map<int, int>, b: int, n: int, end: int, k: int)
    requires Freeing(first, last, anchor, m, bs, bs', free, free', live, live', b, n, b, end, k)
    requires IsFree(last, bs, n)
    requires BeforeStep(m, m', b, n, end - b)
    ensures Invariant(first, last, anchor, m', bs', free', live') && SameClientWords(live', m, m')
  {
    var m1 := Relink(m, n, b);
    NextRelinked(first, last, anchor, bs, free, m, b, k);
    NodesWith(last, bs, free, b);
    EndKept(first, last, anchor, bs, free + [b], m, m1, b, b, end);
    ReleaseKeeps(first, last, anchor, bs, bs', free, free', live, live', m, m1, m', b, b, end, k);
  }

  lemma NoneMerged(first: int, last: int, anchor: int, m: Mem, m': Mem, bs: Blocks, bs': Blocks, free: seq<int>,
                   free': seq<int>,
                   live: map<int, int>, live': map<int, int>, b: int, n: int, nextSize: int, end: int, k: int)
    requires Freeing(first, last, anchor, m, bs, bs', free, free', live, live', b, n, b, end, k)
    requires !IsFree(last, bs, n) && nextSize == bs[n].size
    requires AloneStep(m, m', anchor, b, n, nextSize, end - b)
    ensures Invariant(first, last, anchor, m', bs', free', live') && SameClientWords(live', m, m')
  {
    var m1 := LinkAfter(m, anchor, b);
    assert m' == ReleaseStores(bs, m1, b, end);
    HeadLinked(first, last, anchor, bs, free, m, b);
    ReleaseKeeps(first, last, anchor, bs, bs', free, free', live, live', m, m1, m', b, b, end, k);
  }

  // ----- what the stores of the four branches need

  /** Both links of `x` lead to nodes. */
  ghost predicate LinksMapped(m: Mem, x: int) {
    x + 16 in m && x + 24 in m && m[x + 24] + 16 in m && m[x + 16] + 24 in m
  }

  lemma NextListed(first: int, last: int, anchor: int, m: Mem, bs: Blocks, bs': Blocks, free: seq<int>, free': seq<int>,
                   live: map<int, int>, live': map<int, int>, b: int, n: int, start: int, end: int, k: int)
    requires Freeing(first, last, anchor, m, bs, bs', free, free', live, live', b, n, start, end, k)
    requires IsFree(last, bs, n)
    ensures LinksMapped(m, n) && b + 16 in m && b + 24 in m
  {
    RingAt(anchor, free, m, k);
    RingAt(anchor, free, m, k + 1);
  }

  lemma HeadReady(first: int, last: int, anchor: int, m: Mem, bs: Blocks, bs': Blocks, free: seq<int>, free': seq<int>,
                  live: map<int, int>, live': map<int, int>, b: int, n: int, end: int, k: int)
    requires Freeing(first, last, anchor, m, bs, bs', free, free', live, live', b, n, b, end, k)
    ensures anchor + 16 in m && m[anchor + 16] + 24 in m && b + 16 in m && b + 24 in m && b != n
    ensures n + 8 in LinkAfter(m, anchor, b) && SizeOf(LinkAfter(m, anchor, b)[n + 8]) == bs[n].size
  {
    HeadLinked(first, last, anchor, bs, free, m, b);
    NodesWith(last, bs, free, b);
    HeadersOffLinks(first, last, anchor, bs, free + [b], n);
    SizeAligned(first, last, bs, n);
    HeaderWord(bs[n].size, true);
  }
}
