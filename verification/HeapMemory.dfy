/** What the memory must look like after a change of the picture, and which words a change may touch. */
module HeapMemory {
  import opened HeapLayout
  import opened HeapMoves
  import opened HeapRing

  /** The header words of the block `c`. */
  ghost predicate SameHeader(m: Mem, m': Mem, c: int) {
    && (c in m ==> c in m' && m'[c] == m[c])
    && (c + 8 in m ==> c + 8 in m' && m'[c + 8] == m[c + 8])
  }

  lemma HeaderMapped(first: int, last: int, anchor: int, m: Mem, b: int)
    requires Mapped(first, last, anchor, m) && b % PAGE_SIZE == 0 && first <= b <= last
    ensures b in m && b + 8 in m
    ensures b + MIN_BLOCK <= last + HEADER ==> b + 16 in m && b + 24 in m
  {
    assert (b + 8) % PAGE_SIZE == 0 && (b + 16) % PAGE_SIZE == 0 && (b + 24) % PAGE_SIZE == 0;
  }

  lemma FreeNodesApart(first: int, last: int, anchor: int, bs: Blocks, free: seq<int>)
    requires Tiling(first, last, bs) && ListsFree(last, bs, free)
    requires anchor + MIN_BLOCK <= first || last + HEADER <= anchor
    ensures Apart(anchor, free)
  {
    forall i | 0 <= i < |free|
      ensures IsFree(last, bs, free[i]) && free[i] + MIN_BLOCK <= Next(bs, free[i]) <= last && first <= free[i]
    {
      assert free[i] in free;
    }
    forall i, j | 0 <= i < j < |free| ensures free[i] + MIN_BLOCK <= free[j] || free[j] + MIN_BLOCK <= free[i] {
      assert Next(bs, free[i]) <= free[j] || Next(bs, free[j]) <= free[i];
    }
  }

  lemma ClientWordHome(last: int, bs: Blocks, live: map<int, int>, a: int) returns (b: int)
    requires Areas(last, bs, live) && ClientWord(live, a)
    ensures IsUsed(last, bs, b) && b + 8 < a < Next(bs, b) + 8
  {
    var p :| p in live && p < a + 8 && a < p + live[p];
    b :| IsUsed(last, bs, b) && bs[b].area == p;
  }

  lemma UsedWordAvoids(first: int, last: int, bs: Blocks, b: int, a: int, c: int)
    requires Tiling(first, last, bs)
    requires IsUsed(last, bs, b) && b + 8 < a < Next(bs, b) + 8 && c in bs
    ensures a != c + 8 && first < a < last + 8
    ensures IsFree(last, bs, c) ==> a < c + 8 || Next(bs, c) + 8 <= a
  {
    assert Next(bs, b) in bs && first <= b;
    assert c <= b || Next(bs, b) <= c;
    assert c < b ==> Next(bs, c) <= b;
  }

  /** A word of a live area is no size word, and no word of a free block or of its `prev_size` copy. */
  lemma ClientWordAvoids(first: int, last: int, bs: Blocks, live: map<int, int>, a: int, c: int)
    requires Tiling(first, last, bs) && Areas(last, bs, live)
    requires ClientWord(live, a) && c in bs
    ensures a != c + 8 && first < a < last + 8
    ensures IsFree(last, bs, c) ==> a < c + 8 || Next(bs, c) + 8 <= a
  {
    var b := ClientWordHome(last, bs, live, a);
    UsedWordAvoids(first, last, bs, b, a, c);
  }

  /** List helpers on nodes inside blocks do not touch header words. */
  lemma HeadersOffLinks(first: int, last: int, anchor: int, bs: Blocks, nodes: seq<int>, c: int)
    requires Tiling(first, last, bs) && c in bs
    requires anchor + MIN_BLOCK <= first || last + HEADER <= anchor
    requires forall i | 0 <= i < |nodes| :: nodes[i] in bs && nodes[i] != last
    ensures OffLinks(anchor, nodes, c) && OffLinks(anchor, nodes, c + 8)
  {
    forall i | 0 <= i < |nodes|
      ensures c != nodes[i] + 16 && c != nodes[i] + 24 && c + 8 != nodes[i] + 16 && c + 8 != nodes[i] + 24
    {
      assert nodes[i] < c ==> Next(bs, nodes[i]) <= c;
      assert nodes[i] + MIN_BLOCK <= Next(bs, nodes[i]);
    }
  }

  // ----- carving

  ghost predicate CarvedWords(bs: Blocks, m: Mem, m': Mem, b: int, lead: int, size: int)
    requires b in bs && Next(bs, b) in bs
  {
    var block, n, rest := b + lead, Next(bs, b), bs[b].size - lead - size;
    && m'.Keys == m.Keys && block + 8 in m && n + 8 in m
    && m'[block + 8] == size + (if lead == 0 then 1 else 0)
    && (lead != 0 ==> b + 8 in m && block in m && m'[b + 8] == lead + 1 && m'[block] == lead)
    && (if rest == 0 then m'[n + 8] == bs[n].size + 1
        else (block + size + 8 in m && n in m && m'[block + size + 8] == rest + 1 && m'[n] == rest
              && m'[n + 8] == bs[n].size))
    && (forall c <- bs | c != b && c != n :: SameHeader(m, m', c))
  }

  lemma CarvedHeaders(first: int, last: int, bs: Blocks, m: Mem, m': Mem, b: int, lead: int, size: int, area: int)
    requires Tiling(first, last, bs) && Flags(first, last, bs) && Headers(last, bs, m)
    requires CanCarve(last, bs, b, lead, size) && Next(bs, b) in bs
    requires CarvedWords(bs, m, m', b, lead, size)
    ensures Headers(last, Carve(bs, b, lead, size, area), m')
  {
    var cs := Carve(bs, b, lead, size, area);
    var n, rest := Next(bs, b), bs[b].size - lead - size;
    assert bs[n].used;
    forall c <- cs ensures c + 8 in m' && m'[c + 8] == cs[c].size + (if cs[c].prevUsed then 1 else 0) {
      assert c in bs && c != b && c != n ==> SameHeader(m, m', c);
    }
    forall c {:trigger Next(cs, c)} | c in cs && c != last && !cs[c].used
      ensures Next(cs, c) in m' && m'[Next(cs, c)] == cs[c].size
    {
      if c in bs && c != b && c != n {
        assert Next(cs, c) == Next(bs, c) && Next(bs, c) in bs;
        assert Next(bs, c) != b && Next(bs, c) != n;
        assert SameHeader(m, m', Next(bs, c));
      }
    }
  }

  // ----- releasing

  ghost predicate ReleasedWords(bs: Blocks, m: Mem, m': Mem, start: int, end: int)
    requires end in bs
  {
    && m'.Keys == m.Keys && start + 8 in m && end in m && end + 8 in m
    && m'[start + 8] == end - start + 1 && m'[end] == end - start && m'[end + 8] == bs[end].size
    && (forall c <- bs | c != start && c != end :: SameHeader(m, m', c))
  }

  lemma ReleasedHeaders(first: int, last: int, bs: Blocks, m: Mem, m': Mem, b: int, start: int)
    requires Tiling(first, last, bs) && Flags(first, last, bs) && Headers(last, bs, m)
    requires CanRelease(last, bs, b, start) && End(last, bs, b) in bs
    requires ReleasedWords(bs, m, m', start, End(last, bs, b))
    ensures Headers(last, Release(last, bs, b, start), m')
  {
    ReleaseTiles(first, last, bs, b, start);
    var rs := Release(last, bs, b, start);
    var end := End(last, bs, b);
    assert !bs[end].prevUsed || end == Next(bs, b);
    forall c <- rs ensures c + 8 in m' && m'[c + 8] == rs[c].size + (if rs[c].prevUsed then 1 else 0) {
      assert c in bs && c != start && c != end ==> SameHeader(m, m', c);
    }
    forall c {:trigger Next(rs, c)} | c in rs && c != last && !rs[c].used
      ensures Next(rs, c) in m' && m'[Next(rs, c)] == rs[c].size
    {
      if c != start {
        assert Next(rs, c) == Next(bs, c) && Next(bs, c) in bs;
        assert Next(bs, c) != start && Next(bs, c) != end;
        assert SameHeader(m, m', Next(bs, c));
      }
    }
  }

  // ----- the invariant after a change

  /** A word the heap may write in the picture `bs`: a link of the sentinel, a size word, or a word of a free
    block from its size word to its `prev_size` copy. */
  ghost predicate Writable(last: int, anchor: int, bs: Blocks, a: int) {
    || a == anchor + 16 || a == anchor + 24
    || (exists c :: c in bs && a == c + 8)
    || (exists c :: IsFree(last, bs, c) && c + 8 <= a < Next(bs, c) + 8)
  }

  lemma WritesMissClients(first: int, last: int, anchor: int, bs: Blocks, live: map<int, int>, m: Mem, m': Mem)
    requires Tiling(first, last, bs) && Areas(last, bs, live)
    requires anchor + MIN_BLOCK <= first || last + HEADER <= anchor
    requires m'.Keys == m.Keys
    requires forall a <- m :: m'[a] == m[a] || Writable(last, anchor, bs, a)
    ensures SameClientWords(live, m, m')
  {
    forall a <- m | ClientWord(live, a) ensures m'[a] == m[a] {
      ClientWordAvoids(first, last, bs, live, a, first);
      if Writable(last, anchor, bs, a) {
        if c :| c in bs && a == c + 8 {
          ClientWordAvoids(first, last, bs, live, a, c);
        } else {
          var c :| IsFree(last, bs, c) && c + 8 <= a < Next(bs, c) + 8;
          ClientWordAvoids(first, last, bs, live, a, c);
        }
        assert false;
      }
    }
  }

  /** A block header with its links fits into a free block at `x`. */
  ghost predicate InFreeBlock(last: int, bs: Blocks, x: int) {
    exists c :: IsFree(last, bs, c) && c <= x && x + MIN_BLOCK <= Next(bs, c)
  }

  lemma LinksWritable(last: int, anchor: int, bs: Blocks, nodes: seq<int>, a: int)
    requires !OffLinks(anchor, nodes, a)
    requires forall i | 0 <= i < |nodes| :: InFreeBlock(last, bs, nodes[i])
    ensures Writable(last, anchor, bs, a)
  {
  }

  ghost predicate Nodes(last: int, bs: Blocks, nodes: seq<int>) {
    forall i | 0 <= i < |nodes| :: nodes[i] in bs && nodes[i] != last
  }

  /** The stores that follow the list helper when `b` is released, as one update. */
  ghost function ReleaseStores(bs: Blocks, m: Mem, start: int, end: int): Mem
    requires end in bs
  {
    m[start + 8 := end - start + 1][end + 8 := bs[end].size][end := end - start]
  }

  lemma ReleaseWords(first: int, last: int, anchor: int, bs: Blocks, nodes: seq<int>, m: Mem, m1: Mem, b: int,
                     start: int)
    requires Tiling(first, last, bs) && CanRelease(last, bs, b, start) && End(last, bs, b) in bs
    requires Mapped(first, last, anchor, m) && PageAligned(last, bs)
    requires Nodes(last, bs, nodes) && SameOffLinks(anchor, nodes, m, m1)
    ensures ReleasedWords(bs, m, ReleaseStores(bs, m1, start, End(last, bs, b)), start, End(last, bs, b))
  {
    var end := End(last, bs, b);
    assert start % PAGE_SIZE == 0 && end % PAGE_SIZE == 0;
    assert start + 8 in m && end in m && end + 8 in m by {
      assert (start + 8) % PAGE_SIZE == 0 && (end + 8) % PAGE_SIZE == 0;
    }
    var m' := ReleaseStores(bs, m1, start, end);
    assert m'.Keys == m.Keys;
    forall c <- bs | c != start && c != end ensures SameHeader(m, m', c) {
      HeadersOffLinks(first, last, anchor, bs, nodes, c);
      OtherHeader(first, last, bs, c, start);
      OtherHeader(first, last, bs, c, end);
    }
  }

  lemma OtherHeader(first: int, last: int, bs: Blocks, c: int, d: int)
    requires Tiling(first, last, bs) && c in bs && d in bs && c != d
    ensures c + 8 < d || d + 8 < c
  {
    assert c < d ==> Next(bs, c) <= d;
    assert d < c ==> Next(bs, d) <= c;
  }

  /** In the released picture every list node of the old one, and `b`, lies in a free block. */
  lemma ReleaseNodes(first: int, last: int, bs: Blocks, free: seq<int>, b: int, start: int)
    requires Tiling(first, last, bs) && Flags(first, last, bs) && CanRelease(last, bs, b, start)
    requires ListsFree(last, bs, free)
    ensures forall i | 0 <= i < |free + [b]| :: InFreeBlock(last, Release(last, bs, b, start), (free + [b])[i])
  {
    ReleaseTiles(first, last, bs, b, start);
    ReleaseFrees(first, last, bs, b, start);
    var rs := Release(last, bs, b, start);
    var nodes := free + [b];
    assert Next(rs, start) == End(last, bs, b);
    forall i | 0 <= i < |nodes|
      ensures InFreeBlock(last, rs, nodes[i])
    {
      if i == |free| || free[i] == Next(bs, b) {
        assert i < |free| ==> free[i] in free && Next(bs, free[i]) == End(last, bs, b);
        assert b + MIN_BLOCK <= Next(bs, b) && nodes[i] + MIN_BLOCK <= End(last, bs, b);
        assert IsFree(last, rs, start) && nodes[i] + MIN_BLOCK <= Next(rs, start);
      } else {
        assert free[i] in free;
        assert IsFree(last, rs, free[i]) && nodes[i] + MIN_BLOCK <= Next(rs, free[i]);
      }
    }
  }

  lemma ReleaseMissesClients(first: int, last: int, anchor: int, bs: Blocks, free: seq<int>, live: map<int, int>,
                             m: Mem, m1: Mem, b: int, start: int)
    requires Invariant(first, last, anchor, m, bs, free, live)
    requires CanRelease(last, bs, b, start)
    requires SameOffLinks(anchor, free + [b], m, m1)
    requires End(last, bs, b) in bs
    requires ReleaseStores(bs, m1, start, End(last, bs, b)).Keys == m.Keys
    ensures SameClientWords(live - {bs[b].area}, m, ReleaseStores(bs, m1, start, End(last, bs, b)))
  {
    var rs := Release(last, bs, b, start);
    var end := End(last, bs, b);
    ReleaseTiles(first, last, bs, b, start);
    ReleaseAreas(first, last, bs, live, b, start);
    ReleaseNodes(first, last, bs, free, b, start);
    var m' := ReleaseStores(bs, m1, start, end);
    forall a <- m ensures m'[a] == m[a] || Writable(last, anchor, rs, a) {
      if a == start + 8 {
        assert start in rs;
      } else if a == end + 8 {
        assert end in rs;
      } else if a == end {
        assert IsFree(last, rs, start);
      } else if !OffLinks(anchor, free + [b], a) {
        LinksWritable(last, anchor, rs, free + [b], a);
      }
    }
    WritesMissClients(first, last, anchor, rs, live - {bs[b].area}, m, m');
  }

  lemma ReleaseRing(first: int, last: int, anchor: int, rs: Blocks, list: seq<int>, bs: Blocks, m1: Mem, start: int,
                    end: int)
    requires Tiling(first, last, rs) && Ring(anchor, list, m1) && Nodes(last, rs, list)
    requires anchor + MIN_BLOCK <= first || last + HEADER <= anchor
    requires start in rs && end in rs && end in bs
    ensures Ring(anchor, list, ReleaseStores(bs, m1, start, end))
  {
    HeadersOffLinks(first, last, anchor, rs, list, start);
    HeadersOffLinks(first, last, anchor, rs, list, end);
    RingIgnores(anchor, list, m1, ReleaseStores(bs, m1, start, end));
  }

  lemma ReleaseHeaders(first: int, last: int, anchor: int, bs: Blocks, free: seq<int>, m: Mem, m1: Mem, b: int,
                       start: int)
    requires Mapped(first, last, anchor, m) && WellFormed(first, last, bs) && Headers(last, bs, m)
    requires CanRelease(last, bs, b, start) && End(last, bs, b) in bs
    requires Nodes(last, bs, free) && SameOffLinks(anchor, free + [b], m, m1)
    ensures Headers(last, Release(last, bs, b, start), ReleaseStores(bs, m1, start, End(last, bs, b)))
    ensures ReleaseStores(bs, m1, start, End(last, bs, b)).Keys == m.Keys
  {
    assert Nodes(last, bs, free + [b]);
    ReleaseWords(first, last, anchor, bs, free + [b], m, m1, b, start);
    ReleasedHeaders(first, last, bs, m, ReleaseStores(bs, m1, start, End(last, bs, b)), b, start);
  }

  lemma ReleaseInvariant(first: int, last: int, anchor: int, bs: Blocks, free: seq<int>, live: map<int, int>,
                         m: Mem, m1: Mem, b: int, start: int, k: int)
    requires Invariant(first, last, anchor, m, bs, free, live)
    requires CanRelease(last, bs, b, start)
    requires IsFree(last, bs, Next(bs, b)) ==> 0 <= k < |free| && free[k] == Next(bs, b)
    requires SameOffLinks(anchor, free + [b], m, m1)
    requires Ring(anchor, ReleasedList(free, IsFree(last, bs, Next(bs, b)), k, b, start), m1)
    ensures End(last, bs, b) in bs
    ensures var m' := ReleaseStores(bs, m1, start, End(last, bs, b));
      && Invariant(first, last, anchor, m', Release(last, bs, b, start),
                   ReleasedList(free, IsFree(last, bs, Next(bs, b)), k, b, start), live - {bs[b].area})
      && SameClientWords(live - {bs[b].area}, m, m')
  {
    ReleasePicture(first, last, bs, free, live, b, start, k);
    ReleaseMemory(first, last, anchor, bs, free, live, m, m1, b, start, k);
  }

  lemma ReleasePicture(first: int, last: int, bs: Blocks, free: seq<int>, live: map<int, int>, b: int, start: int,
                       k: int)
    requires WellFormed(first, last, bs) && ListsFree(last, bs, free) && Areas(last, bs, live)
    requires CanRelease(last, bs, b, start)
    requires IsFree(last, bs, Next(bs, b)) ==> 0 <= k < |free| && free[k] == Next(bs, b)
    ensures var rs := Release(last, bs, b, start);
            var list := ReleasedList(free, IsFree(last, bs, Next(bs, b)), k, b, start);
      && End(last, bs, b) in bs && End(last, bs, b) in rs
      && WellFormed(first, last, rs) && ListsFree(last, rs, list) && Areas(last, rs, live - {bs[b].area})
      && Nodes(last, bs, free) && Nodes(last, rs, list)
  {
    ReleaseTiles(first, last, bs, b, start);
    ReleaseWellFormed(first, last, bs, b, start);
    ReleaseLists(first, last, bs, free, k, b, start);
    ReleaseAreas(first, last, bs, live, b, start);
    FreeListNodes(last, bs, free);
    FreeListNodes(last, Release(last, bs, b, start), ReleasedList(free, IsFree(last, bs, Next(bs, b)), k, b, start));
  }

  lemma ReleaseMemory(first: int, last: int, anchor: int, bs: Blocks, free: seq<int>, live: map<int, int>,
                      m: Mem, m1: Mem, b: int, start: int, k: int)
    requires Invariant(first, last, anchor, m, bs, free, live)
    requires CanRelease(last, bs, b, start)
    requires IsFree(last, bs, Next(bs, b)) ==> 0 <= k < |free| && free[k] == Next(bs, b)
    requires SameOffLinks(anchor, free + [b], m, m1)
    requires Ring(anchor, ReleasedList(free, IsFree(last, bs, Next(bs, b)), k, b, start), m1)
    requires End(last, bs, b) in bs && End(last, bs, b) in Release(last, bs, b, start)
    requires Nodes(last, bs, free)
    requires Nodes(last, Release(last, bs, b, start), ReleasedList(free, IsFree(last, bs, Next(bs, b)), k, b, start))
    requires Tiling(first, last, Release(last, bs, b, start))
    ensures var m' := ReleaseStores(bs, m1, start, End(last, bs, b));
      && m'.Keys == m.Keys
      && Headers(last, Release(last, bs, b, start), m')
      && Ring(anchor, ReleasedList(free, IsFree(last, bs, Next(bs, b)), k, b, start), m')
      && SameClientWords(live - {bs[b].area}, m, m')
  {
    ReleaseHeaders(first, last, anchor, bs, free, m, m1, b, start);
    ReleaseRing(first, last, anchor, Release(last, bs, b, start),
                ReleasedList(free, IsFree(last, bs, Next(bs, b)), k, b, start), bs, m1, start, End(last, bs, b));
    ReleaseMissesClients(first, last, anchor, bs, free, live, m, m1, b, start);
  }

  lemma FreeListNodes(last: int, bs: Blocks, free: seq<int>)
    requires ListsFree(last, bs, free)
    ensures Nodes(last, bs, free)
  {
    forall i | 0 <= i < |free| ensures free[i] in bs && free[i] != last {
      assert free[i] in free && IsFree(last, bs, free[i]);
    }
  }
}
