/** The memory after an allocation: what the stores and list helpers of heap.c leave behind, and why the
  invariant and the clients' words survive them. */
module HeapCarving {
  import opened HeapLayout
  import opened HeapMoves
  import opened HeapRing
  import opened HeapMemory

  /** `__heap_block_split` on a block whose header word ends up as `header`; with `rest == 0` nothing is left over. */
  function SplitMem(m: Mem, block: int, next: int, before: int, size: int, header: int, rest: int, nextSize: int): Mem
    requires rest != 0 ==> before + 16 in m[block + 8 := header]
  {
    if rest == 0 then m[next + 8 := nextSize + 1]
    else
      LinkAfter(m[block + 8 := header], before, block + size)
        [block + size + 8 := rest + 1][next := rest][next + 8 := nextSize]
  }

  /** The part of `__heap_block_allocate_from_end` before the split: the front goes back into the list. */
  function LeadMem(m: Mem, b: int, before: int, lead: int, behind: int): Mem
    requires before + 16 in m
  {
    LinkAfter(m, before, b)[b + 8 := lead + 1][b + lead := lead][b + lead + 8 := behind]
  }

  ghost predicate SplitStep(m: Mem, m': Mem, block: int, next: int, before: int, size: int, header: int, rest: int,
                            nextSize: int) {
    && (rest != 0 ==> before + 16 in m[block + 8 := header])
    && m' == SplitMem(m, block, next, before, size, header, rest, nextSize)
  }

  ghost predicate LeadStep(m: Mem, m': Mem, b: int, before: int, lead: int, behind: int) {
    before + 16 in m && m' == LeadMem(m, b, before, lead, behind)
  }

  // ----- the ring

  lemma SplitInserts(anchor: int, list: seq<int>, m: Mem, k: int,
                     block: int, next: int, size: int, header: int, rest: int, nextSize: int)
    requires 0 <= k <= |list| && Ring(anchor, list, m) && rest != 0
    requires var final := Inserted(list, k, block + size);
      && Apart(anchor, final)
      && OffLinks(anchor, final, block + 8) && OffLinks(anchor, final, block + size + 8)
      && OffLinks(anchor, final, next) && OffLinks(anchor, final, next + 8)
    ensures Node(anchor, list, k) + 16 in m[block + 8 := header]
    ensures Ring(anchor, Inserted(list, k, block + size),
                 SplitMem(m, block, next, Node(anchor, list, k), size, header, rest, nextSize))
  {
    RingAt(anchor, list, m, k);
    InsertsBehind(anchor, list, m, k, Node(anchor, list, k), block + 8, header, block + size,
                  block + size + 8, rest + 1, next, rest, next + 8, nextSize);
  }

  lemma InsertsBehind(anchor: int, list: seq<int>, m: Mem, k: int, before: int, own: int, header: int, x: int,
                      a: int, v: int, b: int, w: int, c: int, z: int)
    requires 0 <= k <= |list| && Ring(anchor, list, m) && before == Node(anchor, list, k) && before + 16 in m
    requires var final := Inserted(list, k, x);
      && Apart(anchor, final) && OffLinks(anchor, final, own)
      && OffLinks(anchor, final, a) && OffLinks(anchor, final, b) && OffLinks(anchor, final, c)
    ensures Ring(anchor, Inserted(list, k, x), LinkAfter(m[own := header], before, x)[a := v][b := w][c := z])
  {
    InsertedApart(anchor, list, k, x);
    var m1 := m[own := header];
    RingIgnores(anchor, list, m, m1);
    LinkAfterKeepsRing(anchor, list, m1, k, x);
    RingIgnoresThree(anchor, Inserted(list, k, x), LinkAfter(m1, before, x), a, v, b, w, c, z);
  }

  lemma RingIgnoresThree(anchor: int, nodes: seq<int>, m: Mem, a: int, x: int, b: int, y: int, c: int, z: int)
    requires Ring(anchor, nodes, m)
    requires OffLinks(anchor, nodes, a) && OffLinks(anchor, nodes, b) && OffLinks(anchor, nodes, c)
    ensures Ring(anchor, nodes, m[a := x][b := y][c := z])
  {
    RingIgnores(anchor, nodes, m, m[a := x][b := y][c := z]);
  }

  lemma SplitRing(first: int, last: int, anchor: int, cs: Blocks, list: seq<int>, m: Mem, m': Mem, k: int,
                  block: int, next: int, size: int, header: int, rest: int, nextSize: int)
    requires Tiling(first, last, cs) && (anchor + MIN_BLOCK <= first || last + HEADER <= anchor)
    requires 0 <= k <= |list| && Ring(anchor, list, m)
    requires block in cs && next in cs
    requires Nodes(last, cs, SplitList(list, k, rest, block + size))
      && Apart(anchor, SplitList(list, k, rest, block + size))
    requires SplitStep(m, m', block, next, Node(anchor, list, k), size, header, rest, nextSize)
    ensures Ring(anchor, SplitList(list, k, rest, block + size), m')
  {
    var final := SplitList(list, k, rest, block + size);
    HeadersOffLinks(first, last, anchor, cs, final, block);
    HeadersOffLinks(first, last, anchor, cs, final, next);
    if rest == 0 {
      RingIgnores(anchor, list, m, m');
    } else {
      assert final[k] == block + size;
      HeadersOffLinks(first, last, anchor, cs, final, block + size);
      SplitInserts(anchor, list, m, k, block, next, size, header, rest, nextSize);
    }
  }

  lemma InsertedApart(anchor: int, list: seq<int>, k: int, x: int)
    requires 0 <= k <= |list| && Apart(anchor, Inserted(list, k, x))
    ensures Apart(anchor, list) && ClearOf(anchor, list, x)
    ensures forall a | OffLinks(anchor, Inserted(list, k, x), a) :: OffLinks(anchor, list, a)
  {
    var more := Inserted(list, k, x);
    assert more[k] == x;
    assert forall i | 0 <= i < |list| :: list[i] == more[if i < k then i else i + 1];
  }

  lemma LeadRing(first: int, last: int, anchor: int, cs: Blocks, free: seq<int>, m: Mem, m': Mem, k: int, lead: int,
                 behind: int)
    requires Tiling(first, last, cs) && (anchor + MIN_BLOCK <= first || last + HEADER <= anchor)
    requires 0 <= k < |free| && Ring(anchor, Splice(free, k, []), m) && Apart(anchor, free)
    requires Nodes(last, cs, free) && free[k] + lead in cs
    requires LeadStep(m, m', free[k], Node(anchor, free, k), lead, behind)
    ensures Ring(anchor, free, m')
  {
    var b, rest := free[k], Splice(free, k, []);
    assert Inserted(rest, k, b) == free;
    InsertedApart(anchor, rest, k, b);
    assert Node(anchor, rest, k) == Node(anchor, free, k);
    LinkAfterKeepsRing(anchor, rest, m, k, b);
    HeadersOffLinks(first, last, anchor, cs, free, b);
    HeadersOffLinks(first, last, anchor, cs, free, b + lead);
    RingIgnores(anchor, free, LinkAfter(m, Node(anchor, rest, k), b), m');
  }

  // ----- the header words

  /** The addresses a split stores to exist. */
  ghost predicate SplitKeys(m: Mem, block: int, next: int, size: int, rest: int) {
    && block + 8 in m && next in m && next + 8 in m
    && (rest != 0 ==> block + size + 8 in m && block + size + 16 in m && block + size + 24 in m)
  }

  lemma SplitLinks(anchor: int, list: seq<int>, m: Mem, m': Mem, k: int,
                   block: int, next: int, size: int, header: int, rest: int, nextSize: int)
    requires 0 <= k <= |list| && Ring(anchor, list, m) && rest != 0
    requires SplitKeys(m, block, next, size, rest)
    requires OffLinks(anchor, list, block + 8)
    requires SplitStep(m, m', block, next, Node(anchor, list, k), size, header, rest, nextSize)
    ensures m'.Keys == m.Keys
    ensures forall a <- m | OffLinks(anchor, list + [block + size], a) && a != block + 8 && a != block + size + 8
                            && a != next && a != next + 8 ::
              m'[a] == m[a]
    ensures (OffLinks(anchor, list + [block + size], block + 8) && block != next && block + 8 != next
             && block != next + 8 && size != 0) ==>
              m'[block + 8] == header
  {
    var m1 := m[block + 8 := header];
    RingIgnores(anchor, list, m, m1);
    LinkAfterFrame(anchor, list, m1, k, block + size);
    var m2 := LinkAfter(m1, Node(anchor, list, k), block + size);
    assert m' == m2[block + size + 8 := rest + 1][next := rest][next + 8 := nextSize];
  }

  ghost predicate SplitDone(cs: Blocks, m: Mem, m': Mem, block: int, next: int, size: int, header: int, rest: int,
                            nextSize: int)
    requires SplitKeys(m, block, next, size, rest)
  {
    && m'.Keys == m.Keys
    && (if rest == 0 then m'[block + 8] == m[block + 8] && m'[next + 8] == nextSize + 1
        else (m'[block + 8] == header && m'[block + size + 8] == rest + 1 && m'[next] == rest
              && m'[next + 8] == nextSize))
    && (block in m ==> m'[block] == m[block])
    && (forall c <- cs | c != block && c != next && (rest == 0 || c != block + size) :: SameHeader(m, m', c))
  }

  lemma SplitWords(first: int, last: int, anchor: int, cs: Blocks, list: seq<int>, m: Mem, m': Mem, k: int,
                   block: int, next: int, size: int, header: int, rest: int, nextSize: int)
    requires Tiling(first, last, cs) && (anchor + MIN_BLOCK <= first || last + HEADER <= anchor)
    requires 0 <= k <= |list| && Ring(anchor, list, m) && Nodes(last, cs, list)
    requires block in cs && next in cs && block < next && size > 0
    requires rest != 0 ==> block + size in cs && block + size < next
    requires SplitKeys(m, block, next, size, rest)
    requires SplitStep(m, m', block, next, Node(anchor, list, k), size, header, rest, nextSize)
    ensures SplitDone(cs, m, m', block, next, size, header, rest, nextSize)
  {
    OtherHeader(first, last, cs, block, next);
    if rest == 0 {
      forall c <- cs | c != block && c != next ensures SameHeader(m, m', c) {
        OtherHeader(first, last, cs, c, next);
      }
    } else {
      var nodes := list + [block + size];
      HeadersOffLinks(first, last, anchor, cs, list, block);
      HeadersOffLinks(first, last, anchor, cs, nodes, block);
      SplitLinks(anchor, list, m, m', k, block, next, size, header, rest, nextSize);
      OtherHeader(first, last, cs, block, block + size);
      OtherHeader(first, last, cs, next, block + size);
      forall c <- cs | c != block && c != next && c != block + size ensures SameHeader(m, m', c) {
        HeadersOffLinks(first, last, anchor, cs, nodes, c);
        OtherHeader(first, last, cs, c, block);
        OtherHeader(first, last, cs, c, next);
        OtherHeader(first, last, cs, c, block + size);
      }
    }
  }

  lemma LeadLinks(anchor: int, free: seq<int>, m: Mem, m': Mem, k: int, lead: int, behind: int)
    requires 0 <= k < |free| && Ring(anchor, Splice(free, k, []), m)
    requires {free[k] + 8, free[k] + 16, free[k] + 24, free[k] + lead, free[k] + lead + 8} <= m.Keys
    requires LeadStep(m, m', free[k], Node(anchor, free, k), lead, behind)
    ensures m'.Keys == m.Keys
    ensures forall a <- m | OffLinks(anchor, free, a) && a != free[k] + 8 && a != free[k] + lead
      && a != free[k] + lead + 8 ::
              m'[a] == m[a]
  {
    var b, list := free[k], Splice(free, k, []);
    assert Node(anchor, list, k) == Node(anchor, free, k);
    LinkAfterFrame(anchor, list, m, k, b);
    SplicedOffLinks(anchor, free, k);
  }

  ghost predicate LeadDone(cs: Blocks, m: Mem, m': Mem, b: int, lead: int, behind: int)
    requires {b + 8, b + lead, b + lead + 8} <= m.Keys
  {
    && m'.Keys == m.Keys
    && m'[b + 8] == lead + 1 && m'[b + lead] == lead && m'[b + lead + 8] == behind
    && (forall c <- cs | c != b && c != b + lead :: SameHeader(m, m', c))
  }

  lemma LeadWords(first: int, last: int, anchor: int, cs: Blocks, free: seq<int>, m: Mem, m': Mem, k: int, lead: int,
                  behind: int)
    requires Tiling(first, last, cs) && (anchor + MIN_BLOCK <= first || last + HEADER <= anchor)
    requires 0 <= k < |free| && Ring(anchor, Splice(free, k, []), m) && Nodes(last, cs, free)
    requires free[k] + lead in cs && lead > 0
    requires {free[k] + 8, free[k] + 16, free[k] + 24, free[k] + lead, free[k] + lead + 8} <= m.Keys
    requires LeadStep(m, m', free[k], Node(anchor, free, k), lead, behind)
    ensures LeadDone(cs, m, m', free[k], lead, behind)
  {
    var b := free[k];
    LeadLinks(anchor, free, m, m', k, lead, behind);
    OtherHeader(first, last, cs, b, b + lead);
    forall c <- cs | c != b && c != b + lead ensures SameHeader(m, m', c) {
      HeadersOffLinks(first, last, anchor, cs, free, c);
      OtherHeader(first, last, cs, c, b);
      OtherHeader(first, last, cs, c, b + lead);
    }
  }

  lemma SplicedOffLinks(anchor: int, free: seq<int>, k: int)
    requires 0 <= k < |free|
    ensures forall a | OffLinks(anchor, free, a) :: OffLinks(anchor, Splice(free, k, []) + [free[k]], a)
  {
    var nodes := Splice(free, k, []) + [free[k]];
    assert forall i | 0 <= i < |nodes| :: nodes[i] == free[if i < k then i else if i < |free| - 1 then i + 1 else k];
  }

  /** Every header and link word an allocation deals with exists. */
  lemma CarveKeys(first: int, last: int, anchor: int, bs: Blocks, m: Mem, b: int, lead: int, size: int)
    requires Mapped(first, last, anchor, m) && Tiling(first, last, bs) && PageAligned(last, bs)
    requires CanCarve(last, bs, b, lead, size) && lead % PAGE_SIZE == 0 && size % PAGE_SIZE == 0
    ensures Next(bs, b) in bs
    ensures {b + 8, b + 16, b + 24, b + lead, b + lead + 8} <= m.Keys
    ensures SplitKeys(m, b + lead, Next(bs, b), size, bs[b].size - lead - size)
  {
    assert Next(bs, b) in bs;
    AlignedBlock(last, bs, b);
    WordsMapped(first, last, anchor, m, b, lead, size, bs[b].size);
  }

  lemma AlignedBlock(last: int, bs: Blocks, b: int)
    requires PageAligned(last, bs) && b in bs
    ensures b % PAGE_SIZE == 0 && (b != last ==> bs[b].size % PAGE_SIZE == 0)
  {
  }

  lemma WordsMapped(first: int, last: int, anchor: int, m: Mem, b: int, lead: int, size: int, total: int)
    requires Mapped(first, last, anchor, m) && first <= b && b + total <= last
    requires b % PAGE_SIZE == 0 && lead % PAGE_SIZE == 0 && size % PAGE_SIZE == 0 && total % PAGE_SIZE == 0
    requires lead == 0 || lead >= MIN_BLOCK
    requires size >= MIN_BLOCK && (lead + size == total || lead + size + MIN_BLOCK <= total)
    ensures {b + 8, b + 16, b + 24, b + lead, b + lead + 8} <= m.Keys
    ensures SplitKeys(m, b + lead, b + total, size, total - lead - size)
  {
    CarvedParts(b, total, lead, size);
    HeaderMapped(first, last, anchor, m, b);
    HeaderMapped(first, last, anchor, m, b + total);
    HeaderMapped(first, last, anchor, m, b + lead);
    HeaderMapped(first, last, anchor, m, b + lead + size);
  }

  lemma FrontWords(first: int, last: int, anchor: int, bs: Blocks, cs: Blocks, list: seq<int>, m: Mem, m1: Mem, m': Mem,
                   b: int, size: int)
    requires Tiling(first, last, bs) && (anchor + MIN_BLOCK <= first || last + HEADER <= anchor)
    requires CanCarve(last, bs, b, 0, size) && Next(bs, b) in bs
    requires Headers(last, bs, m) && bs[b].prevUsed && bs.Keys <= cs.Keys
    requires size != bs[b].size ==> b + size !in bs
    requires SameOffLinks(anchor, list, m, m1) && Nodes(last, bs, list)
    requires SplitKeys(m, b, Next(bs, b), size, bs[b].size - size)
    requires SplitDone(cs, m1, m', b, Next(bs, b), size, size + 1, bs[b].size - size, bs[Next(bs, b)].size)
    ensures CarvedWords(bs, m, m', b, 0, size)
  {
    HeadersOffLinks(first, last, anchor, bs, list, b);
    forall c <- bs | c != b && c != Next(bs, b) ensures SameHeader(m, m', c) {
      HeadersOffLinks(first, last, anchor, bs, list, c);
      assert SameHeader(m1, m', c);
    }
  }

  // ----- the clients' words

  ghost predicate FreeNodes(last: int, bs: Blocks, nodes: seq<int>) {
    forall i | 0 <= i < |nodes| :: IsFree(last, bs, nodes[i]) && bs[nodes[i]].size >= MIN_BLOCK
  }

  ghost predicate WritableChanges(last: int, anchor: int, cs: Blocks, m: Mem, m': Mem) {
    m'.Keys == m.Keys && forall a <- m :: m'[a] == m[a] || Writable(last, anchor, cs, a)
  }

  lemma FreeLinksWritable(last: int, anchor: int, cs: Blocks, nodes: seq<int>)
    requires FreeNodes(last, cs, nodes)
    ensures forall a | !OffLinks(anchor, nodes, a) :: Writable(last, anchor, cs, a)
  {
    forall i | 0 <= i < |nodes|
      ensures InFreeBlock(last, cs, nodes[i])
    {
      assert IsFree(last, cs, nodes[i]) && nodes[i] + MIN_BLOCK <= Next(cs, nodes[i]);
    }
    forall a | !OffLinks(anchor, nodes, a) ensures Writable(last, anchor, cs, a) {
      LinksWritable(last, anchor, cs, nodes, a);
    }
  }

  lemma SplitWrites(last: int, anchor: int, cs: Blocks, list: seq<int>, m: Mem, m': Mem, k: int,
                    block: int, next: int, size: int, header: int, rest: int, nextSize: int)
    requires 0 <= k <= |list| && Ring(anchor, list, m)
    requires block in cs && next in cs
    requires rest != 0 ==> IsFree(last, cs, block + size) && Next(cs, block + size) == next
    requires FreeNodes(last, cs, list) && (rest != 0 ==> cs[block + size].size >= MIN_BLOCK)
    requires SplitKeys(m, block, next, size, rest)
    requires OffLinks(anchor, list, block + 8)
    requires SplitStep(m, m', block, next, Node(anchor, list, k), size, header, rest, nextSize)
    ensures WritableChanges(last, anchor, cs, m, m')
  {
    if rest != 0 {
      SplitLinks(anchor, list, m, m', k, block, next, size, header, rest, nextSize);
      var nodes := list + [block + size];
      assert nodes[|list|] == block + size;
      FreeLinksWritable(last, anchor, cs, nodes);
      assert Next(cs, block + size) == next;
    }
  }

  lemma LeadWrites(last: int, anchor: int, cs: Blocks, free: seq<int>, m: Mem, m': Mem, k: int, lead: int, behind: int)
    requires 0 <= k < |free| && Ring(anchor, Splice(free, k, []), m)
    requires {free[k] + 8, free[k] + 16, free[k] + 24, free[k] + lead, free[k] + lead + 8} <= m.Keys
    requires LeadStep(m, m', free[k], Node(anchor, free, k), lead, behind)
    requires FreeNodes(last, cs, free)
    requires free[k] in cs && free[k] + lead in cs && Next(cs, free[k]) == free[k] + lead
    ensures WritableChanges(last, anchor, cs, m, m')
  {
    LeadLinks(anchor, free, m, m', k, lead, behind);
    FreeLinksWritable(last, anchor, cs, free);
  }

  // ----- the invariant after an allocation

  lemma FreeListBlocks(first: int, last: int, bs: Blocks, free: seq<int>)
    requires Tiling(first, last, bs) && ListsFree(last, bs, free)
    ensures FreeNodes(last, bs, free)
  {
    forall i | 0 <= i < |free| ensures IsFree(last, bs, free[i]) && bs[free[i]].size >= MIN_BLOCK {
      assert free[i] in free && IsFree(last, bs, free[i]);
      assert Next(bs, free[i]) in bs;
    }
  }

  /** The new picture: blocks, free list and live areas after `area` was given out for `request` bytes. */
  ghost predicate Carved(bs: Blocks, cs: Blocks, free: seq<int>, final: seq<int>, live: map<int, int>,
                         live': map<int, int>,
                         k: int, lead: int, size: int, area: int, request: int) {
    && 0 <= k < |free| && free[k] in bs && Next(bs, free[k]) in bs
    && cs == Carve(bs, free[k], lead, size, area)
    && final == CarvedList(free, k, lead, size, bs[free[k]].size - lead - size)
    && live' == live[area := request]
  }

  lemma CarvePicture(first: int, last: int, bs: Blocks, cs: Blocks, free: seq<int>, final: seq<int>,
                     live: map<int, int>, live': map<int, int>, k: int, lead: int, size: int, area: int, request: int)
    requires WellFormed(first, last, bs) && ListsFree(last, bs, free) && Areas(last, bs, live)
    requires Carved(bs, cs, free, final, live, live', k, lead, size, area, request)
    requires CanCarve(last, bs, free[k], lead, size)
    requires lead % PAGE_SIZE == 0 && size % PAGE_SIZE == 0
    requires free[k] + lead + HEADER <= area < free[k] + lead + HEADER + PAGE_SIZE
    requires 0 <= request && area + request <= free[k] + lead + size + BONUS
    ensures bs[free[k]].prevUsed
    ensures WellFormed(first, last, cs) && ListsFree(last, cs, final)
    ensures area !in live && Areas(last, cs, live')
    ensures bs.Keys <= cs.Keys
  {
    CarveWellFormed(first, last, bs, free[k], lead, size, area);
    CarveLists(first, last, bs, free, k, lead, size, area);
    CarveAreas(first, last, bs, live, free[k], lead, size, area, request);
  }

  /** A carving at the front of a free block: the split that follows the unlinking. `before` is the list
    node in front of the block. */
  ghost predicate FrontSplit(bs: Blocks, m1: Mem, m': Mem, b: int, before: int, size: int) {
    && b in bs && Next(bs, b) in bs
    && SplitStep(m1, m', b, Next(bs, b), before, size, size + 1, bs[b].size - size, bs[Next(bs, b)].size)
  }

  /** Clients whose areas the new picture still knows keep their words. */
  lemma OldClientsKeep(first: int, last: int, anchor: int, cs: Blocks, live: map<int, int>, live': map<int, int>,
                       area: int, request: int, m: Mem, m': Mem)
    requires Tiling(first, last, cs) && Areas(last, cs, live') && live' == live[area := request] && area !in live
    requires anchor + MIN_BLOCK <= first || last + HEADER <= anchor
    requires WritableChanges(last, anchor, cs, m, m')
    ensures SameClientWords(live, m, m')
  {
    WritesMissClients(first, last, anchor, cs, live', m, m');
    forall a | ClientWord(live, a) ensures ClientWord(live', a) {
      var p :| p in live && p < a + 8 && a < p + live[p];
      assert p in live';
    }
  }

  /** The picture `cs` has the new block, and a free block behind it if it does not take all of `b`. */
  ghost predicate Shape(last: int, bs: Blocks, cs: Blocks, b: int, lead: int, size: int) {
    && b in bs && Next(bs, b) in bs && b in cs && b + lead in cs && Next(bs, b) in cs
    && b + lead < Next(bs, b)
    && var end := b + lead + size;
       (end != Next(bs, b) ==>
          end < Next(bs, b) && end !in bs && IsFree(last, cs, end) && Next(cs, end) == Next(bs, b)
            && cs[end].size >= MIN_BLOCK)
  }

  lemma CarveShape(first: int, last: int, bs: Blocks, b: int, lead: int, size: int, area: int)
    requires Tiling(first, last, bs) && CanCarve(last, bs, b, lead, size)
    ensures Next(bs, b) in bs && Shape(last, bs, Carve(bs, b, lead, size, area), b, lead, size)
  {
    assert Next(bs, b) in bs && Next(bs, b) <= last;
    var end := b + lead + size;
    if end != Next(bs, b) {
      assert end !in bs;
    }
  }

  /** What the memory lemmas need of the picture before and after a carving at the front. */
  ghost predicate FrontPicture(first: int, last: int, anchor: int, bs: Blocks, cs: Blocks, list: seq<int>, m: Mem,
                               k: int, b: int, size: int) {
    && (anchor + MIN_BLOCK <= first || last + HEADER <= anchor)
    && CanCarve(last, bs, b, 0, size) && Next(bs, b) in bs && bs[b].prevUsed
    && Tiling(first, last, cs) && Shape(last, bs, cs, b, 0, size) && bs.Keys <= cs.Keys
    && 0 <= k <= |list| && Nodes(last, bs, list) && Nodes(last, cs, list)
    && FreeNodes(last, cs, list)
    && SplitKeys(m, b, Next(bs, b), size, bs[b].size - size)
  }

  lemma FrontInvariant(first: int, last: int, anchor: int, bs: Blocks, cs: Blocks, free: seq<int>, list: seq<int>,
                       final: seq<int>,
                       live: map<int, int>, live': map<int, int>, m: Mem, m1: Mem, m': Mem,
                       k: int, size: int, area: int, request: int)
    requires Invariant(first, last, anchor, m, bs, free, live)
    requires Carved(bs, cs, free, final, live, live', k, 0, size, area, request)
    requires CanCarve(last, bs, free[k], 0, size) && size % PAGE_SIZE == 0
    requires free[k] + HEADER <= area < free[k] + HEADER + PAGE_SIZE
    requires 0 <= request && area + request <= free[k] + size + BONUS
    requires list == Splice(free, k, []) && Ring(anchor, list, m1) && SameOffLinks(anchor, list, m, m1)
    requires FrontSplit(bs, m1, m', free[k], Node(anchor, list, k), size)
    ensures Invariant(first, last, anchor, m', cs, final, live')
    ensures area !in live && SameClientWords(live, m, m')
  {
    CarvePicture(first, last, bs, cs, free, final, live, live', k, 0, size, area, request);
    FrontPictureHolds(first, last, anchor, bs, cs, free, list, final, live, live', m, k, size, area, request);
    FrontStep(first, last, anchor, bs, cs, free, list, final, live, live', m, m1, m', k, size, area, request);
  }

  lemma FrontStep(first: int, last: int, anchor: int, bs: Blocks, cs: Blocks, free: seq<int>, list: seq<int>,
                  final: seq<int>,
                  live: map<int, int>, live': map<int, int>, m: Mem, m1: Mem, m': Mem,
                  k: int, size: int, area: int, request: int)
    requires 0 <= k < |free| && FrontPicture(first, last, anchor, bs, cs, list, m, k, free[k], size)
    requires Carved(bs, cs, free, final, live, live', k, 0, size, area, request)
    requires Tiling(first, last, bs) && Flags(first, last, bs) && Headers(last, bs, m)
    requires Ring(anchor, list, m1) && SameOffLinks(anchor, list, m, m1)
    requires FrontSplit(bs, m1, m', free[k], Node(anchor, list, k), size)
    requires Areas(last, cs, live') && area !in live
    requires final == SplitList(list, k, bs[free[k]].size - size, free[k] + size)
    requires Apart(anchor, final) && Nodes(last, cs, final)
    ensures Ring(anchor, final, m')
    ensures Headers(last, cs, m') && m'.Keys == m.Keys && SameClientWords(live, m, m')
  {
    var b := free[k];
    FrontRing(first, last, anchor, bs, cs, list, m, m1, m', k, b, size, final);
    FrontMemory(first, last, anchor, bs, cs, list, m, m1, m', k, b, size, area);
    OldClientsKeep(first, last, anchor, cs, live, live', area, request, m, m');
  }

  lemma FrontPictureHolds(first: int, last: int, anchor: int, bs: Blocks, cs: Blocks, free: seq<int>, list: seq<int>,
                          final: seq<int>,
                          live: map<int, int>, live': map<int, int>, m: Mem, k: int, size: int, area: int, request: int)
    requires Mapped(first, last, anchor, m) && WellFormed(first, last, bs) && ListsFree(last, bs, free)
    requires Carved(bs, cs, free, final, live, live', k, 0, size, area, request)
    requires CanCarve(last, bs, free[k], 0, size) && size % PAGE_SIZE == 0
    requires WellFormed(first, last, cs) && ListsFree(last, cs, final)
    requires bs.Keys <= cs.Keys && list == Splice(free, k, [])
    ensures FrontPicture(first, last, anchor, bs, cs, list, m, k, free[k], size)
    ensures Apart(anchor, final) && Nodes(last, cs, final)
    ensures final == SplitList(list, k, bs[free[k]].size - size, free[k] + size)
  {
    FrontNodes(first, last, bs, free, k, size, area);
    FreeListNodes(last, cs, final);
    FreeNodesApart(first, last, anchor, cs, final);
    CarveShape(first, last, bs, free[k], 0, size, area);
    CarveKeys(first, last, anchor, bs, m, free[k], 0, size);
  }

  lemma FrontRing(first: int, last: int, anchor: int, bs: Blocks, cs: Blocks, list: seq<int>, m: Mem, m1: Mem, m': Mem,
                  k: int, b: int, size: int, final: seq<int>)
    requires FrontPicture(first, last, anchor, bs, cs, list, m, k, b, size)
    requires final == SplitList(list, k, bs[b].size - size, b + size)
    requires Apart(anchor, final) && Nodes(last, cs, final)
    requires Ring(anchor, list, m1)
    requires FrontSplit(bs, m1, m', b, Node(anchor, list, k), size)
    ensures Ring(anchor, final, m')
  {
    SplitRing(first, last, anchor, cs, list, m1, m', k, b, Next(bs, b), size, size + 1, bs[b].size - size,
              bs[Next(bs, b)].size);
  }

  lemma FrontWordsHold(first: int, last: int, anchor: int, bs: Blocks, cs: Blocks, list: seq<int>, m: Mem, m1: Mem,
                       m': Mem,
                       k: int, b: int, size: int)
    requires FrontPicture(first, last, anchor, bs, cs, list, m, k, b, size)
    requires Tiling(first, last, bs) && Headers(last, bs, m)
    requires Ring(anchor, list, m1) && SameOffLinks(anchor, list, m, m1)
    requires FrontSplit(bs, m1, m', b, Node(anchor, list, k), size)
    ensures CarvedWords(bs, m, m', b, 0, size)
  {
    assert SplitKeys(m1, b, Next(bs, b), size, bs[b].size - size);
    SplitWords(first, last, anchor, cs, list, m1, m', k, b, Next(bs, b), size, size + 1, bs[b].size - size,
               bs[Next(bs, b)].size);
    FrontWords(first, last, anchor, bs, cs, list, m, m1, m', b, size);
  }

  lemma FrontWritesHold(first: int, last: int, anchor: int, bs: Blocks, cs: Blocks, list: seq<int>, m: Mem, m1: Mem,
                        m': Mem,
                        k: int, b: int, size: int)
    requires FrontPicture(first, last, anchor, bs, cs, list, m, k, b, size)
    requires Ring(anchor, list, m1) && SameOffLinks(anchor, list, m, m1)
    requires FrontSplit(bs, m1, m', b, Node(anchor, list, k), size)
    ensures WritableChanges(last, anchor, cs, m, m')
  {
    assert SplitKeys(m1, b, Next(bs, b), size, bs[b].size - size);
    HeadersOffLinks(first, last, anchor, cs, list, b);
    SplitWrites(last, anchor, cs, list, m1, m', k, b, Next(bs, b), size, size + 1, bs[b].size - size,
                bs[Next(bs, b)].size);
    FreeLinksWritable(last, anchor, cs, list);
  }

  lemma FrontMemory(first: int, last: int, anchor: int, bs: Blocks, cs: Blocks, list: seq<int>, m: Mem, m1: Mem,
                    m': Mem,
                    k: int, b: int, size: int, area: int)
    requires FrontPicture(first, last, anchor, bs, cs, list, m, k, b, size) && cs == Carve(bs, b, 0, size, area)
    requires Tiling(first, last, bs) && Flags(first, last, bs) && Headers(last, bs, m)
    requires Ring(anchor, list, m1) && SameOffLinks(anchor, list, m, m1)
    requires FrontSplit(bs, m1, m', b, Node(anchor, list, k), size)
    ensures Headers(last, cs, m')
    ensures WritableChanges(last, anchor, cs, m, m')
  {
    FrontWordsHold(first, last, anchor, bs, cs, list, m, m1, m', k, b, size);
    CarvedHeaders(first, last, bs, m, m', b, 0, size, area);
    FrontWritesHold(first, last, anchor, bs, cs, list, m, m1, m', k, b, size);
  }

  lemma FrontNodes(first: int, last: int, bs: Blocks, free: seq<int>, k: int, size: int, area: int)
    requires Tiling(first, last, bs) && ListsFree(last, bs, free)
    requires 0 <= k < |free| && CanCarve(last, bs, free[k], 0, size) && Next(bs, free[k]) in bs
    ensures Nodes(last, bs, Splice(free, k, [])) && Nodes(last, Carve(bs, free[k], 0, size, area), Splice(free, k, []))
    ensures FreeNodes(last, Carve(bs, free[k], 0, size, area), Splice(free, k, []))
  {
    var list, cs := Splice(free, k, []), Carve(bs, free[k], 0, size, area);
    FreeListBlocks(first, last, bs, free);
    forall i | 0 <= i < |list|
      ensures list[i] in bs && IsFree(last, cs, list[i]) && cs[list[i]].size >= MIN_BLOCK
    {
      assert list[i] == free[if i < k then i else i + 1];
    }
  }

  // ----- carving behind a front that stays free

  ghost predicate BackSteps(bs: Blocks, m1: Mem, m2: Mem, m': Mem, b: int, before: int, lead: int, size: int) {
    && b in bs && Next(bs, b) in bs
    && LeadStep(m1, m2, b, before, lead, bs[b].size - lead)
    && SplitStep(m2, m', b + lead, Next(bs, b), b, size, size, bs[b].size - lead - size, bs[Next(bs, b)].size)
  }

  ghost predicate BackPicture(first: int, last: int, anchor: int, bs: Blocks, cs: Blocks, free: seq<int>, m: Mem,
                              k: int, lead: int, size: int) {
    && (anchor + MIN_BLOCK <= first || last + HEADER <= anchor)
    && 0 <= k < |free| && lead > 0
    && CanCarve(last, bs, free[k], lead, size) && Next(bs, free[k]) in bs
    && Tiling(first, last, cs) && Shape(last, bs, cs, free[k], lead, size) && bs.Keys <= cs.Keys
    && free[k] + lead !in bs && Next(cs, free[k]) == free[k] + lead
    && Nodes(last, bs, free) && Nodes(last, cs, free) && FreeNodes(last, cs, free)
    && {free[k] + 8, free[k] + 16, free[k] + 24, free[k] + lead, free[k] + lead + 8} <= m.Keys
    && SplitKeys(m, free[k] + lead, Next(bs, free[k]), size, bs[free[k]].size - lead - size)
  }

  lemma BackRing(first: int, last: int, anchor: int, bs: Blocks, cs: Blocks, free: seq<int>, m: Mem, m1: Mem, m2: Mem,
                 m': Mem,
                 k: int, lead: int, size: int, final: seq<int>)
    requires BackPicture(first, last, anchor, bs, cs, free, m, k, lead, size)
    requires final == SplitList(free, k + 1, bs[free[k]].size - lead - size, free[k] + lead + size)
    requires Apart(anchor, free) && Apart(anchor, final) && Nodes(last, cs, final)
    requires Ring(anchor, Splice(free, k, []), m1)
    requires BackSteps(bs, m1, m2, m', free[k], Node(anchor, free, k), lead, size)
    ensures Ring(anchor, free, m2)
    ensures Ring(anchor, final, m')
  {
    var b := free[k];
    var block, behind, rest, place := b + lead, bs[b].size - lead, bs[b].size - lead - size, k + 1;
    LeadRing(first, last, anchor, cs, free, m1, m2, k, lead, behind);
    SplitRing(first, last, anchor, cs, free, m2, m', place, block, Next(bs, b), size, size, rest,
              bs[Next(bs, b)].size);
  }

  /** Putting the front back: what it leaves in the headers, and that it writes where it may. */
  lemma BackLeads(first: int, last: int, anchor: int, bs: Blocks, cs: Blocks, free: seq<int>, m: Mem, m1: Mem, m2: Mem,
                  k: int, lead: int, size: int)
    requires BackPicture(first, last, anchor, bs, cs, free, m, k, lead, size) && m1.Keys == m.Keys
    requires Ring(anchor, Splice(free, k, []), m1)
    requires LeadStep(m1, m2, free[k], Node(anchor, free, k), lead, bs[free[k]].size - lead)
    ensures LeadDone(cs, m1, m2, free[k], lead, bs[free[k]].size - lead)
    ensures WritableChanges(last, anchor, cs, m1, m2)
  {
    LeadWords(first, last, anchor, cs, free, m1, m2, k, lead, bs[free[k]].size - lead);
    LeadWrites(last, anchor, cs, free, m1, m2, k, lead, bs[free[k]].size - lead);
  }

  /** The split behind it, likewise. */
  lemma BackSplits(first: int, last: int, anchor: int, bs: Blocks, cs: Blocks, free: seq<int>, m: Mem, m2: Mem, m': Mem,
                   k: int, lead: int, size: int)
    requires BackPicture(first, last, anchor, bs, cs, free, m, k, lead, size) && m2.Keys == m.Keys
    requires Ring(anchor, free, m2)
    requires SplitStep(m2, m', free[k] + lead, Next(bs, free[k]), Node(anchor, free, k + 1), size, size,
                       bs[free[k]].size - lead - size, bs[Next(bs, free[k])].size)
    ensures SplitKeys(m2, free[k] + lead, Next(bs, free[k]), size, bs[free[k]].size - lead - size)
    ensures SplitDone(cs, m2, m', free[k] + lead, Next(bs, free[k]), size, size, bs[free[k]].size - lead - size,
                      bs[Next(bs, free[k])].size)
  {
    SplitWords(first, last, anchor, cs, free, m2, m', k + 1, free[k] + lead, Next(bs, free[k]), size, size,
               bs[free[k]].size - lead - size, bs[Next(bs, free[k])].size);
  }

  lemma BackSplitWrites(first: int, last: int, anchor: int, bs: Blocks, cs: Blocks, free: seq<int>, m: Mem, m2: Mem,
                        m': Mem,
                        k: int, lead: int, size: int)
    requires BackPicture(first, last, anchor, bs, cs, free, m, k, lead, size) && m2.Keys == m.Keys
    requires Ring(anchor, free, m2)
    requires SplitStep(m2, m', free[k] + lead, Next(bs, free[k]), Node(anchor, free, k + 1), size, size,
                       bs[free[k]].size - lead - size, bs[Next(bs, free[k])].size)
    ensures WritableChanges(last, anchor, cs, m2, m')
  {
    HeadersOffLinks(first, last, anchor, cs, free, free[k] + lead);
    SplitWrites(last, anchor, cs, free, m2, m', k + 1, free[k] + lead, Next(bs, free[k]), size, size,
                bs[free[k]].size - lead - size, bs[Next(bs, free[k])].size);
  }

  ghost predicate BackDone(last: int, anchor: int, bs: Blocks, cs: Blocks, m1: Mem, m2: Mem, m': Mem, b: int,
                           lead: int, size: int)
    requires b in bs && Next(bs, b) in bs
  {
    && {b + 8, b + lead, b + lead + 8} <= m1.Keys
    && LeadDone(cs, m1, m2, b, lead, bs[b].size - lead)
    && SplitKeys(m2, b + lead, Next(bs, b), size, bs[b].size - lead - size)
    && SplitDone(cs, m2, m', b + lead, Next(bs, b), size, size, bs[b].size - lead - size, bs[Next(bs, b)].size)
    && WritableChanges(last, anchor, cs, m1, m2) && WritableChanges(last, anchor, cs, m2, m')
  }

  lemma BackWords(first: int, last: int, anchor: int, bs: Blocks, cs: Blocks, free: seq<int>, m: Mem, m1: Mem, m2: Mem,
                  m': Mem,
                  k: int, lead: int, size: int)
    requires BackPicture(first, last, anchor, bs, cs, free, m, k, lead, size) && Tiling(first, last, bs)
    requires SameOffLinks(anchor, free, m, m1) && BackDone(last, anchor, bs, cs, m1, m2, m', free[k], lead, size)
    ensures CarvedWords(bs, m, m', free[k], lead, size)
  {
    var b := free[k];
    forall c <- bs | c != b && c != Next(bs, b) ensures SameHeader(m, m', c) {
      HeadersOffLinks(first, last, anchor, bs, free, c);
      assert SameHeader(m1, m2, c) && SameHeader(m2, m', c);
    }
    assert SameHeader(m2, m', b);
  }

  lemma BackStepsDone(first: int, last: int, anchor: int, bs: Blocks, cs: Blocks, free: seq<int>, m: Mem, m1: Mem,
                      m2: Mem, m': Mem,
                      k: int, lead: int, size: int)
    requires BackPicture(first, last, anchor, bs, cs, free, m, k, lead, size) && m1.Keys == m.Keys
    requires Ring(anchor, Splice(free, k, []), m1) && Ring(anchor, free, m2)
    requires BackSteps(bs, m1, m2, m', free[k], Node(anchor, free, k), lead, size)
    ensures BackDone(last, anchor, bs, cs, m1, m2, m', free[k], lead, size)
  {
    BackLeads(first, last, anchor, bs, cs, free, m, m1, m2, k, lead, size);
    assert Node(anchor, free, k + 1) == free[k];
    BackSplits(first, last, anchor, bs, cs, free, m, m2, m', k, lead, size);
    BackSplitWrites(first, last, anchor, bs, cs, free, m, m2, m', k, lead, size);
  }

  lemma BackWritesHold(last: int, anchor: int, cs: Blocks, free: seq<int>, m: Mem, m1: Mem, m2: Mem, m': Mem)
    requires FreeNodes(last, cs, free) && SameOffLinks(anchor, free, m, m1)
    requires WritableChanges(last, anchor, cs, m1, m2) && WritableChanges(last, anchor, cs, m2, m')
    ensures WritableChanges(last, anchor, cs, m, m')
  {
    FreeLinksWritable(last, anchor, cs, free);
  }

  lemma BackHeaders(first: int, last: int, anchor: int, bs: Blocks, cs: Blocks, free: seq<int>, m: Mem, m1: Mem,
                    m2: Mem, m': Mem,
                    k: int, lead: int, size: int, area: int)
    requires BackPicture(first, last, anchor, bs, cs, free, m, k, lead, size)
      && cs == Carve(bs, free[k], lead, size, area)
    requires Tiling(first, last, bs) && Flags(first, last, bs) && Headers(last, bs, m)
    requires SameOffLinks(anchor, free, m, m1) && BackDone(last, anchor, bs, cs, m1, m2, m', free[k], lead, size)
    ensures Headers(last, cs, m')
  {
    BackWords(first, last, anchor, bs, cs, free, m, m1, m2, m', k, lead, size);
    CarvedHeaders(first, last, bs, m, m', free[k], lead, size, area);
  }

  lemma BackMemory(first: int, last: int, anchor: int, bs: Blocks, cs: Blocks, free: seq<int>, m: Mem, m1: Mem,
                   m2: Mem, m': Mem,
                   k: int, lead: int, size: int, area: int)
    requires BackPicture(first, last, anchor, bs, cs, free, m, k, lead, size)
      && cs == Carve(bs, free[k], lead, size, area)
    requires Tiling(first, last, bs) && Flags(first, last, bs) && Headers(last, bs, m)
    requires SameOffLinks(anchor, free, m, m1) && BackDone(last, anchor, bs, cs, m1, m2, m', free[k], lead, size)
    ensures Headers(last, cs, m')
    ensures WritableChanges(last, anchor, cs, m, m')
  {
    BackHeaders(first, last, anchor, bs, cs, free, m, m1, m2, m', k, lead, size, area);
    BackWritesHold(last, anchor, cs, free, m, m1, m2, m');
  }

  lemma BackStep(first: int, last: int, anchor: int, bs: Blocks, cs: Blocks, free: seq<int>, final: seq<int>,
                 live: map<int, int>, live': map<int, int>, m: Mem, m1: Mem, m2: Mem, m': Mem,
                 k: int, lead: int, size: int, area: int, request: int)
    requires BackPicture(first, last, anchor, bs, cs, free, m, k, lead, size)
      && cs == Carve(bs, free[k], lead, size, area)
    requires Tiling(first, last, bs) && Flags(first, last, bs) && Headers(last, bs, m)
    requires Ring(anchor, Splice(free, k, []), m1) && SameOffLinks(anchor, free, m, m1)
    requires BackSteps(bs, m1, m2, m', free[k], Node(anchor, free, k), lead, size)
    requires Areas(last, cs, live') && area !in live && live' == live[area := request]
    requires final == SplitList(free, k + 1, bs[free[k]].size - lead - size, free[k] + lead + size)
    requires Apart(anchor, free) && Apart(anchor, final) && Nodes(last, cs, final)
    ensures Ring(anchor, final, m')
    ensures Headers(last, cs, m') && m'.Keys == m.Keys && SameClientWords(live, m, m')
  {
    BackRing(first, last, anchor, bs, cs, free, m, m1, m2, m', k, lead, size, final);
    BackStepsDone(first, last, anchor, bs, cs, free, m, m1, m2, m', k, lead, size);
    BackMemory(first, last, anchor, bs, cs, free, m, m1, m2, m', k, lead, size, area);
    OldClientsKeep(first, last, anchor, cs, live, live', area, request, m, m');
  }

  lemma BackPictureHolds(first: int, last: int, anchor: int, bs: Blocks, cs: Blocks, free: seq<int>, final: seq<int>,
                         live: map<int, int>, live': map<int, int>, m: Mem,
                         k: int, lead: int, size: int, area: int, request: int)
    requires Mapped(first, last, anchor, m) && WellFormed(first, last, bs) && ListsFree(last, bs, free)
    requires Carved(bs, cs, free, final, live, live', k, lead, size, area, request)
    requires CanCarve(last, bs, free[k], lead, size) && lead > 0
    requires lead % PAGE_SIZE == 0 && size % PAGE_SIZE == 0
    requires WellFormed(first, last, cs) && ListsFree(last, cs, final) && bs.Keys <= cs.Keys
    ensures BackPicture(first, last, anchor, bs, cs, free, m, k, lead, size)
    ensures Apart(anchor, free) && Apart(anchor, final) && Nodes(last, cs, final)
    ensures final == SplitList(free, k + 1, bs[free[k]].size - lead - size, free[k] + lead + size)
  {
    BackPictureCarved(first, last, anchor, bs, free, m, k, lead, size, area);
    FreeListNodes(last, cs, final);
    FreeNodesApart(first, last, anchor, bs, free);
    FreeNodesApart(first, last, anchor, cs, final);
  }

  lemma BackPictureCarved(first: int, last: int, anchor: int, bs: Blocks, free: seq<int>, m: Mem,
                          k: int, lead: int, size: int, area: int)
    requires Mapped(first, last, anchor, m) && WellFormed(first, last, bs) && ListsFree(last, bs, free)
    requires 0 <= k < |free| && CanCarve(last, bs, free[k], lead, size) && Next(bs, free[k]) in bs && lead > 0
    requires lead % PAGE_SIZE == 0 && size % PAGE_SIZE == 0
    requires var cs := Carve(bs, free[k], lead, size, area);
      Tiling(first, last, cs) && bs.Keys <= cs.Keys
    ensures BackPicture(first, last, anchor, bs, Carve(bs, free[k], lead, size, area), free, m, k, lead, size)
  {
    BackNodes(first, last, bs, free, k, lead, size, area);
    CarveShape(first, last, bs, free[k], lead, size, area);
    CarveKeys(first, last, anchor, bs, m, free[k], lead, size);
  }

  lemma BackNodes(first: int, last: int, bs: Blocks, free: seq<int>, k: int, lead: int, size: int, area: int)
    requires Tiling(first, last, bs) && ListsFree(last, bs, free)
    requires 0 <= k < |free| && CanCarve(last, bs, free[k], lead, size) && Next(bs, free[k]) in bs && lead > 0
    ensures var cs := Carve(bs, free[k], lead, size, area);
      && Nodes(last, bs, free) && Nodes(last, cs, free) && FreeNodes(last, cs, free)
      && free[k] + lead !in bs && free[k] in cs && Next(cs, free[k]) == free[k] + lead
  {
    var cs := Carve(bs, free[k], lead, size, area);
    FreeListBlocks(first, last, bs, free);
    assert free[k] + lead !in bs;
    forall i | 0 <= i < |free| ensures free[i] in bs && IsFree(last, cs, free[i]) && cs[free[i]].size >= MIN_BLOCK {
      assert i == k || free[i] != free[k];
    }
  }

  lemma BackInvariant(first: int, last: int, anchor: int, bs: Blocks, cs: Blocks, free: seq<int>, final: seq<int>,
                      live: map<int, int>, live': map<int, int>, m: Mem, m1: Mem, m2: Mem, m': Mem,
                      k: int, lead: int, size: int, area: int, request: int)
    requires Invariant(first, last, anchor, m, bs, free, live)
    requires Carved(bs, cs, free, final, live, live', k, lead, size, area, request)
    requires CanCarve(last, bs, free[k], lead, size) && lead > 0
    requires lead % PAGE_SIZE == 0 && size % PAGE_SIZE == 0
    requires free[k] + lead + HEADER <= area < free[k] + lead + HEADER + PAGE_SIZE
    requires 0 <= request && area + request <= free[k] + lead + size + BONUS
    requires Ring(anchor, Splice(free, k, []), m1) && SameOffLinks(anchor, free, m, m1)
    requires BackSteps(bs, m1, m2, m', free[k], Node(anchor, free, k), lead, size)
    ensures Invariant(first, last, anchor, m', cs, final, live')
    ensures area !in live && SameClientWords(live, m, m')
  {
    CarvePicture(first, last, bs, cs, free, final, live, live', k, lead, size, area, request);
    BackPictureHolds(first, last, anchor, bs, cs, free, final, live, live', m, k, lead, size, area, request);
    BackStep(first, last, anchor, bs, cs, free, final, live, live', m, m1, m2, m', k, lead, size, area, request);
  }
}
