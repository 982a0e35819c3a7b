/** What clients may do between the calls: store into their live areas, and give live pointers back. */
module HeapClients {
  import opened Arith
  import opened HeapLayout
  import opened HeapRing
  import opened HeapMemory
  import opened HeapCarving
  import opened HeapWords
  import opened Words

  /** `__heap_block_of_alloc_area`, on words. */
  function Header64(ptr: Word): Word {
    Sub64(AlignDown(ptr, PAGE_SIZE), HEADER)
  }

  /** A live pointer leads back to the header of its own used block, wherever in the first page it points. */
  lemma LivePointer(first: int, last: int, anchor: int, m: Mem, bs: Blocks, free: seq<int>, live: map<int, int>, p: int)
    requires Invariant(first, last, anchor, m, bs, free, live) && p in live
    ensures 0 < p < TWO_64 && IsUsed(last, bs, Header64(p)) && bs[Header64(p)].area == p
    ensures first <= Header64(p) < last
  {
    var b :| IsUsed(last, bs, b) && bs[b].area == p;
    assert Next(bs, b) in bs;
    AlignedBlock(last, bs, b);
    HeaderBack(b, p);
  }

  lemma HeaderBack(b: int, p: Word)
    requires 0 <= b && b % PAGE_SIZE == 0 && b + HEADER <= p < b + HEADER + PAGE_SIZE
    ensures Header64(p) == b
  {
    DivModUnique(p, PAGE_SIZE, b / PAGE_SIZE + 2, p - b - HEADER);
    DivModUnique(b, TWO_64, 0, b);
  }

  /** A store into a live area, even into the word behind the block, leaves the heap as it is. */
  lemma ClientStoreKeeps(first: int, last: int, anchor: int, m: Mem, bs: Blocks, free: seq<int>, live: map<int, int>,
                         a: int, value: int)
    requires Invariant(first, last, anchor, m, bs, free, live)
    requires ClientWord(live, a) && a in m
    ensures Invariant(first, last, anchor, m[a := value], bs, free, live)
  {
    var m' := m[a := value];
    ClientWordAvoids(first, last, bs, live, a, first);
    ClientMissesHeaders(first, last, bs, m, m', live, a);
    ClientMissesLinks(first, last, anchor, bs, free, live, a);
    RingIgnores(anchor, free, m, m');
  }

  lemma ClientMissesHeaders(first: int, last: int, bs: Blocks, m: Mem, m': Mem, live: map<int, int>, a: int)
    requires Tiling(first, last, bs) && Headers(last, bs, m) && Areas(last, bs, live) && ClientWord(live, a)
    requires a in m && m'.Keys == m.Keys && forall x <- m | x != a :: m'[x] == m[x]
    ensures Headers(last, bs, m')
  {
    forall b <- bs ensures a != b + 8 && (IsFree(last, bs, b) ==> a != Next(bs, b)) {
      ClientWordAvoids(first, last, bs, live, a, b);
    }
  }

  lemma ClientMissesLinks(first: int, last: int, anchor: int, bs: Blocks, free: seq<int>, live: map<int, int>, a: int)
    requires Tiling(first, last, bs) && ListsFree(last, bs, free) && Areas(last, bs, live) && ClientWord(live, a)
    requires anchor + MIN_BLOCK <= first || last + HEADER <= anchor
    ensures OffLinks(anchor, free, a)
  {
    ClientWordAvoids(first, last, bs, live, a, first);
    forall i | 0 <= i < |free| ensures a != free[i] + 16 && a != free[i] + 24 {
      assert free[i] in free && IsFree(last, bs, free[i]);
      ClientWordAvoids(first, last, bs, live, a, free[i]);
      assert free[i] + MIN_BLOCK <= Next(bs, free[i]);
    }
  }
}
