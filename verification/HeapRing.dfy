/** The free list: a ring of link words, `next` at offset 16 and `prev` at offset 24 of each node, closed
  through the sentinel in the control block. The functions are the list helpers of heap.inl. */
module HeapRing {
  import opened HeapLayout
  import opened HeapMoves

  function Unlink(m: Mem, block: int): Mem
    requires block + 16 in m && block + 24 in m
  {
    var next, prev := m[block + 16], m[block + 24];
    m[prev + 16 := next][next + 24 := prev]
  }

  function LinkAfter(m: Mem, before: int, block: int): Mem
    requires before + 16 in m
  {
    var next := m[before + 16];
    m[block + 16 := next][block + 24 := before][before + 16 := block][next + 24 := block]
  }

  lemma LinkAfterKeeps(m: Mem, before: int, block: int, a: int)
    requires before + 16 in m && a in m
    requires a != block + 16 && a != block + 24 && a != before + 16 && a != m[before + 16] + 24
    ensures a in LinkAfter(m, before, block) && LinkAfter(m, before, block)[a] == m[a]
  {
  }

  function Relink(m: Mem, oldBlock: int, block: int): Mem
    requires oldBlock + 16 in m && oldBlock + 24 in m
  {
    var next, prev := m[oldBlock + 16], m[oldBlock + 24];
    m[block + 16 := next][block + 24 := prev][next + 24 := block][prev + 16 := block]
  }

  ghost predicate ClearOf(anchor: int, free: seq<int>, x: int) {
    && (x + MIN_BLOCK <= anchor || anchor + MIN_BLOCK <= x)
    && (forall i | 0 <= i < |free| :: x + MIN_BLOCK <= free[i] || free[i] + MIN_BLOCK <= x)
  }

  /** `a` is no link word of the sentinel or of a node. */
  ghost predicate OffLinks(anchor: int, nodes: seq<int>, a: int) {
    && a != anchor + 16 && a != anchor + 24
    && (forall i | 0 <= i < |nodes| :: a != nodes[i] + 16 && a != nodes[i] + 24)
  }

  ghost predicate SameOffLinks(anchor: int, nodes: seq<int>, m: Mem, m': Mem) {
    m'.Keys == m.Keys && forall a <- m | OffLinks(anchor, nodes, a) :: m'[a] == m[a]
  }

  lemma NodesApart(anchor: int, free: seq<int>, p: nat, q: nat)
    requires Apart(anchor, free) && p <= |free| + 1 && q <= |free| + 1
    ensures Node(anchor, free, p) == Node(anchor, free, q)
      ==> p == q || (p == 0 && q == |free| + 1) || (p == |free| + 1 && q == 0)
    ensures Node(anchor, free, p) != Node(anchor, free, q) ==>
      || Node(anchor, free, p) + MIN_BLOCK <= Node(anchor, free, q)
      || Node(anchor, free, q) + MIN_BLOCK <= Node(anchor, free, p)
  {
  }

  lemma RingAt(anchor: int, free: seq<int>, m: Mem, i: int)
    requires Ring(anchor, free, m) && 0 <= i <= |free|
    ensures Linked(m, Node(anchor, free, i), Node(anchor, free, i + 1))
  {
  }

  /** Writing the `next` word of node `p` and the `prev` word of node `q` leaves the other link words alone. */
  lemma OtherLinksStay(anchor: int, free: seq<int>, m: Mem, m': Mem, p: nat, q: nat, next: int, prev: int)
    requires Apart(anchor, free) && p <= |free| && 1 <= q <= |free| + 1
    requires m' == m[Node(anchor, free, p) + 16 := next][Node(anchor, free, q) + 24 := prev]
    ensures m'[Node(anchor, free, p) + 16] == next && m'[Node(anchor, free, q) + 24] == prev
    ensures forall i {:trigger Node(anchor, free, i)} | 0 <= i <= |free| && i != p && Node(anchor, free, i) + 16 in m ::
              m'[Node(anchor, free, i) + 16] == m[Node(anchor, free, i) + 16]
    ensures forall j {:trigger Node(anchor, free, j)} | 1 <= j <= |free| + 1 && j != q
      && Node(anchor, free, j) + 24 in m ::
              m'[Node(anchor, free, j) + 24] == m[Node(anchor, free, j) + 24]
  {
    NodesApart(anchor, free, p, q);
    forall i {:trigger Node(anchor, free, i)} | 0 <= i <= |free| + 1 ensures true {
      NodesApart(anchor, free, i, p);
      NodesApart(anchor, free, i, q);
    }
  }

  lemma UnlinkKeepsRing(anchor: int, free: seq<int>, m: Mem, k: int)
    requires Ring(anchor, free, m) && Apart(anchor, free) && 0 <= k < |free|
    ensures free[k] + 16 in m && free[k] + 24 in m
    ensures Ring(anchor, Splice(free, k, []), Unlink(m, free[k]))
  {
    assert Node(anchor, free, k + 1) == free[k];
    var prev, next := Node(anchor, free, k), Node(anchor, free, k + 2);
    var m' := Unlink(m, free[k]);
    OtherLinksStay(anchor, free, m, m', k, k + 2, next, prev);
    var rest := Splice(free, k, []);
    forall i, j {:trigger Node(anchor, rest, i), Node(anchor, rest, j)} | 0 <= i <= |rest| && j == i + 1
      ensures Linked(m', Node(anchor, rest, i), Node(anchor, rest, j))
    {
      var i' := if i <= k then i else i + 1;
      var j' := if j <= k then j else j + 1;
      assert Node(anchor, rest, i) == Node(anchor, free, i');
      assert Node(anchor, rest, j) == Node(anchor, free, j');
      assert i != k ==> j' == i' + 1;
      assert Node(anchor, free, i' + 1) + 24 in m;
    }
  }

  /** Writes to words that are no links of the ring do not matter to it. */
  lemma RingIgnores(anchor: int, free: seq<int>, m: Mem, m': Mem)
    requires Ring(anchor, free, m)
    requires forall a <- m :: a in m' && (OffLinks(anchor, free, a) || m'[a] == m[a])
    ensures Ring(anchor, free, m')
  {
    forall i {:trigger Node(anchor, free, i)} | 0 <= i <= |free| + 1
      ensures !OffLinks(anchor, free, Node(anchor, free, i) + 16) && !OffLinks(anchor, free, Node(anchor, free, i) + 24)
    {
    }
  }

  lemma LinkAfterLinks(anchor: int, free: seq<int>, m: Mem, k: int, x: int)
    requires Ring(anchor, free, m) && Apart(anchor, free) && ClearOf(anchor, free, x) && 0 <= k <= |free|
    ensures Node(anchor, free, k) + 16 in m
    ensures var m' := LinkAfter(m, Node(anchor, free, k), x);
      && Linked(m', Node(anchor, free, k), x) && Linked(m', x, Node(anchor, free, k + 1))
      && forall i, j {:trigger Node(anchor, free, i), Node(anchor, free, j)} | 0 <= i <= |free| && j == i + 1
        && i != k ::
           Linked(m', Node(anchor, free, i), Node(anchor, free, j))
  {
    var before, next := Node(anchor, free, k), Node(anchor, free, k + 1);
    RingAt(anchor, free, m, k);
    var m1 := m[x + 16 := next][x + 24 := before];
    RingIgnores(anchor, free, m, m1);
    OtherLinksStay(anchor, free, m1, LinkAfter(m, before, x), k, k + 1, x, x);
  }

  lemma LinkAfterKeepsRing(anchor: int, free: seq<int>, m: Mem, k: int, x: int)
    requires Ring(anchor, free, m) && Apart(anchor, free) && ClearOf(anchor, free, x) && 0 <= k <= |free|
    ensures Node(anchor, free, k) + 16 in m
    ensures Ring(anchor, Inserted(free, k, x), LinkAfter(m, Node(anchor, free, k), x))
  {
    LinkAfterLinks(anchor, free, m, k, x);
    LinksMakeRing(anchor, free, LinkAfter(m, Node(anchor, free, k), x), k, x);
  }

  lemma LinksMakeRing(anchor: int, free: seq<int>, m: Mem, k: int, x: int)
    requires 0 <= k <= |free|
    requires Linked(m, Node(anchor, free, k), x) && Linked(m, x, Node(anchor, free, k + 1))
    requires forall i, j {:trigger Node(anchor, free, i), Node(anchor, free, j)} | 0 <= i <= |free| && j == i + 1
      && i != k ::
               Linked(m, Node(anchor, free, i), Node(anchor, free, j))
    ensures Ring(anchor, Inserted(free, k, x), m)
  {
    var more := Inserted(free, k, x);
    forall i, j {:trigger Node(anchor, more, i), Node(anchor, more, j)} | 0 <= i <= |more| && j == i + 1
      ensures Linked(m, Node(anchor, more, i), Node(anchor, more, j))
    {
      if i < k {
        assert Node(anchor, more, i) == Node(anchor, free, i) && Node(anchor, more, j) == Node(anchor, free, j);
      } else if i == k {
        assert Node(anchor, more, i) == Node(anchor, free, k) && Node(anchor, more, j) == x;
      } else if i == k + 1 {
        assert Node(anchor, more, i) == x && Node(anchor, more, j) == Node(anchor, free, k + 1);
      } else {
        assert Node(anchor, more, i) == Node(anchor, free, i - 1) && Node(anchor, more, j) == Node(anchor, free, j - 1);
      }
    }
  }

  lemma RelinkKeepsRing(anchor: int, free: seq<int>, m: Mem, k: int, x: int)
    requires Ring(anchor, free, m) && Apart(anchor, free) && ClearOf(anchor, free, x) && 0 <= k < |free|
    ensures free[k] + 16 in m && free[k] + 24 in m
    ensures Ring(anchor, Splice(free, k, [x]), Relink(m, free[k], x))
  {
    var rest := Splice(free, k, []);
    UnlinkKeepsRing(anchor, free, m, k);
    var m' := Unlink(m, free[k]);
    assert ClearOf(anchor, rest, x) && Apart(anchor, rest);
    LinkAfterKeepsRing(anchor, rest, m', k, x);
    assert Inserted(rest, k, x) == Splice(free, k, [x]);
    RelinkIsUnlinkThenLink(anchor, free, m, k, x);
  }

  lemma RelinkIsUnlinkThenLink(anchor: int, free: seq<int>, m: Mem, k: int, x: int)
    requires Ring(anchor, free, m) && Apart(anchor, free) && ClearOf(anchor, free, x) && 0 <= k < |free|
    ensures free[k] + 16 in m && free[k] + 24 in m
    ensures var m' := Unlink(m, free[k]); var rest := Splice(free, k, []);
      Node(anchor, rest, k) + 16 in m' && Relink(m, free[k], x) == LinkAfter(m', Node(anchor, rest, k), x)
  {
    RingAt(anchor, free, m, k);
    RingAt(anchor, free, m, k + 1);
    NodesApart(anchor, free, k, k + 2);
    assert Node(anchor, Splice(free, k, []), k) == Node(anchor, free, k);
  }

  // ----- frames: the list helpers write link words only

  lemma UnlinkFrame(anchor: int, free: seq<int>, m: Mem, k: int)
    requires Ring(anchor, free, m) && 0 <= k < |free|
    ensures free[k] + 16 in m && free[k] + 24 in m
    ensures SameOffLinks(anchor, Splice(free, k, []), m, Unlink(m, free[k]))
  {
    RingAt(anchor, free, m, k);
    RingAt(anchor, free, m, k + 1);
    var list := Splice(free, k, []);
    assert Node(anchor, free, k) == Node(anchor, list, k) && Node(anchor, free, k + 2) == Node(anchor, list, k + 1);
  }

  lemma LinkAfterFrame(anchor: int, free: seq<int>, m: Mem, k: int, x: int)
    requires Ring(anchor, free, m) && 0 <= k <= |free| && x + 16 in m && x + 24 in m
    ensures Node(anchor, free, k) + 16 in m
    ensures SameOffLinks(anchor, free + [x], m, LinkAfter(m, Node(anchor, free, k), x))
  {
    RingAt(anchor, free, m, k);
    var nodes := free + [x];
    assert nodes[|free|] == x && forall i | 0 <= i < |free| :: nodes[i] == free[i];
  }

  lemma RelinkFrame(anchor: int, free: seq<int>, m: Mem, k: int, x: int)
    requires Ring(anchor, free, m) && 0 <= k < |free| && x + 16 in m && x + 24 in m
    ensures free[k] + 16 in m && free[k] + 24 in m
    ensures SameOffLinks(anchor, free + [x], m, Relink(m, free[k], x))
  {
    RingAt(anchor, free, m, k);
    RingAt(anchor, free, m, k + 1);
    var nodes := free + [x];
    assert nodes[|free|] == x && forall i | 0 <= i < |free| :: nodes[i] == free[i];
  }
}
