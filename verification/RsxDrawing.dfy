/** What the three draws mean to the chip: which elements are drawn, between which begin and end. */
module RsxDrawing {
  import Bits
  import opened RsxStream
  import opened RsxDraw
  import opened RsxIndex
  import opened RsxInline
  import opened Words

  // ----- the chip

  /** A vertex of the vertex arrays by its number; or by what an index array of elements of `size` bytes holds in place
    `number`; or by a number in the stream. */
  datatype Element =
    | Vertex(number: int)
    | Indexed(location: int, offset: int, size: int, number: int)
    | Given(number: int)

  /** A primitive and its elements, in order. `flushed` says that the vertex cache was invalidated before. */
  datatype Drawn = Drawn(kind: int, elements: seq<Element>, flushed: bool)

  /** The registers of index arrays, and what has been drawn since the last begin and before. */
  datatype Painter = Painter(offset: int, format: int, kind: int, elements: seq<Element>, flushed: bool,
                             drawn: seq<Drawn>)

  /** Element `i` of the index array that the registers describe: the type is in bits 4 and up, the location below. */
  function ByIndex(offset: int, format: int): nat -> Element {
    i => Indexed(format % 16, offset, if format / 16 == GCM_INDEX_TYPE_32B then 4 else 2, i)
  }

  function ByNumber(): nat -> Element { i => Vertex(i) }

  function InOrder(element: nat -> Element, from: nat, n: nat): seq<Element> {
    seq(n, i requires 0 <= i < n => element(from + i))
  }

  function InStream(numbers: seq<int>): seq<Element> {
    seq(|numbers|, i requires 0 <= i < |numbers| => Given(numbers[i]))
  }

  function ElementsIn(p: Painter, w: Write): seq<Element> {
    if w.reg == VB_VERTEX_BATCH && 0 <= w.value < TWO_32 then
      InOrder(ByNumber(), BatchOf(w.value).start, BatchOf(w.value).length)
    else if w.reg == VB_INDEX_BATCH_DRAW && 0 <= w.value < TWO_32 then
      InOrder(ByIndex(p.offset, p.format), BatchOf(w.value).start, BatchOf(w.value).length)
    else InStream(ElementsOf(w))
  }

  function Paint(p: Painter, w: Write): Painter {
    if w.channel != 0 then p
    else if w.reg == VTX_CACHE_INVALIDATE then p.(flushed := true)
    else if w.reg == VB_INDEX_BATCH_OFFSET then p.(offset := w.value)
    else if w.reg == VB_INDEX_BATCH_OFFSET + 4 then p.(format := w.value)
    else if w.reg == BEGIN_END then
      if w.value != 0 then p.(kind := w.value, elements := [])
      else p.(kind := 0, elements := [], flushed := false, drawn := p.drawn + [Drawn(p.kind, p.elements, p.flushed)])
    else p.(elements := p.elements + ElementsIn(p, w))
  }

  function Painted(writes: seq<Write>, p: Painter): Painter {
    if writes == [] then p else Painted(writes[1..], Paint(p, writes[0]))
  }

  lemma {:induction false} PaintedAppend(a: seq<Write>, b: seq<Write>, p: Painter)
    ensures Painted(a + b, p) == Painted(b, Painted(a, p))
  {
    if a == [] {
      assert a + b == b;
    } else {
      assert (a + b)[1..] == a[1..] + b;
      PaintedAppend(a[1..], b, Paint(p, a[0]));
    }
  }

  // ----- batches

  function BatchElements(element: nat -> Element, bs: seq<Batch>): seq<Element> {
    if bs == [] then []
    else InOrder(element, bs[0].start, bs[0].length) + BatchElements(element, bs[1..])
  }

  ghost predicate Distinguishes(element: nat -> Element) { forall i, j | element(i) == element(j) :: i == j }

  /** Batches draw the elements from `from` up to `to` exactly when they cover them. */
  lemma {:induction false} CoverDraws(element: nat -> Element, bs: seq<Batch>, from: nat, to: nat)
    requires from <= to && Distinguishes(element) && forall i | 0 <= i < |bs| :: bs[i].length >= 1
    ensures Covers(bs, from, to) <==> BatchElements(element, bs) == InOrder(element, from, to - from)
    decreases |bs|
  {
    if bs == [] {
      assert BatchElements(element, bs) == InOrder(element, from, to - from) <==> to == from;
    } else {
      var b, drawn := bs[0], BatchElements(element, bs);
      assert drawn[0] == element(b.start);
      if from == to || b.start != from {
        FirstDiffers(element, b, bs[1..], from, to);
      } else if b.length <= to - from {
        CoverDraws(element, bs[1..], from + b.length, to);
        FirstOfMany(element, BatchElements(element, bs[1..]), from, b.length, to);
      } else {
        CoverEnds(bs[1..], from + b.length, to);
      }
    }
  }

  lemma FirstDiffers(element: nat -> Element, b: Batch, rest: seq<Batch>, from: nat, to: nat)
    requires from <= to && Distinguishes(element) && b.length >= 1 && (from == to || b.start != from)
    requires forall i | 0 <= i < |rest| :: rest[i].length >= 1
    ensures !Covers([b] + rest, from, to)
    ensures InOrder(element, b.start, b.length) + BatchElements(element, rest) != InOrder(element, from, to - from)
  {
    assert ([b] + rest)[1..] == rest;
    if b.start == from {
      CoverEnds(rest, from + b.length, to);
    } else if from < to {
      assert (InOrder(element, b.start, b.length) + BatchElements(element, rest))[0] == element(b.start);
      assert InOrder(element, from, to - from)[0] == element(from);
    }
  }

  lemma {:induction false} CoverEnds(bs: seq<Batch>, from: nat, to: nat)
    requires to < from
    ensures !Covers(bs, from, to)
  {
    if bs != [] {
      CoverEnds(bs[1..], from + bs[0].length, to);
    }
  }

  lemma FirstOfMany(element: nat -> Element, rest: seq<Element>, from: nat, n: nat, to: nat)
    requires n <= to - from
    ensures InOrder(element, from, n) + rest == InOrder(element, from, to - from)
      <==> rest == InOrder(element, from + n, to - (from + n))
  {
    var all := InOrder(element, from, to - from);
    assert all[..n] == InOrder(element, from, n);
    assert all[n..] == InOrder(element, from + n, to - (from + n));
    assert all == all[..n] + all[n..];
    if InOrder(element, from, n) + rest == all {
      assert rest == (InOrder(element, from, n) + rest)[n..];
    }
  }

  /** Which elements the batch words of a register stand for. */
  ghost predicate Draws(p: Painter, reg: nat, element: nat -> Element) {
    if reg == VB_VERTEX_BATCH then element == ByNumber()
    else reg == VB_INDEX_BATCH_DRAW && element == ByIndex(p.offset, p.format)
  }

  lemma {:induction false} BatchesPainted(p: Painter, reg: nat, element: nat -> Element, words: seq<Word>)
    requires Draws(p, reg, element)
    ensures Painted(FixedWrites(reg, words), p)
         == p.(elements := p.elements + BatchElements(element, Batches(words)))
    decreases |words|
  {
    if words == [] {
      assert p.elements + [] == p.elements;
    } else {
      var rest := words[1..];
      var first := InOrder(element, BatchOf(words[0]).start, BatchOf(words[0]).length);
      assert FixedWrites(reg, words)[1..] == FixedWrites(reg, rest);
      BatchPainted(p, reg, element, words[0], first);
      BatchesPainted(p.(elements := p.elements + first), reg, element, rest);
      assert Batches(words)[1..] == Batches(rest);
      Joins(p.elements, first, BatchElements(element, Batches(rest)));
    }
  }

  lemma BatchPainted(p: Painter, reg: nat, element: nat -> Element, word: Word, first: seq<Element>)
    requires Draws(p, reg, element) && first == InOrder(element, BatchOf(word).start, BatchOf(word).length)
    ensures Paint(p, Write(0, reg, word)) == p.(elements := p.elements + first)
  {
  }

  lemma Joins(a: seq<Element>, b: seq<Element>, c: seq<Element>)
    ensures a + b + c == a + (b + c)
  {
  }

  // ----- the draws

  /** Between begin and end of a primitive. */
  lemma PrimitivePainted(p: Painter, kind: int, writes: seq<Write>, elements: seq<Element>)
    requires kind != 0
    requires var begun := p.(kind := kind, elements := []); Painted(writes, begun) == begun.(elements := elements)
    ensures Painted([Write(0, BEGIN_END, kind)] + writes + [Write(0, BEGIN_END, 0)], p).drawn
         == p.drawn + [Drawn(kind, elements, p.flushed)]
  {
    PaintedAppend([Write(0, BEGIN_END, kind)] + writes, [Write(0, BEGIN_END, 0)], p);
    PaintedAppend([Write(0, BEGIN_END, kind)], writes, p);
    OnePainted(Write(0, BEGIN_END, kind), p);
    OnePainted(Write(0, BEGIN_END, 0), Painted([Write(0, BEGIN_END, kind)] + writes, p));
  }

  /** And behind a lead that draws nothing. */
  lemma LedPainted(p: Painter, ready: Painter, lead: seq<Write>, kind: int, writes: seq<Write>, elements: seq<Element>)
    requires kind != 0 && Painted(lead, p) == ready && ready.flushed && ready.drawn == p.drawn
    requires var begun := ready.(kind := kind, elements := []); Painted(writes, begun) == begun.(elements := elements)
    ensures Painted(lead + [Write(0, BEGIN_END, kind)] + writes + [Write(0, BEGIN_END, 0)], p).drawn
         == p.drawn + [Drawn(kind, elements, true)]
  {
    PrimitivePainted(ready, kind, writes, elements);
    Leads(lead, [Write(0, BEGIN_END, kind)], writes, [Write(0, BEGIN_END, 0)]);
    PaintedAppend(lead, [Write(0, BEGIN_END, kind)] + writes + [Write(0, BEGIN_END, 0)], p);
  }

  lemma Leads(a: seq<Write>, b: seq<Write>, c: seq<Write>, d: seq<Write>)
    ensures a + b + c + d == a + (b + c + d)
  {
  }

  lemma OnePainted(w: Write, p: Painter)
    ensures Painted([w], p) == Paint(p, w)
  {
  }

  lemma FlushPainted(p: Painter)
    ensures Painted(FixedWrites(VTX_CACHE_INVALIDATE, [0, 0, 0]), p) == p.(flushed := true)
  {
    var w := Write(0, VTX_CACHE_INVALIDATE, 0);
    assert FixedWrites(VTX_CACHE_INVALIDATE, [0, 0, 0]) == [w] + ([w] + [w]);
    PaintedAppend([w], [w] + [w], p);
    PaintedAppend([w], [w], Paint(p, w));
    OnePainted(w, p);
    OnePainted(w, p.(flushed := true));
  }

  lemma LongBatches(words: seq<Word>)
    ensures forall i | 0 <= i < |Batches(words)| :: Batches(words)[i].length >= 1
  {
    BatchBounds(words);
  }

  /** `DrawVertexArray` draws the vertices from `start` on, `count` of them, as primitives of the kind asked for,
    exactly when there are any and the last batch still starts within 24 bits. */
  lemma VertexArrayDraws(kind: Word, start: Word, count: Word, p: Painter)
    requires kind != 0
    ensures Painted(VertexWrites(kind, start, count), p).drawn
         == p.drawn + [Drawn(kind, seq(count, i requires 0 <= i < count => Vertex(start + i)), true)]
      <==> count >= 1 && (if count <= 256 then start else start + count - 256) < 0x100_0000
  {
    var words := VertexBatches(start, count);
    VertexPainted(kind, start, count, p);
    VertexArrayCovers(start, count);
    LongBatches(words);
    CoverDraws(ByNumber(), Batches(words), start, start + count);
    assert InOrder(ByNumber(), start, count) == seq(count, i requires 0 <= i < count => Vertex(start + i));
    OneDrawn(p.drawn, kind, BatchElements(ByNumber(), Batches(words)), InOrder(ByNumber(), start, count));
  }

  lemma OneDrawn(before: seq<Drawn>, kind: int, a: seq<Element>, b: seq<Element>)
    ensures before + [Drawn(kind, a, true)] == before + [Drawn(kind, b, true)] <==> a == b
  {
    if before + [Drawn(kind, a, true)] == before + [Drawn(kind, b, true)] {
      assert (before + [Drawn(kind, a, true)])[|before|] == (before + [Drawn(kind, b, true)])[|before|];
    }
  }

  lemma VertexPainted(kind: Word, start: Word, count: Word, p: Painter)
    requires kind != 0
    ensures Painted(VertexWrites(kind, start, count), p).drawn
         == p.drawn + [Drawn(kind, BatchElements(ByNumber(), Batches(VertexBatches(start, count))), true)]
  {
    var flush, words := FixedWrites(VTX_CACHE_INVALIDATE, [0, 0, 0]), VertexBatches(start, count);
    var batches := FixedWrites(VB_VERTEX_BATCH, words);
    var begun := p.(flushed := true, kind := kind, elements := []);
    BatchesPainted(begun, VB_VERTEX_BATCH, ByNumber(), words);
    assert [] + BatchElements(ByNumber(), Batches(words)) == BatchElements(ByNumber(), Batches(words));
    FlushPainted(p);
    LedPainted(p, p.(flushed := true), flush, kind, batches, BatchElements(ByNumber(), Batches(words)));
  }

  /** `DrawIndexArray` draws through the elements of the index array at its location and offset, all `count` of them and
    of the size of its type, as primitives of the kind asked for, exactly when what is left behind the head batch fits
    24 bits. */
  lemma IndexArrayDraws(kind: Byte, offset: Word, count: Word, dataType: Byte, location: Byte, p: Painter)
    requires kind != 0 && location < 16
    ensures Painted(IndexWrites(kind, offset, count, dataType, location), p).drawn
         == p.drawn + [Drawn(kind, seq(count, i requires 0 <= i < count =>
                                         Indexed(location, offset, if dataType == 0 then 4 else 2, i)), true)]
      <==> count <= 0x100_0000 + HeadCount(offset, dataType, count)
  {
    var head := HeadCount(offset, dataType, count);
    HeadBounds(offset, dataType, count);
    var format := 16 * dataType + location;
    var element, words := ByIndex(offset, format), IndexBatches(head, count);
    IndexPainted(kind, offset, count, dataType, location, format, p);
    IndexArrayCovers(offset, dataType, count);
    LongBatches(words);
    CoverDraws(element, Batches(words), 0, count);
    IndexElements(offset, count, dataType, location, format);
    OneDrawn(p.drawn, kind, BatchElements(element, Batches(words)), InOrder(element, 0, count));
  }

  lemma IndexElements(offset: Word, count: Word, dataType: Byte, location: Byte, format: int)
    requires location < 16 && format == 16 * dataType + location
    ensures InOrder(ByIndex(offset, format), 0, count)
         == seq(count, i requires 0 <= i < count => Indexed(location, offset, if dataType == 0 then 4 else 2, i))
  {
  }

  lemma FormatIs(dataType: Byte, location: Byte)
    requires location < 16
    ensures Or32(Shl(dataType, 4), location) == 16 * dataType + location
  {
    assert Bits.Pow2(4) == 16;
    OrFields(dataType, location, 4);
  }

  lemma IndexPainted(kind: Byte, offset: Word, count: Word, dataType: Byte, location: Byte, format: int, p: Painter)
    requires kind != 0 && location < 16 && format == 16 * dataType + location
    requires HeadCount(offset, dataType, count) <= count
    ensures Painted(IndexWrites(kind, offset, count, dataType, location), p).drawn
         == p.drawn
            + [Drawn(kind, BatchElements(ByIndex(offset, format),
                                         Batches(IndexBatches(HeadCount(offset, dataType, count), count))), true)]
  {
    var words := IndexBatches(HeadCount(offset, dataType, count), count);
    var element, batches := ByIndex(offset, format), FixedWrites(VB_INDEX_BATCH_DRAW, words);
    var lead := [Write(0, VTX_CACHE_INVALIDATE, 0), Write(0, VB_INDEX_BATCH_OFFSET, offset),
                 Write(0, VB_INDEX_BATCH_OFFSET + 4, format)];
    FormatIs(dataType, location);
    SetUpPainted(offset, format, lead, p);
    var ready := p.(flushed := true, offset := offset, format := format);
    BatchesPainted(ready.(kind := kind, elements := []), VB_INDEX_BATCH_DRAW, element, words);
    assert [] + BatchElements(element, Batches(words)) == BatchElements(element, Batches(words));
    LedPainted(p, ready, lead, kind, batches, BatchElements(element, Batches(words)));
    assert IndexSetup(kind, offset, dataType, location) == lead + [Write(0, BEGIN_END, kind)];
  }

  lemma SetUpPainted(offset: int, format: int, lead: seq<Write>, p: Painter)
    requires lead == [Write(0, VTX_CACHE_INVALIDATE, 0), Write(0, VB_INDEX_BATCH_OFFSET, offset),
                      Write(0, VB_INDEX_BATCH_OFFSET + 4, format)]
    ensures Painted(lead, p) == p.(flushed := true, offset := offset, format := format)
  {
    var a, b, c := lead[0], lead[1], lead[2];
    assert lead == [a] + ([b] + [c]);
    PaintedAppend([a], [b] + [c], p);
    PaintedAppend([b], [c], p.(flushed := true));
    OnePainted(a, p);
    OnePainted(b, p.(flushed := true));
    OnePainted(c, p.(flushed := true, offset := offset));
  }

  /** The writes only hand over numbers. */
  predicate HandsOver(writes: seq<Write>) {
    forall i | 0 <= i < |writes| :: writes[i].channel == 0
                                    && (writes[i].reg == VB_ELEMENT_U32 || writes[i].reg == VB_ELEMENT_U16)
  }

  lemma {:induction false} NumbersPainted(writes: seq<Write>, p: Painter)
    requires HandsOver(writes)
    ensures Painted(writes, p) == p.(elements := p.elements + InStream(Elements(writes)))
  {
    if writes == [] {
      assert p.elements + [] == p.elements;
    } else {
      var first := ElementsOf(writes[0]);
      assert Paint(p, writes[0]) == p.(elements := p.elements + InStream(first));
      NumbersPainted(writes[1..], p.(elements := p.elements + InStream(first)));
      assert InStream(first + Elements(writes[1..])) == InStream(first) + InStream(Elements(writes[1..]));
      Joins(p.elements, InStream(first), InStream(Elements(writes[1..])));
    }
  }

  /** `DrawInlineIndexArray16` draws the vertices whose numbers it is given, as primitives of the kind asked for. */
  lemma InlineDraws(kind: Byte, data: seq<Short>, p: Painter)
    requires kind != 0
    ensures Painted(InlineWrites(kind, data), p).drawn == p.drawn + [Drawn(kind, InStream(data), true)]
  {
    var flush := FixedWrites(VTX_CACHE_INVALIDATE, [0, 0, 0]);
    var numbers := OddWrites(data) + FixedWrites(VB_ELEMENT_U16, Pairs(data, |data| % 2, |data| / 2));
    var begun := p.(flushed := true, kind := kind, elements := []);
    NumbersHanded(data, numbers);
    NumbersPainted(numbers, begun);
    NumbersAre(kind, data, numbers);
    assert [] + InStream(data) == InStream(data);
    FlushPainted(p);
    LedPainted(p, p.(flushed := true), flush, kind, numbers, InStream(data));
    InlineParts(kind, data, numbers);
  }

  lemma InlineParts(kind: Byte, data: seq<Short>, numbers: seq<Write>)
    requires numbers == OddWrites(data) + FixedWrites(VB_ELEMENT_U16, Pairs(data, |data| % 2, |data| / 2))
    ensures InlineWrites(kind, data) == InlineLead(kind) + numbers + [Write(0, BEGIN_END, 0)]
  {
    RsxStream.Regroup(InlineLead(kind), OddWrites(data),
                      FixedWrites(VB_ELEMENT_U16, Pairs(data, |data| % 2, |data| / 2)));
  }

  lemma NumbersHanded(data: seq<Short>, numbers: seq<Write>)
    requires numbers == OddWrites(data) + FixedWrites(VB_ELEMENT_U16, Pairs(data, |data| % 2, |data| / 2))
    ensures HandsOver(numbers)
  {
  }

  lemma NumbersAre(kind: Byte, data: seq<Short>, numbers: seq<Write>)
    requires numbers == OddWrites(data) + FixedWrites(VB_ELEMENT_U16, Pairs(data, |data| % 2, |data| / 2))
    ensures Elements(numbers) == data
  {
    var lead, end := InlineLead(kind), [Write(0, BEGIN_END, 0)];
    InlineDecodes(kind, data);
    InlineParts(kind, data, numbers);
    ElementsAppend(lead + numbers, end);
    ElementsAppend(lead, numbers);
    LeadDrawsNothing(kind);
    EndDrawsNothing(end);
    assert [] + Elements(numbers) + [] == Elements(numbers);
  }
}
