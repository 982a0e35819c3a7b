/** Drawing through an index array: a head batch up to the next 128-byte boundary, then full batches, then
  the rest. */
module RsxIndex {
  import opened Arith
  import Bits
  import opened RsxStream
  import opened RsxDraw
  import opened Words

  /** How many indices lie in front of the next 128-byte boundary. */
  function Misaligned(offset: Word, dataType: Byte): Word {
    Wrap(Bits.And(Wrap(offset + 127), 0xffff_ff80) - offset) / (if dataType == GCM_INDEX_TYPE_32B then 4 else 2)
  }

  function ElementSize(dataType: Byte): nat { if dataType == GCM_INDEX_TYPE_32B then 4 else 2 }

  /** The length of the head batch, 0 if there is none. */
  function HeadCount(offset: Word, dataType: Byte, count: Word): Word {
    var m := Misaligned(offset, dataType);
    if m != 0 && m < count then m else 0
  }

  lemma MisalignedBytes(offset: Word)
    ensures Wrap(Bits.And(Wrap(offset + 127), 0xffff_ff80) - offset) == (128 - offset % 128) % 128
  {
    var x := Wrap(offset + 127);
    Bits.PowersOfTwo();
    assert Bits.Pow2(3) == 8;
    Bits.Pow2Adds(4, 3);
    Bits.ClearLow(x, 32, 7);
    RoundUp(offset, x);
  }

  lemma RoundUp(offset: Word, x: Word)
    requires x == Wrap(offset + 127)
    ensures Wrap(x - x % 128 - offset) == (128 - offset % 128) % 128
  {
    var q, r := offset / 128, offset % 128;
    var gap := if r == 0 then 0 else 128 - r;
    var up := q + (if r == 0 then 0 else 1);
    assert offset == 128 * q + r && offset + 127 == 128 * up + (127 - gap);
    if offset + 127 < TWO_32 {
      DivModUnique(offset + 127, TWO_32, 0, offset + 127);
      DivModUnique(x, 128, up, 127 - gap);
      DivModUnique(gap, TWO_32, 0, gap);
    } else {
      DivModUnique(offset + 127, TWO_32, 1, offset + 127 - TWO_32);
      DivModUnique(x, 128, up - 0x200_0000, 127 - gap);
      DivModUnique(gap - TWO_32, TWO_32, -1, gap);
    }
    DivModUnique(128 - r, 128, if r == 0 then 1 else 0, gap);
  }

  // ----- the words of the batches

  /** Full batches, and a last one of 1 to 256 indices. */
  function RestBatches(start: int, count: nat): seq<Word> {
    if count == 0 then []
    else FullBatches(start, (count - 1) / 256) + [Or32(Shl((count - 1) % 256, 24),
                                                       Wrap(start + 256 * ((count - 1) / 256)))]
  }

  function HeadBatch(head: Word): seq<Word> {
    if head == 0 then [] else [Or32(Shl(head - 1, 24), 0)]
  }

  function IndexBatches(head: Word, count: Word): seq<Word>
    requires head <= count
  {
    HeadBatch(head) + RestBatches(head, count - head)
  }

  lemma HeadCovers(head: Word)
    requires head <= 256
    ensures Covers(Batches(HeadBatch(head)), 0, head) && Total(Batches(HeadBatch(head))) == head
  {
    if head != 0 {
      BatchWord(head - 1, 0);
      HeadThenRest(Batches(HeadBatch(head)), [], 0, head, head);
    }
  }

  /** The rest is covered exactly when its last batch starts within 24 bits. */
  lemma RestCovers(start: nat, full: nat, low: nat)
    requires low < 256 && start < TWO_32
    ensures var last := Or32(Shl(low, 24), Wrap(start + 256 * full));
      Covers(Batches(FullBatches(start, full) + [last]), start, start + 256 * full + low + 1)
      <==> start + 256 * full < 0x100_0000
  {
    var s := start + 256 * full;
    var last := Or32(Shl(low, 24), Wrap(s));
    BatchesAppend(FullBatches(start, full), [last]);
    CoversAppend(Batches(FullBatches(start, full)), Batches([last]), start, s + low + 1);
    FullTotal(start, full);
    assert Batches([last])[1..] == [];
    if s < 0x100_0000 {
      DivModUnique(s, TWO_32, 0, s);
      BatchWord(low, s);
      FullCovers(start, full);
    }
  }

  /** The decoded batches are the one draw that was asked for exactly when the part after the head has at most
    2^24 indices. */
  lemma IndexArrayCovers(offset: Word, dataType: Byte, count: Word)
    ensures var head := HeadCount(offset, dataType, count);
      Covers(Batches(IndexBatches(head, count)), 0, count) <==> count <= 0x100_0000 + head
  {
    HeadBounds(offset, dataType, count);
    HeadAndRestCover(HeadCount(offset, dataType, count), count);
  }

  /** The head batch takes the elements in front of the next 128-byte boundary, if there are any and more behind
    them. */
  lemma HeadBounds(offset: Word, dataType: Byte, count: Word)
    ensures var ahead := (128 - offset % 128) % 128 / (if dataType == 0 then 4 else 2);
      && HeadCount(offset, dataType, count) == (if ahead < count then ahead else 0) && ahead < 64
  {
    var bytes := (128 - offset % 128) % 128;
    MisalignedBytes(offset);
    HeadOf(offset, dataType, count, bytes, bytes / (if dataType == 0 then 4 else 2));
  }

  lemma HeadOf(offset: Word, dataType: Byte, count: Word, bytes: int, ahead: int)
    requires Wrap(Bits.And(Wrap(offset + 127), 0xffff_ff80) - offset) == bytes && 0 <= bytes < 128
    requires ahead == bytes / (if dataType == 0 then 4 else 2)
    ensures HeadCount(offset, dataType, count) == (if ahead < count then ahead else 0) && ahead < 64
  {
  }

  lemma HeadAndRestCover(head: Word, count: Word)
    requires head < 64 && (head == 0 || head < count)
    ensures Covers(Batches(IndexBatches(head, count)), 0, count) <==> count <= 0x100_0000 + head
  {
    var a, b := HeadBatch(head), RestBatches(head, count - head);
    HeadCovers(head);
    BatchesAppend(a, b);
    CoverFollows(Batches(a), Batches(b), head, count);
    RestBatchesCover(head, count - head);
  }

  lemma CoverFollows(a: seq<Batch>, b: seq<Batch>, head: nat, to: nat)
    requires Covers(a, 0, head) && Total(a) == head
    ensures Covers(a + b, 0, to) <==> Covers(b, head, to)
  {
    CoversAppend(a, b, 0, to);
  }

  lemma RestBatchesCover(head: nat, rest: nat)
    requires head < 64
    ensures Covers(Batches(RestBatches(head, rest)), head, head + rest) <==> rest <= 0x100_0000
  {
    if rest != 0 {
      LastStart(head, rest);
      RestCovers(head, (rest - 1) / 256, (rest - 1) % 256);
    }
  }

  lemma LastStart(head: nat, rest: nat)
    requires head < 256 && rest > 0
    ensures head + 256 * ((rest - 1) / 256) < 0x100_0000 <==> rest <= 0x100_0000
    ensures 256 * ((rest - 1) / 256) + (rest - 1) % 256 + 1 == rest
  {
  }

  /** With a head batch, every later batch starts on a 128-byte boundary of the index array. */
  lemma BatchesAligned(offset: Word, dataType: Byte, count: Word, i: nat)
    requires offset % ElementSize(dataType) == 0
    requires var head := HeadCount(offset, dataType, count); head > 0 && 1 <= i < |IndexBatches(head, count)|
    requires count <= 0x100_0000 + HeadCount(offset, dataType, count)
    ensures var b := Batches(IndexBatches(HeadCount(offset, dataType, count), count))[i];
      (offset + ElementSize(dataType) * b.start) % 128 == 0
  {
    HeadBounds(offset, dataType, count);
    var head := HeadCount(offset, dataType, count);
    assert IndexBatches(head, count)[i] == RestBatches(head, count - head)[i - 1];
    RestStart(head, count - head, i - 1);
    BoundaryAt(offset, ElementSize(dataType), head, i - 1);
  }

  lemma RestStart(head: nat, rest: nat, k: nat)
    requires head < 256 && 0 < rest <= 0x100_0000 && k < |RestBatches(head, rest)|
    ensures BatchOf(RestBatches(head, rest)[k]).start == head + 256 * k
  {
    RestStartAt(head, rest, k, (rest - 1) / 256, (rest - 1) % 256, head + 256 * k);
  }

  lemma RestStartAt(head: nat, rest: nat, k: nat, full: nat, low: nat, start: nat)
    requires head < 256 && 0 < rest <= 0x100_0000 && k < |RestBatches(head, rest)|
    requires full == (rest - 1) / 256 && low == (rest - 1) % 256 && start == head + 256 * k
    ensures BatchOf(RestBatches(head, rest)[k]).start == start
  {
    LastStart(head, rest);
    DivModUnique(start, TWO_32, 0, start);
    RestBatchIs(head, rest, k, full, low, start);
    if k < full {
      FullBatch(start);
    } else {
      BatchWord(low, start);
    }
  }

  lemma RestBatchIs(head: nat, rest: nat, k: nat, full: nat, low: nat, start: nat)
    requires 0 < rest && k < |RestBatches(head, rest)|
    requires full == (rest - 1) / 256 && low == (rest - 1) % 256 && start == head + 256 * k
    ensures k <= full
    ensures k < full ==> RestBatches(head, rest)[k] == Or32(0xff00_0000, Wrap(start))
    ensures k == full ==> RestBatches(head, rest)[k] == Or32(Shl(low, 24), Wrap(start))
  {
  }

  lemma BoundaryAt(offset: nat, size: nat, head: nat, k: nat)
    requires (size == 2 || size == 4) && offset % size == 0 && head == (128 - offset % 128) % 128 / size
    ensures (offset + size * (head + 256 * k)) % 128 == 0
  {
    HeadReaches(offset, size, head);
    var q := (offset + size * head) / 128;
    DivModUnique(offset + size * (head + 256 * k), 128, q + 2 * size * k, 0);
  }

  lemma HeadReaches(offset: nat, size: nat, head: nat)
    requires (size == 2 || size == 4) && offset % size == 0 && head == (128 - offset % 128) % 128 / size
    ensures (offset + size * head) % 128 == 0
  {
    var a, r := offset / 128, offset % 128;
    if r == 0 {
      DivModUnique(offset + size * head, 128, a, 0);
    } else {
      RestOfMultiple(offset, size, a, r);
      HeadSize(r, size, head);
      DivModUnique(offset + size * head, 128, a + 1, 0);
    }
  }

  lemma RestOfMultiple(offset: nat, size: nat, a: nat, r: nat)
    requires (size == 2 || size == 4) && offset % size == 0 && offset == 128 * a + r
    ensures r % size == 0
  {
    if size == 2 {
      DivModUnique(offset, 2, 64 * a + r / 2, r % 2);
    } else {
      DivModUnique(offset, 4, 32 * a + r / 4, r % 4);
    }
  }

  lemma HeadSize(r: nat, size: nat, head: nat)
    requires (size == 2 || size == 4) && r % size == 0 && 0 < r < 128 && head == (128 - r) / size
    ensures size * head == 128 - r
  {
  }

  // ----- DrawIndexArray

  function IndexWrites(kind: Byte, offset: Word, count: Word, dataType: Byte, location: Byte): seq<Write> {
    IndexSetup(kind, offset, dataType, location)
    + FixedWrites(VB_INDEX_BATCH_DRAW, IndexBatches(HeadCount(offset, dataType, count), count))
    + [Write(0, BEGIN_END, 0)]
  }

  function IndexSetup(kind: Byte, offset: Word, dataType: Byte, location: Byte): seq<Write> {
    [Write(0, VTX_CACHE_INVALIDATE, 0),
     Write(0, VB_INDEX_BATCH_OFFSET, offset), Write(0, VB_INDEX_BATCH_OFFSET + 4, Or32(Shl(dataType, 4), location)),
     Write(0, BEGIN_END, kind)]
  }

  method PutPair(context: Context, reg: Word, a: Word, b: Word)
    requires reg < 0x1ffc && reg % 4 == 0
    modifies context`words
    ensures Emits(old(context.words), context.words, [Write(0, reg, a), Write(0, reg + 4, b)])
    ensures |context.words| == |old(context.words)| + 3
  {
    var header := Method(reg, 2);
    context.Put(header);
    context.Put(a);
    context.Put(b);
    ghost var data := [a, b];
    assert context.words == old(context.words) + [header] + data;
    EmitsMethod(old(context.words), context.words, reg, data);
    assert seq(2, i requires 0 <= i < 2 => Write(0, reg + 4 * i, data[i])) == [Write(0, reg, a), Write(0, reg + 4, b)];
  }

  method PutSetup(context: Context, kind: Byte, offset: Word, dataType: Byte, location: Byte)
    modifies context`words
    ensures Emits(old(context.words), context.words, IndexSetup(kind, offset, dataType, location))
    ensures |context.words| == |old(context.words)| + 7
  {
    ghost var w0 := context.words;
    PutMethod(context, VTX_CACHE_INVALIDATE, 0);
    ghost var w1 := context.words;
    PutPair(context, VB_INDEX_BATCH_OFFSET, offset, Or32(Shl(dataType, 4), location));
    ghost var w2 := context.words;
    PutMethod(context, BEGIN_END, kind);
    ghost var a, c := [Write(0, VTX_CACHE_INVALIDATE, 0)], [Write(0, BEGIN_END, kind)];
    ghost var b := [Write(0, VB_INDEX_BATCH_OFFSET, offset),
                    Write(0, VB_INDEX_BATCH_OFFSET + 4, Or32(Shl(dataType, 4), location))];
    EmitsThree(w0, w1, w2, context.words, a, b, c);
    assert a + b + c == IndexSetup(kind, offset, dataType, location);
  }

  lemma EmitsThree(w0: seq<int>, w1: seq<int>, w2: seq<int>, w3: seq<int>, a: seq<Write>, b: seq<Write>, c: seq<Write>)
    requires Emits(w0, w1, a) && Emits(w1, w2, b) && Emits(w2, w3, c)
    ensures Emits(w0, w3, a + b + c)
  {
    EmitsThen(w0, w1, w2, a, b);
    EmitsThen(w0, w2, w3, a + b, c);
  }

  /** Everything in front of the packets of full batches; the head batch goes with it. */
  method IndexPrologue(context: Context, kind: Byte, offset: Word, count: Word, dataType: Byte, location: Byte)
    returns (head: Word)
    modifies context
    ensures head == HeadCount(offset, dataType, count)
    ensures Emits(old(context.words), context.words,
                  IndexSetup(kind, offset, dataType, location) + FixedWrites(VB_INDEX_BATCH_DRAW, HeadBatch(head)))
    ensures old(context.Filled()) ==> context.Filled()
  {
    ghost var w0 := context.words;
    var misaligned := Misaligned(offset, dataType);
    var odd := if misaligned != 0 && misaligned < count then 1 else 0;
    HeadBounds(offset, dataType, count);
    head := if odd == 1 then misaligned else 0;
    context.Begin(7 + odd * 2);
    PutSetup(context, kind, offset, dataType, location);
    ghost var setup := IndexSetup(kind, offset, dataType, location);
    if odd == 1 {
      ghost var w1 := context.words;
      var word := Or32(Shl(misaligned - 1, 24), 0);
      PutMethod(context, VB_INDEX_BATCH_DRAW, word);
      assert FixedWrites(VB_INDEX_BATCH_DRAW, HeadBatch(head)) == [Write(0, VB_INDEX_BATCH_DRAW, word)];
      EmitsThen(w0, w1, context.words, setup, [Write(0, VB_INDEX_BATCH_DRAW, word)]);
    } else {
      assert setup + FixedWrites(VB_INDEX_BATCH_DRAW, HeadBatch(head)) == setup;
    }
  }

  lemma RestAppend(start: int, n: nat, rest: nat, count: nat, at: int, tail: seq<Word>)
    requires (rest > 0 || n == 0) && at == start + 256 * n && count == 256 * n + rest && tail == RestBatches(at, rest)
    ensures FullBatches(start, n) + tail == RestBatches(start, count)
  {
    if rest > 0 {
      var full, low := (rest - 1) / 256, (rest - 1) % 256;
      DivModUnique(256 * n + rest - 1, 256, n + full, low);
      FullAppend(start, n, full);
      assert at + 256 * full == start + 256 * (n + full);
    }
  }

  lemma RestWraps(start: int, rest: nat)
    ensures RestBatches(Wrap(start), rest) == RestBatches(start, rest)
  {
    if rest > 0 {
      FullWraps(start, (rest - 1) / 256);
      WrapAdds(start, 256 * ((rest - 1) / 256));
    }
  }

  /** The last packet: up to 2047 batches, the last one perhaps short. */
  method TailPacket(context: Context, reg: Word, start: Word, count: Word)
    requires count <= 256 * MAX_METHOD_COUNT && reg < 0x2000 && reg % 4 == 0
    modifies context
    ensures Emits(old(context.words), context.words, FixedWrites(reg, RestBatches(start, count)))
    ensures old(context.Filled()) ==> context.Filled()
  {
    ghost var w0 := context.words;
    var batches: Word := (count + 0xff) / 256;
    context.Begin(1 + batches);
    PutHeader(context, reg, batches);
    ghost var w1 := context.words;
    ghost var data := TailLoop(context, start, count);
    EmitsFixedWrites(w0, w1, context.words, reg, batches, data);
  }

  method PutHeader(context: Context, reg: Word, count: Word)
    modifies context`words
    ensures context.words == old(context.words) + [FixedMethod(reg, count)]
  {
    context.Put(FixedMethod(reg, count));
  }

  lemma EmitsFixedWrites(before: seq<int>, mid: seq<int>, after: seq<int>, reg: Word, count: Word, data: seq<int>)
    requires |data| == count <= MAX_METHOD_COUNT && reg < 0x2000 && reg % 4 == 0
    requires mid == before + [FixedMethod(reg, count)] && after == mid + data
    ensures Emits(before, after, FixedWrites(reg, data))
  {
    assert before + [FixedMethod(reg, count)] + data == after;
    EmitsFixed(before, after, reg, data);
    assert FixedWrites(reg, data) == seq(|data|, i requires 0 <= i < |data| => Write(0, reg, data[i]));
  }

  method TailLoop(context: Context, start: Word, count: Word) returns (ghost data: seq<Word>)
    modifies context`words
    ensures data == RestBatches(start, count) && context.words == old(context.words) + data
    ensures |data| == (count + 0xff) / 256
  {
    var next, left; ghost var n;
    next, left, n := FullTail(context, start, count);
    data := RestBatches(start, count);
    FullThenRest(start, next, n, left, count);
    RestLength(start, count);
    OneBatch(next, left);
    if left != 0 {
      context.Put(Or32(Shl(left - 1, 24), next));
    }
  }

  method FullTail(context: Context, start: Word, count: Word) returns (next: Word, left: Word, ghost n: nat)
    modifies context`words
    ensures left <= 256 && left + 256 * n == count && (left > 0 || n == 0) && next == Wrap(start + 256 * n)
    ensures context.words == old(context.words) + FullBatches(start, n)
  {
    next, left, n := start, count, 0;
    while left > 0x100
      invariant left + 256 * n == count && next == Wrap(start + 256 * n)
      invariant context.words == old(context.words) + FullBatches(start, n)
      invariant left > 0 || n == 0
    {
      context.Put(Or32(0xff00_0000, next));
      OneMore(start, n);
      WrapAdds(start + 256 * n, 0x100);
      next := Wrap(next + 0x100);
      left := left - 0x100;
      n := n + 1;
    }
  }

  lemma OneBatch(start: Word, count: nat)
    requires count <= 256
    ensures RestBatches(start, count) == if count == 0 then [] else [Or32(Shl(count - 1, 24), start)]
  {
    DivModUnique(start, TWO_32, 0, start);
  }

  lemma RestLength(start: int, count: nat)
    ensures |RestBatches(start, count)| == (count + 0xff) / 256
  {
  }

  method DrawIndexArray(context: Context, kind: Byte, offset: Word, count: Word, dataType: Byte, location: Byte)
    modifies context
    ensures Emits(old(context.words), context.words, IndexWrites(kind, offset, count, dataType, location))
    ensures old(context.Filled()) ==> context.Filled()
  {
    ghost var w0 := context.words;
    var head := IndexPrologue(context, kind, offset, count, dataType, location);
    ghost var w1 := context.words;
    HeadBounds(offset, dataType, count);
    IndexPackets(context, head, count - head);
    ghost var w2 := context.words;
    EndDraw(context);
    IndexPieces(w0, w1, w2, context.words, IndexSetup(kind, offset, dataType, location), head, count);
  }

  lemma IndexPieces(w0: seq<int>, w1: seq<int>, w2: seq<int>, w3: seq<int>, setup: seq<Write>, head: Word, count: Word)
    requires head <= count
    requires Emits(w0, w1, setup + FixedWrites(VB_INDEX_BATCH_DRAW, HeadBatch(head)))
    requires Emits(w1, w2, FixedWrites(VB_INDEX_BATCH_DRAW, RestBatches(head, count - head)))
    requires Emits(w2, w3, [Write(0, BEGIN_END, 0)])
    ensures Emits(w0, w3, setup + FixedWrites(VB_INDEX_BATCH_DRAW,
                                              IndexBatches(head, count)) + [Write(0, BEGIN_END, 0)])
  {
    var a, b := FixedWrites(VB_INDEX_BATCH_DRAW, HeadBatch(head)),
    FixedWrites(VB_INDEX_BATCH_DRAW, RestBatches(head, count - head));
    EmitsThree(w0, w1, w2, w3, setup + a, b, [Write(0, BEGIN_END, 0)]);
    Regroup(setup, a, b);
    FixedWritesAppend(VB_INDEX_BATCH_DRAW, HeadBatch(head), RestBatches(head, count - head));
  }

  /** Packets of 2047 full batches as long as more than that is left. */
  method FullIndexPackets(context: Context, start: Word, count: Word) returns (next: Word, left: Word, ghost n: nat)
    modifies context
    ensures left <= 256 * MAX_METHOD_COUNT && left + 256 * n == count && next == Wrap(start + 256 * n)
    ensures left > 0 || n == 0
    ensures Emits(old(context.words), context.words, FixedWrites(VB_INDEX_BATCH_DRAW, FullBatches(start, n)))
    ensures old(context.Filled()) ==> context.Filled()
  {
    ghost var w0 := context.words;
    next, left, n := start, count, 0;
    NoBatches(w0, VB_INDEX_BATCH_DRAW, start);
    while left > 0x7ff00
      invariant left + 256 * n == count && next == Wrap(start + 256 * n)
      invariant Emits(w0, context.words, FixedWrites(VB_INDEX_BATCH_DRAW, FullBatches(start, n)))
      invariant left > 0 || n == 0
      invariant old(context.Filled()) ==> context.Filled()
    {
      ghost var w := context.words;
      WrapAdds(start + 256 * n, 256 * MAX_METHOD_COUNT);
      next := FullPacket(context, VB_INDEX_BATCH_DRAW, next, MAX_METHOD_COUNT);
      MoreBatches(w0, w, context.words, VB_INDEX_BATCH_DRAW, start, n, MAX_METHOD_COUNT);
      left := left - 0x7ff00;
      n := n + MAX_METHOD_COUNT;
    }
  }

  method IndexPackets(context: Context, start: Word, count: Word)
    modifies context
    ensures Emits(old(context.words), context.words, FixedWrites(VB_INDEX_BATCH_DRAW, RestBatches(start, count)))
    ensures old(context.Filled()) ==> context.Filled()
  {
    ghost var w0 := context.words;
    var next, left; ghost var n;
    next, left, n := FullIndexPackets(context, start, count);
    ghost var w := context.words;
    TailPacket(context, VB_INDEX_BATCH_DRAW, next, left);
    RestFollows(w0, w, context.words, start, next, n, left, count);
  }

  lemma NoBatches(w: seq<int>, reg: nat, start: int)
    ensures Emits(w, w, FixedWrites(reg, FullBatches(start, 0)))
  {
    EmitsNothing(w);
    assert FixedWrites(reg, FullBatches(start, 0)) == [];
  }

  lemma RestFollows(a: seq<int>, b: seq<int>, c: seq<int>, start: Word, next: Word, n: nat, rest: nat, count: nat)
    requires (rest > 0 || n == 0) && rest + 256 * n == count && next == Wrap(start + 256 * n)
    requires Emits(a, b, FixedWrites(VB_INDEX_BATCH_DRAW, FullBatches(start, n)))
    requires Emits(b, c, FixedWrites(VB_INDEX_BATCH_DRAW, RestBatches(next, rest)))
    ensures Emits(a, c, FixedWrites(VB_INDEX_BATCH_DRAW, RestBatches(start, count)))
  {
    var full, tail := FullBatches(start, n), RestBatches(next, rest);
    FullThenRest(start, next, n, rest, count);
    EmitsThen(a, b, c, FixedWrites(VB_INDEX_BATCH_DRAW, full), FixedWrites(VB_INDEX_BATCH_DRAW, tail));
    FixedWritesAppend(VB_INDEX_BATCH_DRAW, full, tail);
  }

  lemma FullThenRest(start: Word, next: Word, n: nat, rest: nat, count: nat)
    requires (rest > 0 || n == 0) && rest + 256 * n == count && next == Wrap(start + 256 * n)
    ensures FullBatches(start, n) + RestBatches(next, rest) == RestBatches(start, count)
  {
    FullThenRestAt(start, next, n, rest, count, start + 256 * n);
  }

  lemma FullThenRestAt(start: Word, next: Word, n: nat, rest: nat, count: nat, at: int)
    requires (rest > 0 || n == 0) && 256 * n + rest == count && at == start + 256 * n && next == Wrap(at)
    ensures FullBatches(start, n) + RestBatches(next, rest) == RestBatches(start, count)
  {
    RestWraps(at, rest);
    RestAppend(start, n, rest, count, at, RestBatches(next, rest));
  }
}
