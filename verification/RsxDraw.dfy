/** Drawing from vertex and index arrays: one draw of any length is cut into batches of at most 256 elements,
  and the batches into packets of at most MAX_METHOD_COUNT words. */
module RsxDraw {
  import opened Arith
  import opened RsxStream
  import opened Words

  const VTX_CACHE_INVALIDATE := 0x1714
  const BEGIN_END := 0x1808
  const VB_VERTEX_BATCH := 0x1814
  const VB_INDEX_BATCH_OFFSET := 0x181c
  const VB_INDEX_BATCH_DRAW := 0x1824
  const GCM_INDEX_TYPE_32B := 0

  type Byte = x: int | 0 <= x < 256

  function Wrap(x: int): Word { x % TWO_32 }

  // ----- what a batch word means

  datatype Batch = Batch(start: nat, length: nat)

  /** START in the low 24 bits, COUNT - 1 in the high 8. */
  function BatchOf(word: Word): Batch { Batch(word % 0x100_0000, word / 0x100_0000 + 1) }

  function Batches(words: seq<Word>): (bs: seq<Batch>)
    ensures |bs| == |words| && forall i | 0 <= i < |words| :: bs[i] == BatchOf(words[i])
  {
    seq(|words|, i requires 0 <= i < |words| => BatchOf(words[i]))
  }

  /** The batches draw `from`, `from + 1`, ... up to `to`, in this order, each element once. */
  predicate Covers(bs: seq<Batch>, from: nat, to: nat) {
    if bs == [] then from == to
    else bs[0].start == from && bs[0].length >= 1 && Covers(bs[1..], from + bs[0].length, to)
  }

  function Total(bs: seq<Batch>): nat {
    if bs == [] then 0 else bs[0].length + Total(bs[1..])
  }

  lemma {:induction false} CoversAppend(a: seq<Batch>, b: seq<Batch>, from: nat, to: nat)
    ensures Covers(a + b, from, to) <==> Covers(a, from, from + Total(a)) && Covers(b, from + Total(a), to)
  {
    if a == [] {
      assert a + b == b;
    } else {
      assert (a + b)[1..] == a[1..] + b;
      CoversAppend(a[1..], b, from + a[0].length, to);
    }
  }

  lemma BatchesAppend(a: seq<Word>, b: seq<Word>)
    ensures Batches(a + b) == Batches(a) + Batches(b)
  {
  }

  /** A draw in batches can only reach as far as the start field does. */
  lemma {:induction false} CoverReach(bs: seq<Batch>, from: nat, to: nat)
    requires Covers(bs, from, to) && bs != []
    requires forall i | 0 <= i < |bs| :: bs[i].start < 0x100_0000 && bs[i].length <= 256
    ensures from < 0x100_0000 && from < to < 0x100_0000 + 256
  {
    if |bs| > 1 {
      CoverReach(bs[1..], from + bs[0].length, to);
    }
  }

  lemma BatchBounds(words: seq<Word>)
    ensures forall i | 0 <= i < |words| :: Batches(words)[i].start < 0x100_0000 && 1 <= Batches(words)[i].length <= 256
  {
  }

  // ----- the words of the batches

  /** `n` full batches from `start` on. */
  function FullBatches(start: int, n: nat): seq<Word> {
    seq(n, i => Or32(0xff00_0000, Wrap(start + 256 * i)))
  }

  /** Any batch word, built from its count field and its start. */
  lemma BatchWord(field: Word, start: Word)
    requires field < 256
    ensures start < 0x100_0000 ==> BatchOf(Or32(Shl(field, 24), start)) == Batch(start, field + 1)
    ensures Shl(field, 24) == field * 0x100_0000 <= Or32(Shl(field, 24), start)
  {
    Shifts();
    DivModUnique(field * 0x100_0000, TWO_32, 0, field * 0x100_0000);
    if start < 0x100_0000 {
      OrFields(field, start, 24);
      DivModUnique(field * 0x100_0000 + start, 0x100_0000, field, start);
    }
  }

  lemma FullBatch(start: Word)
    ensures BatchOf(Or32(0xff00_0000, start)).length == 256
    ensures start < 0x100_0000 ==> BatchOf(Or32(0xff00_0000, start)).start == start
  {
    BatchWord(255, start);
  }

  lemma FullStep(start: int, n: nat)
    requires n > 0
    ensures Batches(FullBatches(start, n)) ==
      [BatchOf(Or32(0xff00_0000, Wrap(start)))] + Batches(FullBatches(start + 256, n - 1))
  {
    assert forall i | 0 <= i < n - 1 :: start + 256 + 256 * i == start + 256 * (i + 1);
    assert FullBatches(start, n) == [Or32(0xff00_0000, Wrap(start))] + FullBatches(start + 256, n - 1);
  }

  lemma {:induction false} FullTotal(start: int, n: nat)
    ensures Total(Batches(FullBatches(start, n))) == 256 * n
    decreases n
  {
    if n > 0 {
      var rest := Batches(FullBatches(start + 256, n - 1));
      FullStep(start, n);
      FullBatch(Wrap(start));
      FullTotal(start + 256, n - 1);
      assert Batches(FullBatches(start, n))[1..] == rest;
    }
  }

  lemma {:induction false} FullCovers(start: nat, n: nat)
    requires n > 0 ==> start + 256 * (n - 1) < 0x100_0000
    ensures Covers(Batches(FullBatches(start, n)), start, start + 256 * n)
    decreases n
  {
    if n > 0 {
      DivModUnique(start, TWO_32, 0, start);
      FullStep(start, n);
      FullBatch(start);
      FullCovers(start + 256, n - 1);
      HeadThenRest(Batches(FullBatches(start, n)), Batches(FullBatches(start + 256, n - 1)), start, 256,
                   start + 256 * n);
    }
  }

  lemma HeadThenRest(bs: seq<Batch>, rest: seq<Batch>, from: nat, length: nat, to: nat)
    requires bs == [Batch(from, length)] + rest && length >= 1 && Covers(rest, from + length, to)
    ensures Covers(bs, from, to)
  {
    assert bs[1..] == rest;
  }

  // ----- vertex arrays

  /** The batch words of a vertex draw: a head of 1 to 256 vertices, then full batches. */
  function VertexBatches(start: Word, count: Word): seq<Word> {
    var less := Wrap(count - 1);
    HeadAndFull(start, less % 256, less / 256)
  }

  function HeadAndFull(start: Word, low: Word, full: Word): seq<Word> {
    [Or32(Shl(low, 24), start)] + FullBatches(start + low + 1, full)
  }

  /** The decoded batches are the one draw that was asked for exactly when there is anything to draw and the
    last batch still starts within 24 bits. */
  lemma VertexArrayCovers(start: Word, count: Word)
    ensures Covers(Batches(VertexBatches(start, count)), start, start + count)
      <==> count >= 1 && (if count <= 256 then start else start + count - 256) < 0x100_0000
  {
    var bs := Batches(VertexBatches(start, count));
    if Covers(bs, start, start + count) {
      BatchBounds(VertexBatches(start, count));
      CoverReach(bs, start, start + count);
    }
    if count >= 1 && (if count <= 256 then start else start + count - 256) < 0x100_0000 {
      VertexCounts(count);
      HeadAndFullCover(start, Wrap(count - 1) % 256, Wrap(count - 1) / 256);
    }
  }

  lemma HeadAndFullCover(start: Word, low: Word, full: Word)
    requires low < 256 && start < 0x100_0000 && (full > 0 ==> start + low + 1 + 256 * (full - 1) < 0x100_0000)
    ensures Covers(Batches(HeadAndFull(start, low, full)), start, start + low + 1 + 256 * full)
  {
    var head, rest := [Or32(Shl(low, 24), start)], FullBatches(start + low + 1, full);
    BatchesAppend(head, rest);
    BatchWord(low, start);
    FullCovers(start + low + 1, full);
    assert Batches(head) == [Batch(start, low + 1)];
    HeadThenRest(Batches(head + rest), Batches(rest), start, low + 1, start + low + 1 + 256 * full);
  }

  lemma VertexCounts(count: Word)
    requires count >= 1
    ensures var less := Wrap(count - 1);
      less == count - 1 && count == less % 256 + 1 + 256 * (less / 256) && (count <= 256 <==> less / 256 == 0)
  {
  }

  // ----- packets of batches

  function FixedWrites(reg: nat, data: seq<int>): seq<Write> {
    seq(|data|, i requires 0 <= i < |data| => Write(0, reg, data[i]))
  }

  lemma FixedWritesAppend(reg: nat, a: seq<int>, b: seq<int>)
    ensures FixedWrites(reg, a) + FixedWrites(reg, b) == FixedWrites(reg, a + b)
  {
  }

  lemma FullAppend(start: int, n: nat, m: nat)
    ensures FullBatches(start, n) + FullBatches(start + 256 * n, m) == FullBatches(start, n + m)
  {
    var whole := FullBatches(start, n + m);
    assert forall i | 0 <= i < m :: start + 256 * n + 256 * i == start + 256 * (n + i);
    assert FullBatches(start + 256 * n, m) == whole[n..];
    assert FullBatches(start, n) == whole[..n];
  }

  lemma OneMore(start: int, n: nat)
    ensures FullBatches(start, n) + [Or32(0xff00_0000, Wrap(start + 256 * n))] == FullBatches(start, n + 1)
  {
    FullAppend(start, n, 1);
    assert FullBatches(start + 256 * n, 1) == [Or32(0xff00_0000, Wrap(start + 256 * n))];
  }

  lemma FullWraps(start: int, n: nat)
    ensures FullBatches(Wrap(start), n) == FullBatches(start, n)
  {
    forall i | 0 <= i < n ensures Wrap(Wrap(start) + 256 * i) == Wrap(start + 256 * i) {
      WrapAdds(start, 256 * i);
    }
  }

  lemma WrapAdds(a: int, b: int)
    ensures Wrap(Wrap(a) + b) == Wrap(a + b)
  {
    var q := a / TWO_32;
    var p, r := (Wrap(a) + b) / TWO_32, (Wrap(a) + b) % TWO_32;
    DivModUnique(a + b, TWO_32, p + q, r);
  }

  /** One packet of `n` full batches: the header and the loop that both draws share. */
  method FullPacket(context: Context, reg: Word, start: Word, n: Word) returns (start': Word)
    requires n <= MAX_METHOD_COUNT && reg < 0x2000 && reg % 4 == 0
    modifies context
    ensures Emits(old(context.words), context.words, FixedWrites(reg, FullBatches(start, n)))
    ensures start' == Wrap(start + 256 * n)
    ensures old(context.Filled()) ==> context.Filled()
  {
    context.Begin(1 + n);
    context.Put(FixedMethod(reg, n));
    start' := FullLoop(context, start, n);
    ghost var data := FullBatches(start, n);
    EmitsFixed(old(context.words), context.words, reg, data);
    assert FixedWrites(reg, data) == seq(|data|, i requires 0 <= i < |data| => Write(0, reg, data[i]));
  }

  method FullLoop(context: Context, start: Word, n: Word) returns (start': Word)
    modifies context`words
    ensures context.words == old(context.words) + FullBatches(start, n)
    ensures start' == Wrap(start + 256 * n)
  {
    start' := start;
    for j := 0 to n
      invariant context.words == old(context.words) + FullBatches(start, j)
      invariant start' == Wrap(start + 256 * j)
    {
      context.Put(Or32(0xff00_0000, start'));
      OneMore(start, j);
      WrapAdds(start + 256 * j, 0x100);
      start' := Wrap(start' + 0x100);
    }
  }

  lemma EmitsOne(before: seq<int>, after: seq<int>, reg: Word, value: Word)
    requires reg < 0x2000 && reg % 4 == 0 && after == before + [Method(reg, 1), value]
    ensures Emits(before, after, [Write(0, reg, value)])
  {
    assert [Method(reg, 1), value] == [Method(reg, 1)] + [value];
    EmitsMethod(before, after, reg, [value]);
    assert seq(1, i requires 0 <= i < 1 => Write(0, reg + 4 * i, [value][i])) == [Write(0, reg, value)];
  }

  method PutMethod(context: Context, reg: Word, value: Word)
    requires reg < 0x2000 && reg % 4 == 0
    modifies context`words
    ensures Emits(old(context.words), context.words, [Write(0, reg, value)])
    ensures |context.words| == |old(context.words)| + 2
  {
    context.Put(Method(reg, 1));
    context.Put(value);
    EmitsOne(old(context.words), context.words, reg, value);
  }

  /** More full batches after some that have been emitted already. */
  lemma MoreBatches(a: seq<int>, b: seq<int>, c: seq<int>, reg: nat, start: int, n: nat, m: nat)
    requires Emits(a, b, FixedWrites(reg, FullBatches(start, n)))
    requires Emits(b, c, FixedWrites(reg, FullBatches(Wrap(start + 256 * n), m)))
    ensures Emits(a, c, FixedWrites(reg, FullBatches(start, n + m)))
  {
    FullWraps(start + 256 * n, m);
    EmitsThen(a, b, c, FixedWrites(reg, FullBatches(start, n)), FixedWrites(reg, FullBatches(start + 256 * n, m)));
    FixedWritesAppend(reg, FullBatches(start, n), FullBatches(start + 256 * n, m));
    FullAppend(start, n, m);
  }

  // ----- DrawVertexArray

  function VertexWrites(kind: Word, start: Word, count: Word): seq<Write> {
    FixedWrites(VTX_CACHE_INVALIDATE, [0, 0, 0]) + [Write(0, BEGIN_END, kind)]
    + FixedWrites(VB_VERTEX_BATCH, VertexBatches(start, count)) + [Write(0, BEGIN_END, 0)]
  }

  method PutThree(context: Context, reg: Word, a: Word, b: Word, c: Word)
    requires reg < 0x2000 && reg % 4 == 0
    modifies context`words
    ensures Emits(old(context.words), context.words, FixedWrites(reg, [a, b, c]))
    ensures |context.words| == |old(context.words)| + 4
  {
    var header := FixedMethod(reg, 3);
    context.Put(header);
    context.Put(a);
    context.Put(b);
    context.Put(c);
    ghost var data := [a, b, c];
    assert context.words == old(context.words) + [header] + data;
    EmitsFixed(old(context.words), context.words, reg, data);
    assert FixedWrites(reg, data) == seq(|data|, i requires 0 <= i < |data| => Write(0, reg, data[i]));
  }

  method VertexPrologue(context: Context, kind: Word, head: Word)
    modifies context
    ensures Emits(old(context.words), context.words,
                  FixedWrites(VTX_CACHE_INVALIDATE,
                              [0, 0, 0]) + [Write(0, BEGIN_END, kind)] + [Write(0, VB_VERTEX_BATCH, head)])
    ensures old(context.Filled()) ==> context.Filled()
  {
    ghost var w0 := context.words;
    ghost var flush := FixedWrites(VTX_CACHE_INVALIDATE, [0, 0, 0]);
    context.Begin(8);
    PutThree(context, VTX_CACHE_INVALIDATE, 0, 0, 0);
    ghost var w1 := context.words;
    PutMethod(context, BEGIN_END, kind);
    EmitsThen(w0, w1, context.words, flush, [Write(0, BEGIN_END, kind)]);
    ghost var w2 := context.words;
    PutMethod(context, VB_VERTEX_BATCH, head);
    EmitsThen(w0, w2, context.words, flush + [Write(0, BEGIN_END, kind)], [Write(0, VB_VERTEX_BATCH, head)]);
  }

  /** The packets between the prologue and the end of the draw. */
  method FullPackets(context: Context, start: Word, loops: Word, rest: Word)
    requires rest <= MAX_METHOD_COUNT
    modifies context
    ensures Emits(old(context.words), context.words,
                  FixedWrites(VB_VERTEX_BATCH, FullBatches(start, MAX_METHOD_COUNT * loops + rest)))
    ensures old(context.Filled()) ==> context.Filled()
  {
    ghost var w0 := context.words;
    var next := start;
    EmitsNothing(w0);
    assert FixedWrites(VB_VERTEX_BATCH, FullBatches(start, 0)) == [];
    for i := 0 to loops
      invariant Emits(w0, context.words, FixedWrites(VB_VERTEX_BATCH, FullBatches(start, MAX_METHOD_COUNT * i)))
      invariant next == Wrap(start + 256 * (MAX_METHOD_COUNT * i))
      invariant old(context.Filled()) ==> context.Filled()
    {
      ghost var w, done := context.words, MAX_METHOD_COUNT * i;
      WrapAdds(start + 256 * done, 256 * MAX_METHOD_COUNT);
      next := FullPacket(context, VB_VERTEX_BATCH, next, MAX_METHOD_COUNT);
      MoreBatches(w0, w, context.words, VB_VERTEX_BATCH, start, done, MAX_METHOD_COUNT);
    }
    if rest != 0 {
      ghost var w := context.words;
      next := FullPacket(context, VB_VERTEX_BATCH, next, rest);
      MoreBatches(w0, w, context.words, VB_VERTEX_BATCH, start, MAX_METHOD_COUNT * loops, rest);
    }
  }

  method EndDraw(context: Context)
    modifies context
    ensures Emits(old(context.words), context.words, [Write(0, BEGIN_END, 0)])
    ensures old(context.Filled()) ==> context.Filled()
  {
    context.Begin(2);
    PutMethod(context, BEGIN_END, 0);
  }

  method DrawVertexArray(context: Context, kind: Word, start: Word, count: Word)
    modifies context
    ensures Emits(old(context.words), context.words, VertexWrites(kind, start, count))
    ensures old(context.Filled()) ==> context.Filled()
  {
    ghost var w0 := context.words;
    var less := Wrap(count - 1);
    var low := less % 256;
    var full := less / 256;
    VertexPrologue(context, kind, Or32(Shl(low, 24), start));
    ghost var w1 := context.words;
    FullPackets(context, Wrap(start + (low + 1)), full / MAX_METHOD_COUNT, full % MAX_METHOD_COUNT);
    ghost var w2 := context.words;
    EndDraw(context);
    VertexPieces(w0, w1, w2, context.words, kind, start, low, full);
  }

  lemma VertexPieces(w0: seq<int>, w1: seq<int>, w2: seq<int>, w3: seq<int>, kind: Word, start: Word, low: Word,
                     full: Word)
    requires Emits(w0, w1, FixedWrites(VTX_CACHE_INVALIDATE, [0, 0, 0]) + [Write(0, BEGIN_END, kind)]
                           + [Write(0, VB_VERTEX_BATCH, Or32(Shl(low, 24), start))])
    requires Emits(w1, w2, FixedWrites(VB_VERTEX_BATCH, FullBatches(Wrap(start + (low + 1)), full)))
    requires Emits(w2, w3, [Write(0, BEGIN_END, 0)])
    ensures Emits(w0, w3, FixedWrites(VTX_CACHE_INVALIDATE, [0, 0, 0]) + [Write(0, BEGIN_END, kind)]
                          + FixedWrites(VB_VERTEX_BATCH, HeadAndFull(start, low, full)) + [Write(0, BEGIN_END, 0)])
  {
    var lead := FixedWrites(VTX_CACHE_INVALIDATE, [0, 0, 0]) + [Write(0, BEGIN_END, kind)];
    var head, rest := [Or32(Shl(low, 24), start)], FullBatches(start + low + 1, full);
    FullWraps(start + low + 1, full);
    assert FixedWrites(VB_VERTEX_BATCH, head) == [Write(0, VB_VERTEX_BATCH, head[0])];
    FixedWritesAppend(VB_VERTEX_BATCH, head, rest);
    EmitsThen(w0, w1, w2, lead + FixedWrites(VB_VERTEX_BATCH, head), FixedWrites(VB_VERTEX_BATCH, rest));
    Regroup(lead, FixedWrites(VB_VERTEX_BATCH, head), FixedWrites(VB_VERTEX_BATCH, rest));
    EmitsThen(w0, w2, w3, lead + FixedWrites(VB_VERTEX_BATCH, head + rest), [Write(0, BEGIN_END, 0)]);
  }
}
