/** Indices inside the command stream: `DrawInlineIndexArray16` sends them in pairs. */
module RsxInline {
  import opened Arith
  import Bits
  import opened RsxStream
  import opened RsxDraw
  import opened RsxIndex

  const VB_ELEMENT_U16 := 0x180c
  const VB_ELEMENT_U32 := 0x1810

  type Short = x: int | 0 <= x < 0x1_0000

  /** The indices that the writes draw, in order. */
  function Elements(writes: seq<Write>): seq<int> {
    if writes == [] then [] else ElementsOf(writes[0]) + Elements(writes[1..])
  }

  function ElementsOf(w: Write): seq<int> {
    if w.reg == VB_ELEMENT_U32 then [w.value]
    else if w.reg == VB_ELEMENT_U16 then [w.value % 0x1_0000, w.value / 0x1_0000]
    else []
  }

  lemma {:induction false} ElementsAppend(a: seq<Write>, b: seq<Write>)
    ensures Elements(a + b) == Elements(a) + Elements(b)
  {
    if a == [] {
      assert a + b == b && [] + Elements(b) == Elements(b);
    } else {
      ElementsAppend(a[1..], b);
      assert (a + b)[1..] == a[1..] + b;
      Grouped(ElementsOf(a[0]), Elements(a[1..]), Elements(b));
    }
  }

  lemma Grouped(a: seq<int>, b: seq<int>, c: seq<int>)
    ensures a + b + c == a + (b + c)
  {
  }

  /** The word of two indices, the first one in the low half. */
  function Pair(low: Short, high: Short): Word { Or32(low, Shl(high, 16)) }

  /** The words of the `n` pairs from place `from` on. */
  function Pairs(data: seq<Short>, from: int, n: nat): seq<Word>
    requires 0 <= from && from + 2 * n <= |data|
  {
    seq(n, i requires 0 <= i < n => Pair(data[from + 2 * i], data[from + 2 * i + 1]))
  }

  lemma PairDecodes(low: Short, high: Short)
    ensures Pair(low, high) % 0x1_0000 == low && Pair(low, high) / 0x1_0000 == high
  {
    Bits.PowersOfTwo();
    OrFields(high, low, 16);
    DivModUnique(high * 0x1_0000 + low, 0x1_0000, high, low);
  }

  lemma PairsAppend(data: seq<Short>, from: int, n: nat, m: nat, at: int)
    requires 0 <= from && at == from + 2 * n && at + 2 * m <= |data|
    ensures Pairs(data, from, n) + Pairs(data, at, m) == Pairs(data, from, n + m)
  {
    var front, back, whole := Pairs(data, from, n), Pairs(data, at, m), Pairs(data, from, n + m);
    forall i | 0 <= i < n ensures front[i] == whole[i] {
      PairsAt(data, from, n, i, from + 2 * i);
      PairsAt(data, from, n + m, i, from + 2 * i);
    }
    forall i | 0 <= i < m ensures back[i] == whole[n + i] {
      PairsAt(data, at, m, i, at + 2 * i);
      PairsAt(data, from, n + m, n + i, at + 2 * i);
    }
    Joined(front, back, whole);
  }

  lemma Joined(front: seq<Word>, back: seq<Word>, whole: seq<Word>)
    requires |whole| == |front| + |back| && forall i | 0 <= i < |front| :: front[i] == whole[i]
    requires forall i | 0 <= i < |back| :: back[i] == whole[|front| + i]
    ensures front + back == whole
  {
  }

  lemma NextPair(data: seq<Short>, from: int, n: nat, i: int)
    requires 0 <= from && i == from + 2 * n && i + 2 <= |data|
    ensures Pairs(data, from, n) + [Pair(data[i], data[i + 1])] == Pairs(data, from, n + 1)
  {
    var front, whole := Pairs(data, from, n), Pairs(data, from, n + 1);
    forall k | 0 <= k < n ensures front[k] == whole[k] {
      PairsAt(data, from, n, k, from + 2 * k);
      PairsAt(data, from, n + 1, k, from + 2 * k);
    }
    PairsAt(data, from, n + 1, n, i);
    Joined(front, [Pair(data[i], data[i + 1])], whole);
  }

  lemma PairsAt(data: seq<Short>, from: int, n: nat, k: nat, i: int)
    requires 0 <= from && from + 2 * n <= |data| && k < n && i == from + 2 * k
    ensures Pairs(data, from, n)[k] == Pair(data[i], data[i + 1])
  {
  }

  ghost predicate Carry(words: seq<Word>, data: seq<Short>, from: int) {
    && 0 <= from && from + 2 * |words| <= |data|
    && forall i | 0 <= i < |words| ::
         words[i] % 0x1_0000 == data[from + 2 * i] && words[i] / 0x1_0000 == data[from + 2 * i + 1]
  }

  lemma {:induction false} CarriedDecode(words: seq<Word>, data: seq<Short>, from: int)
    requires Carry(words, data, from)
    ensures Elements(FixedWrites(VB_ELEMENT_U16, words)) == data[from..from + 2 * |words|]
  {
    if words == [] {
      assert FixedWrites(VB_ELEMENT_U16, words) == [];
    } else {
      var rest := words[1..];
      assert words == [words[0]] + rest;
      assert forall i | 0 <= i < |rest| :: rest[i] == words[i + 1];
      CarriedDecode(rest, data, from + 2);
      ElementsFirst(words[0], rest);
      TwoFirst(data, from, from + 2 * |words|);
    }
  }

  lemma PairsDecode(data: seq<Short>, from: int, n: nat)
    requires 0 <= from && from + 2 * n <= |data|
    ensures Elements(FixedWrites(VB_ELEMENT_U16, Pairs(data, from, n))) == data[from..from + 2 * n]
  {
    var words := Pairs(data, from, n);
    forall i | 0 <= i < n
      ensures words[i] % 0x1_0000 == data[from + 2 * i] && words[i] / 0x1_0000 == data[from + 2 * i + 1]
    {
      PairCarries(data, from, n, i, from + 2 * i);
    }
    CarriedDecode(words, data, from);
  }

  lemma PairCarries(data: seq<Short>, from: int, n: nat, i: nat, at: int)
    requires 0 <= from && from + 2 * n <= |data| && i < n && at == from + 2 * i
    ensures Pairs(data, from, n)[i] % 0x1_0000 == data[at] && Pairs(data, from, n)[i] / 0x1_0000 == data[at + 1]
  {
    PairsAt(data, from, n, i, at);
    PairDecodes(data[at], data[at + 1]);
  }

  lemma TwoFirst(data: seq<Short>, from: int, end: int)
    requires 0 <= from && from + 2 <= end <= |data|
    ensures data[from..end] == [data[from], data[from + 1]] + data[from + 2..end]
  {
  }

  lemma ElementsFirst(word: Word, rest: seq<Word>)
    ensures Elements(FixedWrites(VB_ELEMENT_U16, [word] + rest))
         == ElementsOf(Write(0, VB_ELEMENT_U16, word)) + Elements(FixedWrites(VB_ELEMENT_U16, rest))
  {
    assert FixedWrites(VB_ELEMENT_U16, [word] + rest)[1..] == FixedWrites(VB_ELEMENT_U16, rest);
  }

  // ----- what the draw writes

  function InlineLead(kind: Byte): seq<Write> {
    FixedWrites(VTX_CACHE_INVALIDATE, [0, 0, 0]) + [Write(0, BEGIN_END, kind)]
  }

  /** With an odd count, the first index goes by itself. */
  function OddWrites(data: seq<Short>): seq<Write> {
    if |data| % 2 == 1 then [Write(0, VB_ELEMENT_U32, data[0])] else []
  }

  function InlineWrites(kind: Byte, data: seq<Short>): seq<Write> {
    InlineLead(kind) + OddWrites(data) + FixedWrites(VB_ELEMENT_U16,
                                                     Pairs(data, |data| % 2, |data| / 2)) + [Write(0, BEGIN_END, 0)]
  }

  /** Decoded, the stream draws exactly the given indices, for odd and even counts. */
  lemma InlineDecodes(kind: Byte, data: seq<Short>)
    ensures Elements(InlineWrites(kind, data)) == data
  {
    var odd := |data| % 2;
    var lead, single, end := InlineLead(kind), OddWrites(data), [Write(0, BEGIN_END, 0)];
    var pairs := FixedWrites(VB_ELEMENT_U16, Pairs(data, odd, |data| / 2));
    ElementsAppend(lead + single + pairs, end);
    ElementsAppend(lead + single, pairs);
    ElementsAppend(lead, single);
    LeadDrawsNothing(kind);
    PairsDecode(data, odd, |data| / 2);
    SingleDecodes(data);
    EndDrawsNothing(end);
    Halved(data, odd, odd + 2 * (|data| / 2));
  }

  lemma Halved(data: seq<int>, odd: nat, end: nat)
    requires odd <= end == |data|
    ensures [] + data[..odd] + data[odd..end] + [] == data
  {
  }

  lemma EndDrawsNothing(end: seq<Write>)
    requires end == [Write(0, BEGIN_END, 0)]
    ensures Elements(end) == []
  {
  }

  lemma SingleDecodes(data: seq<Short>)
    ensures Elements(OddWrites(data)) == data[..|data| % 2]
  {
  }

  lemma LeadDrawsNothing(kind: Byte)
    ensures Elements(InlineLead(kind)) == []
  {
    var flush := FixedWrites(VTX_CACHE_INVALIDATE, [0, 0, 0]);
    var w := Write(0, VTX_CACHE_INVALIDATE, 0);
    assert flush == [w] + ([w] + [w]);
    ElementsAppend(flush, [Write(0, BEGIN_END, kind)]);
    ElementsAppend([w], [w] + [w]);
    ElementsAppend([w], [w]);
    assert Elements([w]) == [] && Elements([Write(0, BEGIN_END, kind)]) == [];
  }

  // ----- DrawInlineIndexArray16

  method PairLoop(context: Context, data: seq<Short>, from: int, n: Word)
    requires 0 <= from && from + 2 * n <= |data|
    modifies context`words
    ensures context.words == old(context.words) + Pairs(data, from, n)
  {
    var at := from;
    for j := 0 to n
      invariant at == from + 2 * j
      invariant context.words == old(context.words) + Pairs(data, from, j)
    {
      context.Put(Pair(data[at], data[at + 1]));
      NextPair(data, from, j, at);
      at := at + 2;
    }
  }

  method PairPacket(context: Context, reg: Word, data: seq<Short>, from: int, n: Word)
    requires n <= MAX_METHOD_COUNT && 0 <= from && from + 2 * n <= |data| && reg < 0x2000 && reg % 4 == 0
    modifies context
    ensures Emits(old(context.words), context.words, FixedWrites(reg, Pairs(data, from, n)))
    ensures old(context.Filled()) ==> context.Filled()
  {
    ghost var w0 := context.words;
    context.Begin(1 + n);
    PutHeader(context, reg, n);
    ghost var w1 := context.words;
    PairLoop(context, data, from, n);
    EmitsFixedWrites(w0, w1, context.words, reg, n, Pairs(data, from, n));
  }

  lemma MorePairs(a: seq<int>, b: seq<int>, c: seq<int>, reg: nat, data: seq<Short>, from: int, at: int, n: nat, m: nat)
    requires 0 <= from && from + 2 * (n + m) <= |data| && at == from + 2 * n
    requires Emits(a, b, FixedWrites(reg, Pairs(data, from, n)))
    requires Emits(b, c, FixedWrites(reg, Pairs(data, at, m)))
    ensures Emits(a, c, FixedWrites(reg, Pairs(data, from, n + m)))
  {
    var x, y := Pairs(data, from, n), Pairs(data, at, m);
    PairsAppend(data, from, n, m, at);
    EmitsThen(a, b, c, FixedWrites(reg, x), FixedWrites(reg, y));
    FixedWritesAppend(reg, x, y);
  }

  method PairPackets(context: Context, data: seq<Short>, from: int, loops: Word, rest: Word)
    requires rest <= MAX_METHOD_COUNT && 0 <= from && from + 2 * (MAX_METHOD_COUNT * loops + rest) <= |data|
    modifies context
    ensures Emits(old(context.words), context.words,
                  FixedWrites(VB_ELEMENT_U16, Pairs(data, from, MAX_METHOD_COUNT * loops + rest)))
    ensures old(context.Filled()) ==> context.Filled()
  {
    ghost var w0 := context.words;
    var at := from;
    ghost var done: nat := 0;
    EmitsNothing(w0);
    assert FixedWrites(VB_ELEMENT_U16, Pairs(data, from, 0)) == [];
    for i := 0 to loops
      invariant done == MAX_METHOD_COUNT * i && at == from + 2 * done
      invariant Emits(w0, context.words, FixedWrites(VB_ELEMENT_U16, Pairs(data, from, done)))
      invariant old(context.Filled()) ==> context.Filled()
    {
      ghost var w := context.words;
      PairPacket(context, VB_ELEMENT_U16, data, at, MAX_METHOD_COUNT);
      MorePairs(w0, w, context.words, VB_ELEMENT_U16, data, from, at, done, MAX_METHOD_COUNT);
      at := at + 2 * MAX_METHOD_COUNT;
      done := done + MAX_METHOD_COUNT;
    }
    if rest != 0 {
      ghost var w := context.words;
      PairPacket(context, VB_ELEMENT_U16, data, at, rest);
      MorePairs(w0, w, context.words, VB_ELEMENT_U16, data, from, at, done, rest);
    }
  }

  method InlinePrologue(context: Context, kind: Byte, data: seq<Short>)
    modifies context
    ensures Emits(old(context.words), context.words, InlineLead(kind) + OddWrites(data))
    ensures old(context.Filled()) ==> context.Filled()
  {
    ghost var w0 := context.words;
    var odd: Word := |data| % 2;
    context.Begin(6 + odd * 2);
    PutThree(context, VTX_CACHE_INVALIDATE, 0, 0, 0);
    ghost var w1 := context.words;
    PutMethod(context, BEGIN_END, kind);
    ghost var flush := FixedWrites(VTX_CACHE_INVALIDATE, [0, 0, 0]);
    EmitsThen(w0, w1, context.words, flush, [Write(0, BEGIN_END, kind)]);
    ghost var w2 := context.words;
    if odd == 1 {
      PutFixed(context, VB_ELEMENT_U32, data[0]);
      EmitsThen(w0, w2, context.words, InlineLead(kind), [Write(0, VB_ELEMENT_U32, data[0])]);
    } else {
      assert InlineLead(kind) + [] == InlineLead(kind);
    }
  }

  method PutFixed(context: Context, reg: Word, value: Word)
    requires reg < 0x2000 && reg % 4 == 0
    modifies context`words
    ensures Emits(old(context.words), context.words, [Write(0, reg, value)])
    ensures |context.words| == |old(context.words)| + 2
  {
    var header := FixedMethod(reg, 1);
    context.Put(header);
    context.Put(value);
    ghost var data := [value];
    assert context.words == old(context.words) + [header] + data;
    EmitsFixed(old(context.words), context.words, reg, data);
    assert seq(|data|, i requires 0 <= i < |data| => Write(0, reg, data[i])) == [Write(0, reg, value)];
  }

  method DrawInlineIndexArray16(context: Context, kind: Byte, start: Word, count: Word, indices: seq<Short>)
    requires start + count <= |indices|
    modifies context
    ensures Emits(old(context.words), context.words, InlineWrites(kind, indices[start..start + count]))
    ensures old(context.Filled()) ==> context.Filled()
  {
    ghost var w0 := context.words;
    var data := indices[start..start + count];
    var odd := count % 2;
    var pairs: int := (count - odd) / 2;
    InlinePrologue(context, kind, data);
    ghost var w1 := context.words;
    PairPackets(context, data, odd, pairs / MAX_METHOD_COUNT, pairs % MAX_METHOD_COUNT);
    ghost var w2 := context.words;
    EndDraw(context);
    EmitsThree(w0, w1, w2, context.words, InlineLead(kind) + OddWrites(data),
               FixedWrites(VB_ELEMENT_U16, Pairs(data, odd, pairs)), [Write(0, BEGIN_END, 0)]);
  }
}
