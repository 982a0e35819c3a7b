/** Uploads in bounded packets: vertex program constants, and indices inside the command stream. */
module RsxUpload {
  import opened Arith
  import opened RsxStream
  import opened RsxDraw
  import opened Words

  const VP_UPLOAD_CONST_ID := 0x1efc
  const VP_UPLOAD_CONST_X := 0x1f00

  // ----- vertex program constants

  const LANES := 0x4_0000_0000  // four for each constant a 32-bit number can name

  /** Constants are counted lane by lane: lane `place % 4` of constant `place / 4` gets `value`. */
  datatype Lane = Lane(place: nat, value: int)

  function Place(x: int): nat { x % LANES }

  /** What upload writes do: one register says with which constant to go on, 32 others take eight constants
    from there. */
  function Uploaded(writes: seq<Write>, id: int): seq<Lane> {
    if writes == [] then []
    else UploadedBy(writes[0], id) + Uploaded(writes[1..], NextId(writes[0], id))
  }

  function NextId(w: Write, id: int): int {
    if w.reg == VP_UPLOAD_CONST_ID then w.value else id
  }

  function UploadedBy(w: Write, id: int): seq<Lane> {
    if VP_UPLOAD_CONST_X <= w.reg < VP_UPLOAD_CONST_X + 0x80
    then [Lane(Place(4 * id + (w.reg - VP_UPLOAD_CONST_X) / 4), w.value)] else []
  }

  /** `data` in consecutive lanes. */
  function Lanes(place: int, data: seq<int>): seq<Lane> {
    seq(|data|, j requires 0 <= j < |data| => Lane(Place(place + j), data[j]))
  }

  lemma LanesAppend(place: int, a: seq<int>, b: seq<int>)
    ensures Lanes(place, a) + Lanes(place + |a|, b) == Lanes(place, a + b)
  {
    var front, back, whole := Lanes(place, a), Lanes(place + |a|, b), Lanes(place, a + b);
    assert forall j | 0 <= j < |b| :: back[j] == whole[|a| + j];
  }

  lemma PlaceWrap(id: int, j: int)
    ensures Place(4 * Wrap(id) + j) == Place(4 * id + j)
  {
    var q, w := id / TWO_32, Wrap(id);
    assert id == q * TWO_32 + w;
    var p, r := (4 * w + j) / LANES, (4 * w + j) % LANES;
    assert 4 * w + j == p * LANES + r;
    DivModUnique(4 * id + j, LANES, q + p, r);
  }

  lemma PlaceWraps(id: int, data: seq<int>)
    ensures Lanes(4 * Wrap(id), data) == Lanes(4 * id, data)
  {
    forall j | 0 <= j < |data| ensures Lanes(4 * Wrap(id), data)[j] == Lanes(4 * id, data)[j] {
      PlaceWrap(id, j);
    }
  }

  /** One packet: with which constant to go on, and up to 32 values. */
  function UploadPacket(id: int, data: seq<int>): seq<Write> {
    [Write(0, VP_UPLOAD_CONST_ID, id)] + LaneWrites(data, 0)
  }

  function LaneWrites(data: seq<int>, k: nat): seq<Write>
    requires k <= |data|
    ensures |LaneWrites(data, k)| == |data| - k
    decreases |data| - k
  {
    if k == |data| then [] else [Write(0, VP_UPLOAD_CONST_X + 4 * k, data[k])] + LaneWrites(data, k + 1)
  }

  lemma {:induction false} LanesDecode(data: seq<int>, k: nat, id: int, rest: seq<Write>)
    requires k <= |data| <= 32
    ensures Uploaded(LaneWrites(data, k) + rest, id) == Lanes(4 * id + k, data[k..]) + Uploaded(rest, id)
    decreases |data| - k
  {
    if k == |data| {
      assert LaneWrites(data, k) + rest == rest && Lanes(4 * id + k, data[k..]) == [];
      assert [] + Uploaded(rest, id) == Uploaded(rest, id);
    } else {
      var w, tail := Write(0, VP_UPLOAD_CONST_X + 4 * k, data[k]), LaneWrites(data, k + 1) + rest;
      UploadedStep(w, tail, id, LaneWrites(data, k) + rest);
      LanesDecode(data, k + 1, id, rest);
      assert UploadedBy(w, id) == [Lane(Place(4 * id + k), data[k])];
      LanesFirst(4 * id + k, data, k, Uploaded(rest, id));
    }
  }

  lemma LanesFirst(place: int, data: seq<int>, k: nat, more: seq<Lane>)
    requires k < |data|
    ensures Lanes(place, data[k..]) + more == [Lane(Place(place), data[k])] + (Lanes(place + 1, data[k + 1..]) + more)
  {
    var front, whole := Lanes(place + 1, data[k + 1..]), Lanes(place, data[k..]);
    assert forall j | 0 <= j < |front| :: front[j] == whole[j + 1];
    assert whole == [Lane(Place(place), data[k])] + front;
  }

  lemma UploadedStep(w: Write, tail: seq<Write>, id: int, writes: seq<Write>)
    requires writes == [w] + tail
    ensures Uploaded(writes, id) == UploadedBy(w, id) + Uploaded(tail, NextId(w, id))
  {
    assert writes[1..] == tail;
  }

  lemma PacketDecodes(id: int, data: seq<int>, rest: seq<Write>, before: int)
    requires |data| <= 32
    ensures Uploaded(UploadPacket(id, data) + rest, before) == Lanes(4 * id, data) + Uploaded(rest, id)
  {
    var w, tail := Write(0, VP_UPLOAD_CONST_ID, id), LaneWrites(data, 0) + rest;
    UploadedStep(w, tail, before, UploadPacket(id, data) + rest);
    LanesDecode(data, 0, id, rest);
    assert data[0..] == data;
  }

  // ----- LoadVertexProgramParameterBlock

  /** The packets for the values from place `from` on: `blocks` packets of eight constants, then a short one. */
  function BlockPackets(base: Word, value: seq<int>, from: int, end: int): seq<Write>
    requires 0 <= from <= end <= |value|
    decreases end - from
  {
    if from == end then []
    else if end - from < 32 then UploadPacket(Wrap(base + from / 4), value[from..end])
    else UploadPacket(Wrap(base + from / 4), value[from..from + 32]) + BlockPackets(base, value, from + 32, end)
  }

  lemma LanesFollow(id: int, place: int, data: seq<int>, rest: seq<int>)
    requires place == 4 * id
    ensures Lanes(4 * Wrap(id), data) + Lanes(place + |data|, rest) == Lanes(place, data + rest)
  {
    PlaceWraps(id, data);
    LanesAppend(place, data, rest);
  }

  lemma FirstBlock(base: Word, value: seq<int>, from: int, mid: int, end: int)
    requires 0 <= from < end <= |value| && mid == if end - from < 32 then end else from + 32
    ensures BlockPackets(base, value, from, end)
      == UploadPacket(Wrap(base + from / 4), value[from..mid]) + BlockPackets(base, value, mid, end)
  {
    if mid == end {
      assert BlockPackets(base, value, end, end) == [];
    }
  }

  /** Decoded, the packets put the values into consecutive constants from `base` on, whatever was selected before. */
  lemma BlocksDecode(base: Word, value: seq<int>, from: int, end: int, before: int)
    requires 0 <= from <= end <= |value| && from % 4 == 0
    ensures Uploaded(BlockPackets(base, value, from, end), before) == Lanes(4 * base + from, value[from..end])
  {
    BlocksFrom(base, value, from / 4, from, end, before);
  }

  lemma {:induction false} BlocksFrom(base: Word, value: seq<int>, q: nat, from: int, end: int, before: int)
    requires 0 <= from <= end <= |value| && from == 4 * q
    ensures Uploaded(BlockPackets(base, value, from, end), before) == Lanes(4 * base + from, value[from..end])
    decreases end - from
  {
    if from != end {
      var mid := if end - from < 32 then end else from + 32;
      if mid != end {
        BlocksFrom(base, value, q + 8, mid, end, Wrap(base + q));
      } else {
        assert value[mid..end] == [];
      }
      DivModUnique(from, 4, q, 0);
      FirstBlock(base, value, from, mid, end);
      var data, rest := value[from..mid], value[mid..end];
      BlockLoads(base + q, 4 * base + from, data, BlockPackets(base, value, mid, end), rest, before);
      assert value[from..end] == data + rest;
    }
  }

  lemma BlockLoads(id: int, place: int, data: seq<int>, packets: seq<Write>, rest: seq<int>, before: int)
    requires |data| <= 32 && place == 4 * id && Uploaded(packets, Wrap(id)) == Lanes(place + |data|, rest)
    ensures Uploaded(UploadPacket(Wrap(id), data) + packets, before) == Lanes(place, data + rest)
  {
    PacketDecodes(Wrap(id), data, packets, before);
    LanesFollow(id, place, data, rest);
  }

  /** The upload delivers all the values in their places exactly when their number fits 32 bits; beyond 2^30
    constants only the excess is loaded. */
  lemma ParameterBlockLoads(base: Word, count: Word, value: seq<int>, before: int)
    requires |value| == 4 * count
    ensures 0 <= Wrap(count * 4) <= |value|
    ensures Uploaded(BlockPackets(base, value, 0, Wrap(count * 4)), before) == Lanes(4 * base, value)
      <==> count < 0x4000_0000
  {
    var lanes := Wrap(count * 4);
    if count < 0x4000_0000 {
      DivModUnique(count * 4, TWO_32, 0, count * 4);
      assert value[0..lanes] == value;
    }
    BlocksDecode(base, value, 0, lanes, before);
    assert |Lanes(4 * base, value[0..lanes])| == lanes && |Lanes(4 * base, value)| == 4 * count;
  }

  lemma {:induction false} LaneAt(data: seq<int>, k: nat, j: nat)
    requires k + j < |data|
    ensures LaneWrites(data, k)[j] == Write(0, VP_UPLOAD_CONST_X + 4 * (k + j), data[k + j])
    decreases j
  {
    if j > 0 {
      LaneAt(data, k + 1, j - 1);
    }
  }

  lemma EmitsUpload(before: seq<int>, after: seq<int>, id: Word, data: seq<int>)
    requires |data| <= 32 && after == before + [Method(VP_UPLOAD_CONST_ID, |data| + 1)] + ([id] + data)
    ensures Emits(before, after, UploadPacket(id, data))
  {
    var all := [id] + data;
    var reg: Word := VP_UPLOAD_CONST_ID;
    EmitsMethod(before, after, reg, all);
    var writes := seq(|all|, i requires 0 <= i < |all| => Write(0, reg + 4 * i, all[i]));
    forall i | 0 <= i < |all| ensures writes[i] == UploadPacket(id, data)[i] {
      if i > 0 {
        LaneAt(data, 0, i - 1);
      }
    }
    assert writes == UploadPacket(id, data);
  }

  /** RSX_MEMCPY of `n` words. */
  method CopyWords(context: Context, value: seq<Word>, from: int, n: int)
    requires 0 <= from && 0 <= n && from + n <= |value|
    modifies context`words
    ensures context.words == old(context.words) + value[from..from + n]
  {
    for i := 0 to n
      invariant context.words == old(context.words) + value[from..from + i]
    {
      context.Put(value[from + i]);
    }
  }

  method PutUpload(context: Context, id: Word, value: seq<Word>, from: int, n: Word)
    requires n <= 32 && 0 <= from && from + n <= |value|
    modifies context`words
    ensures Emits(old(context.words), context.words, UploadPacket(id, value[from..from + n]))
    ensures |context.words| == |old(context.words)| + n + 2
  {
    context.Put(Method(VP_UPLOAD_CONST_ID, n + 1));
    context.Put(id);
    CopyWords(context, value, from, n);
    ghost var data := value[from..from + n];
    assert context.words == old(context.words) + [Method(VP_UPLOAD_CONST_ID, |data| + 1)] + ([id] + data);
    EmitsUpload(old(context.words), context.words, id, data);
  }

  /** How many words the packets take. */
  function BlockWords(lanes: nat): nat {
    lanes / 32 * 34 + (if lanes % 32 != 0 then 2 + lanes % 32 else 0)
  }

  method LoadVertexProgramParameterBlock(context: Context, baseConst: Word, constCnt: Word, value: seq<Word>)
    requires |value| >= 4 * constCnt
    modifies context
    ensures Wrap(constCnt * 4) <= |value|
    ensures Emits(old(context.words), context.words, BlockPackets(baseConst, value, 0, Wrap(constCnt * 4)))
    ensures |context.words| == |old(context.words)| + BlockWords(Wrap(constCnt * 4))
    ensures old(context.Filled()) ==> (context.Filled() <==> BlockWords(Wrap(constCnt * 4)) < TWO_32)
  {
    var lanes: int := Wrap(constCnt * 4);
    var blockCnt, blockRem := lanes / 32, lanes % 32;
    LanesInside(constCnt, lanes);
    var rest := if blockRem != 0 then 2 + blockRem else 0;
    var reserve := Wrap(Wrap(blockCnt * 34) + rest);
    ReserveIs(blockCnt, rest, reserve, lanes);
    context.Begin(reserve);
    PutBlocks(context, baseConst, value, blockCnt, blockRem, lanes);
  }

  lemma LanesInside(constCnt: Word, lanes: int)
    requires lanes == Wrap(constCnt * 4)
    ensures 0 <= lanes <= 4 * constCnt
  {
  }

  /** The right number of words, unless it does not fit a word. */
  lemma ReserveIs(full: nat, rest: nat, reserve: Word, lanes: nat)
    requires full == lanes / 32 && rest == if lanes % 32 != 0 then 2 + lanes % 32 else 0
    requires reserve == Wrap(Wrap(full * 34) + rest)
    ensures reserve == BlockWords(lanes) <==> BlockWords(lanes) < TWO_32
  {
    WrapAdds(full * 34, rest);
    WrapSame(full * 34 + rest);
  }

  lemma WrapSame(n: nat)
    ensures Wrap(n) == n <==> n < TWO_32
  {
  }

  method PutBlocks(context: Context, baseConst: Word, value: seq<Word>, blockCnt: Word, blockRem: Word,
                   ghost lanes: Word)
    requires lanes == 32 * blockCnt + blockRem <= |value| && blockRem < 32
    modifies context`words
    ensures Emits(old(context.words), context.words, BlockPackets(baseConst, value, 0, lanes))
    ensures |context.words| == |old(context.words)| + BlockWords(lanes)
  {
    ghost var w0 := context.words;
    var at; ghost var done;
    at, done := PutFullBlocks(context, baseConst, value, blockCnt, lanes);
    if blockRem != 0 {
      var loadAt := Wrap(baseConst + blockCnt * 8);
      assert at / 4 == blockCnt * 8;
      done := PutBlock(context, baseConst, loadAt, value, at, at + blockRem, w0, done, lanes);
    }
    BlockWordsOf(blockCnt, blockRem, lanes);
    AllLoaded(w0, context.words, done, baseConst, value, lanes);
  }

  lemma BlockWordsOf(full: nat, rem: nat, lanes: nat)
    requires rem < 32 && lanes == 32 * full + rem
    ensures BlockWords(lanes) == 34 * full + if rem != 0 then 2 + rem else 0
  {
    DivModUnique(lanes, 32, full, rem);
  }

  method PutFullBlocks(context: Context, baseConst: Word, value: seq<Word>, blockCnt: Word, ghost lanes: Word)
    returns (at: int, ghost done: seq<Write>)
    requires 32 * blockCnt <= lanes <= |value|
    modifies context`words
    ensures at == 32 * blockCnt && Loaded(old(context.words), context.words, done, baseConst, value, at, lanes)
    ensures |context.words| == |old(context.words)| + 34 * blockCnt
  {
    ghost var w0 := context.words;
    at, done := 0, [];
    NoBlocks(w0, baseConst, value, lanes);
    for i := 0 to blockCnt
      invariant at == 32 * i && Loaded(w0, context.words, done, baseConst, value, at, lanes)
      invariant |context.words| == |w0| + 34 * i
    {
      at, done := PutFullBlock(context, baseConst, value, i, at, w0, done, lanes);
    }
  }

  method PutFullBlock(context: Context, baseConst: Word, value: seq<Word>, i: nat, at: int, ghost w0: seq<int>,
                      ghost done: seq<Write>, ghost lanes: Word)
    returns (at': int, ghost more: seq<Write>)
    requires at == 32 * i && at + 32 <= lanes && Loaded(w0, context.words, done, baseConst, value, at, lanes)
    modifies context`words
    ensures at' == at + 32 && Loaded(w0, context.words, more, baseConst, value, at', lanes)
    ensures |context.words| == |old(context.words)| + 34
  {
    assert at / 4 == i * 8;
    var loadAt := Wrap(baseConst + i * 8);
    at' := at + 32;
    more := PutBlock(context, baseConst, loadAt, value, at, at', w0, done, lanes);
  }

  /** `done` has been emitted, and is what there is to emit up to the value `from`. */
  ghost predicate Loaded(w0: seq<int>, w: seq<int>, done: seq<Write>, base: Word, value: seq<int>, from: int,
                         lanes: int) {
    && 0 <= from <= lanes <= |value| && Emits(w0, w, done)
    && done + BlockPackets(base, value, from, lanes) == BlockPackets(base, value, 0, lanes)
  }

  lemma NoBlocks(w0: seq<int>, base: Word, value: seq<int>, lanes: int)
    requires 0 <= lanes <= |value|
    ensures Loaded(w0, w0, [], base, value, 0, lanes)
  {
    EmitsNothing(w0);
    assert [] + BlockPackets(base, value, 0, lanes) == BlockPackets(base, value, 0, lanes);
  }

  lemma AllLoaded(w0: seq<int>, w: seq<int>, done: seq<Write>, base: Word, value: seq<int>, lanes: int)
    requires Loaded(w0, w, done, base, value, lanes, lanes)
    ensures Emits(w0, w, BlockPackets(base, value, 0, lanes))
  {
    assert done + [] == done;
  }

  /** The packet for the values `from` to `mid`. */
  method PutBlock(context: Context, ghost base: Word, loadAt: Word, value: seq<Word>, from: int, mid: int,
                  ghost w0: seq<int>, ghost done: seq<Write>, ghost lanes: int)
    returns (ghost more: seq<Write>)
    requires from < lanes && mid == (if lanes - from < 32 then lanes else from + 32)
    requires loadAt == Wrap(base + from / 4) && Loaded(w0, context.words, done, base, value, from, lanes)
    modifies context`words
    ensures Loaded(w0, context.words, more, base, value, mid, lanes)
    ensures |context.words| == |old(context.words)| + (mid - from) + 2
  {
    ghost var w := context.words;
    PutUpload(context, loadAt, value, from, mid - from);
    more := NextBlock(w0, w, context.words, done, base, value, from, mid, lanes);
  }

  lemma NextBlock(w0: seq<int>, w: seq<int>, w1: seq<int>, done: seq<Write>, base: Word, value: seq<int>,
                  from: int, mid: int, lanes: int)
    returns (more: seq<Write>)
    requires 0 <= from < lanes <= |value| && mid == if lanes - from < 32 then lanes else from + 32
    requires Emits(w0, w, done) && Emits(w, w1, UploadPacket(Wrap(base + from / 4), value[from..mid]))
    requires done + BlockPackets(base, value, from, lanes) == BlockPackets(base, value, 0, lanes)
    ensures Emits(w0, w1, more) && more + BlockPackets(base, value, mid, lanes) == BlockPackets(base, value, 0, lanes)
  {
    var packet, rest := UploadPacket(Wrap(base + from / 4), value[from..mid]), BlockPackets(base, value, mid, lanes);
    more := done + packet;
    EmitsThen(w0, w, w1, done, packet);
    assert BlockPackets(base, value, from, lanes) == packet + rest;
    Regroup(done, packet, rest);
  }
}
