/** The blit engine behind the register writes, and rectangles cut into 1024 by 1024 blocks. */
module RsxBlit {
  import opened RsxStream
  import opened Words

  const GCM_DMA_MEMORY_FRAME_BUFFER := 0xfeed_0000
  const GCM_DMA_MEMORY_HOST_BUFFER := 0xfeed_0001
  const GCM_CONTEXT_SURFACE2D := 0x3133_71c3
  const GCM_CONTEXT_SWIZZLE2D := 0x3133_7a73

  // ----- the engine

  type Registers = map<(nat, nat), int>

  /** What was in the registers when a copy was launched. The surface registers are those of channel 3 for a
    linear destination, and of channel 4 for a swizzled one. */
  datatype Blit = Blit(context: int, format: int, pitch: int, dst: int,
                       conversion: int, srcFormat: int, operation: int,
                       clipPoint: int, clipSize: int, outPoint: int, outSize: int, ratioX: int, ratioY: int,
                       inSize: int, inFormat: int, src: int, inPoint: int, memories: Memories)

  /** Where the source is read, and where the surface of the destination lies. */
  datatype Memories = Memories(src: int, dst: int)

  datatype Chip = Chip(regs: Registers, blits: seq<Blit>)

  function Get(regs: Registers, channel: nat, reg: nat): int {
    if (channel, reg) in regs then regs[(channel, reg)] else 0
  }

  function Launched(regs: Registers): Blit {
    var context := Get(regs, 6, 0x198);
    var linear := context == GCM_CONTEXT_SURFACE2D;
    Blit(context,
         Get(regs, if linear then 3 else 4, 0x300),
         if linear then Get(regs, 3, 0x304) else 0,
         if linear then Get(regs, 3, 0x30c) else Get(regs, 4, 0x304),
         Get(regs, 6, 0x2fc), Get(regs, 6, 0x300), Get(regs, 6, 0x304),
         Get(regs, 6, 0x308), Get(regs, 6, 0x30c), Get(regs, 6, 0x310), Get(regs, 6, 0x314),
         Get(regs, 6, 0x318), Get(regs, 6, 0x31c),
         Get(regs, 6, 0x400), Get(regs, 6, 0x404), Get(regs, 6, 0x408), Get(regs, 6, 0x40c),
         if linear then LinearMemories(regs) else SwizzledMemories(regs))
  }

  function LinearMemories(regs: Registers): Memories { Memories(Get(regs, 6, 0x184), Get(regs, 3, 0x188)) }
  function SwizzledMemories(regs: Registers): Memories { Memories(Get(regs, 6, 0x184), Get(regs, 4, 0x184)) }

  /** Bit 0 of a transfer's mode selects main memory for the source, bit 1 for the destination; else it is the memory
    of the chip. */
  predicate Selects(mode: int, b: Blit) {
    && b.memories.src == (if mode % 2 == 1 then GCM_DMA_MEMORY_HOST_BUFFER else GCM_DMA_MEMORY_FRAME_BUFFER)
    && b.memories.dst == (if mode / 2 % 2 == 1 then GCM_DMA_MEMORY_HOST_BUFFER else GCM_DMA_MEMORY_FRAME_BUFFER)
  }

  /** The write of the source point starts the copy. */
  predicate Launches(w: Write) {
    w.channel == 6 && w.reg == 0x40c
  }

  function Step(chip: Chip, w: Write): Chip {
    var regs := chip.regs[(w.channel, w.reg) := w.value];
    Chip(regs, if Launches(w) then chip.blits + [Launched(regs)] else chip.blits)
  }

  function Run(writes: seq<Write>, chip: Chip): Chip {
    if writes == [] then chip else Run(writes[1..], Step(chip, writes[0]))
  }

  lemma {:induction false} RunAppend(a: seq<Write>, b: seq<Write>, chip: Chip)
    ensures Run(a + b, chip) == Run(b, Run(a, chip))
  {
    if a == [] {
      assert a + b == b;
    } else {
      assert (a + b)[1..] == a[1..] + b;
      RunAppend(a[1..], b, Step(chip, a[0]));
    }
  }

  function ChannelWrites(channel: nat, reg: nat, data: seq<int>): seq<Write> {
    seq(|data|, i requires 0 <= i < |data| => Write(channel, reg + 4 * i, data[i]))
  }

  /** The registers after a packet. */
  function Stored(regs: Registers, channel: nat, reg: nat, data: seq<int>): Registers
    decreases |data|
  {
    if data == [] then regs else Stored(regs[(channel, reg) := data[0]], channel, reg + 4, data[1..])
  }

  lemma {:induction false} StoredGet(regs: Registers, channel: nat, reg: nat, data: seq<int>, c: nat, r: nat)
    ensures Get(Stored(regs, channel, reg, data), c, r) ==
      if c == channel && reg <= r < reg + 4 * |data| && (r - reg) % 4 == 0 then data[(r - reg) / 4] else Get(regs, c, r)
    decreases |data|
  {
    if data != [] {
      StoredGet(regs[(channel, reg) := data[0]], channel, reg + 4, data[1..], c, r);
    }
  }

  lemma {:induction false} RunPacket(channel: nat, reg: nat, data: seq<int>, chip: Chip)
    requires channel != 6 || reg + 4 * |data| <= 0x40c
    ensures Run(ChannelWrites(channel, reg, data), chip) == Chip(Stored(chip.regs, channel, reg, data), chip.blits)
    decreases |data|
  {
    if data != [] {
      var writes := ChannelWrites(channel, reg, data);
      assert writes[1..] == ChannelWrites(channel, reg + 4, data[1..]);
      RunPacket(channel, reg + 4, data[1..], Step(chip, writes[0]));
    }
  }

  /** The packet with the source size, format, address and point. */
  lemma RunSource(data: seq<int>, chip: Chip)
    requires |data| == 4
    ensures var regs := Stored(chip.regs, 6, 0x400, data);
      Run(ChannelWrites(6, 0x400, data), chip) == Chip(regs, chip.blits + [Launched(regs)])
  {
    var front := ChannelWrites(6, 0x400, data[..3]);
    var last := [Write(6, 0x40c, data[3])];
    assert ChannelWrites(6, 0x400, data) == front + last;
    RunAppend(front, last, chip);
    RunPacket(6, 0x400, data[..3], chip);
    var mid := Chip(Stored(chip.regs, 6, 0x400, data[..3]), chip.blits);
    StoredLast(chip.regs, 6, 0x400, data, 3);
    RunOne(last[0], mid);
  }

  lemma RunOne(w: Write, chip: Chip)
    ensures Run([w], chip) == Step(chip, w)
  {
  }

  lemma {:induction false} StoredLast(regs: Registers, channel: nat, reg: nat, data: seq<int>, n: nat)
    requires |data| == n + 1
    ensures Stored(regs, channel, reg, data) == Stored(regs, channel, reg, data[..n])[(channel, reg + 4 * n) := data[n]]
    decreases n
  {
    if n > 0 {
      StoredLast(regs[(channel, reg) := data[0]], channel, reg + 4, data[1..], n - 1);
      assert data[1..][..n - 1] == data[..n][1..];
    } else {
      assert data[1..] == [];
    }
  }

  // ----- blocks

  /** The numbers `lo`, `lo + 1`, ... below `hi`. */
  datatype Span = Span(lo: int, hi: int)

  function BlockStart(x: int): int { x - x % 1024 }

  /** The span from `from` to `end`, cut at the multiples of 1024. */
  function Cut(from: int, end: int): seq<Span>
    decreases end - from
  {
    if from >= end then []
    else
      var next := BlockStart(from) + 1024;
      var hi := if next < end then next else end;
      [Span(from, hi)] + Cut(hi, end)
  }

  datatype Tile = Tile(x: Span, y: Span)

  function Row(xs: seq<Span>, y: Span): seq<Tile> {
    seq(|xs|, i requires 0 <= i < |xs| => Tile(xs[i], y))
  }

  /** All tiles, row by row. */
  function Grid(xs: seq<Span>, ys: seq<Span>): seq<Tile> {
    if ys == [] then [] else Row(xs, ys[0]) + Grid(xs, ys[1..])
  }

  predicate InSpan(s: Span, p: int) { s.lo <= p < s.hi }
  predicate InTile(t: Tile, x: int, y: int) { InSpan(t.x, x) && InSpan(t.y, y) }

  /** How many tiles hold the pixel. */
  function Hits(tiles: seq<Tile>, x: int, y: int): nat {
    if tiles == [] then 0 else (if InTile(tiles[0], x, y) then 1 else 0) + Hits(tiles[1..], x, y)
  }

  function SpanHits(spans: seq<Span>, p: int): nat {
    if spans == [] then 0 else (if InSpan(spans[0], p) then 1 else 0) + SpanHits(spans[1..], p)
  }

  lemma {:induction false} HitsAppend(a: seq<Tile>, b: seq<Tile>, x: int, y: int)
    ensures Hits(a + b, x, y) == Hits(a, x, y) + Hits(b, x, y)
  {
    if a == [] {
      assert a + b == b;
    } else {
      assert (a + b)[1..] == a[1..] + b;
      HitsAppend(a[1..], b, x, y);
    }
  }

  lemma {:induction false} CutHits(from: int, end: int, p: int)
    ensures SpanHits(Cut(from, end), p) == if from <= p < end then 1 else 0
    decreases end - from
  {
    if from < end {
      var next := BlockStart(from) + 1024;
      var hi := if next < end then next else end;
      assert from < hi <= end;
      CutHits(hi, end, p);
      assert Cut(from, end)[1..] == Cut(hi, end);
    }
  }

  /** Every span lies inside one block. */
  lemma {:induction false} CutInBlocks(from: int, end: int, i: nat)
    requires i < |Cut(from, end)|
    ensures var s := Cut(from, end)[i];
      from <= s.lo < s.hi <= end && s.hi <= BlockStart(s.lo) + 1024
    decreases i
  {
    if i > 0 {
      var next := BlockStart(from) + 1024;
      CutInBlocks(if next < end then next else end, end, i - 1);
    }
  }

  lemma {:induction false} RowHits(xs: seq<Span>, s: Span, x: int, y: int)
    ensures Hits(Row(xs, s), x, y) == if InSpan(s, y) then SpanHits(xs, x) else 0
  {
    if xs != [] {
      assert Row(xs, s)[1..] == Row(xs[1..], s);
      RowHits(xs[1..], s, x, y);
    }
  }

  lemma {:induction false} GridHits(xs: seq<Span>, ys: seq<Span>, x: int, y: int)
    ensures Hits(Grid(xs, ys), x, y) == SpanHits(xs, x) * SpanHits(ys, y)
  {
    if ys != [] {
      HitsAppend(Row(xs, ys[0]), Grid(xs, ys[1..]), x, y);
      RowHits(xs, ys[0], x, y);
      GridHits(xs, ys[1..], x, y);
      var n, rest := SpanHits(xs, x), SpanHits(ys[1..], y);
      assert n * (1 + rest) == n + n * rest;
    }
  }

  /** The tiles cover the rectangle exactly once, and nothing else. */
  lemma GridCovers(x0: int, x1: int, y0: int, y1: int, x: int, y: int)
    ensures Hits(Grid(Cut(x0, x1), Cut(y0, y1)), x, y) == if x0 <= x < x1 && y0 <= y < y1 then 1 else 0
  {
    CutHits(x0, x1, x);
    CutHits(y0, y1, y);
    GridHits(Cut(x0, x1), Cut(y0, y1), x, y);
  }

  /** Every tile of the grid is a pair of spans of the cuts. */
  lemma {:induction false} GridTile(xs: seq<Span>, ys: seq<Span>, k: nat) returns (i: nat, j: nat)
    requires k < |Grid(xs, ys)|
    ensures i < |xs| && j < |ys| && Grid(xs, ys)[k] == Tile(xs[i], ys[j])
  {
    if k < |xs| {
      i, j := k, 0;
    } else {
      i, j := GridTile(xs, ys[1..], k - |xs|);
      j := j + 1;
    }
  }

  // ----- tiles and the packets that draw them

  /** The tile is not empty, and lies inside one block. */
  predicate Fits(t: Tile) {
    && 0 <= t.x.lo < t.x.hi < TWO_32 && 0 <= t.y.lo < t.y.hi < TWO_32
    && t.x.hi <= BlockStart(t.x.lo) + 1024 && t.y.hi <= BlockStart(t.y.lo) + 1024
  }

  lemma GridFits(x0: Word, x1: Word, y0: Word, y1: Word)
    ensures forall k | 0 <= k < |Grid(Cut(x0, x1), Cut(y0, y1))| :: Fits(Grid(Cut(x0, x1), Cut(y0, y1))[k])
  {
    var xs, ys := Cut(x0, x1), Cut(y0, y1);
    forall k | 0 <= k < |Grid(xs, ys)| ensures Fits(Grid(xs, ys)[k]) {
      var i, j := GridTile(xs, ys, k);
      CutInBlocks(x0, x1, i);
      CutInBlocks(y0, y1, j);
    }
  }

  lemma BlockBounds(x: int)
    ensures 0 <= x - BlockStart(x) < 1024
  {
  }

  /** `draw` says what writes draw a tile. */
  function GridWrites(draw: Tile -> seq<Write>, tiles: seq<Tile>): seq<Write> {
    if tiles == [] then [] else draw(tiles[0]) + GridWrites(draw, tiles[1..])
  }

  lemma {:induction false} GridWritesAppend(draw: Tile -> seq<Write>, a: seq<Tile>, b: seq<Tile>)
    ensures GridWrites(draw, a + b) == GridWrites(draw, a) + GridWrites(draw, b)
  {
    if a == [] {
      assert a + b == b && [] + GridWrites(draw, b) == GridWrites(draw, b);
    } else {
      assert (a + b)[1..] == a[1..] + b;
      GridWritesAppend(draw, a[1..], b);
      Regroup(draw(a[0]), GridWrites(draw, a[1..]), GridWrites(draw, b));
    }
  }

  /** One tile more after some that the words from `w0` to `w` draw already. */
  lemma DrawnMore(w0: seq<int>, w: seq<int>, w1: seq<int>, draw: Tile -> seq<Write>, tiles: seq<Tile>, t: Tile)
    requires Emits(w0, w, GridWrites(draw, tiles)) && Emits(w, w1, draw(t))
    ensures Emits(w0, w1, GridWrites(draw, tiles + [t]))
  {
    GridWritesAppend(draw, tiles, [t]);
    assert GridWrites(draw, []) == [] && draw(t) + [] == draw(t);
    EmitsThen(w0, w, w1, GridWrites(draw, tiles), draw(t));
  }

  lemma RowFirst(s: Span, rest: seq<Span>, y: Span, done: seq<Tile>)
    ensures done + Row([s] + rest, y) == done + [Tile(s, y)] + Row(rest, y)
  {
    assert Row([s] + rest, y) == [Tile(s, y)] + Row(rest, y);
  }

  lemma GridFirst(xs: seq<Span>, s: Span, rest: seq<Span>, done: seq<Tile>)
    ensures done + Grid(xs, [s] + rest) == done + Row(xs, s) + Grid(xs, rest)
  {
    assert ([s] + rest)[1..] == rest;
    assert done + (Row(xs, s) + Grid(xs, rest)) == done + Row(xs, s) + Grid(xs, rest);
  }

  // ----- loops over words

  /** A loop's variable after `n` turns. */
  function After(turn: Word -> Word, x: Word, n: nat): Word {
    if n == 0 then x else turn(After(turn, x, n - 1))
  }

  /** The loop that goes on while its variable is below `end` comes to an end. */
  ghost predicate Stops(turn: Word -> Word, x: Word, end: Word) {
    exists n: nat :: After(turn, x, n) >= end
  }

  lemma {:induction false} AfterFirst(turn: Word -> Word, x: Word, n: nat)
    ensures After(turn, x, n + 1) == After(turn, turn(x), n)
  {
    if n > 0 {
      AfterFirst(turn, x, n - 1);
    }
  }

  /** A loop stops if it does so after one turn more. */
  lemma StopsLater(turn: Word -> Word, x: Word, end: Word)
    requires Stops(turn, turn(x), end)
    ensures Stops(turn, x, end)
  {
    var n: nat :| After(turn, turn(x), n) >= end;
    AfterFirst(turn, x, n);
  }

  // ----- emitting packets for a channel

  /** What is drawn and what is left of a row make up all of it. */
  ghost predicate LeftOfRow(done: seq<Tile>, xs: seq<Span>, y: Span, all: seq<Tile>) { done + Row(xs, y) == all }

  ghost predicate LeftOfGrid(done: seq<Tile>, xs: seq<Span>, ys: seq<Span>, all: seq<Tile>) {
    done + Grid(xs, ys) == all
  }

  lemma NextTile(done: seq<Tile>, xs: seq<Span>, s: Span, rest: seq<Span>, y: Span, all: seq<Tile>)
    requires LeftOfRow(done, xs, y, all) && xs == [s] + rest
    ensures LeftOfRow(done + [Tile(s, y)], rest, y, all)
  {
    RowFirst(s, rest, y, done);
  }

  lemma NextRow(done: seq<Tile>, xs: seq<Span>, ys: seq<Span>, s: Span, rest: seq<Span>, all: seq<Tile>)
    requires LeftOfGrid(done, xs, ys, all) && ys == [s] + rest
    ensures LeftOfGrid(done + Row(xs, s), xs, rest, all)
  {
    GridFirst(xs, s, rest, done);
  }

  lemma NothingLeft(done: seq<Tile>, xs: seq<Span>, y: Span, all: seq<Tile>)
    ensures LeftOfRow(done, [], y, all) ==> done == all
    ensures LeftOfGrid(done, xs, [], all) ==> done == all
  {
    assert done + [] == done;
  }

  lemma EmitsChannelWrites(before: seq<int>, after: seq<int>, channel: Word, reg: Word, data: seq<int>)
    requires |data| <= MAX_METHOD_COUNT && channel < 8 && reg < 0x2000 && reg % 4 == 0
    requires after == before + [ChannelMethod(channel, reg, |data|)] + data
    ensures Emits(before, after, ChannelWrites(channel, reg, data))
  {
    EmitsChannel(before, after, channel, reg, data);
    assert ChannelWrites(channel, reg, data) == seq(|data|,
                                                    i requires 0 <= i < |data| => Write(channel, reg + 4 * i, data[i]));
  }

  /** A header and its data, word by word. */
  method PutPacket(context: Context, channel: Word, reg: Word, data: seq<Word>)
    requires |data| <= MAX_METHOD_COUNT && channel < 8 && reg < 0x2000 && reg % 4 == 0
    modifies context`words
    ensures Emits(old(context.words), context.words, ChannelWrites(channel, reg, data))
    ensures |context.words| == |old(context.words)| + 1 + |data|
  {
    var header := ChannelMethod(channel, reg, |data|);
    context.Put(header);
    PutAll(context, data);
    EmitsChannelWrites(old(context.words), context.words, channel, reg, data);
  }

  method PutAll(context: Context, data: seq<Word>)
    modifies context`words
    ensures context.words == old(context.words) + data
  {
    for i := 0 to |data|
      invariant context.words == old(context.words) + data[..i]
    {
      context.Put(data[i]);
    }
  }
}
