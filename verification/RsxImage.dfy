/** `SetTransferImage`: a copy of a rectangle, one blit for every 1024 by 1024 block it touches. */
module RsxImage {
  import opened Arith
  import Bits
  import opened RsxStream
  import opened RsxDraw
  import opened RsxBlit
  import opened Words

  const GCM_TRANSFER_CONVERSION_TRUNCATE := 1
  const GCM_TRANSFER_OPERATION_SRCCOPY := 3
  const GCM_TRANSFER_ORIGIN_CORNER := 2
  const GCM_TRANSFER_INTERPOLATOR_NEAREST := 0
  const ONE := 0x10_0000  // the ratio 1:1, 1 << 20

  datatype Transfer = Transfer(dstOffset: Word, dstPitch: Word, dstX: Word, dstY: Word,
                               srcOffset: Word, srcPitch: Word, srcX: Word, srcY: Word, bytesPerPixel: Word)

  // ----- what a linear blit copies

  function Low(w: int): int { w % 0x1_0000 }
  function High(w: int): int { w / 0x1_0000 }

  /** The bytes of a pixel in a surface, by its colour format; 0 for a format that is none. */
  function SurfacePixel(format: int): int {
    if format == 1 then 1 else if 2 <= format <= 5 then 2 else if 6 <= format <= 0xb then 4 else 0
  }

  /** The same for the source of a scaled image. */
  function SourcePixel(format: int): int {
    if format == 8 then 1
    else if format == 1 || format == 2 || format == 7 then 2
    else if format == 3 || format == 4 || format == 0xc || format == 0xd then 4
    else 0
  }

  function PixelBytes(b: Blit): int { SurfacePixel(b.format % 0x1_0000) }

  datatype Colours = A1R5G5B5 | X1R5G5B5 | R5G6B5 | A8R8G8B8 | X8R8G8B8 | Other

  /** What the bits of a pixel are, by the two numberings. */
  function SurfaceColours(format: int): Colours {
    if format == 3 then X1R5G5B5 else if format == 4 then R5G6B5 else if format == 7 then X8R8G8B8
    else if format == 0xa then A8R8G8B8 else Other
  }

  function SourceColours(format: int): Colours {
    if format == 1 then A1R5G5B5 else if format == 2 then X1R5G5B5 else if format == 3 then A8R8G8B8
    else if format == 4 then X8R8G8B8 else if format == 7 then R5G6B5 else Other
  }

  /** Nothing is converted. */
  predicate SameColours(b: Blit) {
    SurfaceColours(b.format % 0x1_0000) == SourceColours(b.srcFormat) != Other
  }

  /** Source and destination have pixels of the same size. */
  predicate SamePixels(b: Blit) { 0 < PixelBytes(b) == SourcePixel(b.srcFormat) }

  /** The source is read from the corner of its first pixel on, without interpolation. */
  predicate PlainSource(b: Blit) {
    High(b.inFormat) == 0x100 * GCM_TRANSFER_INTERPOLATOR_NEAREST + GCM_TRANSFER_ORIGIN_CORNER
  }

  /** Pixel (i, j) of the output rectangle, counted from its corner, is copied. */
  predicate Copies(b: Blit, i: int, j: int) {
    && SamePixels(b) && PlainSource(b)
    && b.operation == GCM_TRANSFER_OPERATION_SRCCOPY && b.inPoint == 0
    && b.conversion == GCM_TRANSFER_CONVERSION_TRUNCATE
    && 0 <= i < Low(b.outSize) && 0 <= j < High(b.outSize)
    && Low(b.clipPoint) <= Low(b.outPoint) + i < Low(b.clipPoint) + Low(b.clipSize)
    && High(b.clipPoint) <= High(b.outPoint) + j < High(b.clipPoint) + High(b.clipSize)
    && i * b.ratioX / ONE < Low(b.inSize) && j * b.ratioY / ONE < High(b.inSize)
  }

  /** The first byte it goes to on a linear surface, and the first byte it comes from. */
  function LinearByte(b: Blit, i: int, j: int): Word {
    At(b.dst, PixelBytes(b), Low(b.outPoint) + i, High(b.pitch), High(b.outPoint) + j)
  }

  function SourceByte(b: Blit, i: int, j: int): Word {
    At(b.src, SourcePixel(b.srcFormat), i * b.ratioX / ONE, Low(b.inFormat), j * b.ratioY / ONE)
  }

  /** The byte `x` pixels and `y` lines behind `base`. */
  function At(base: int, bytesPerPixel: int, x: int, pitch: int, y: int): Word {
    Wrap(base + bytesPerPixel * x + pitch * y)
  }

  // ----- the words of one blit

  /** Two halves of a word, as the code puts them together. */
  function PairWord(high: Word, low: Word): Word { Or32(Shl(high, 16), low) }

  function Packed(high: int, low: int): int { high * 0x1_0000 + low }

  lemma PairPacks(high: Word, low: Word)
    requires high < 0x1_0000 && low < 0x1_0000
    ensures PairWord(high, low) == Packed(high, low)
  {
    Bits.PowersOfTwo();
    OrFields(high, low, 16);
  }

  lemma PackedFields(high: int, low: int)
    requires 0 <= high < 0x1_0000 && 0 <= low < 0x1_0000
    ensures Low(Packed(high, low)) == low && High(Packed(high, low)) == high && 0 <= Packed(high, low) < TWO_32
  {
    DivModUnique(high * 0x1_0000 + low, 0x1_0000, high, low);
  }

  lemma PackedParts(w: int, high: int, low: int)
    requires w == Packed(high, low) && 0 <= high < 0x1_0000 && 0 <= low < 0x1_0000
    ensures Low(w) == low && High(w) == high
  {
    PackedFields(high, low);
  }

  function SafeWidth(w: int): int { if w < 16 then 16 else w + w % 2 }

  /** The least even number that is large enough, and at least 16. */
  lemma SafeWidthMeans(w: nat)
    ensures SafeWidth(w) % 2 == 0 && SafeWidth(w) >= 16 && SafeWidth(w) >= w
    ensures SafeWidth(w) == 16 || SafeWidth(w) <= w + 1
  {
  }

  function InFormat(srcPitch: Word): Word {
    Or32(Or32(srcPitch, Shl(GCM_TRANSFER_ORIGIN_CORNER, 16)), Shl(GCM_TRANSFER_INTERPOLATOR_NEAREST, 24))
  }

  /** A pitch that needs more than 16 bits spills over: into the fields above it ... */
  lemma InFormatFields(srcPitch: Word)
    ensures Low(InFormat(srcPitch)) == srcPitch % 0x1_0000
    ensures High(InFormat(srcPitch)) == Bits.Or(GCM_TRANSFER_ORIGIN_CORNER, srcPitch / 0x1_0000)
  {
    var w := Bits.Or(GCM_TRANSFER_ORIGIN_CORNER * 0x1_0000, srcPitch);
    OrHalves(GCM_TRANSFER_ORIGIN_CORNER, srcPitch / 0x1_0000, srcPitch % 0x1_0000, srcPitch,
             GCM_TRANSFER_ORIGIN_CORNER * 0x1_0000);
    OrComm(GCM_TRANSFER_ORIGIN_CORNER * 0x1_0000, srcPitch);
    InFormatIs(srcPitch);
    HalvesOf(w, Bits.Or(GCM_TRANSFER_ORIGIN_CORNER, srcPitch / 0x1_0000), srcPitch % 0x1_0000);
  }

  lemma InFormatIs(srcPitch: Word)
    ensures InFormat(srcPitch) == Bits.Or(srcPitch, GCM_TRANSFER_ORIGIN_CORNER * 0x1_0000)
  {
    Shifts();
    DivModUnique(GCM_TRANSFER_ORIGIN_CORNER * 0x1_0000, TWO_32, 0, GCM_TRANSFER_ORIGIN_CORNER * 0x1_0000);
    assert Shl(GCM_TRANSFER_INTERPOLATOR_NEAREST, 24) == 0;
  }

  lemma OrHalves(h: nat, f: nat, low: nat, x: nat, hd: nat)
    requires low < 0x1_0000 && x == f * 0x1_0000 + low && hd == h * 0x1_0000
    ensures Bits.Or(hd, x) == Bits.Or(h, f) * 0x1_0000 + low
  {
    HalfPower(16);
    OrSplit(h, f, Bits.Or(h, f), low, 16, hd, f * 0x1_0000, Bits.Or(h, f) * 0x1_0000);
  }

  lemma HalfPower(k: nat)
    requires k == 16
    ensures Bits.Pow2(k) == 0x1_0000
  {
    Bits.PowersOfTwo();
  }

  lemma OrSplit(h: nat, f: nat, or: nat, low: nat, k: nat, hd: nat, fd: nat, od: nat)
    requires low < 0x1_0000 == Bits.Pow2(k) && or == Bits.Or(h, f)
    requires hd == h * 0x1_0000 && fd == f * 0x1_0000 && od == or * 0x1_0000
    ensures Bits.Or(hd, fd + low) == od + low
  {
    Bits.OrScaled(h, f, or, low, k, 0x1_0000, hd, fd, od);
  }

  lemma HalvesOf(w: int, high: int, low: int)
    requires w == high * 0x1_0000 + low && 0 <= low < 0x1_0000
    ensures High(w) == high && Low(w) == low
  {
    DivModUnique(w, 0x1_0000, high, low);
  }

  /** Source pitches that leave those fields as they should be. */
  predicate KeepsPlain(srcPitch: Word) {
    srcPitch / 0x1_0000 == 0 || srcPitch / 0x1_0000 == GCM_TRANSFER_ORIGIN_CORNER
  }

  lemma OrTwo(h: nat)
    ensures Bits.Or(2, h) == 2 <==> h == 0 || h == 2
  {
    if h != 0 {
      Bits.OrStep(2, h);
      assert Bits.Or(1, h / 2) >= h / 2;
      if h / 2 == 1 {
        Bits.OrStep(1, 1);
      }
    }
  }

  /** ... or, for the destination, from the lower copy into the upper one. */
  function PitchRead(pitch: Word): nat { Bits.Or(pitch % 0x1_0000, pitch / 0x1_0000) }

  lemma PairFields(pitch: Word)
    ensures High(PairWord(pitch, pitch)) == PitchRead(pitch)
  {
    var low, high := pitch % 0x1_0000, pitch / 0x1_0000;
    Shifts();
    DivModUnique(pitch * 0x1_0000, TWO_32, high, low * 0x1_0000);
    OrHalves(low, high, low, pitch, low * 0x1_0000);
    HalvesOf(PairWord(pitch, pitch), PitchRead(pitch), low);
  }

  /** Both fields hold the pitch exactly if it fits 16 bits. */
  lemma PitchFits(pitch: Word)
    ensures PitchRead(pitch) < 0x1_0000
    ensures PitchRead(pitch) == pitch <==> pitch < 0x1_0000
    ensures pitch % 0x1_0000 == pitch <==> pitch < 0x1_0000
  {
    var low, high := pitch % 0x1_0000, pitch / 0x1_0000;
    Bits.PowersOfTwo();
    Bits.OrBound(low, high, 16);
    if pitch < 0x1_0000 {
      assert high == 0;
    }
  }

  /** With `read` for the pitch, the line `row` lines further down begins where it should. */
  predicate LineRight(pitch: int, read: int, row: int) { Wrap((pitch - read) * row) == 0 }

  /** All lines of a block are right exactly if the pitch fits 16 bits; the second one tells. */
  lemma LinesRight(pitch: Word)
    ensures (forall row | 0 <= row < 1024 :: LineRight(pitch, PitchRead(pitch), row)) <==> pitch < 0x1_0000
    ensures (forall row | 0 <= row < 1024 :: LineRight(pitch, pitch % 0x1_0000, row)) <==> pitch < 0x1_0000
  {
    PitchFits(pitch);
    SecondLineTells(pitch, PitchRead(pitch));
    SecondLineTells(pitch, pitch % 0x1_0000);
  }

  lemma SecondLineTells(pitch: Word, read: Word)
    ensures (forall row | 0 <= row < 1024 :: LineRight(pitch, read, row)) <==> pitch == read
  {
    if pitch == read {
      forall row ensures LineRight(pitch, read, row) {
        assert (pitch - read) * row == 0;
      }
    } else if LineRight(pitch, read, 1) {
      if pitch > read {
        DivModUnique(pitch - read, TWO_32, 0, pitch - read);
      } else {
        DivModUnique(pitch - read, TWO_32, -1, pitch - read + TWO_32);
      }
      assert false;
    }
  }

  function DstFormat(bytesPerPixel: Word): Word {
    if bytesPerPixel == 4 then 0xa else if bytesPerPixel == 2 then 3 else 0
  }
  function SrcFormat(bytesPerPixel: Word): Word {
    if bytesPerPixel == 4 then 4 else if bytesPerPixel == 2 then 2 else 0
  }

  /** The pixel sizes that have a format. */
  predicate Supported(bytesPerPixel: Word) { bytesPerPixel == 2 || bytesPerPixel == 4 }

  function PointWord(t: Tile): int { Packed(t.y.lo - BlockStart(t.y.lo), t.x.lo - BlockStart(t.x.lo)) }
  function SizeWord(t: Tile): int { Packed(t.y.hi - t.y.lo, t.x.hi - t.x.lo) }

  function DstBlock(p: Transfer, t: Tile): Word {
    At(p.dstOffset, p.bytesPerPixel, BlockStart(t.x.lo), p.dstPitch, BlockStart(t.y.lo))
  }

  function SrcBlock(p: Transfer, t: Tile): Word {
    At(p.srcOffset, p.bytesPerPixel, p.srcX + t.x.lo - p.dstX, p.srcPitch, p.srcY + t.y.lo - p.dstY)
  }

  function SurfaceData(p: Transfer): seq<Word> {
    [DstFormat(p.bytesPerPixel), PairWord(p.dstPitch, p.dstPitch)]
  }

  function CopyData(p: Transfer, t: Tile): seq<int> {
    [GCM_TRANSFER_CONVERSION_TRUNCATE, SrcFormat(p.bytesPerPixel), GCM_TRANSFER_OPERATION_SRCCOPY,
     PointWord(t), SizeWord(t), PointWord(t), SizeWord(t), ONE, ONE]
  }

  function SourceData(p: Transfer, t: Tile): seq<int> {
    [Packed(t.y.hi - t.y.lo, SafeWidth(t.x.hi - t.x.lo)), InFormat(p.srcPitch), SrcBlock(p, t), 0]
  }

  function TileWrites(p: Transfer, t: Tile): seq<Write> {
    ChannelWrites(3, 0x30c, [DstBlock(p, t)]) + ChannelWrites(3, 0x300, SurfaceData(p))
    + ChannelWrites(6, 0x2fc, CopyData(p, t)) + ChannelWrites(6, 0x400, SourceData(p, t))
  }

  function Draw(p: Transfer): Tile -> seq<Write> {
    t => TileWrites(p, t)
  }

  // ----- the engine runs them

  function TileBlit(p: Transfer, t: Tile, m: Memories): Blit {
    Blit(GCM_CONTEXT_SURFACE2D, SurfaceData(p)[0], SurfaceData(p)[1], DstBlock(p, t),
         CopyData(p, t)[0], CopyData(p, t)[1], CopyData(p, t)[2], CopyData(p, t)[3], CopyData(p, t)[4],
         CopyData(p, t)[5], CopyData(p, t)[6], CopyData(p, t)[7], CopyData(p, t)[8],
         SourceData(p, t)[0], SourceData(p, t)[1], SourceData(p, t)[2], SourceData(p, t)[3], m)
  }

  /** The engine is set to linear surfaces, and to these memories. */
  predicate LinearSet(regs: Registers, m: Memories) {
    Get(regs, 6, 0x198) == GCM_CONTEXT_SURFACE2D && LinearMemories(regs) == m
  }

  /** Four packets on an engine set to linear surfaces: one more blit, and the engine stays set. */
  lemma LinearRun(dst: int, surface: seq<int>, copy: seq<int>, source: seq<int>, chip: Chip, m: Memories)
    requires |surface| == 2 && |copy| == 9 && |source| == 4
    requires LinearSet(chip.regs, m)
    ensures var writes := ChannelWrites(3, 0x30c, [dst]) + ChannelWrites(3, 0x300, surface)
                          + ChannelWrites(6, 0x2fc, copy) + ChannelWrites(6, 0x400, source);
      && LinearSet(Run(writes, chip).regs, m)
      && Run(writes, chip).blits == chip.blits
           + [Blit(GCM_CONTEXT_SURFACE2D, surface[0], surface[1], dst,
                   copy[0], copy[1], copy[2], copy[3], copy[4], copy[5], copy[6], copy[7], copy[8],
                   source[0], source[1], source[2], source[3], m)]
  {
    var a, b, c, d := ChannelWrites(3, 0x30c, [dst]), ChannelWrites(3, 0x300, surface), ChannelWrites(6, 0x2fc, copy),
    ChannelWrites(6, 0x400, source);
    RunFour(a, b, c, d, chip);
    RunPacket(3, 0x30c, [dst], chip);
    var r1 := Stored(chip.regs, 3, 0x30c, [dst]);
    RunPacket(3, 0x300, surface, Chip(r1, chip.blits));
    var r2 := Stored(r1, 3, 0x300, surface);
    RunPacket(6, 0x2fc, copy, Chip(r2, chip.blits));
    var r3 := Stored(r2, 6, 0x2fc, copy);
    RunSource(source, Chip(r3, chip.blits));
    LinearRegisters(chip.regs, r1, r2, r3, Stored(r3, 6, 0x400, source), dst, surface, copy, source, m);
  }

  lemma RunFour(a: seq<Write>, b: seq<Write>, c: seq<Write>, d: seq<Write>, chip: Chip)
    ensures Run(a + b + c + d, chip) == Run(d, Run(c, Run(b, Run(a, chip))))
  {
    RunAppend(a + b + c, d, chip);
    RunAppend(a + b, c, chip);
    RunAppend(a, b, chip);
  }

  lemma LinearRegisters(r0: Registers, r1: Registers, r2: Registers, r3: Registers, r4: Registers,
                        dst: int, surface: seq<int>, copy: seq<int>, source: seq<int>, m: Memories)
    requires |surface| == 2 && |copy| == 9 && |source| == 4 && LinearSet(r0, m)
    requires r1 == Stored(r0, 3, 0x30c, [dst]) && r2 == Stored(r1, 3, 0x300, surface)
    requires r3 == Stored(r2, 6, 0x2fc, copy) && r4 == Stored(r3, 6, 0x400, source)
    ensures LinearSet(r4, m)
    ensures Launched(r4) == Blit(GCM_CONTEXT_SURFACE2D, surface[0], surface[1], dst,
                                 copy[0], copy[1], copy[2], copy[3], copy[4], copy[5], copy[6], copy[7], copy[8],
                                 source[0], source[1], source[2], source[3], m)
  {
    ThroughAll(r0, r1, r2, r3, r4, dst, surface, copy, source, 6, 0x198);
    ThroughAll(r0, r1, r2, r3, r4, dst, surface, copy, source, 6, 0x184);
    ThroughAll(r0, r1, r2, r3, r4, dst, surface, copy, source, 3, 0x188);
    ThroughAll(r0, r1, r2, r3, r4, dst, surface, copy, source, 3, 0x300);
    ThroughAll(r0, r1, r2, r3, r4, dst, surface, copy, source, 3, 0x304);
    ThroughAll(r0, r1, r2, r3, r4, dst, surface, copy, source, 3, 0x30c);
    forall k: nat | k < 9 ensures Get(r4, 6, 0x2fc + 4 * k) == copy[k] {
      ThroughAll(r0, r1, r2, r3, r4, dst, surface, copy, source, 6, 0x2fc + 4 * k);
    }
    forall k: nat | k < 4 ensures Get(r4, 6, 0x400 + 4 * k) == source[k] {
      ThroughAll(r0, r1, r2, r3, r4, dst, surface, copy, source, 6, 0x400 + 4 * k);
    }
    assert Get(r4, 6, 0x2fc + 4 * 0) == copy[0] && Get(r4, 6, 0x2fc + 4 * 1) == copy[1]
      && Get(r4, 6, 0x2fc + 4 * 2) == copy[2];
    assert Get(r4, 6, 0x2fc + 4 * 3) == copy[3] && Get(r4, 6, 0x2fc + 4 * 4) == copy[4]
      && Get(r4, 6, 0x2fc + 4 * 5) == copy[5];
    assert Get(r4, 6, 0x2fc + 4 * 6) == copy[6] && Get(r4, 6, 0x2fc + 4 * 7) == copy[7]
      && Get(r4, 6, 0x2fc + 4 * 8) == copy[8];
    assert Get(r4, 6, 0x400 + 4 * 0) == source[0] && Get(r4, 6, 0x400 + 4 * 1) == source[1];
    assert Get(r4, 6, 0x400 + 4 * 2) == source[2] && Get(r4, 6, 0x400 + 4 * 3) == source[3];
  }

  lemma ThroughAll(r0: Registers, r1: Registers, r2: Registers, r3: Registers, r4: Registers,
                   dst: int, surface: seq<int>, copy: seq<int>, source: seq<int>, c: nat, r: nat)
    requires |surface| == 2 && |copy| == 9 && |source| == 4
    requires r1 == Stored(r0, 3, 0x30c, [dst]) && r2 == Stored(r1, 3, 0x300, surface)
    requires r3 == Stored(r2, 6, 0x2fc, copy) && r4 == Stored(r3, 6, 0x400, source)
    ensures Get(r4, c, r) ==
      if c == 6 && 0x400 <= r < 0x410 && r % 4 == 0 then source[(r - 0x400) / 4]
      else if c == 6 && 0x2fc <= r < 0x320 && r % 4 == 0 then copy[(r - 0x2fc) / 4]
      else if c == 3 && 0x300 <= r < 0x308 && r % 4 == 0 then surface[(r - 0x300) / 4]
      else if c == 3 && r == 0x30c then dst
      else Get(r0, c, r)
  {
    StoredGet(r0, 3, 0x30c, [dst], c, r);
    StoredGet(r1, 3, 0x300, surface, c, r);
    StoredGet(r2, 6, 0x2fc, copy, c, r);
    StoredGet(r3, 6, 0x400, source, c, r);
  }

  function TileBlits(p: Transfer, tiles: seq<Tile>, m: Memories): seq<Blit> {
    seq(|tiles|, k requires 0 <= k < |tiles| => TileBlit(p, tiles[k], m))
  }

  /** One blit for each tile, in order. */
  lemma {:induction false} GridRun(p: Transfer, tiles: seq<Tile>, chip: Chip, m: Memories)
    requires LinearSet(chip.regs, m)
    ensures Run(GridWrites(Draw(p), tiles), chip).blits == chip.blits + TileBlits(p, tiles, m)
  {
    if tiles == [] {
      assert chip.blits + TileBlits(p, tiles, m) == chip.blits;
    } else {
      var t := tiles[0];
      LinearRun(DstBlock(p, t), SurfaceData(p), CopyData(p, t), SourceData(p, t), chip, m);
      var next := Run(TileWrites(p, t), chip);
      RunAppend(TileWrites(p, t), GridWrites(Draw(p), tiles[1..]), chip);
      GridRun(p, tiles[1..], next, m);
      BlitsFirst(p, tiles, chip.blits, m);
    }
  }

  lemma BlitsFirst(p: Transfer, tiles: seq<Tile>, before: seq<Blit>, m: Memories)
    requires tiles != []
    ensures before + [TileBlit(p, tiles[0], m)] + TileBlits(p, tiles[1..], m) == before + TileBlits(p, tiles, m)
  {
  }

  // ----- what they copy

  lemma AtShifts(base: int, a: int, x0: int, dx: int, x: int, b: int, y0: int, dy: int, y: int)
    requires x == x0 + dx && y == y0 + dy
    ensures At(At(base, a, x0, b, y0), a, dx, b, dy) == At(base, a, x, b, y)
  {
    assert a * (x0 + dx) == a * x0 + a * dx && b * (y0 + dy) == b * y0 + b * dy;
    WrapAdds(base + a * x0 + b * y0, a * dx + b * dy);
  }

  lemma PointFields(t: Tile)
    requires Fits(t)
    ensures Low(PointWord(t)) == t.x.lo - BlockStart(t.x.lo) && High(PointWord(t)) == t.y.lo - BlockStart(t.y.lo)
  {
    BlockBounds(t.x.lo);
    BlockBounds(t.y.lo);
    PackedParts(PointWord(t), t.y.lo - BlockStart(t.y.lo), t.x.lo - BlockStart(t.x.lo));
  }

  lemma SizeFields(t: Tile)
    requires Fits(t)
    ensures Low(SizeWord(t)) == t.x.hi - t.x.lo && High(SizeWord(t)) == t.y.hi - t.y.lo
  {
    PackedParts(SizeWord(t), t.y.hi - t.y.lo, t.x.hi - t.x.lo);
  }

  lemma InSizeFields(p: Transfer, t: Tile)
    requires Fits(t)
    ensures Low(SourceData(p, t)[0]) >= t.x.hi - t.x.lo && High(SourceData(p, t)[0]) == t.y.hi - t.y.lo
  {
    var height, width := t.y.hi - t.y.lo, SafeWidth(t.x.hi - t.x.lo);
    assert SourceData(p, t)[0] == Packed(height, width);
    PackedParts(Packed(height, width), height, width);
  }

  /** The formats written stand for the pixel size, or for none if it is neither 2 nor 4. */
  lemma FormatsDecode(p: Transfer, t: Tile, b: Blit)
    requires b == TileBlit(p, t, b.memories)
    ensures SamePixels(b) <==> Supported(p.bytesPerPixel)
    ensures Supported(p.bytesPerPixel) ==> PixelBytes(b) == p.bytesPerPixel
  {
    TileFormats(b, SurfaceData(p), CopyData(p, t), p, t);
    FormatPixels(p.bytesPerPixel, DstFormat(p.bytesPerPixel));
  }

  /** Pixels of 2 bytes have the same colours on both sides. Those of 4 bytes come with an alpha value to the surface,
    but the number written for the source means that they have none: it belongs to another class of the chip. */
  lemma TileColours(p: Transfer, t: Tile, b: Blit)
    requires b == TileBlit(p, t, b.memories)
    ensures SameColours(b) <==> p.bytesPerPixel == 2
    ensures p.bytesPerPixel == 4 ==>
      SurfaceColours(b.format % 0x1_0000) == A8R8G8B8 && SourceColours(b.srcFormat) == X8R8G8B8
  {
    TileFormats(b, SurfaceData(p), CopyData(p, t), p, t);
    FormatColours(p.bytesPerPixel, b.format, b.srcFormat);
  }

  lemma FormatColours(bytesPerPixel: Word, format: int, srcFormat: int)
    requires format == DstFormat(bytesPerPixel) && srcFormat == SrcFormat(bytesPerPixel)
    ensures SurfaceColours(format % 0x1_0000) == SourceColours(srcFormat) != Other <==> bytesPerPixel == 2
    ensures bytesPerPixel == 4 ==> SurfaceColours(format % 0x1_0000) == A8R8G8B8 && SourceColours(srcFormat) == X8R8G8B8
  {
    FormatPixels(bytesPerPixel, format);
  }

  lemma TileFormats(b: Blit, surface: seq<int>, copy: seq<int>, p: Transfer, t: Tile)
    requires b == TileBlit(p, t, b.memories) && surface == SurfaceData(p) && copy == CopyData(p, t)
    ensures b.format == DstFormat(p.bytesPerPixel) && b.srcFormat == SrcFormat(p.bytesPerPixel)
  {
    assert b.format == surface[0] && b.srcFormat == copy[1];
  }

  lemma FormatPixels(bytesPerPixel: Word, format: Word)
    requires format == DstFormat(bytesPerPixel)
    ensures format % 0x1_0000 == format
    ensures Supported(bytesPerPixel) ==> SurfacePixel(format) == bytesPerPixel == SourcePixel(SrcFormat(bytesPerPixel))
    ensures !Supported(bytesPerPixel) ==> SurfacePixel(format) == 0
  {
  }

  /** The blit of a tile copies exactly the tile's pixels, if they have 2 or 4 bytes and the source pitch leaves the
    other fields of its word alone, and nothing otherwise. */
  lemma TileCopies(p: Transfer, t: Tile, b: Blit, x: int, y: int)
    requires Fits(t) && b == TileBlit(p, t, b.memories)
    ensures Copies(b, x - t.x.lo, y - t.y.lo)
      <==> Supported(p.bytesPerPixel) && KeepsPlain(p.srcPitch) && InTile(t, x, y)
  {
    FormatsDecode(p, t, b);
    PointFields(t);
    SizeFields(t);
    InSizeFields(p, t);
    TilePlain(p, t, b);
    BlitCopies(b, t, x, y, x - t.x.lo, y - t.y.lo);
  }

  lemma TilePlain(p: Transfer, t: Tile, b: Blit)
    requires b == TileBlit(p, t, b.memories)
    ensures PlainSource(b) <==> KeepsPlain(p.srcPitch)
  {
    InFormatFields(p.srcPitch);
    OrTwo(p.srcPitch / 0x1_0000);
  }

  /** A plain copy of as many pixels as the tile has, cut to nothing smaller. */
  ghost predicate CopiesTile(b: Blit, t: Tile) {
    && b.operation == GCM_TRANSFER_OPERATION_SRCCOPY && b.inPoint == 0 && b.ratioX == ONE && b.ratioY == ONE
    && b.conversion == GCM_TRANSFER_CONVERSION_TRUNCATE
    && b.clipPoint == b.outPoint && b.clipSize == b.outSize
    && Low(b.outSize) == t.x.hi - t.x.lo <= Low(b.inSize)
    && High(b.outSize) == t.y.hi - t.y.lo <= High(b.inSize)
  }

  lemma BlitCopies(b: Blit, t: Tile, x: int, y: int, i: int, j: int)
    requires i == x - t.x.lo && j == y - t.y.lo && CopiesTile(b, t)
    ensures Copies(b, i, j) <==> SamePixels(b) && PlainSource(b) && InTile(t, x, y)
  {
    RatioOne(i);
    RatioOne(j);
  }

  lemma RatioOne(i: int)
    ensures i * ONE / ONE == i
  {
  }

  /** And it takes each from its place in the source to its place in the destination, on all lines that the pitch
    read leaves where they are. */
  lemma TileMoves(p: Transfer, t: Tile, b: Blit, x: int, y: int)
    requires Fits(t) && Supported(p.bytesPerPixel) && b == TileBlit(p, t, b.memories)
    ensures LinearByte(b, x - t.x.lo, y - t.y.lo) == At(p.dstOffset, p.bytesPerPixel, x, p.dstPitch, y)
      <==> LineRight(p.dstPitch, PitchRead(p.dstPitch), y - BlockStart(t.y.lo))
    ensures SourceByte(b, x - t.x.lo, y - t.y.lo)
         == At(p.srcOffset, p.bytesPerPixel, p.srcX + x - p.dstX, p.srcPitch, p.srcY + y - p.dstY)
      <==> LineRight(p.srcPitch, p.srcPitch % 0x1_0000, y - t.y.lo)
  {
    TileBlitAims(p, t, b);
    BlitMoves(p, t, b, x, y, x - t.x.lo, y - t.y.lo);
  }

  /** The two images and the tile's place in them, as a blit states them. */
  ghost predicate Aims(p: Transfer, t: Tile, b: Blit) {
    && Low(b.outPoint) == t.x.lo - BlockStart(t.x.lo) && High(b.outPoint) == t.y.lo - BlockStart(t.y.lo)
    && High(b.pitch) == PitchRead(p.dstPitch) && Low(b.inFormat) == p.srcPitch % 0x1_0000
    && b.ratioX == ONE && b.ratioY == ONE
    && b.dst == DstBlock(p, t) && b.src == SrcBlock(p, t) && SamePixels(b) && PixelBytes(b) == p.bytesPerPixel
  }

  lemma TileBlitAims(p: Transfer, t: Tile, b: Blit)
    requires Fits(t) && Supported(p.bytesPerPixel) && b == TileBlit(p, t, b.memories)
    ensures Aims(p, t, b)
  {
    FormatsDecode(p, t, b);
    PointFields(t);
    PairFields(p.dstPitch);
    InFormatFields(p.srcPitch);
  }

  lemma BlitMoves(p: Transfer, t: Tile, b: Blit, x: int, y: int, i: int, j: int)
    requires i == x - t.x.lo && j == y - t.y.lo && Aims(p, t, b)
    ensures LinearByte(b, i, j) == At(p.dstOffset, p.bytesPerPixel, x, p.dstPitch, y)
      <==> LineRight(p.dstPitch, PitchRead(p.dstPitch), y - BlockStart(t.y.lo))
    ensures SourceByte(b, i, j) == At(p.srcOffset, p.bytesPerPixel, p.srcX + x - p.dstX, p.srcPitch,
                                      p.srcY + y - p.dstY)
      <==> LineRight(p.srcPitch, p.srcPitch % 0x1_0000, j)
  {
    RatioOne(i);
    RatioOne(j);
    var left, top := BlockStart(t.x.lo), BlockStart(t.y.lo);
    AtPitch(p.dstOffset, p.bytesPerPixel, left, Low(b.outPoint) + i, x, p.dstPitch, High(b.pitch), top,
            High(b.outPoint) + j, y);
    AtPitch(p.srcOffset, p.bytesPerPixel, p.srcX + t.x.lo - p.dstX, i, p.srcX + x - p.dstX,
            p.srcPitch, Low(b.inFormat), p.srcY + t.y.lo - p.dstY, j, p.srcY + y - p.dstY);
  }

  /** Going on from a place with another pitch. */
  lemma AtPitch(base: int, a: int, x0: int, dx: int, x: int, b: int, read: int, y0: int, dy: int, y: int)
    requires x == x0 + dx && y == y0 + dy
    ensures At(At(base, a, x0, b, y0), a, dx, read, dy) == At(base, a, x, b, y) <==> LineRight(b, read, dy)
  {
    AtShifts(base, a, x0, dx, x, b, y0, dy, y);
    var start := At(base, a, x0, b, y0) + a * dx;
    assert (b - read) * dy == b * dy - read * dy;
    WrapsAlike(start + read * dy, (b - read) * dy);
  }

  lemma WrapsAlike(u: int, e: int)
    ensures Wrap(u) == Wrap(u + e) <==> Wrap(e) == 0
  {
    WrapAdds(e, u);
    var q, r := u / TWO_32, Wrap(u);
    if Wrap(u) == Wrap(u + e) {
      var k := (u + e) / TWO_32;
      assert u + e == k * TWO_32 + r;
      DivModUnique(e, TWO_32, k - q, 0);
    }
  }

  // ----- SetTransferImage

  function ModeData(mode: int, bit: int): Word
    requires bit == 1 || bit == 2
  {
    if mode / bit % 2 == 1 then GCM_DMA_MEMORY_HOST_BUFFER else GCM_DMA_MEMORY_FRAME_BUFFER
  }

  function Selected(mode: int): Memories { Memories(ModeData(mode, 1), ModeData(mode, 2)) }

  function ModeWrites(mode: int): seq<Write> {
    ChannelWrites(6, 0x184, [ModeData(mode, 1)]) + ChannelWrites(3, 0x188, [ModeData(mode, 2)])
    + ChannelWrites(6, 0x198, [GCM_CONTEXT_SURFACE2D])
  }

  function ImageTiles(p: Transfer, width: Word, height: Word): seq<Tile> {
    Grid(Cut(p.dstX, Wrap(p.dstX + width)), Cut(p.dstY, Wrap(p.dstY + height)))
  }

  lemma ModeRun(mode: int, chip: Chip)
    ensures Run(ModeWrites(mode), chip).blits == chip.blits
    ensures LinearSet(Run(ModeWrites(mode), chip).regs, Selected(mode))
  {
    var a, b, c := [ModeData(mode, 1)], [ModeData(mode, 2)], [GCM_CONTEXT_SURFACE2D];
    RunAppend(ChannelWrites(6, 0x184, a) + ChannelWrites(3, 0x188, b), ChannelWrites(6, 0x198, c), chip);
    RunAppend(ChannelWrites(6, 0x184, a), ChannelWrites(3, 0x188, b), chip);
    RunPacket(6, 0x184, a, chip);
    var r1 := Stored(chip.regs, 6, 0x184, a);
    RunPacket(3, 0x188, b, Chip(r1, chip.blits));
    var r2 := Stored(r1, 3, 0x188, b);
    RunPacket(6, 0x198, c, Chip(r2, chip.blits));
    StoredGet(r2, 6, 0x198, c, 6, 0x198);
    StoredGet(r2, 6, 0x198, c, 6, 0x184);
    StoredGet(r2, 6, 0x198, c, 3, 0x188);
  }

  function ImageWrites(mode: int, p: Transfer, width: Word, height: Word): seq<Write> {
    ModeWrites(mode) + GridWrites(Draw(p), ImageTiles(p, width, height))
  }

  lemma ImageRun(mode: int, p: Transfer, width: Word, height: Word, chip: Chip)
    ensures Run(ImageWrites(mode, p, width, height), chip).blits
      == chip.blits + TileBlits(p, ImageTiles(p, width, height), Selected(mode))
  {
    var tiles := ImageTiles(p, width, height);
    RunAppend(ModeWrites(mode), GridWrites(Draw(p), tiles), chip);
    ModeRun(mode, chip);
    GridRun(p, tiles, Run(ModeWrites(mode), chip), Selected(mode));
  }

  lemma ImageCovers(p: Transfer, width: Word, height: Word, x: int, y: int)
    ensures Hits(ImageTiles(p, width, height), x, y)
         == if InImage(p, width, height, x, y) then 1 else 0
  {
    GridCovers(p.dstX, Wrap(p.dstX + width), p.dstY, Wrap(p.dstY + height), x, y);
  }

  /** The rectangle of the destination; its ends are words. */
  predicate InImage(p: Transfer, width: Word, height: Word, x: int, y: int) {
    p.dstX <= x < Wrap(p.dstX + width) && p.dstY <= y < Wrap(p.dstY + height)
  }

  /** The blit copies the pixel exactly when its tile holds it, and from its place in the source to its place in
    the destination; it stays inside one block. Pixels of other sizes than 2 and 4 bytes are not copied, and pitches
    of more than 16 bits are not read as they are. */
  ghost predicate Shows(p: Transfer, b: Blit, t: Tile, x: int, y: int) {
    && t.x.hi <= BlockStart(t.x.lo) + 1024 && t.y.hi <= BlockStart(t.y.lo) + 1024
    && (Copies(b, x - t.x.lo, y - t.y.lo)
        <==> Supported(p.bytesPerPixel) && KeepsPlain(p.srcPitch) && InTile(t, x, y))
    && (Supported(p.bytesPerPixel) ==>
          && PixelBytes(b) == p.bytesPerPixel
          && (LinearByte(b, x - t.x.lo, y - t.y.lo) == At(p.dstOffset, p.bytesPerPixel, x, p.dstPitch, y)
              <==> LineRight(p.dstPitch, PitchRead(p.dstPitch), y - BlockStart(t.y.lo)))
          && (SourceByte(b, x - t.x.lo, y - t.y.lo)
              == At(p.srcOffset, p.bytesPerPixel, p.srcX + x - p.dstX, p.srcPitch, p.srcY + y - p.dstY)
              <==> LineRight(p.srcPitch, p.srcPitch % 0x1_0000, y - t.y.lo)))
  }

  lemma TileShows(p: Transfer, t: Tile, b: Blit, x: int, y: int)
    requires Fits(t) && b == TileBlit(p, t, b.memories)
    ensures Shows(p, b, t, x, y)
  {
    TileCopies(p, t, b, x, y);
    FormatsDecode(p, t, b);
    if Supported(p.bytesPerPixel) {
      TileMoves(p, t, b, x, y);
    }
  }

  /** The blits from place `from` on show the tiles, one for one, between the memories that the mode selects. */
  ghost predicate AllShown(p: Transfer, mode: int, blits: seq<Blit>, from: nat, tiles: seq<Tile>, x: int, y: int) {
    && |blits| == from + |tiles|
    && forall k | 0 <= k < |tiles| :: Shows(p, blits[from + k], tiles[k], x, y) && Selects(mode, blits[from + k])
  }

  /** The blits that the stream launches hit every pixel of the rectangle exactly once and nothing else, and each does
    its part of the copy. */
  lemma ImageCopies(mode: int, p: Transfer, width: Word, height: Word, chip: Chip, x: int, y: int)
    ensures var tiles := ImageTiles(p, width, height);
            var blits := Run(ImageWrites(mode, p, width, height), chip).blits;
      && chip.blits <= blits && AllShown(p, mode, blits, |chip.blits|, tiles, x, y)
      && Hits(tiles, x, y) == (if InImage(p, width, height, x, y) then 1 else 0)
  {
    var tiles := ImageTiles(p, width, height);
    ImageRun(mode, p, width, height, chip);
    ImageFits(p, width, height, tiles);
    ImageCovers(p, width, height, x, y);
    AllShow(p, tiles, Selected(mode), x, y);
    BlitsShow(p, chip.blits, Run(ImageWrites(mode, p, width, height), chip).blits, tiles, mode, x, y);
  }

  lemma BlitsShow(p: Transfer, before: seq<Blit>, blits: seq<Blit>, tiles: seq<Tile>, mode: int, x: int, y: int)
    requires blits == before + TileBlits(p, tiles, Selected(mode))
    requires forall k | 0 <= k < |tiles| :: Shows(p, TileBlits(p, tiles, Selected(mode))[k], tiles[k], x, y)
    ensures before <= blits && AllShown(p, mode, blits, |before|, tiles, x, y)
  {
  }

  lemma ImageFits(p: Transfer, width: Word, height: Word, tiles: seq<Tile>)
    requires tiles == ImageTiles(p, width, height)
    ensures forall k | 0 <= k < |tiles| :: Fits(tiles[k])
  {
    GridFits(p.dstX, Wrap(p.dstX + width), p.dstY, Wrap(p.dstY + height));
  }

  lemma AllShow(p: Transfer, tiles: seq<Tile>, m: Memories, x: int, y: int)
    requires forall k | 0 <= k < |tiles| :: Fits(tiles[k])
    ensures forall k | 0 <= k < |tiles| :: Shows(p, TileBlits(p, tiles, m)[k], tiles[k], x, y)
  {
    forall k | 0 <= k < |tiles| ensures Shows(p, TileBlits(p, tiles, m)[k], tiles[k], x, y) {
      TileShows(p, tiles[k], TileBlit(p, tiles[k], m), x, y);
    }
  }

  /** Where a turn of either loop leaves its variable. */
  function NextStart(x: Word, end: Word): Word {
    var right := Wrap(BlockStart(x) + 1024);
    Wrap(x + Wrap((if right < end then right else end) - x))
  }

  function Turn(end: Word): Word -> Word { x => NextStart(x, end) }

  /** The loops leave the block of 1024 below 2^32 alone. */
  predicate LoopEnds(start: Word, length: Word) {
    start >= Wrap(start + length) || Wrap(start + length) <= TWO_32 - 1024
  }

  /** That is when they end. */
  lemma LoopEndsWhen(start: Word, end: Word)
    ensures Stops(Turn(end), start, end) <==> start >= end || end <= TWO_32 - 1024
  {
    if start >= end {
      assert After(Turn(end), start, 0) >= end;
    } else if end <= TWO_32 - 1024 {
      LoopStops(start, end);
    } else {
      forall n: nat ensures After(Turn(end), start, n) < end {
        StaysBelow(start, end, n);
      }
    }
  }

  lemma {:induction false} LoopStops(x: Word, end: Word)
    requires x < end <= TWO_32 - 1024
    ensures Stops(Turn(end), x, end)
    decreases end - x
  {
    var next := Turn(end)(x);
    TurnAdvances(x, end);
    if next < end {
      LoopStops(next, end);
    } else {
      assert After(Turn(end), next, 0) >= end;
    }
    StopsLater(Turn(end), x, end);
  }

  lemma TurnAdvances(x: Word, end: Word)
    requires x < end <= TWO_32 - 1024
    ensures x < NextStart(x, end) <= end
  {
    NextSpan(x, end);
    var hi := if BlockStart(x) + 1024 < end then BlockStart(x) + 1024 else end;
    DivModUnique(hi - x, TWO_32, 0, hi - x);
    DivModUnique(hi, TWO_32, 0, hi);
  }

  lemma {:induction false} StaysBelow(x: Word, end: Word, n: nat)
    requires x < end && end > TWO_32 - 1024
    ensures After(Turn(end), x, n) < end
  {
    if n > 0 {
      StaysBelow(x, end, n - 1);
      LoopNeverEnds(After(Turn(end), x, n - 1), end);
    }
  }

  /** Both loops end: there are no rows, or there is an end to them and to the columns of each. */
  ghost predicate ImageReturns(p: Transfer, width: Word, height: Word) {
    var right, bottom := Wrap(p.dstX + width), Wrap(p.dstY + height);
    p.dstY >= bottom || (Stops(Turn(bottom), p.dstY, bottom) && Stops(Turn(right), p.dstX, right))
  }

  /** `SetTransferImage` returns exactly when its rectangle, if it has rows, ends in neither direction in the block of
    1024 below 2^32 (or has no columns). */
  lemma ImageReturnsWhen(p: Transfer, width: Word, height: Word)
    ensures ImageReturns(p, width, height)
      <==> LoopEnds(p.dstY, height) && (p.dstY < Wrap(p.dstY + height) ==> LoopEnds(p.dstX, width))
  {
    LoopEndsWhen(p.dstX, Wrap(p.dstX + width));
    LoopEndsWhen(p.dstY, Wrap(p.dstY + height));
  }

  /** Otherwise every turn stays below the end. */
  lemma LoopNeverEnds(x: Word, end: Word)
    requires x < end && end > TWO_32 - 1024
    ensures NextStart(x, end) < end
  {
    var next := BlockStart(x) + 1024;
    BlockBounds(x);
    BlockMultiple(x);
    if next < TWO_32 {
      DivModUnique(next, TWO_32, 0, next);
      DivModUnique(next - x, TWO_32, 0, next - x);
    } else {
      DivModUnique(next, TWO_32, 1, 0);
      WrapAdds(0 - x, x);
    }
  }

  lemma BlockMultiple(x: Word)
    ensures BlockStart(x) + 1024 <= TWO_32 && (BlockStart(x) + 1024 < TWO_32 ==> BlockStart(x) + 1024 <= TWO_32 - 1024)
  {
    var q := x / 1024;
    assert x == 1024 * q + x % 1024;
  }

  /** Below that block a turn advances to the end of the block or of the rectangle. */
  lemma NextSpan(x: Word, end: Word)
    requires x < end <= TWO_32 - 1024
    ensures var right := Wrap(BlockStart(x) + 1024); var hi := if right < end then right else end;
      && right == BlockStart(x) + 1024 && x < hi <= end
      && Cut(x, end) == [Span(x, hi)] + Cut(hi, end)
  {
    BlockBounds(x);
    DivModUnique(BlockStart(x) + 1024, TWO_32, 0, BlockStart(x) + 1024);
  }

  lemma EmitsFour(w0: seq<int>, w1: seq<int>, w2: seq<int>, w3: seq<int>, w4: seq<int>,
                  a: seq<Write>, b: seq<Write>, c: seq<Write>, d: seq<Write>)
    requires Emits(w0, w1, a) && Emits(w1, w2, b) && Emits(w2, w3, c) && Emits(w3, w4, d)
    ensures Emits(w0, w4, a + b + c + d)
  {
    EmitsThen(w0, w1, w2, a, b);
    EmitsThen(w0, w2, w3, a + b, c);
    EmitsThen(w0, w3, w4, a + b + c, d);
  }

  /** The four packets of a blit to a linear surface. */
  method PutBlit(context: Context, dst: Word, surface: seq<Word>, copy: seq<Word>, image: seq<Word>)
    requires |surface| == 2 && |copy| == 9 && |image| == 4
    modifies context
    ensures Emits(old(context.words), context.words, ChannelWrites(3, 0x30c, [dst]) + ChannelWrites(3, 0x300, surface)
                                                     + ChannelWrites(6, 0x2fc, copy) + ChannelWrites(6, 0x400, image))
    ensures old(context.Filled()) ==> context.Filled()
  {
    ghost var w0 := context.words;
    context.Begin(20);
    PutPacket(context, 3, 0x30c, [dst]);
    ghost var w1 := context.words;
    PutPacket(context, 3, 0x300, surface);
    ghost var w2 := context.words;
    PutPacket(context, 6, 0x2fc, copy);
    ghost var w3 := context.words;
    PutPacket(context, 6, 0x400, image);
    EmitsFour(w0, w1, w2, w3, context.words, ChannelWrites(3, 0x30c, [dst]), ChannelWrites(3, 0x300, surface),
              ChannelWrites(6, 0x2fc, copy), ChannelWrites(6, 0x400, image));
  }

  method PutTile(context: Context, p: Transfer, destinOffset: Word, point: Word, size: Word, inSize: Word,
                 source: Word, ghost t: Tile)
    requires Fits(t) && destinOffset == DstBlock(p, t) && point == PointWord(t) && size == SizeWord(t)
    requires inSize == SourceData(p, t)[0] && source == SrcBlock(p, t)
    modifies context
    ensures Emits(old(context.words), context.words, TileWrites(p, t))
    ensures old(context.Filled()) ==> context.Filled()
  {
    var surface := [DstFormat(p.bytesPerPixel), PairWord(p.dstPitch, p.dstPitch)];
    var copy := [GCM_TRANSFER_CONVERSION_TRUNCATE, SrcFormat(p.bytesPerPixel), GCM_TRANSFER_OPERATION_SRCCOPY,
                 point, size, point, size, ONE, ONE];
    var image := [inSize, InFormat(p.srcPitch), source, 0];
    assert surface == SurfaceData(p) && copy == CopyData(p, t) && image == SourceData(p, t);
    PutBlit(context, destinOffset, surface, copy, image);
  }

  lemma ClearBlock(x: Word)
    ensures Bits.And(x, 0xffff_fc00) == BlockStart(x)
  {
    Bits.PowersOfTwo();
    assert Bits.Pow2(2) == 4;
    Bits.Pow2Adds(8, 2);
    Bits.ClearLow(x, 32, 10);
  }

  /** The words of one tile as the inner loop computes them. */
  method BlitTile(context: Context, p: Transfer, x: Word, y: Word, width: Word, height: Word, dstLeft: Word,
                  dstTop: Word, ghost t: Tile)
    requires Fits(t) && t == Tile(Span(x, x + width), Span(y, y + height))
    requires dstLeft == BlockStart(x) && dstTop == BlockStart(y)
    modifies context
    ensures Emits(old(context.words), context.words, TileWrites(p, t))
    ensures old(context.Filled()) ==> context.Filled()
  {
    BlockBounds(x);
    BlockBounds(y);
    var point := PackedPair(y - dstTop, x - dstLeft);
    var size := PackedPair(height, width);
    var inSize := PackedPair(height, SafeWidth(width));
    PutTile(context, p, At(p.dstOffset, p.bytesPerPixel, dstLeft, p.dstPitch, dstTop), point, size, inSize,
            At(p.srcOffset, p.bytesPerPixel, p.srcX + x - p.dstX, p.srcPitch, p.srcY + y - p.dstY), t);
  }

  method PackedPair(high: Word, low: Word) returns (w: Word)
    requires high < 0x1_0000 && low < 0x1_0000
    ensures w == Packed(high, low)
  {
    PairPacks(high, low);
    w := PairWord(high, low);
  }

  /** What both loops do with the block that `x` lies in: how much of it is left to cover. */
  method BlockPart(x: Word, end: Word) returns (left: Word, length: Word, ghost behind: Word)
    requires x < end <= TWO_32 - 1024
    ensures left == BlockStart(x) && 0 < length && behind == x + length && behind <= end && behind <= left + 1024
    ensures Cut(x, end) == [Span(x, behind)] + Cut(behind, end)
  {
    left := Bits.And(x, 0xffff_fc00);
    ClearBlock(x);
    NextSpan(x, end);
    var right := Wrap(left + 1024);
    behind := if right < end then right else end;
    length := (if right < end then right as int else end) - x;
  }

  /** The inner loop: one row of tiles. */
  method BlitRow(context: Context, p: Transfer, y: Word, height: Word, dstTop: Word, finalDstX: Word,
                 ghost s: Span, ghost w0: seq<int>, ghost before: seq<Tile>)
    returns (ghost done: seq<Tile>)
    requires p.dstX >= finalDstX || finalDstX <= TWO_32 - 1024
    requires dstTop == BlockStart(y) && height > 0 && y + height < TWO_32 && y + height <= dstTop + 1024
    requires s == Span(y, y + height)
    requires Emits(w0, context.words, GridWrites(Draw(p), before))
    modifies context
    ensures done == before + Row(Cut(p.dstX, finalDstX), s) && Emits(w0, context.words, GridWrites(Draw(p), done))
    ensures old(context.Filled()) ==> context.Filled()
  {
    ghost var left := Cut(p.dstX, finalDstX);
    ghost var all := before + Row(left, s);
    var x := p.dstX;
    done := before;
    while x < finalDstX
      invariant x < finalDstX ==> finalDstX <= TWO_32 - 1024
      invariant left == Cut(x, finalDstX) && LeftOfRow(done, left, s, all)
      invariant Emits(w0, context.words, GridWrites(Draw(p), done))
      invariant old(context.Filled()) ==> context.Filled()
      decreases finalDstX - x
    {
      var dstLeft, width; ghost var behind;
      dstLeft, width, behind := BlockPart(x, finalDstX);
      ghost var t := Tile(Span(x, behind), s);
      ghost var w := context.words;
      BlitTile(context, p, x, y, width, height, dstLeft, dstTop, t);
      DrawnMore(w0, w, context.words, Draw(p), done, t);
      NextTile(done, left, t.x, Cut(behind, finalDstX), s, all);
      done, left := done + [t], Cut(behind, finalDstX);
      x := x + width;
      assert x == behind;
    }
    NothingLeft(done, [], s, all);
  }

  method PutMode(context: Context, mode: Byte)
    modifies context
    ensures Emits(old(context.words), context.words, ModeWrites(mode))
    ensures old(context.Filled()) ==> context.Filled()
  {
    ghost var w0 := context.words;
    context.Begin(6);
    PutPacket(context, 6, 0x184, [ModeData(mode, 1)]);
    ghost var w1 := context.words;
    PutPacket(context, 3, 0x188, [ModeData(mode, 2)]);
    ghost var w2 := context.words;
    PutPacket(context, 6, 0x198, [GCM_CONTEXT_SURFACE2D]);
    EmitsThen(w0, w1, w2, ChannelWrites(6, 0x184, [ModeData(mode, 1)]), ChannelWrites(3, 0x188, [ModeData(mode, 2)]));
    EmitsThen(w0, w2, context.words,
              ChannelWrites(6, 0x184, [ModeData(mode, 1)]) + ChannelWrites(3, 0x188, [ModeData(mode, 2)]),
              ChannelWrites(6, 0x198, [GCM_CONTEXT_SURFACE2D]));
  }

  method SetTransferImage(context: Context, mode: Byte, p: Transfer, width: Word, height: Word)
    requires LoopEnds(p.dstY, height)
    requires p.dstY < Wrap(p.dstY + height) ==> LoopEnds(p.dstX, width)
    modifies context
    ensures Emits(old(context.words), context.words, ImageWrites(mode, p, width, height))
    ensures old(context.Filled()) ==> context.Filled()
  {
    ghost var w0 := context.words;
    PutMode(context, mode);
    ghost var w1 := context.words;
    var finalDstX := Wrap(p.dstX + width);
    var finalDstY := Wrap(p.dstY + height);
    ghost var tiles := Grid(Cut(p.dstX, finalDstX), Cut(p.dstY, finalDstY));
    BlitRows(context, p, finalDstX, finalDstY, tiles);
    AllImageTiles(p, width, height, finalDstX, finalDstY, tiles);
    EmitsThen(w0, w1, context.words, ModeWrites(mode), GridWrites(Draw(p), tiles));
  }

  lemma AllImageTiles(p: Transfer, width: Word, height: Word, right: Word, bottom: Word, tiles: seq<Tile>)
    requires right == Wrap(p.dstX + width) && bottom == Wrap(p.dstY + height)
    requires tiles == Grid(Cut(p.dstX, right), Cut(p.dstY, bottom))
    ensures tiles == ImageTiles(p, width, height)
  {
  }

  /** The outer loop. */
  method BlitRows(context: Context, p: Transfer, finalDstX: Word, finalDstY: Word, ghost tiles: seq<Tile>)
    requires tiles == Grid(Cut(p.dstX, finalDstX), Cut(p.dstY, finalDstY))
    requires p.dstY >= finalDstY || (finalDstY <= TWO_32 - 1024 && (p.dstX >= finalDstX || finalDstX <= TWO_32 - 1024))
    modifies context
    ensures Emits(old(context.words), context.words, GridWrites(Draw(p), tiles))
    ensures old(context.Filled()) ==> context.Filled()
  {
    ghost var w0 := context.words;
    ghost var xs, left := Cut(p.dstX, finalDstX), Cut(p.dstY, finalDstY);
    ghost var done: seq<Tile> := [];
    EmitsNothing(w0);
    var y := p.dstY;
    while y < finalDstY
      invariant y < finalDstY ==> finalDstY <= TWO_32 - 1024 && (p.dstX >= finalDstX || finalDstX <= TWO_32 - 1024)
      invariant left == Cut(y, finalDstY) && LeftOfGrid(done, xs, left, tiles)
      invariant Emits(w0, context.words, GridWrites(Draw(p), done))
      invariant old(context.Filled()) ==> context.Filled()
      decreases finalDstY - y
    {
      var dstTop, height; ghost var below;
      dstTop, height, below := BlockPart(y, finalDstY);
      NextRow(done, xs, left, Span(y, below), Cut(below, finalDstY), tiles);
      done := BlitRow(context, p, y, height, dstTop, finalDstX, Span(y, below), w0, done);
      left := Cut(below, finalDstY);
      y := y + height;
      assert y == below;
    }
    NothingLeft(done, xs, Span(0, 0), tiles);
  }
}
