/** The block branch of `SetConvertSwizzleFormat`: a linear source rectangle copied into a swizzled surface, one
  blit for every 1024 by 1024 block it touches. */
module RsxSwizzle {
  import opened Arith
  import Bits
  import opened RsxStream
  import opened RsxDraw
  import opened RsxBlit
  import opened RsxImage
  import opened Morton
  import opened SwizzleAddress
  import opened Words

  /** The arguments once 8- and 16-byte pixels have been made two or four 4-byte pixels; `wl` and `hl` are the
    base-two logarithms of the destination's size. */
  datatype Conversion = Conversion(dstOffset: Word, wl: nat, hl: nat, dstX: Word, dstY: Word,
                                   srcOffset: Word, srcPitch: Word, srcX: Word, srcY: Word, bytesPerPixel: Word)

  const MAX_DIM := 10  // NV_SURFACE_SWIZZLED_MAX_DIM

  // ----- what a swizzled blit copies

  /** The first byte that pixel (i, j) of the output rectangle goes to: inside the blit's own surface of
    2^u by 2^v pixels. */
  function SwizzledByte(b: Blit, i: int, j: int): Word
    requires b.format >= 0 && Low(b.outPoint) + i >= 0 && High(b.outPoint) + j >= 0
  {
    Wrap(b.dst + PixelBytes(b) * Address(Low(b.outPoint) + i, High(b.outPoint) + j, b.format / 0x1_0000 % 256,
                                         b.format / 0x100_0000))
  }

  // ----- the words of one blit

  function SrcScaleFormat(bytesPerPixel: Word): Word { if bytesPerPixel == 2 then 7 else 3 }
  function DstSurfaceFormat(bytesPerPixel: Word): Word { if bytesPerPixel == 2 then 4 else 0xa }

  function FormatFields(v: nat, u: nat, format: nat): nat { v * 0x100_0000 + u * 0x1_0000 + format }

  function FormatWord(p: Conversion): nat {
    FormatFields(Min(p.hl, MAX_DIM), Min(p.wl, MAX_DIM), DstSurfaceFormat(p.bytesPerPixel))
  }

  function SwizzleInFormat(srcPitch: Word): Word {
    Or32(Or32(Shl(GCM_TRANSFER_INTERPOLATOR_NEAREST, 24), Shl(GCM_TRANSFER_ORIGIN_CORNER, 16)), srcPitch)
  }

  /** The code adds the shift from destination to source coordinates to the source address once. */
  function ShiftedSource(p: Conversion): Word {
    At(p.srcOffset, p.bytesPerPixel, p.srcX - p.dstX, p.srcPitch, p.srcY - p.dstY)
  }

  function SwizzleSurface(p: Conversion, t: Tile): seq<int> {
    [FormatWord(p), SurfaceStart(p, CornerOffset(p, t))]
  }

  function SurfaceStart(p: Conversion, corner: int): Word {
    Wrap(p.dstOffset + p.bytesPerPixel * corner)
  }

  function CornerOffset(p: Conversion, t: Tile): Word {
    var left, top := BlockStart(t.x.lo), BlockStart(t.y.lo);
    if 0 <= left < TWO_32 && 0 <= top < TWO_32 && Min(p.wl, p.hl) <= 16 then BlockOffset(left, top, p.wl, p.hl) else 0
  }

  function SwizzleCopy(p: Conversion, t: Tile): seq<int> {
    [GCM_TRANSFER_CONVERSION_TRUNCATE, SrcScaleFormat(p.bytesPerPixel), GCM_TRANSFER_OPERATION_SRCCOPY,
     PointWord(t), SizeWord(t), PointWord(t), SizeWord(t), ONE, ONE]
  }

  function SwizzleSource(p: Conversion, t: Tile): seq<int> {
    [Packed(t.y.hi - t.y.lo, SafeWidth(t.x.hi - t.x.lo)), SwizzleInFormat(p.srcPitch),
     At(ShiftedSource(p), p.bytesPerPixel, t.x.lo, p.srcPitch, t.y.lo), 0]
  }

  function SwizzleTile(p: Conversion, t: Tile): seq<Write> {
    ChannelWrites(4, 0x300, SwizzleSurface(p, t)) + ChannelWrites(6, 0x2fc, SwizzleCopy(p, t))
    + ChannelWrites(6, 0x400, SwizzleSource(p, t))
  }

  function DrawSwizzled(p: Conversion): Tile -> seq<Write> {
    t => SwizzleTile(p, t)
  }

  // ----- the engine runs them

  function SwizzleBlit(p: Conversion, t: Tile, m: Memories): Blit {
    Blit(GCM_CONTEXT_SWIZZLE2D, SwizzleSurface(p, t)[0], 0, SwizzleSurface(p, t)[1],
         SwizzleCopy(p, t)[0], SwizzleCopy(p, t)[1], SwizzleCopy(p, t)[2], SwizzleCopy(p, t)[3], SwizzleCopy(p, t)[4],
         SwizzleCopy(p, t)[5], SwizzleCopy(p, t)[6], SwizzleCopy(p, t)[7], SwizzleCopy(p, t)[8],
         SwizzleSource(p, t)[0], SwizzleSource(p, t)[1], SwizzleSource(p, t)[2], SwizzleSource(p, t)[3], m)
  }

  /** The engine is set to swizzled surfaces, and to these memories. */
  predicate SwizzledSet(regs: Registers, m: Memories) {
    Get(regs, 6, 0x198) == GCM_CONTEXT_SWIZZLE2D && SwizzledMemories(regs) == m
  }

  lemma SwizzledRun(surface: seq<int>, copy: seq<int>, source: seq<int>, chip: Chip, m: Memories)
    requires |surface| == 2 && |copy| == 9 && |source| == 4
    requires SwizzledSet(chip.regs, m)
    ensures var writes := ChannelWrites(4, 0x300, surface) + ChannelWrites(6, 0x2fc, copy)
                          + ChannelWrites(6, 0x400, source);
      && SwizzledSet(Run(writes, chip).regs, m)
      && Run(writes, chip).blits == chip.blits
           + [Blit(GCM_CONTEXT_SWIZZLE2D, surface[0], 0, surface[1],
                   copy[0], copy[1], copy[2], copy[3], copy[4], copy[5], copy[6], copy[7], copy[8],
                   source[0], source[1], source[2], source[3], m)]
  {
    var a, b, c := ChannelWrites(4, 0x300, surface), ChannelWrites(6, 0x2fc, copy), ChannelWrites(6, 0x400, source);
    RunAppend(a + b, c, chip);
    RunAppend(a, b, chip);
    RunPacket(4, 0x300, surface, chip);
    var r1 := Stored(chip.regs, 4, 0x300, surface);
    RunPacket(6, 0x2fc, copy, Chip(r1, chip.blits));
    var r2 := Stored(r1, 6, 0x2fc, copy);
    RunSource(source, Chip(r2, chip.blits));
    SwizzledRegisters(chip.regs, r1, r2, Stored(r2, 6, 0x400, source), surface, copy, source, m);
  }

  lemma SwizzledRegisters(r0: Registers, r1: Registers, r2: Registers, r3: Registers,
                          surface: seq<int>, copy: seq<int>, source: seq<int>, m: Memories)
    requires |surface| == 2 && |copy| == 9 && |source| == 4 && SwizzledSet(r0, m)
    requires r1 == Stored(r0, 4, 0x300, surface) && r2 == Stored(r1, 6, 0x2fc, copy)
      && r3 == Stored(r2, 6, 0x400, source)
    ensures SwizzledSet(r3, m)
    ensures Launched(r3) == Blit(GCM_CONTEXT_SWIZZLE2D, surface[0], 0, surface[1],
                                 copy[0], copy[1], copy[2], copy[3], copy[4], copy[5], copy[6], copy[7], copy[8],
                                 source[0], source[1], source[2], source[3], m)
  {
    ThroughThree(r0, r1, r2, r3, surface, copy, source, 6, 0x198);
    ThroughThree(r0, r1, r2, r3, surface, copy, source, 6, 0x184);
    ThroughThree(r0, r1, r2, r3, surface, copy, source, 4, 0x184);
    ThroughThree(r0, r1, r2, r3, surface, copy, source, 4, 0x300);
    ThroughThree(r0, r1, r2, r3, surface, copy, source, 4, 0x304);
    forall k: nat | k < 9 ensures Get(r3, 6, 0x2fc + 4 * k) == copy[k] {
      ThroughThree(r0, r1, r2, r3, surface, copy, source, 6, 0x2fc + 4 * k);
    }
    forall k: nat | k < 4 ensures Get(r3, 6, 0x400 + 4 * k) == source[k] {
      ThroughThree(r0, r1, r2, r3, surface, copy, source, 6, 0x400 + 4 * k);
    }
    assert Get(r3, 6, 0x2fc + 4 * 0) == copy[0] && Get(r3, 6, 0x2fc + 4 * 1) == copy[1]
      && Get(r3, 6, 0x2fc + 4 * 2) == copy[2];
    assert Get(r3, 6, 0x2fc + 4 * 3) == copy[3] && Get(r3, 6, 0x2fc + 4 * 4) == copy[4]
      && Get(r3, 6, 0x2fc + 4 * 5) == copy[5];
    assert Get(r3, 6, 0x2fc + 4 * 6) == copy[6] && Get(r3, 6, 0x2fc + 4 * 7) == copy[7]
      && Get(r3, 6, 0x2fc + 4 * 8) == copy[8];
    assert Get(r3, 6, 0x400 + 4 * 0) == source[0] && Get(r3, 6, 0x400 + 4 * 1) == source[1];
    assert Get(r3, 6, 0x400 + 4 * 2) == source[2] && Get(r3, 6, 0x400 + 4 * 3) == source[3];
  }

  lemma ThroughThree(r0: Registers, r1: Registers, r2: Registers, r3: Registers,
                     surface: seq<int>, copy: seq<int>, source: seq<int>, c: nat, r: nat)
    requires |surface| == 2 && |copy| == 9 && |source| == 4
    requires r1 == Stored(r0, 4, 0x300, surface) && r2 == Stored(r1, 6, 0x2fc, copy)
      && r3 == Stored(r2, 6, 0x400, source)
    ensures Get(r3, c, r) ==
      if c == 6 && 0x400 <= r < 0x410 && r % 4 == 0 then source[(r - 0x400) / 4]
      else if c == 6 && 0x2fc <= r < 0x320 && r % 4 == 0 then copy[(r - 0x2fc) / 4]
      else if c == 4 && 0x300 <= r < 0x308 && r % 4 == 0 then surface[(r - 0x300) / 4]
      else Get(r0, c, r)
  {
    StoredGet(r0, 4, 0x300, surface, c, r);
    StoredGet(r1, 6, 0x2fc, copy, c, r);
    StoredGet(r2, 6, 0x400, source, c, r);
  }

  function SwizzleBlits(p: Conversion, tiles: seq<Tile>, m: Memories): seq<Blit> {
    seq(|tiles|, k requires 0 <= k < |tiles| => SwizzleBlit(p, tiles[k], m))
  }

  lemma SwizzleBlitsFirst(p: Conversion, tiles: seq<Tile>, before: seq<Blit>, m: Memories)
    requires tiles != []
    ensures before + [SwizzleBlit(p, tiles[0], m)] + SwizzleBlits(p, tiles[1..], m)
         == before + SwizzleBlits(p, tiles, m)
  {
  }

  /** One blit for each tile, in order. */
  lemma {:induction false} SwizzleRun(p: Conversion, tiles: seq<Tile>, chip: Chip, m: Memories)
    requires SwizzledSet(chip.regs, m)
    ensures Run(GridWrites(DrawSwizzled(p), tiles), chip).blits == chip.blits + SwizzleBlits(p, tiles, m)
  {
    if tiles == [] {
      assert chip.blits + SwizzleBlits(p, tiles, m) == chip.blits;
    } else {
      var t := tiles[0];
      SwizzledRun(SwizzleSurface(p, t), SwizzleCopy(p, t), SwizzleSource(p, t), chip, m);
      var next := Run(SwizzleTile(p, t), chip);
      RunAppend(SwizzleTile(p, t), GridWrites(DrawSwizzled(p), tiles[1..]), chip);
      SwizzleRun(p, tiles[1..], next, m);
      SwizzleBlitsFirst(p, tiles, chip.blits, m);
    }
  }

  // ----- what they copy

  lemma FormatReads(v: nat, u: nat, format: nat)
    requires v < 256 && u < 256 && format < 0x1_0000
    ensures var w := FormatFields(v, u, format);
      w % 0x1_0000 == format && w / 0x1_0000 % 256 == u && w / 0x100_0000 == v
  {
    var w := FormatFields(v, u, format);
    DivModUnique(w, 0x1_0000, v * 256 + u, format);
    DivModUnique(v * 256 + u, 256, v, u);
    DivModUnique(w, 0x100_0000, v, u * 0x1_0000 + format);
  }

  lemma SwizzleInFormatFields(srcPitch: Word)
    ensures Low(SwizzleInFormat(srcPitch)) == srcPitch % 0x1_0000
    ensures High(SwizzleInFormat(srcPitch)) == Bits.Or(GCM_TRANSFER_ORIGIN_CORNER, srcPitch / 0x1_0000)
  {
    OrHalves(GCM_TRANSFER_ORIGIN_CORNER, srcPitch / 0x1_0000, srcPitch % 0x1_0000, srcPitch,
             GCM_TRANSFER_ORIGIN_CORNER * 0x1_0000);
    SwizzleInFormatIs(srcPitch);
    HalvesOf(SwizzleInFormat(srcPitch), Bits.Or(GCM_TRANSFER_ORIGIN_CORNER, srcPitch / 0x1_0000), srcPitch % 0x1_0000);
  }

  lemma SwizzleInFormatIs(srcPitch: Word)
    ensures SwizzleInFormat(srcPitch) == Bits.Or(GCM_TRANSFER_ORIGIN_CORNER * 0x1_0000, srcPitch)
  {
    Shifts();
    DivModUnique(GCM_TRANSFER_ORIGIN_CORNER * 0x1_0000, TWO_32, 0, GCM_TRANSFER_ORIGIN_CORNER * 0x1_0000);
    assert Shl(GCM_TRANSFER_INTERPOLATOR_NEAREST, 24) == 0;
  }

  /** The formats written stand for the pixel size. */
  lemma SwizzleFormats(p: Conversion, t: Tile, b: Blit)
    requires Supported(p.bytesPerPixel) && b == SwizzleBlit(p, t, b.memories)
    ensures SamePixels(b) && SameColours(b) && PixelBytes(b) == p.bytesPerPixel
  {
    FormatReads(Min(p.hl, MAX_DIM), Min(p.wl, MAX_DIM), DstSurfaceFormat(p.bytesPerPixel));
  }

  lemma SwizzleTileCopies(p: Conversion, t: Tile, b: Blit, x: int, y: int)
    requires Fits(t) && Supported(p.bytesPerPixel) && b == SwizzleBlit(p, t, b.memories)
    ensures Copies(b, x - t.x.lo, y - t.y.lo) <==> KeepsPlain(p.srcPitch) && InTile(t, x, y)
  {
    SwizzleFormats(p, t, b);
    SwizzleCopiesTile(p, t, b);
    SwizzleInFormatFields(p.srcPitch);
    OrTwo(p.srcPitch / 0x1_0000);
    BlitCopies(b, t, x, y, x - t.x.lo, y - t.y.lo);
  }

  lemma SwizzleCopiesTile(p: Conversion, t: Tile, b: Blit)
    requires Fits(t) && b == SwizzleBlit(p, t, b.memories)
    ensures CopiesTile(b, t)
  {
    SwizzleSizes(p, t, b);
    SizeFields(t);
    InSizeAtLeast(t);
  }

  lemma SwizzleSizes(p: Conversion, t: Tile, b: Blit)
    requires b == SwizzleBlit(p, t, b.memories)
    ensures b.operation == GCM_TRANSFER_OPERATION_SRCCOPY && b.inPoint == 0 && b.ratioX == ONE && b.ratioY == ONE
    ensures b.conversion == GCM_TRANSFER_CONVERSION_TRUNCATE
    ensures b.clipPoint == b.outPoint && b.clipSize == b.outSize == SizeWord(t)
    ensures b.inSize == Packed(t.y.hi - t.y.lo, SafeWidth(t.x.hi - t.x.lo))
  {
  }

  lemma InSizeAtLeast(t: Tile)
    requires Fits(t)
    ensures var w := Packed(t.y.hi - t.y.lo, SafeWidth(t.x.hi - t.x.lo));
      Low(w) >= t.x.hi - t.x.lo && High(w) == t.y.hi - t.y.lo
  {
    BlockBounds(t.x.lo);
    BlockBounds(t.y.lo);
    var height, width := t.y.hi - t.y.lo, SafeWidth(t.x.hi - t.x.lo);
    PackedParts(Packed(height, width), height, width);
  }

  lemma SwizzleTileSource(p: Conversion, t: Tile, b: Blit, x: int, y: int)
    requires Fits(t) && Supported(p.bytesPerPixel) && b == SwizzleBlit(p, t, b.memories)
    ensures SourceByte(b, x - t.x.lo, y - t.y.lo)
         == At(p.srcOffset, p.bytesPerPixel, p.srcX + x - p.dstX, p.srcPitch, p.srcY + y - p.dstY)
      <==> LineRight(p.srcPitch, p.srcPitch % 0x1_0000, y - t.y.lo)
  {
    SwizzleFormats(p, t, b);
    SwizzleInFormatFields(p.srcPitch);
    BlitReads(p, t, b, x, y, x - t.x.lo, y - t.y.lo);
  }

  lemma BlitReads(p: Conversion, t: Tile, b: Blit, x: int, y: int, i: int, j: int)
    requires i == x - t.x.lo && j == y - t.y.lo && SamePixels(b) && PixelBytes(b) == p.bytesPerPixel
    requires Low(b.inFormat) == p.srcPitch % 0x1_0000 && b.ratioX == ONE && b.ratioY == ONE
    requires b.src == At(ShiftedSource(p), p.bytesPerPixel, t.x.lo, p.srcPitch, t.y.lo)
    ensures SourceByte(b, i, j) == At(p.srcOffset, p.bytesPerPixel, p.srcX + x - p.dstX, p.srcPitch,
                                      p.srcY + y - p.dstY)
      <==> LineRight(p.srcPitch, p.srcPitch % 0x1_0000, j)
  {
    RatioOne(i);
    RatioOne(j);
    AtPitch(ShiftedSource(p), p.bytesPerPixel, t.x.lo, i, x, p.srcPitch, Low(b.inFormat), t.y.lo, j, y);
    AtShifts(p.srcOffset, p.bytesPerPixel, p.srcX - p.dstX, x, p.srcX + x - p.dstX,
             p.srcPitch, p.srcY - p.dstY, y, p.srcY + y - p.dstY);
  }

  lemma BlockPower()
    ensures Bits.Pow2(MAX_DIM) == 1024
  {
    Bits.PowersOfTwo();
    assert Bits.Pow2(2) == 4;
    Bits.Pow2Adds(8, 2);
  }

  lemma BlockIsMultiple(x: nat)
    ensures 0 <= BlockStart(x) <= x && Multiple(BlockStart(x), MAX_DIM)
  {
    var q := x / 1024;
    BlockPower();
    MultipleOfPower(q, MAX_DIM);
    assert BlockStart(x) == q * 1024;
  }

  /** The formula is right for the corner of the tile's block: the shorter side has at most twelve bits, or the corner
    has nothing in the bits of both coordinates beyond. */
  predicate GoodBlock(wl: nat, hl: nat, t: Tile) {
    var n, left, top := Min(wl, hl), BlockStart(t.x.lo), BlockStart(t.y.lo);
    n <= 12 || (left % Bits.Pow2(n) < Bits.Pow2(12) && top % Bits.Pow2(n) < Bits.Pow2(12))
  }

  predicate GoodCorner(p: Conversion, t: Tile) { GoodBlock(p.wl, p.hl, t) }

  /** The destination byte of pixel (x, y), copied by a blit whose tile begins at (x0, y0), is at the pixel's place
    in the whole swizzled surface. */
  ghost predicate Swizzles(p: Conversion, b: Blit, x0: int, y0: int, x: int, y: int) {
    && 0 <= x && 0 <= y && b.format >= 0 && Low(b.outPoint) + (x - x0) >= 0 && High(b.outPoint) + (y - y0) >= 0
    && SwizzledByte(b, x - x0, y - y0) == Wrap(p.dstOffset + p.bytesPerPixel * Address(x, y, p.wl, p.hl))
  }

  /** It is so for all pixels of a tile with a good corner, and for none of a tile with a bad one. */
  lemma SwizzleTileMoves(p: Conversion, t: Tile, b: Blit, x: int, y: int)
    requires Fits(t) && p.wl + p.hl <= 31 && InTile(t, x, y) && t.x.hi <= Bits.Pow2(p.wl) && t.y.hi <= Bits.Pow2(p.hl)
    requires Supported(p.bytesPerPixel) && b == SwizzleBlit(p, t, b.memories)
    ensures Swizzles(p, b, t.x.lo, t.y.lo, x, y) <==> GoodCorner(p, t)
  {
    var corner, address := TilePlaced(p, t, b, x, y);
    SwizzledMoves(p, b, BlockStart(t.x.lo), BlockStart(t.y.lo), t.x.lo, t.y.lo, x, y, corner, address);
  }

  /** The blit's surface begins at the place computed for its block's corner, at or before its address, and the
    pixel's address is that address plus the one inside. */
  ghost predicate Placed(p: Conversion, b: Blit, left: int, top: int, x0: int, y0: int, x: int, y: int, corner: int,
                         address: int) {
    && Low(b.outPoint) == x0 - left && High(b.outPoint) == y0 - top && 0 <= left <= x && 0 <= top <= y && b.format >= 0
    && b.format / 0x1_0000 % 256 == Min(p.wl, MAX_DIM) && b.format / 0x100_0000 == Min(p.hl, MAX_DIM)
    && PixelBytes(b) == p.bytesPerPixel && b.dst == SurfaceStart(p, corner)
    && 0 <= address - corner < 0x4000_0000 && AtCorner(p.wl, p.hl, left, top, x, y, address)
  }

  ghost predicate AtCorner(wl: nat, hl: nat, left: int, top: int, x: int, y: int, corner: int) {
    && 0 <= left <= x && 0 <= top <= y
    && Address(x, y, wl, hl) == corner + Address(x - left, y - top, Min(wl, MAX_DIM), Min(hl, MAX_DIM))
  }

  lemma TilePlaced(p: Conversion, t: Tile, b: Blit, x: int, y: int) returns (corner: int, address: int)
    requires Fits(t) && p.wl + p.hl <= 31 && InTile(t, x, y) && t.x.hi <= Bits.Pow2(p.wl) && t.y.hi <= Bits.Pow2(p.hl)
    requires Supported(p.bytesPerPixel) && b == SwizzleBlit(p, t, b.memories)
    ensures Placed(p, b, BlockStart(t.x.lo), BlockStart(t.y.lo), t.x.lo, t.y.lo, x, y, corner, address)
    ensures corner == address <==> GoodCorner(p, t)
  {
    SwizzleFormats(p, t, b);
    SwizzleFields(p, t, b);
    corner, address := Corner(p, t, b, x, y);
  }

  lemma Corner(p: Conversion, t: Tile, b: Blit, x: int, y: int) returns (corner: int, address: int)
    requires b == SwizzleBlit(p, t, b.memories)
    requires Fits(t) && p.wl + p.hl <= 31 && InTile(t, x, y) && t.x.hi <= Bits.Pow2(p.wl) && t.y.hi <= Bits.Pow2(p.hl)
    ensures b.dst == SurfaceStart(p, corner) && 0 <= address - corner < 0x4000_0000
    ensures AtCorner(p.wl, p.hl, BlockStart(t.x.lo), BlockStart(t.y.lo), x, y, address)
    ensures corner == address <==> GoodCorner(p, t)
  {
    corner := CornerOffset(p, t);
    address := CornerAddress(p, t, x, y);
  }

  lemma CornerAddress(p: Conversion, t: Tile, x: int, y: int) returns (address: int)
    requires Fits(t) && p.wl + p.hl <= 31 && InTile(t, x, y) && t.x.hi <= Bits.Pow2(p.wl) && t.y.hi <= Bits.Pow2(p.hl)
    ensures AtCorner(p.wl, p.hl, BlockStart(t.x.lo), BlockStart(t.y.lo), x, y, address)
    ensures 0 <= address - CornerOffset(p, t) < 0x4000_0000 && (CornerOffset(p, t) == address <==> GoodCorner(p, t))
  {
    var left, top := BlockStart(t.x.lo), BlockStart(t.y.lo);
    address := InsideAddress(p.wl, p.hl, t.x.lo, t.y.lo, left, top, x, y);
    assert CornerOffset(p, t) == BlockOffset(left, top, p.wl, p.hl);
  }

  lemma SwizzleFields(p: Conversion, t: Tile, b: Blit)
    requires Fits(t) && b == SwizzleBlit(p, t, b.memories)
    ensures
      && Low(b.outPoint) == t.x.lo - BlockStart(t.x.lo) && High(b.outPoint) == t.y.lo - BlockStart(t.y.lo)
      && b.format >= 0 && b.format / 0x1_0000 % 256 == Min(p.wl, MAX_DIM) && b.format / 0x100_0000 == Min(p.hl, MAX_DIM)
  {
    PointFields(t);
    FormatReads(Min(p.hl, MAX_DIM), Min(p.wl, MAX_DIM), DstSurfaceFormat(p.bytesPerPixel));
  }

  lemma SwizzledMoves(p: Conversion, b: Blit, left: int, top: int, x0: int, y0: int, x: int, y: int, corner: int,
                      address: int)
    requires Placed(p, b, left, top, x0, y0, x, y, corner, address) && Supported(p.bytesPerPixel)
    ensures Swizzles(p, b, x0, y0, x, y) <==> corner == address
  {
    SwizzledAt(p, b, left, top, x - x0, y - y0, x, y, corner, address);
  }

  lemma SwizzledAt(p: Conversion, b: Blit, left: int, top: int, i: int, j: int, x: int, y: int, corner: int,
                   address: int)
    requires Placed(p, b, left, top, x - i, y - j, x, y, corner, address) && Supported(p.bytesPerPixel)
    ensures SwizzledByte(b, i, j) == Wrap(p.dstOffset + p.bytesPerPixel * Address(x, y, p.wl, p.hl))
      <==> corner == address
  {
    assert Low(b.outPoint) + i == x - left;
    assert High(b.outPoint) + j == y - top;
    var inside := Address(x - left, y - top, Min(p.wl, MAX_DIM), Min(p.hl, MAX_DIM));
    AddressShifts(p.dstOffset, p.bytesPerPixel, corner, inside, corner + inside);
    PlacesDiffer(p.dstOffset, p.bytesPerPixel, corner + inside, address + inside);
  }

  /** Addresses less than 1 GB apart belong to different bytes. */
  lemma PlacesDiffer(base: int, bytes: Word, a: int, b: int)
    requires 0 <= b - a < 0x4000_0000 && Supported(bytes)
    ensures Wrap(base + bytes * a) == Wrap(base + bytes * b) <==> a == b
  {
    var e := bytes * b - bytes * a;
    assert 0 <= e < TWO_32 && (e == 0 <==> a == b) by {
      if bytes == 2 {
        assert e == 2 * (b - a);
      } else {
        assert e == 4 * (b - a);
      }
    }
    WrapsAlike(base + bytes * a, e);
    DivModUnique(e, TWO_32, 0, e);
  }

  lemma AddressShifts(base: int, bytes: int, corner: int, inside: int, all: int)
    requires all == corner + inside
    ensures Wrap(Wrap(base + bytes * corner) + bytes * inside) == Wrap(base + bytes * all)
  {
    assert bytes * all == bytes * corner + bytes * inside;
    WrapAdds(base + bytes * corner, bytes * inside);
  }

  lemma InsideAddress(wl: nat, hl: nat, x0: nat, y0: nat, left: int, top: int, x: int, y: int) returns (address: int)
    requires wl + hl <= 31 && left == BlockStart(x0) && top == BlockStart(y0)
    requires x0 <= x < left + 1024 && y0 <= y < top + 1024 && x < Bits.Pow2(wl) && y < Bits.Pow2(hl)
    ensures 0 <= left < TWO_32 && 0 <= top < TWO_32 && AtCorner(wl, hl, left, top, x, y, address) && Min(wl, hl) <= 16
    ensures 0 <= address - BlockOffset(left, top, wl, hl) < 0x4000_0000
    ensures var n := Min(wl, hl);
      BlockOffset(left, top, wl, hl) == address
      <==> n <= 12 || (left % Bits.Pow2(n) < Bits.Pow2(12) && top % Bits.Pow2(n) < Bits.Pow2(12))
  {
    CornerFits(wl, x0, left, x);
    CornerFits(hl, y0, top, y);
    address := Address(left, top, wl, hl);
    OffsetIsAddress(left, top, wl, hl);
    OffsetFallsShort(left, top, wl, hl);
    CornerAndInside(left, top, x, y, wl, hl, address);
  }

  lemma CornerFits(l: nat, x0: nat, left: int, x: int)
    requires l <= 31 && left == BlockStart(x0) && x0 <= x < Bits.Pow2(l)
    ensures 0 <= left <= x && left < TWO_32 && Multiple(left, MAX_DIM)
  {
    BlockIsMultiple(x0);
    SmallPower(l);
  }

  lemma CornerAndInside(left: nat, top: nat, x: nat, y: nat, wl: nat, hl: nat, corner: nat)
    requires Multiple(left, MAX_DIM) && Multiple(top, MAX_DIM) && left <= x < left + 1024 && top <= y < top + 1024
    requires x < Bits.Pow2(wl) && y < Bits.Pow2(hl) && corner == Address(left, top, wl, hl)
    ensures AtCorner(wl, hl, left, top, x, y, corner)
  {
    BlockPower();
    ShiftedAddress(left, x - left, top, y - top, x, y, wl, hl, MAX_DIM);
  }

  lemma ShiftedAddress(left: nat, dx: nat, top: nat, dy: nat, x: nat, y: nat, wl: nat, hl: nat, d: nat)
    requires Multiple(left, d) && Multiple(top, d) && dx < Bits.Pow2(d) && dy < Bits.Pow2(d)
    requires x == left + dx && x < Bits.Pow2(wl) && y == top + dy && y < Bits.Pow2(hl)
    ensures Address(x, y, wl, hl) == Address(left, top, wl, hl) + Address(dx, dy, Min(wl, d), Min(hl, d))
  {
    var corner, inside := Address(left, top, wl, hl), Address(dx, dy, Min(wl, d), Min(hl, d));
    assert Address(x, y, wl, hl) == corner + inside by {
      assert left + dx == x;
      assert top + dy == y;
      BlockAddress(left, dx, top, dy, wl, hl, d);
    }
  }

  // ----- the whole conversion

  function SwizzleModeWrites(mode: int): seq<Write> {
    ChannelWrites(4, 0x184, [ModeData(mode, 2)]) + ChannelWrites(6, 0x184, [ModeData(mode, 1)])
    + ChannelWrites(6, 0x198, [GCM_CONTEXT_SWIZZLE2D])
  }

  function SwizzleTiles(p: Conversion, width: Word, height: Word): seq<Tile> {
    Grid(Cut(p.dstX, Wrap(p.dstX + width)), Cut(p.dstY, Wrap(p.dstY + height)))
  }

  function SwizzleWrites(mode: int, p: Conversion, width: Word, height: Word): seq<Write> {
    SwizzleModeWrites(mode) + GridWrites(DrawSwizzled(p), SwizzleTiles(p, width, height))
  }

  lemma SwizzleModeRun(mode: int, chip: Chip)
    ensures Run(SwizzleModeWrites(mode), chip).blits == chip.blits
    ensures SwizzledSet(Run(SwizzleModeWrites(mode), chip).regs, Selected(mode))
  {
    var a, b, c := [ModeData(mode, 2)], [ModeData(mode, 1)], [GCM_CONTEXT_SWIZZLE2D];
    RunAppend(ChannelWrites(4, 0x184, a) + ChannelWrites(6, 0x184, b), ChannelWrites(6, 0x198, c), chip);
    RunAppend(ChannelWrites(4, 0x184, a), ChannelWrites(6, 0x184, b), chip);
    RunPacket(4, 0x184, a, chip);
    var r1 := Stored(chip.regs, 4, 0x184, a);
    RunPacket(6, 0x184, b, Chip(r1, chip.blits));
    var r2 := Stored(r1, 6, 0x184, b);
    RunPacket(6, 0x198, c, Chip(r2, chip.blits));
    StoredGet(r2, 6, 0x198, c, 6, 0x198);
    StoredGet(r2, 6, 0x198, c, 6, 0x184);
    StoredGet(r2, 6, 0x198, c, 4, 0x184);
  }

  lemma ConversionRun(mode: int, p: Conversion, width: Word, height: Word, chip: Chip)
    ensures Run(SwizzleWrites(mode, p, width, height), chip).blits
      == chip.blits + SwizzleBlits(p, SwizzleTiles(p, width, height), Selected(mode))
  {
    var tiles := SwizzleTiles(p, width, height);
    RunAppend(SwizzleModeWrites(mode), GridWrites(DrawSwizzled(p), tiles), chip);
    SwizzleModeRun(mode, chip);
    SwizzleRun(p, tiles, Run(SwizzleModeWrites(mode), chip), Selected(mode));
  }

  /** The rectangle lies inside the surface. */
  predicate Inside(p: Conversion, width: Word, height: Word) {
    p.wl <= 31 && p.hl <= 31 && p.dstX + width <= Bits.Pow2(p.wl) && p.dstY + height <= Bits.Pow2(p.hl)
  }

  /** The blit copies the pixel exactly when its tile holds it, to its place in the swizzled surface exactly when the
    tile's corner is good, and from its place in the source on all lines that the pitch read leaves where they are. */
  ghost predicate Converts(p: Conversion, b: Blit, t: Tile, x: int, y: int) {
    && PixelBytes(b) == p.bytesPerPixel && SameColours(b)
    && (Copies(b, x - t.x.lo, y - t.y.lo) <==> KeepsPlain(p.srcPitch) && InTile(t, x, y))
    && (InTile(t, x, y) ==> (Swizzles(p, b, t.x.lo, t.y.lo, x, y) <==> GoodCorner(p, t)))
    && (SourceByte(b, x - t.x.lo, y - t.y.lo)
        == At(p.srcOffset, p.bytesPerPixel, p.srcX + x - p.dstX, p.srcPitch, p.srcY + y - p.dstY)
        <==> LineRight(p.srcPitch, p.srcPitch % 0x1_0000, y - t.y.lo))
  }

  lemma TileConverts(p: Conversion, t: Tile, b: Blit, x: int, y: int)
    requires Fits(t) && p.wl + p.hl <= 31 && Supported(p.bytesPerPixel)
    requires t.x.hi <= Bits.Pow2(p.wl) && t.y.hi <= Bits.Pow2(p.hl) && b == SwizzleBlit(p, t, b.memories)
    ensures Converts(p, b, t, x, y)
  {
    SwizzleFormats(p, t, b);
    SwizzleTileCopies(p, t, b, x, y);
    SwizzleTileSource(p, t, b, x, y);
    if InTile(t, x, y) {
      SwizzleTileMoves(p, t, b, x, y);
    }
  }

  lemma EndsPlain(p: Conversion, width: Word, height: Word)
    requires Inside(p, width, height)
    ensures Wrap(p.dstX + width) == p.dstX + width && Wrap(p.dstY + height) == p.dstY + height
  {
    SmallPower(p.wl);
    SmallPower(p.hl);
    DivModUnique(p.dstX + width, TWO_32, 0, p.dstX + width);
    DivModUnique(p.dstY + height, TWO_32, 0, p.dstY + height);
  }

  lemma TilesInside(p: Conversion, width: Word, height: Word)
    requires Inside(p, width, height)
    ensures forall k | 0 <= k < |SwizzleTiles(p, width, height)| ::
              var t := SwizzleTiles(p, width, height)[k];
              Fits(t) && t.x.hi <= Bits.Pow2(p.wl) && t.y.hi <= Bits.Pow2(p.hl)
  {
    var right, bottom := Wrap(p.dstX + width), Wrap(p.dstY + height);
    EndsPlain(p, width, height);
    var xs, ys := Cut(p.dstX, right), Cut(p.dstY, bottom);
    GridFits(p.dstX, right, p.dstY, bottom);
    forall k | 0 <= k < |Grid(xs, ys)| ensures Grid(xs, ys)[k].x.hi <= right && Grid(xs, ys)[k].y.hi <= bottom {
      var i, j := GridTile(xs, ys, k);
      CutInBlocks(p.dstX, right, i);
      CutInBlocks(p.dstY, bottom, j);
    }
  }

  /** The blits from place `from` on do their part for the tiles, one for one. */
  ghost predicate AllConvert(p: Conversion, mode: int, blits: seq<Blit>, from: nat, tiles: seq<Tile>, x: int, y: int) {
    && |blits| == from + |tiles|
    && forall k | 0 <= k < |tiles| :: Converts(p, blits[from + k], tiles[k], x, y) && Selects(mode, blits[from + k])
  }

  lemma TilesConvert(p: Conversion, mode: int, blits: seq<Blit>, before: seq<Blit>, tiles: seq<Tile>, x: int, y: int)
    requires blits == before + SwizzleBlits(p, tiles, Selected(mode)) && Supported(p.bytesPerPixel) && p.wl + p.hl <= 31
    requires forall k | 0 <= k < |tiles| :: Fits(tiles[k]) && tiles[k].x.hi <= Bits.Pow2(p.wl)
                                            && tiles[k].y.hi <= Bits.Pow2(p.hl)
    ensures AllConvert(p, mode, blits, |before|, tiles, x, y)
  {
    forall k | 0 <= k < |tiles|
      ensures Converts(p, blits[|before| + k], tiles[k], x, y) && Selects(mode, blits[|before| + k])
    {
      TileConverts(p, tiles[k], blits[|before| + k], x, y);
    }
  }

  lemma SwizzleCovers(p: Conversion, width: Word, height: Word, x: int, y: int)
    requires Inside(p, width, height)
    ensures Hits(SwizzleTiles(p, width, height), x, y)
         == if p.dstX <= x < p.dstX + width && p.dstY <= y < p.dstY + height then 1 else 0
  {
    EndsPlain(p, width, height);
    GridCovers(p.dstX, Wrap(p.dstX + width), p.dstY, Wrap(p.dstY + height), x, y);
  }

  /** The blits of the stream hit every pixel of the rectangle once and nothing else, and each does its part: it puts
    its pixels where the swizzled surface has them exactly when its block's corner is good. */
  lemma SwizzleCopies(mode: int, p: Conversion, width: Word, height: Word, chip: Chip, x: int, y: int)
    requires Inside(p, width, height) && Supported(p.bytesPerPixel) && p.wl + p.hl <= 31
    ensures chip.blits <= Run(SwizzleWrites(mode, p, width, height), chip).blits
    ensures AllConvert(p, mode, Run(SwizzleWrites(mode, p, width, height), chip).blits, |chip.blits|,
                       SwizzleTiles(p, width, height), x, y)
    ensures Hits(SwizzleTiles(p, width, height), x, y)
         == if p.dstX <= x < p.dstX + width && p.dstY <= y < p.dstY + height then 1 else 0
  {
    var blits, tiles := Run(SwizzleWrites(mode, p, width, height), chip).blits, SwizzleTiles(p, width, height);
    ConversionRun(mode, p, width, height, chip);
    SwizzleCovers(p, width, height, x, y);
    TilesInside(p, width, height);
    TilesConvert(p, mode, blits, chip.blits, tiles, x, y);
  }

  /** On a surface whose shorter side has at most twelve bits every corner is good. */
  lemma SmallSurface(p: Conversion, t: Tile)
    requires Min(p.wl, p.hl) <= 12
    ensures GoodCorner(p, t)
  {
  }

  /** On a larger one some are not: x = 4096 on a surface of 2^13 by 2^13. */
  lemma LargeSurfaceMisplaced(x: Word, l: nat)
    requires x == 4096 && l == 13
    ensures x < Bits.Pow2(l) && BlockStart(x) == x
    ensures Min(l, l) <= 16 && BlockOffset(x, 0, l, l) != Address(x, 0, l, l)
  {
    ThirteenBits();
    OffsetIsAddress(x, 0, l, l);
    DivModUnique(x, Bits.Pow2(l), 0, x);
  }

  lemma ThirteenBits()
    ensures Bits.Pow2(12) == 4096 && Bits.Pow2(13) == 8192
  {
    Bits.PowersOfTwo();
    Bits.Pow2Adds(4, 8);
    assert Bits.Pow2(13) == 2 * Bits.Pow2(12);
  }

  // ----- the code

  /** The three packets of a blit to a swizzled surface. */
  method PutSwizzled(context: Context, surface: seq<Word>, copy: seq<Word>, image: seq<Word>)
    requires |surface| == 2 && |copy| == 9 && |image| == 4
    modifies context
    ensures Emits(old(context.words), context.words,
                  ChannelWrites(4, 0x300, surface) + ChannelWrites(6, 0x2fc, copy) + ChannelWrites(6, 0x400, image))
    ensures old(context.Filled()) ==> context.Filled()
  {
    ghost var w0 := context.words;
    context.Begin(18);
    PutPacket(context, 4, 0x300, surface);
    ghost var w1 := context.words;
    PutPacket(context, 6, 0x2fc, copy);
    ghost var w2 := context.words;
    PutPacket(context, 6, 0x400, image);
    EmitsThen(w0, w1, w2, ChannelWrites(4, 0x300, surface), ChannelWrites(6, 0x2fc, copy));
    EmitsThen(w0, w2, context.words, ChannelWrites(4, 0x300, surface) + ChannelWrites(6, 0x2fc, copy),
              ChannelWrites(6, 0x400, image));
  }

  method PutSwizzleMode(context: Context, mode: int)
    modifies context
    ensures Emits(old(context.words), context.words, SwizzleModeWrites(mode))
    ensures old(context.Filled()) ==> context.Filled()
  {
    ghost var w0 := context.words;
    context.Begin(6);
    PutPacket(context, 4, 0x184, [ModeData(mode, 2)]);
    ghost var w1 := context.words;
    PutPacket(context, 6, 0x184, [ModeData(mode, 1)]);
    ghost var w2 := context.words;
    PutPacket(context, 6, 0x198, [GCM_CONTEXT_SWIZZLE2D]);
    EmitsThen(w0, w1, w2, ChannelWrites(4, 0x184, [ModeData(mode, 2)]), ChannelWrites(6, 0x184, [ModeData(mode, 1)]));
    EmitsThen(w0, w2, context.words, ChannelWrites(4, 0x184, [ModeData(mode, 2)]) + ChannelWrites(6, 0x184,
    [ModeData(mode, 1)]),
              ChannelWrites(6, 0x198, [GCM_CONTEXT_SWIZZLE2D]));
  }

  /** The format word from its two logarithms. */
  lemma FormatPacks(p: Conversion)
    ensures Or32(Or32(Shl(Min(p.hl, MAX_DIM), 24), Shl(Min(p.wl, MAX_DIM), 16)), DstSurfaceFormat(p.bytesPerPixel))
      == FormatWord(p)
  {
    var v: Word, u: Word, format := Min(p.hl, MAX_DIM), Min(p.wl, MAX_DIM), DstSurfaceFormat(p.bytesPerPixel);
    Bits.PowersOfTwo();
    Shifts();
    var vu: Word := v * 256 + u;
    DivModUnique(u * 0x1_0000, TWO_32, 0, u * 0x1_0000);
    DivModUnique(vu * 0x1_0000, TWO_32, 0, vu * 0x1_0000);
    OrFields(v, Shl(u, 16), 24);
    OrFields(vu, format, 16);
  }

  lemma SpanStep(left: int, x: int, end: int)
    requires left == BlockStart(x) && x < end
    ensures var hi := if left + 1024 > end then end else left + 1024;
      && x < hi <= end && BlockStart(left + 1024) == left + 1024
      && Cut(x, end) == [Span(x, hi)] + Cut(left + 1024, end)
  {
    BlockBounds(x);
    var q := x / 1024;
    assert left == q * 1024;
    DivModUnique(left + 1024, 1024, q + 1, 0);
  }

  /** Where a block begins in the swizzled surface. */
  method BlockDst(p: Conversion, xLeft: Word, yTop: Word, ghost t: Tile) returns (dst: Word)
    requires p.wl > 0 && p.hl > 0 && p.wl + p.hl <= 31 && xLeft == BlockStart(t.x.lo) && yTop == BlockStart(t.y.lo)
    ensures dst == SwizzleSurface(p, t)[1]
  {
    if p.wl == 0 {
      assert false;  // surfaces of one row or column go to the linear branch
    } else if p.hl == 0 {
      assert false;
    } else {
      dst := Wrap(p.dstOffset + p.bytesPerPixel * BlockOffset(xLeft, yTop, p.wl, p.hl));
    }
  }

  method SwizzleOne(context: Context, p: Conversion, srcOffset: Word, x: Word, y: Word, bltWidth: Word, bltHeight: Word,
                    xLeft: Word, yTop: Word, ghost t: Tile)
    requires p.wl > 0 && p.hl > 0 && p.wl + p.hl <= 31 && srcOffset == ShiftedSource(p)
    requires Fits(t) && t == Tile(Span(x, x + bltWidth), Span(y, y + bltHeight)) && xLeft == BlockStart(x)
      && yTop == BlockStart(y)
    modifies context
    ensures Emits(old(context.words), context.words, SwizzleTile(p, t))
    ensures old(context.Filled()) ==> context.Filled()
  {
    TileWords(p, t, x, y, bltWidth, bltHeight, xLeft, yTop);
    var dst := BlockDst(p, xLeft, yTop, t);
    var point := PackedPair(y - yTop, x - xLeft);
    var size := PackedPair(bltHeight, bltWidth);
    var inSize := PackedPair(bltHeight, SafeWidth(bltWidth));
    var format := SurfaceFormat(p);
    PutSwizzleTile(context, p, format, dst, point, size, inSize, At(srcOffset, p.bytesPerPixel, x, p.srcPitch, y), t);
  }

  lemma TileWords(p: Conversion, t: Tile, x: int, y: int, width: Word, height: Word, left: int, top: int)
    requires Fits(t) && t == Tile(Span(x, x + width), Span(y, y + height)) && left == BlockStart(x)
      && top == BlockStart(y)
    ensures 0 <= x - left < 1024 && 0 <= y - top < 1024 && width <= 1024 && height <= 1024
    ensures left == BlockStart(t.x.lo) && top == BlockStart(t.y.lo)
    ensures PointWord(t) == Packed(y - top, x - left) && SizeWord(t) == Packed(height, width)
    ensures SwizzleSource(p, t)[0] == Packed(height, SafeWidth(width))
      && SwizzleSource(p, t)[2] == At(ShiftedSource(p), p.bytesPerPixel, x, p.srcPitch, y)
  {
    BlockBounds(x);
    BlockBounds(y);
  }

  method SurfaceFormat(p: Conversion) returns (format: Word)
    ensures format == FormatWord(p)
  {
    FormatPacks(p);
    format := Or32(Or32(Shl(Min(p.hl, MAX_DIM), 24), Shl(Min(p.wl, MAX_DIM), 16)), DstSurfaceFormat(p.bytesPerPixel));
  }

  method PutSwizzleTile(context: Context, p: Conversion, format: Word, dst: Word, point: Word, size: Word, inSize: Word,
                        source: Word, ghost t: Tile)
    requires format == SwizzleSurface(p, t)[0] && dst == SwizzleSurface(p, t)[1] && point == PointWord(t)
      && size == SizeWord(t)
    requires inSize == SwizzleSource(p, t)[0] && source == SwizzleSource(p, t)[2]
    modifies context
    ensures Emits(old(context.words), context.words, SwizzleTile(p, t))
    ensures old(context.Filled()) ==> context.Filled()
  {
    var surface := [format, dst];
    var copy := [GCM_TRANSFER_CONVERSION_TRUNCATE, SrcScaleFormat(p.bytesPerPixel), GCM_TRANSFER_OPERATION_SRCCOPY,
                 point, size, point, size, ONE, ONE];
    var image := [inSize, SwizzleInFormat(p.srcPitch), source, 0];
    assert surface == SwizzleSurface(p, t) && copy == SwizzleCopy(p, t) && image == SwizzleSource(p, t);
    PutSwizzled(context, surface, copy, image);
  }

  /** How much of the block column that begins at `xLeft` is left to cover. */
  method XPart(x: Word, xLeft: Word, xEnd: Word) returns (xRight: Word, bltWidth: Word)
    requires xLeft == BlockStart(x) && x < xEnd <= TWO_32 - 1024
    ensures xRight == xLeft + 1024 == BlockStart(xRight) && 0 < bltWidth && x + bltWidth <= xEnd
      && x + bltWidth <= xLeft + 1024
    ensures Cut(x, xEnd) == [Span(x, x + bltWidth)] + Cut(xRight, xEnd)
  {
    SpanStep(xLeft, x, xEnd);
    xRight := xLeft + 1024;
    bltWidth := if xRight > xEnd then xEnd - x else xRight - x;
  }

  /** The same for a row of blocks; the bottom of the surface bounds it. */
  method YPart(hl: nat, y: Word, yTop: Word, yEnd: Word) returns (yBottom: Word, bltHeight: Word)
    requires yTop == BlockStart(y) && y < yEnd <= Bits.Pow2(hl) <= 0x8000_0000
    ensures y < yBottom && (yBottom < yEnd ==> BlockStart(yBottom) == yBottom)
    ensures 0 < bltHeight && y + bltHeight <= yEnd && y + bltHeight <= yTop + 1024
    ensures Cut(y, yEnd) == [Span(y, y + bltHeight)] + Cut(yBottom, yEnd)
  {
    SpanStep(yTop, y, yEnd);
    yBottom := yTop + 1024;
    if yBottom > Bits.Pow2(hl) {
      yBottom := Bits.Pow2(hl);
    }
    bltHeight := if yBottom > yEnd then yEnd - y else yBottom - y;
  }

  /** The inner loop: one row of tiles. */
  method SwizzleRow(context: Context, p: Conversion, srcOffset: Word, xEnd: Word, y: Word, bltHeight: Word, yTop: Word,
                    ghost w0: seq<int>, ghost before: seq<Tile>)
    returns (ghost done: seq<Tile>)
    requires p.wl > 0 && p.hl > 0 && p.wl + p.hl <= 31 && srcOffset == ShiftedSource(p)
    requires p.dstX < xEnd ==> xEnd <= TWO_32 - 1024
    requires yTop == BlockStart(y) && bltHeight > 0 && y + bltHeight < TWO_32 && y + bltHeight <= yTop + 1024
    requires Emits(w0, context.words, GridWrites(DrawSwizzled(p), before))
    modifies context
    ensures done == before + Row(Cut(p.dstX, xEnd), Span(y, y + bltHeight))
    ensures Emits(w0, context.words, GridWrites(DrawSwizzled(p), done))
    ensures old(context.Filled()) ==> context.Filled()
  {
    ghost var s := Span(y, y + bltHeight);
    ghost var all := before + Row(Cut(p.dstX, xEnd), s);
    var x := p.dstX;
    var xLeft := BlockCorner(x);
    done := before;
    while x < xEnd
      invariant x < xEnd ==> xLeft == BlockStart(x) && xEnd <= TWO_32 - 1024
      invariant LeftOfRow(done, Cut(x, xEnd), s, all)
      invariant Emits(w0, context.words, GridWrites(DrawSwizzled(p), done))
      invariant old(context.Filled()) ==> context.Filled()
      decreases xEnd - x
    {
      var xRight, bltWidth := XPart(x, xLeft, xEnd);
      ghost var t := Tile(Span(x, x + bltWidth), s);
      ghost var w := context.words;
      SwizzleOne(context, p, srcOffset, x, y, bltWidth, bltHeight, xLeft, yTop, t);
      DrawnMore(w0, w, context.words, DrawSwizzled(p), done, t);
      NextTile(done, Cut(x, xEnd), t.x, Cut(xRight, xEnd), s, all);
      done := done + [t];
      x, xLeft := xRight, xRight;
    }
    NothingLeft(done, [], s, all);
  }

  method BlockCorner(x: Word) returns (left: Word)
    ensures left == BlockStart(x)
  {
    ClearBlock(x);
    left := Bits.And(x, 0xffff_fc00);
  }

  /** The outer loop. */
  method SwizzleRows(context: Context, p: Conversion, srcOffset: Word, xEnd: Word, yEnd: Word, ghost tiles: seq<Tile>)
    requires p.wl > 0 && p.hl > 0 && p.wl + p.hl <= 31 && srcOffset == ShiftedSource(p)
    requires Bits.Pow2(p.hl) <= 0x8000_0000
    requires p.dstY < yEnd ==> yEnd <= Bits.Pow2(p.hl) && (p.dstX < xEnd ==> xEnd <= TWO_32 - 1024)
    requires tiles == Grid(Cut(p.dstX, xEnd), Cut(p.dstY, yEnd))
    modifies context
    ensures Emits(old(context.words), context.words, GridWrites(DrawSwizzled(p), tiles))
    ensures old(context.Filled()) ==> context.Filled()
  {
    ghost var w0 := context.words;
    ghost var xs := Cut(p.dstX, xEnd);
    ghost var done: seq<Tile> := [];
    EmitsNothing(w0);
    var y := p.dstY;
    var yTop := BlockCorner(y);
    while y < yEnd
      invariant y < yEnd ==> yTop == BlockStart(y) && yEnd <= Bits.Pow2(p.hl)
                             && (p.dstX < xEnd ==> xEnd <= TWO_32 - 1024)
      invariant LeftOfGrid(done, xs, Cut(y, yEnd), tiles)
      invariant Emits(w0, context.words, GridWrites(DrawSwizzled(p), done))
      invariant old(context.Filled()) ==> context.Filled()
      decreases yEnd - y
    {
      var yBottom, bltHeight := YPart(p.hl, y, yTop, yEnd);
      NextRow(done, xs, Cut(y, yEnd), Span(y, y + bltHeight), Cut(yBottom, yEnd), tiles);
      done := SwizzleRow(context, p, srcOffset, xEnd, y, bltHeight, yTop, w0, done);
      y, yTop := yBottom, yBottom;
    }
    NothingLeft(done, xs, Span(0, 0), tiles);
  }

  /** Where the inner loop goes from a block, and the outer one from a row of blocks; the bottom of the surface stops
    that one. */
  function BlockRight(xLeft: Word): Word { Wrap(xLeft + 1024) }

  function RowBelow(hl: nat, yTop: Word): Word {
    if Wrap(yTop + 1024) > Bits.Pow2(hl) then Bits.Pow2(hl) else Wrap(yTop + 1024)
  }

  function ColumnTurn(): Word -> Word { xLeft => BlockRight(xLeft) }
  function RowTurn(hl: nat): Word -> Word { yTop => RowBelow(hl, yTop) }

  function BlockCornerOf(x: Word): Word { BlockStart(x) }

  /** The loops come to an end: there is nothing to do, or some turn reaches the end. */
  ghost predicate ColumnsStop(x: Word, xEnd: Word) { x >= xEnd || Stops(ColumnTurn(), BlockCornerOf(x), xEnd) }
  ghost predicate RowsStop(hl: nat, y: Word, yEnd: Word) { y >= yEnd || Stops(RowTurn(hl), BlockCornerOf(y), yEnd) }

  /** The inner loop ends exactly when it has nothing to do or leaves the block of 1024 below 2^32 alone. */
  lemma ColumnsStopWhen(x: Word, xEnd: Word)
    ensures ColumnsStop(x, xEnd) <==> x >= xEnd || xEnd <= TWO_32 - 1024
  {
    var left := BlockCornerOf(x);
    BlockBounds(x);
    if x < xEnd {
      if xEnd <= TWO_32 - 1024 {
        ColumnsReach(left, xEnd);
      } else {
        BlockAligned(x);
        forall n: nat ensures After(ColumnTurn(), left, n) < xEnd {
          ColumnsStay(left, xEnd, n);
        }
      }
    }
  }

  lemma BlockAligned(x: int)
    ensures BlockStart(x) % 1024 == 0
  {
    var q := x / 1024;
    assert BlockStart(x) == 1024 * q;
    DivModUnique(1024 * q, 1024, q, 0);
  }

  lemma {:induction false} ColumnsReach(xLeft: Word, xEnd: Word)
    requires xLeft < xEnd <= TWO_32 - 1024
    ensures Stops(ColumnTurn(), xLeft, xEnd)
    decreases xEnd - xLeft
  {
    var xRight := ColumnTurn()(xLeft);
    DivModUnique(xLeft + 1024, TWO_32, 0, xLeft + 1024);
    if xRight < xEnd {
      ColumnsReach(xRight, xEnd);
    } else {
      assert After(ColumnTurn(), xRight, 0) >= xEnd;
    }
    StopsLater(ColumnTurn(), xLeft, xEnd);
  }

  lemma {:induction false} ColumnsStay(xLeft: Word, xEnd: Word, n: nat)
    requires xLeft % 1024 == 0 && xLeft < xEnd && xEnd > TWO_32 - 1024
    ensures After(ColumnTurn(), xLeft, n) < xEnd && After(ColumnTurn(), xLeft, n) % 1024 == 0
  {
    if n > 0 {
      ColumnsStay(xLeft, xEnd, n - 1);
      RightStays(After(ColumnTurn(), xLeft, n - 1), xEnd);
    }
  }

  lemma RightStays(xLeft: Word, xEnd: Word)
    requires xLeft % 1024 == 0 && xEnd > TWO_32 - 1024
    ensures BlockRight(xLeft) < xEnd && BlockRight(xLeft) % 1024 == 0
  {
    var q := xLeft / 1024;
    if xLeft + 1024 < TWO_32 {
      DivModUnique(xLeft + 1024, TWO_32, 0, xLeft + 1024);
      DivModUnique(xLeft + 1024, 1024, q + 1, 0);
    } else {
      assert xLeft == TWO_32 - 1024;
    }
  }

  /** The outer loop ends exactly when it has nothing to do or does not reach below the surface. */
  lemma RowsStopWhen(hl: nat, y: Word, yEnd: Word)
    requires hl <= 31
    ensures RowsStop(hl, y, yEnd) <==> y >= yEnd || yEnd <= Bits.Pow2(hl)
  {
    var top := BlockCornerOf(y);
    BlockBounds(y);
    HalfRange(hl);
    if y < yEnd {
      if yEnd <= Bits.Pow2(hl) {
        RowsReach(hl, top, yEnd);
      } else {
        forall n: nat ensures After(RowTurn(hl), top, n) < yEnd {
          RowsStay(hl, top, yEnd, n);
        }
      }
    }
  }

  lemma {:induction false} RowsReach(hl: nat, yTop: Word, yEnd: Word)
    requires yTop < yEnd <= Bits.Pow2(hl) <= 0x8000_0000
    ensures Stops(RowTurn(hl), yTop, yEnd)
    decreases yEnd - yTop
  {
    var yBottom := RowTurn(hl)(yTop);
    DivModUnique(yTop + 1024, TWO_32, 0, yTop + 1024);
    if yBottom < yEnd {
      RowsReach(hl, yBottom, yEnd);
    } else {
      assert After(RowTurn(hl), yBottom, 0) >= yEnd;
    }
    StopsLater(RowTurn(hl), yTop, yEnd);
  }

  lemma {:induction false} RowsStay(hl: nat, yTop: Word, yEnd: Word, n: nat)
    requires yTop < yEnd && yEnd > Bits.Pow2(hl)
    ensures After(RowTurn(hl), yTop, n) < yEnd
  {
    if n > 0 {
      RowsStay(hl, yTop, yEnd, n - 1);
    }
  }

  /** When both loops end, on the words that the ends are. */
  predicate Ends(p: Conversion, width: Word, height: Word) {
    var xEnd, yEnd := Wrap(p.dstX + width), Wrap(p.dstY + height);
    p.dstY >= yEnd || (yEnd <= Bits.Pow2(p.hl) && (p.dstX >= xEnd || xEnd <= TWO_32 - 1024))
  }

  /** There are no rows, or the outer loop ends and so does the inner one, which is the same for every row. */
  ghost predicate BlocksReturn(p: Conversion, width: Word, height: Word) {
    var xEnd, yEnd := Wrap(p.dstX + width), Wrap(p.dstY + height);
    p.dstY >= yEnd || (RowsStop(p.hl, p.dstY, yEnd) && ColumnsStop(p.dstX, xEnd))
  }

  lemma EndsWhen(p: Conversion, width: Word, height: Word)
    requires p.hl <= 31
    ensures BlocksReturn(p, width, height) <==> Ends(p, width, height)
  {
    RowsStopWhen(p.hl, p.dstY, Wrap(p.dstY + height));
    ColumnsStopWhen(p.dstX, Wrap(p.dstX + width));
  }

  method ConvertBlocks(context: Context, p: Conversion, width: Word, height: Word, mode: int)
    requires p.wl > 1 && p.hl > 0 && p.wl + p.hl <= 31 && Ends(p, width, height)
    modifies context
    ensures Emits(old(context.words), context.words, SwizzleWrites(mode, p, width, height))
    ensures old(context.Filled()) ==> context.Filled()
  {
    ghost var w0 := context.words;
    PutSwizzleMode(context, mode);
    ghost var w1 := context.words;
    HalfRange(p.wl);
    HalfRange(p.hl);
    var srcOffset := ShiftedSource(p);
    var xEnd, yEnd := Wrap(p.dstX + width), Wrap(p.dstY + height);
    ghost var tiles := Grid(Cut(p.dstX, xEnd), Cut(p.dstY, yEnd));
    SwizzleRows(context, p, srcOffset, xEnd, yEnd, tiles);
    AllSwizzleTiles(p, width, height, xEnd, yEnd, tiles);
    EmitsThen(w0, w1, context.words, SwizzleModeWrites(mode), GridWrites(DrawSwizzled(p), tiles));
  }

  lemma AllSwizzleTiles(p: Conversion, width: Word, height: Word, xEnd: Word, yEnd: Word, tiles: seq<Tile>)
    requires xEnd == Wrap(p.dstX + width) && yEnd == Wrap(p.dstY + height)
    requires tiles == Grid(Cut(p.dstX, xEnd), Cut(p.dstY, yEnd))
    ensures tiles == SwizzleTiles(p, width, height)
  {
  }

  lemma HalfRange(k: nat)
    requires k <= 31
    ensures Bits.Pow2(k) <= 0x8000_0000
  {
    Bits.PowersOfTwo();
    Bits.Pow2Monotone(k, 31);
    assert Bits.Pow2(32) == 2 * Bits.Pow2(31);
  }
}
