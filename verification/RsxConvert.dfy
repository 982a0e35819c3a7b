/** `SetConvertSwizzleFormat` as its callers see it: when it returns, and what it copies. */
module RsxConvert {
  import opened Arith
  import Bits
  import opened RsxStream
  import opened RsxDraw
  import opened RsxBlit
  import opened RsxImage
  import opened Morton
  import opened RsxSwizzle
  import opened Words

  // ----- SetConvertSwizzleFormat

  /** 31 less the number of leading zeros. */
  function Log2(w: nat): nat {
    if w <= 1 then 0 else 1 + Log2(w / 2)
  }

  lemma {:induction false} LogOfPower(k: nat)
    ensures Log2(Bits.Pow2(k)) == k
  {
    if k > 0 {
      LogOfPower(k - 1);
      Bits.Halves(Bits.Pow2(k - 1), 0);
    }
  }

  lemma {:induction false} LogBounds(w: nat)
    requires w > 0
    ensures Bits.Pow2(Log2(w)) <= w < 2 * Bits.Pow2(Log2(w))
  {
    if w > 1 {
      LogBounds(w / 2);
    }
  }

  lemma LogDoubles(w: nat)
    requires w > 0
    ensures Log2(2 * w) == Log2(w) + 1 && Log2(4 * w) == Log2(w) + 2
  {
    assert 2 * w / 2 == w && 4 * w / 2 == 2 * w;
  }

  /** Pixels of 8 and 16 bytes are two and four pixels of 4 bytes side by side: by how many bits the horizontal
    numbers are shifted. Other sizes are not converted. */
  function Widening(bytesPerPixel: Word): Option<nat> {
    if bytesPerPixel == 2 || bytesPerPixel == 4 then Some(0)
    else if bytesPerPixel == 8 then Some(1)
    else if bytesPerPixel == 16 then Some(2)
    else None
  }

  function Widened(q: Conversion, shift: nat): Conversion {
    Conversion(q.dstOffset, q.wl + shift, q.hl, Shl(q.dstX, shift), q.dstY, q.srcOffset, q.srcPitch,
               Shl(q.srcX, shift), q.srcY,
               if shift == 0 then q.bytesPerPixel else 4)
  }

  /** Surfaces of at most three texels a line, or of one line, are not swizzled. */
  predicate Linear(p: Conversion) { p.wl <= 1 || p.hl == 0 }

  /** `SetTransferData` compares an unsigned pitch with -32768 and 32768. */
  predicate PitchOutside(pitch: Word) { pitch < Wrap(-0x8000) || pitch > 0x8000 }

  function RowCountDown(): Word -> Word { rowCount => Wrap(rowCount as int - 1) }

  /** The count that the guard sees in turn `n`, just decremented. */
  function RowsLeft(rowCount: Word, n: nat): Word { After(RowCountDown(), Wrap(rowCount - 1), n) }

  /** It comes to an end if a pitch is within them and another loop is taken, or if the guard `--rowCount >= 0` fails
    some time. */
  ghost predicate TransferDataReturns(srcPitch: Word, dstPitch: Word, rowCount: Word) {
    || !(PitchOutside(srcPitch) || PitchOutside(dstPitch))
    || exists n: nat :: !(RowsLeft(rowCount, n) >= 0)
  }

  /** Which it never does: every pitch is outside, and the count is unsigned. */
  lemma TransferDataNeverReturns(srcPitch: Word, dstPitch: Word, rowCount: Word)
    ensures !TransferDataReturns(srcPitch, dstPitch, rowCount)
  {
    DivModUnique(-0x8000, TWO_32, -1, TWO_32 - 0x8000);
    assert PitchOutside(srcPitch);
  }

  const MAX_HEIGHT := 2047  // NV_MEM2MEM_MAX_HEIGHT_VALUE

  /** A conversion comes to an end: it is none, it is linear and without lines or its first call of `SetTransferData`
    returns, or the loops over the blocks end. */
  ghost predicate ConversionReturns(q: Conversion, width: Word, height: Word) {
    match Widening(q.bytesPerPixel)
    case None => true
    case Some(shift) =>
      var p := Widened(q, shift);
      if Linear(p) then
        height == 0 || TransferDataReturns(p.srcPitch, Shl(p.bytesPerPixel, p.wl), Min(height, MAX_HEIGHT))
      else BlocksReturn(p, Shl(width, shift), height)
  }

  /** That is when the rectangle has no lines on a linear surface, and on a swizzled one is empty or ends where both
    loops do. */
  predicate Convertible(q: Conversion, width: Word, height: Word) {
    Widening(q.bytesPerPixel).Some? ==>
      var shift := Widening(q.bytesPerPixel).value;
      var p := Widened(q, shift);
      if Linear(p) then height == 0 else Ends(p, Shl(width, shift), height)
  }

  lemma ConvertibleWhen(q: Conversion, width: Word, height: Word)
    requires q.hl <= 31
    ensures ConversionReturns(q, width, height) <==> Convertible(q, width, height)
  {
    if Widening(q.bytesPerPixel).Some? {
      var shift := Widening(q.bytesPerPixel).value;
      var p := Widened(q, shift);
      if Linear(p) {
        TransferDataNeverReturns(p.srcPitch, Shl(p.bytesPerPixel, p.wl), Min(height, MAX_HEIGHT));
      } else {
        EndsWhen(p, Shl(width, shift), height);
      }
    }
  }

  /** A swizzled surface has at most 2^31 texels. */
  predicate Addressable(q: Conversion) {
    Widening(q.bytesPerPixel).Some? ==>
      var p := Widened(q, Widening(q.bytesPerPixel).value);
      Linear(p) || p.wl + p.hl <= 31
  }

  /** The words in between write the blits of the conversion, or there are none. */
  ghost predicate ConversionWritten(before: seq<int>, after: seq<int>, mode: int, q: Conversion, width: Word,
                                    height: Word)
    requires Convertible(q, width, height)
  {
    match Widening(q.bytesPerPixel)
    case None => after == before
    case Some(shift) =>
      if Linear(Widened(q, shift)) then after == before
      else Emits(before, after, SwizzleWrites(mode, Widened(q, shift), Shl(width, shift), height))
  }

  method SetConvertSwizzleFormat(context: Context, dstOffset: Word, dstWidth: Word, dstHeight: Word, dstX: Word,
                                 dstY: Word,
                                 srcOffset: Word, srcPitch: Word, srcX: Word, srcY: Word, width: Word, height: Word,
                                 bytesPerPixel: Word, mode: int, ghost q: Conversion)
    requires q == Conversion(dstOffset, Log2(dstWidth), Log2(dstHeight), dstX, dstY, srcOffset, srcPitch, srcX, srcY,
                             bytesPerPixel)
    requires dstWidth > 0 && dstHeight > 0 && Addressable(q) && Convertible(q, width, height)
    modifies context
    ensures ConversionWritten(old(context.words), context.words, mode, q, width, height)
    ensures Swizzled(dstWidth, dstHeight, dstX, dstY, width, height, bytesPerPixel) ==>
      && old(context.words) <= context.words
      && Copied(context.words[|old(context.words)|..], dstOffset, dstWidth, dstHeight, dstX, dstY, srcOffset, srcPitch,
                srcX, srcY, width, height, bytesPerPixel, mode)
    ensures old(context.Filled()) ==> context.Filled()
  {
    var dstwlog2, dsthlog2 := Log2(dstWidth), Log2(dstHeight);
    var dstX', srcX', width', bytes := dstX, srcX, width, bytesPerPixel;
    Unshifted(dstX);
    Unshifted(srcX);
    Unshifted(width);
    if bytesPerPixel == 2 || bytesPerPixel == 4 {
    } else if bytesPerPixel == 8 {
      dstX', srcX', width', bytes, dstwlog2 := Shl(dstX, 1), Shl(srcX, 1), Shl(width, 1), 4, dstwlog2 + 1;
    } else if bytesPerPixel == 16 {
      dstX', srcX', width', bytes, dstwlog2 := Shl(dstX, 2), Shl(srcX, 2), Shl(width, 2), 4, dstwlog2 + 2;
    } else {
      return;
    }
    ghost var shift := Widening(bytesPerPixel).value;
    assert Widened(q, shift) == Conversion(dstOffset, dstwlog2, dsthlog2, dstX', dstY, srcOffset, srcPitch, srcX',
                                           srcY, bytes);
    assert width' == Shl(width, shift);
    if dstwlog2 <= 1 || dsthlog2 == 0 {
      if height != 0 {
        assert false;  // the row loop of `SetTransferData` never ends
      }
    } else {
      ConvertBlocks(context, Conversion(dstOffset, dstwlog2, dsthlog2, dstX', dstY, srcOffset, srcPitch, srcX', srcY,
                                        bytes),
                    width', height, mode);
    }
    if Swizzled(dstWidth, dstHeight, dstX, dstY, width, height, bytesPerPixel) {
      WrittenCopies(old(context.words), context.words, dstOffset, dstWidth, dstHeight, dstX, dstY, srcOffset, srcPitch,
                    srcX, srcY, width, height, bytesPerPixel, mode, q);
    }
  }

  // ----- what the call copies, in the caller's terms

  /** Pixels are copied in units of 2 or 4 bytes. */
  function Unit(bytesPerPixel: int): int { if bytesPerPixel <= 4 then bytesPerPixel else 4 }

  /** The size of a pixel is one of the four, the surface is not linear, and the rectangle lies inside it; the sides of
    the surface count up to the powers of two they reach. */
  predicate Swizzled(dstWidth: Word, dstHeight: Word, dstX: Word, dstY: Word, width: Word, height: Word,
                     bytesPerPixel: Word) {
    && (bytesPerPixel == 2 || bytesPerPixel == 4 || bytesPerPixel == 8 || bytesPerPixel == 16)
    && Units(bytesPerPixel / Unit(bytesPerPixel), dstWidth) >= 4 && dstHeight >= 2
    && dstX + width <= Bits.Pow2(Log2(dstWidth)) && dstY + height <= Bits.Pow2(Log2(dstHeight))
  }

  /** The blit `b` of tile `t` between the memories that the mode selects: it copies the unit of `n` bytes at (x, y) if
    and only if its tile holds that. It takes byte `d` of it from `from` on the lines that the pitch read leaves where
    they are, and puts it to `place` if and only if the block's corner is good. */
  ghost predicate UnitMoves(b: Blit, t: Tile, mode: int, wl: nat, hl: nat, srcPitch: Word, n: int, d: int, from: Word,
                            place: Word, x: int, y: int) {
    && Selects(mode, b) && PixelBytes(b) == n && SameColours(b)
    && (Copies(b, x - t.x.lo, y - t.y.lo) <==> KeepsPlain(srcPitch) && InTile(t, x, y))
    && (Wrap(SourceByte(b, x - t.x.lo, y - t.y.lo) + d) == from
        <==> LineRight(srcPitch, srcPitch % 0x1_0000, y - t.y.lo))
    && (InTile(t, x, y) ==> (PutsAt(b, x - t.x.lo, y - t.y.lo, d, place) <==> GoodBlock(wl, hl, t)))
  }

  ghost predicate PutsAt(b: Blit, i: int, j: int, d: int, place: Word) {
    && b.format >= 0 && Low(b.outPoint) + i >= 0 && High(b.outPoint) + j >= 0
    && Wrap(SwizzledByte(b, i, j) + d) == place
  }

  /** Byte `c` of the pixel (x, y) of the destination's rectangle: its unit is hit by one blit, which moves it from the
    same byte of the source pixel to its place on the swizzled surface. A pixel of 8 or 16 bytes is two or four units
    side by side on a surface so many times as wide. */
  ghost predicate ByteMoves(blits: seq<Blit>, before: nat, dstOffset: Word, dstWidth: Word, dstHeight: Word,
                            dstX: Word, dstY: Word, srcOffset: Word, srcPitch: Word, srcX: Word, srcY: Word,
                            width: Word, height: Word, bytesPerPixel: Word, mode: int, x: nat, y: nat, c: nat)
    requires bytesPerPixel == 2 || bytesPerPixel == 4 || bytesPerPixel == 8 || bytesPerPixel == 16
  {
    var n, d := Unit(bytesPerPixel), c % Unit(bytesPerPixel);
    var k := bytesPerPixel / n;
    var unit := Units(k, x) + c / n;
    var wl, hl := Log2(Units(k, dstWidth)), Log2(dstHeight);
    var tiles := Grid(Cut(Units(k, dstX), Units(k, dstX + width)), Cut(dstY, dstY + height));
    UnitsMove(blits, before, tiles, mode, wl, hl, srcPitch, n, d,
              ByteAt(srcOffset, bytesPerPixel, srcX + x - dstX, srcPitch, srcY + y - dstY, c),
              Place(dstOffset, n, unit, y, wl, hl, d), unit, y)
  }

  /** How many units `x` pixels are. */
  function Units(k: nat, x: nat): nat { k * x }

  /** Byte `c` of the pixel in column `x` and line `y` of an image. */
  function ByteAt(base: int, bytesPerPixel: int, x: int, pitch: int, y: int, c: int): Word {
    Wrap(base + bytesPerPixel * x + pitch * y + c)
  }

  /** Byte `d` of the unit (x, y) of a swizzled surface. */
  function Place(base: int, n: int, x: nat, y: nat, wl: nat, hl: nat, d: int): Word {
    Wrap(base + n * Address(x, y, wl, hl) + d)
  }

  ghost predicate UnitsMove(blits: seq<Blit>, before: nat, tiles: seq<Tile>, mode: int, wl: nat, hl: nat,
                            srcPitch: Word, n: int, d: int, from: Word, place: Word, x: int, y: int) {
    && |blits| == before + |tiles| && Hits(tiles, x, y) == 1
    && forall i | 0 <= i < |tiles| ::
         UnitMoves(blits[before + i], tiles[i], mode, wl, hl, srcPitch, n, d, from, place, x, y)
  }

  /** Decoded and run on any chip, the words do so for every byte of every pixel of the rectangle. */
  ghost predicate Copied(words: seq<int>, dstOffset: Word, dstWidth: Word, dstHeight: Word, dstX: Word, dstY: Word,
                         srcOffset: Word, srcPitch: Word, srcX: Word, srcY: Word, width: Word, height: Word,
                         bytesPerPixel: Word, mode: int)
    requires bytesPerPixel == 2 || bytesPerPixel == 4 || bytesPerPixel == 8 || bytesPerPixel == 16
  {
    && Decode(words).Some?
    && forall chip: Chip, x: nat, y: nat, c: nat
         | dstX <= x < dstX + width && dstY <= y < dstY + height && c < bytesPerPixel ::
         ByteMoves(Run(Decode(words).value, chip).blits, |chip.blits|, dstOffset, dstWidth, dstHeight, dstX, dstY,
                   srcOffset, srcPitch, srcX, srcY, width, height, bytesPerPixel, mode, x, y, c)
  }

  lemma WrittenCopies(before: seq<int>, after: seq<int>, dstOffset: Word, dstWidth: Word, dstHeight: Word, dstX: Word,
                      dstY: Word, srcOffset: Word, srcPitch: Word, srcX: Word, srcY: Word, width: Word, height: Word,
                      bytesPerPixel: Word, mode: int, q: Conversion)
    requires q == Conversion(dstOffset, Log2(dstWidth), Log2(dstHeight), dstX, dstY, srcOffset, srcPitch, srcX, srcY,
                             bytesPerPixel)
    requires Swizzled(dstWidth, dstHeight, dstX, dstY, width, height, bytesPerPixel)
    requires dstWidth > 0 && Addressable(q) && Convertible(q, width, height)
    requires ConversionWritten(before, after, mode, q, width, height)
    ensures before <= after
    ensures Copied(after[|before|..], dstOffset, dstWidth, dstHeight, dstX, dstY, srcOffset, srcPitch, srcX, srcY,
                   width, height, bytesPerPixel, mode)
  {
    var shift, k, p := Wider(dstWidth, dstHeight, width, height, q);
    var writes := SwizzleWrites(mode, p, Shl(width, shift), height);
    assert Emits(before, after, writes);
    forall chip: Chip, x: nat, y: nat, c: nat
      | dstX <= x < dstX + width && dstY <= y < dstY + height && c < bytesPerPixel
      ensures ByteMoves(Run(writes, chip).blits, |chip.blits|, dstOffset, dstWidth, dstHeight, dstX, dstY,
                        srcOffset, srcPitch, srcX, srcY, width, height, bytesPerPixel, mode, x, y, c)
    {
      PixelMoves(dstWidth, dstHeight, width, height, mode, q, shift, k, p, chip, x, y, c);
    }
  }

  lemma Unshifted(x: Word)
    ensures Shl(x, 0) == x
  {
    DivModUnique(x, TWO_32, 0, x);
  }

  /** How the caller's numbers are widened. */
  ghost predicate Widens(dstWidth: Word, dstHeight: Word, width: Word, height: Word, q: Conversion, shift: nat, k: nat,
                         p: Conversion) {
    && Widening(q.bytesPerPixel) == Some(shift) && p == Widened(q, shift)
    && (k == 1 || k == 2 || k == 4) && q.bytesPerPixel == k * p.bytesPerPixel
    && k == q.bytesPerPixel / Unit(q.bytesPerPixel)
    && Supported(p.bytesPerPixel) && p.bytesPerPixel == Unit(q.bytesPerPixel)
    && p.wl == Log2(Units(k, dstWidth)) && p.hl == Log2(dstHeight) && p.wl + p.hl <= 31 && !Linear(p)
    && p.dstX == Units(k, q.dstX) && p.srcX == Wrap(Units(k, q.srcX)) && Shl(width, shift) == Units(k, width)
    && Inside(p, Shl(width, shift), height)
  }

  lemma Wider(dstWidth: Word, dstHeight: Word, width: Word, height: Word, q: Conversion)
    returns (shift: nat, k: nat, p: Conversion)
    requires q.wl == Log2(dstWidth) && q.hl == Log2(dstHeight) && dstWidth > 0 && Addressable(q)
    requires Swizzled(dstWidth, dstHeight, q.dstX, q.dstY, width, height, q.bytesPerPixel)
    ensures Widens(dstWidth, dstHeight, width, height, q, shift, k, p)
  {
    shift := Widening(q.bytesPerPixel).value;
    k := if shift == 0 then 1 else if shift == 1 then 2 else 4;
    p := Widened(q, shift);
    LogDoubles(dstWidth);
    LogAtLeast(k * dstWidth, dstHeight);
    WiderNumbers(q, shift, k, p, width);
  }

  lemma WiderNumbers(q: Conversion, shift: nat, k: nat, p: Conversion, width: Word)
    requires (shift == 0 && k == 1) || (shift == 1 && k == 2) || (shift == 2 && k == 4)
    requires p == Widened(q, shift) && q.dstX + width <= Bits.Pow2(q.wl) && p.wl <= 31
    ensures p.dstX == Units(k, q.dstX) && p.srcX == Wrap(Units(k, q.srcX)) && Shl(width, shift) == Units(k, width)
    ensures p.dstX + Shl(width, shift) <= Bits.Pow2(p.wl)
  {
    HalfRange(p.wl);
    Shifted(q.dstX, shift, k);
    Shifted(q.srcX, shift, k);
    Shifted(width, shift, k);
    WiderPower(q.wl, shift, k);
    SmallProducts(q.dstX, width, k, Bits.Pow2(q.wl));
  }

  lemma LogAtLeast(w: nat, h: nat)
    requires w >= 4 && h >= 2
    ensures Log2(w) >= 2 && Log2(h) >= 1
  {
    assert Log2(w) == 1 + Log2(w / 2) && Log2(w / 2) == 1 + Log2(w / 2 / 2);
  }

  lemma Shifted(x: Word, shift: nat, k: nat)
    requires (shift == 0 && k == 1) || (shift == 1 && k == 2) || (shift == 2 && k == 4)
    ensures Shl(x, shift) == Wrap(k * x)
  {
    PowerIs(shift, k);
  }

  lemma PowerIs(shift: nat, k: nat)
    requires (shift == 0 && k == 1) || (shift == 1 && k == 2) || (shift == 2 && k == 4)
    ensures Bits.Pow2(shift) == k
  {
    if shift == 2 {
      assert Bits.Pow2(2) == 2 * Bits.Pow2(1);
    }
  }

  lemma WiderPower(wl: nat, shift: nat, k: nat)
    requires (shift == 0 && k == 1) || (shift == 1 && k == 2) || (shift == 2 && k == 4)
    ensures Bits.Pow2(wl + shift) == k * Bits.Pow2(wl)
  {
    PowerIs(shift, k);
    Bits.Pow2Adds(wl, shift);
  }

  lemma SmallProducts(x: Word, width: Word, k: nat, side: nat)
    requires (k == 1 || k == 2 || k == 4) && x + width <= side && k * side <= 0x8000_0000
    ensures Wrap(k * x) == k * x && Wrap(k * width) == k * width && k * x + k * width <= k * side
  {
    DivModUnique(k * x, TWO_32, 0, k * x);
    DivModUnique(k * width, TWO_32, 0, k * width);
  }

  /** Unit `e` of a pixel, and byte `d` of that, as one byte of the pixel. */
  lemma UnitSource(q: Conversion, p: Conversion, k: nat, x: nat, y: nat, e: nat, unit: nat, d: nat, c: nat)
    requires (k == 1 || k == 2 || k == 4) && (p.bytesPerPixel == 2 || p.bytesPerPixel == 4)
    requires q.bytesPerPixel == k * p.bytesPerPixel && c == p.bytesPerPixel * e + d
    requires p.srcOffset == q.srcOffset && p.srcPitch == q.srcPitch && p.srcY == q.srcY && p.dstY == q.dstY
    requires p.dstX == Units(k, q.dstX) && p.srcX == Wrap(Units(k, q.srcX)) && unit == Units(k, x) + e
    ensures ByteAt(p.srcOffset, p.bytesPerPixel, p.srcX + unit - p.dstX, p.srcPitch, p.srcY + y - p.dstY, d)
         == ByteAt(q.srcOffset, q.bytesPerPixel, q.srcX + x - q.dstX, q.srcPitch, q.srcY + y - q.dstY, c)
  {
    var lines := p.srcPitch * (p.srcY + y - p.dstY);
    var wraps := k * q.srcX / TWO_32;
    assert p.srcX == k * q.srcX - wraps * TWO_32;
    UnitOffset(p.bytesPerPixel, k, q.srcX, q.dstX, x, e, d, c, wraps);
    WrapsAround(q.srcOffset + q.bytesPerPixel * (q.srcX + x - q.dstX) + lines + c, 0 - p.bytesPerPixel * wraps);
  }

  lemma UnitOffset(n: int, k: int, srcX: int, dstX: int, x: int, e: int, d: int, c: int, wraps: int)
    requires (k == 1 || k == 2 || k == 4) && (n == 2 || n == 4) && c == n * e + d
    ensures n * (k * srcX - wraps * TWO_32 + (k * x + e) - k * dstX) + d
         == k * n * (srcX + x - dstX) + c + (0 - n * wraps) * TWO_32
  {
  }

  lemma WrapsAround(a: int, turns: int)
    ensures Wrap(a + turns * TWO_32) == Wrap(a)
  {
    var q, r := a / TWO_32, Wrap(a);
    DivModUnique(a + turns * TWO_32, TWO_32, q + turns, r);
  }

  lemma BothShift(u: Word, v: Word, d: int)
    ensures Wrap(u + d) == Wrap(v + d) <==> u == v
  {
    WrapsAlike(u + d, v - u);
    assert u + d + (v - u) == v + d;
    if Wrap(v - u) == 0 {
      assert v - u == (v - u) / TWO_32 * TWO_32;
    }
  }

  /** Byte `d` of a unit in the widened numbers, on either side. */
  function UnitFrom(p: Conversion, x: int, y: int, d: int): Word {
    ByteAt(p.srcOffset, p.bytesPerPixel, p.srcX + x - p.dstX, p.srcPitch, p.srcY + y - p.dstY, d)
  }

  function UnitPlace(p: Conversion, x: nat, y: nat, d: int): Word {
    Place(p.dstOffset, p.bytesPerPixel, x, y, p.wl, p.hl, d)
  }

  /** What the tile's blit does in the widened numbers is what it does in the caller's. */
  lemma UnitConverts(p: Conversion, b: Blit, t: Tile, mode: int, d: int, from: Word, place: Word, x: int, y: int)
    requires Converts(p, b, t, x, y) && Selects(mode, b)
    requires 0 <= x && 0 <= y && from == UnitFrom(p, x, y, d) && place == UnitPlace(p, x, y, d)
    ensures UnitMoves(b, t, mode, p.wl, p.hl, p.srcPitch, p.bytesPerPixel, d, from, place, x, y)
  {
    FirstByte(p, x, y, d);
    FirstPlace(p, x, y, d);
    BothShift(SourceByte(b, x - t.x.lo, y - t.y.lo),
              At(p.srcOffset, p.bytesPerPixel, p.srcX + x - p.dstX, p.srcPitch, p.srcY + y - p.dstY), d);
    if b.format >= 0 && Low(b.outPoint) + (x - t.x.lo) >= 0 && High(b.outPoint) + (y - t.y.lo) >= 0 {
      BothShift(SwizzledByte(b, x - t.x.lo, y - t.y.lo),
                Wrap(p.dstOffset + p.bytesPerPixel * Address(x, y, p.wl, p.hl)), d);
    }
  }

  lemma FirstByte(p: Conversion, x: nat, y: nat, d: int)
    ensures UnitFrom(p, x, y, d)
         == Wrap(At(p.srcOffset, p.bytesPerPixel, p.srcX + x - p.dstX, p.srcPitch, p.srcY + y - p.dstY) + d)
  {
    ByteBehind(p.srcOffset, p.bytesPerPixel, p.srcX + x - p.dstX, p.srcPitch, p.srcY + y - p.dstY, d);
  }

  lemma ByteBehind(base: int, bytesPerPixel: int, x: int, pitch: int, y: int, d: int)
    ensures ByteAt(base, bytesPerPixel, x, pitch, y, d) == Wrap(At(base, bytesPerPixel, x, pitch, y) + d)
  {
    WrapAdds(base + bytesPerPixel * x + pitch * y, d);
  }

  lemma FirstPlace(p: Conversion, x: nat, y: nat, d: int)
    ensures UnitPlace(p, x, y, d) == Wrap(Wrap(p.dstOffset + p.bytesPerPixel * Address(x, y, p.wl, p.hl)) + d)
  {
    WrapAdds(p.dstOffset + p.bytesPerPixel * Address(x, y, p.wl, p.hl), d);
  }

  lemma PixelMoves(dstWidth: Word, dstHeight: Word, width: Word, height: Word, mode: int, q: Conversion, shift: nat,
                   k: nat, p: Conversion, chip: Chip, x: nat, y: nat, c: nat)
    requires Widens(dstWidth, dstHeight, width, height, q, shift, k, p)
    requires q.dstX <= x < q.dstX + width && q.dstY <= y < q.dstY + height && c < q.bytesPerPixel
    requires Widening(q.bytesPerPixel).Some?
    ensures ByteMoves(Run(SwizzleWrites(mode, p, Shl(width, shift), height), chip).blits, |chip.blits|, q.dstOffset,
                      dstWidth, dstHeight, q.dstX, q.dstY, q.srcOffset, q.srcPitch, q.srcX, q.srcY, width, height,
                      q.bytesPerPixel, mode, x, y, c)
  {
    var n := p.bytesPerPixel;
    var e, d := c / n, c % n;
    var unit := Units(k, x) + e;
    UnitInside(k, n, q.dstX, width, x, c, e, unit);
    UnitPlaced(dstWidth, dstHeight, width, height, mode, q, shift, k, p, chip, y, d, unit);
    UnitComesFrom(dstWidth, dstHeight, width, height, q, shift, k, p, x, y, c, e, d, unit);
    InCallersTerms(Run(SwizzleWrites(mode, p, Shl(width, shift), height), chip).blits, |chip.blits|, dstWidth,
                   dstHeight, width, height, q, mode, x, y, c, n, d, k, unit, p.wl, p.hl,
                   SwizzleTiles(p, Shl(width, shift), height), UnitFrom(p, unit, y, d), UnitPlace(p, unit, y, d));
  }

  lemma UnitPlaced(dstWidth: Word, dstHeight: Word, width: Word, height: Word, mode: int, q: Conversion, shift: nat,
                   k: nat, p: Conversion, chip: Chip, y: nat, d: nat, unit: nat)
    requires Widens(dstWidth, dstHeight, width, height, q, shift, k, p)
    requires Units(k, q.dstX) <= unit < Units(k, q.dstX) + Units(k, width) && q.dstY <= y < q.dstY + height
    ensures SwizzleTiles(p, Shl(width, shift), height)
         == Grid(Cut(Units(k, q.dstX), Units(k, q.dstX + width)), Cut(q.dstY, q.dstY + height))
    ensures UnitsMove(Run(SwizzleWrites(mode, p, Shl(width, shift), height), chip).blits, |chip.blits|,
                      SwizzleTiles(p, Shl(width, shift), height), mode, p.wl, p.hl, p.srcPitch, p.bytesPerPixel, d,
                      UnitFrom(p, unit, y, d), UnitPlace(p, unit, y, d), unit, y)
  {
    WideTiles(p, q, k, width, Shl(width, shift), height);
    PlacedUnit(mode, p, Shl(width, shift), height, chip, d, unit, y);
  }

  lemma UnitComesFrom(dstWidth: Word, dstHeight: Word, width: Word, height: Word, q: Conversion, shift: nat, k: nat,
                      p: Conversion, x: nat, y: nat, c: nat, e: nat, d: nat, unit: nat)
    requires Widens(dstWidth, dstHeight, width, height, q, shift, k, p)
    requires unit == Units(k, x) + e && c == p.bytesPerPixel * e + d
    ensures UnitFrom(p, unit, y, d)
         == ByteAt(q.srcOffset, q.bytesPerPixel, q.srcX + x - q.dstX, q.srcPitch, q.srcY + y - q.dstY, c)
  {
    UnitSource(q, p, k, x, y, e, unit, d, c);
  }

  lemma InCallersTerms(blits: seq<Blit>, before: nat, dstWidth: Word, dstHeight: Word, width: Word, height: Word,
                       q: Conversion, mode: int, x: nat, y: nat, c: nat, n: nat, d: nat, k: nat, unit: nat, wl: nat,
                       hl: nat, tiles: seq<Tile>, from: Word, place: Word)
    requires Widening(q.bytesPerPixel).Some?
    requires n == Unit(q.bytesPerPixel) && d == c % n && k == q.bytesPerPixel / n && unit == Units(k, x) + c / n
    requires wl == Log2(Units(k, dstWidth)) && hl == Log2(dstHeight)
    requires tiles == Grid(Cut(Units(k, q.dstX), Units(k, q.dstX + width)), Cut(q.dstY, q.dstY + height))
    requires from == ByteAt(q.srcOffset, q.bytesPerPixel, q.srcX + x - q.dstX, q.srcPitch, q.srcY + y - q.dstY, c)
    requires place == Place(q.dstOffset, n, unit, y, wl, hl, d)
    requires UnitsMove(blits, before, tiles, mode, wl, hl, q.srcPitch, n, d, from, place, unit, y)
    ensures ByteMoves(blits, before, q.dstOffset, dstWidth, dstHeight, q.dstX, q.dstY, q.srcOffset, q.srcPitch, q.srcX,
                      q.srcY, width, height, q.bytesPerPixel, mode, x, y, c)
  {
  }

  lemma PlacedUnit(mode: int, p: Conversion, width: Word, height: Word, chip: Chip, d: int, x: nat, y: nat)
    requires Inside(p, width, height) && Supported(p.bytesPerPixel) && p.wl + p.hl <= 31
    requires p.dstX <= x < p.dstX + width && p.dstY <= y < p.dstY + height
    ensures UnitsMove(Run(SwizzleWrites(mode, p, width, height), chip).blits, |chip.blits|,
                      SwizzleTiles(p, width, height), mode, p.wl, p.hl, p.srcPitch, p.bytesPerPixel, d,
                      UnitFrom(p, x, y, d), UnitPlace(p, x, y, d), x, y)
  {
    SwizzleCopies(mode, p, width, height, chip, x, y);
    UnitsConvert(p, Run(SwizzleWrites(mode, p, width, height), chip).blits, |chip.blits|,
                 SwizzleTiles(p, width, height), mode, d, UnitFrom(p, x, y, d), UnitPlace(p, x, y, d), x, y);
  }

  lemma UnitInside(k: nat, n: nat, dstX: nat, width: nat, x: nat, c: nat, e: nat, unit: nat)
    requires (k == 1 || k == 2 || k == 4) && (n == 2 || n == 4) && c < k * n && e == c / n && unit == Units(k, x) + e
    requires dstX <= x < dstX + width
    ensures Units(k, dstX) <= unit < Units(k, dstX) + Units(k, width) && c == n * e + c % n
  {
  }

  lemma WideTiles(p: Conversion, q: Conversion, k: nat, width: Word, wide: Word, height: Word)
    requires p.dstX == Units(k, q.dstX) && wide == Units(k, width) && p.dstY == q.dstY && Inside(p, wide, height)
    ensures SwizzleTiles(p, wide, height)
         == Grid(Cut(Units(k, q.dstX), Units(k, q.dstX + width)), Cut(q.dstY, q.dstY + height))
  {
    EndsPlain(p, wide, height);
    UnitsAdd(k, q.dstX, width);
  }

  lemma UnitsAdd(k: nat, a: nat, b: nat)
    ensures Units(k, a) + Units(k, b) == Units(k, a + b)
  {
    assert k * a + k * b == k * (a + b);
  }

  lemma UnitsConvert(p: Conversion, blits: seq<Blit>, before: nat, tiles: seq<Tile>, mode: int, d: int, from: Word,
                     place: Word, x: nat, y: nat)
    requires AllConvert(p, mode, blits, before, tiles, x, y) && Hits(tiles, x, y) == 1
    requires from == UnitFrom(p, x, y, d) && place == UnitPlace(p, x, y, d)
    ensures UnitsMove(blits, before, tiles, mode, p.wl, p.hl, p.srcPitch, p.bytesPerPixel, d, from, place, x, y)
  {
    forall i | 0 <= i < |tiles|
      ensures UnitMoves(blits[before + i], tiles[i], mode, p.wl, p.hl, p.srcPitch, p.bytesPerPixel, d, from, place,
                        x, y)
    {
      UnitConverts(p, blits[before + i], tiles[i], mode, d, from, place, x, y);
    }
  }
}
