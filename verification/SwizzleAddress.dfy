/** The address formula of `SetConvertSwizzleFormat`: where the block with a given corner begins. */
module SwizzleAddress {
  import opened Arith
  import Bits
  import opened RsxStream
  import opened Morton
  import opened Words

  const TERMS: nat := 12

  /** The first `n` of the twelve pairs of masked and shifted bits, or-ed together from the left. */
  function Lower(x: Word, y: Word, n: nat): Word
    requires n <= 12
  {
    if n == 0 then 0
    else
      Bits.PowersOfTwo();
      Or32(Or32(Lower(x, y, n - 1), Shl(Masked(x, n - 1), n - 1)), Shl(Masked(y, n - 1), n))
  }

  /** `v & (1 << k)`. */
  function Masked(v: Word, k: nat): (r: Word)
    ensures r <= v
  {
    Bits.And(v, Bits.Pow2(k))
  }

  /** The mask `~((1 << k) - 1)` on 32 bits. */
  function Upper(v: Word, k: nat): (r: Word)
    requires k <= 32
    ensures r <= v
  {
    MaskFits(k);
    Bits.And(v, TWO_32 - Bits.Pow2(k))
  }

  lemma MaskFits(k: nat)
    requires k <= 32
    ensures Bits.Pow2(k) <= TWO_32
  {
    Bits.PowersOfTwo();
    Bits.ClearLow(0, 32, k);
  }

  /** The texel number of the block with the corner (x, y), as the code computes it. */
  function BlockOffset(x: Word, y: Word, wl: nat, hl: nat): Word
    requires Min(wl, hl) <= 16
  {
    Joined(x, y, Min(wl, hl))
  }

  function Joined(x: Word, y: Word, n: nat): Word
    requires n <= 16
  {
    Or32(Or32(LowerMasked(x, y, n), Upper(Shl(x, n), 2 * n)), Upper(Shl(y, n), 2 * n))
  }

  function LowerMasked(x: Word, y: Word, n: nat): Word {
    Bits.And(Lower(x, y, TERMS), Bits.Pow2(2 * n) - 1)
  }

  // ----- what the formula computes

  lemma MaskedBit(v: Word, k: nat, shift: nat)
    requires k <= shift <= k + 1 && k <= 11
    ensures Shl(Masked(v, k), shift) == Shl(Bits.Bit(v, k), k + shift)
  {
    Bits.AndPower(v, k);
    Bits.Pow2Adds(k, shift);
    Grouped(Bits.Bit(v, k), Bits.Pow2(k), Bits.Pow2(shift));
  }

  lemma Grouped(a: int, b: int, c: int)
    ensures a * b * c == a * (b * c)
  {
  }

  lemma SmallPower(k: nat)
    requires k <= 31
    ensures Bits.Pow2(k) < TWO_32
  {
    Bits.PowersOfTwo();
    Bits.Pow2Monotone(k + 1, 32);
  }

  lemma OrBit(low: Word, bit: nat, k: nat)
    requires bit <= 1 && low < Bits.Pow2(k) && k <= 31
    ensures Or32(low, Shl(bit, k)) == low + bit * Bits.Pow2(k) < Bits.Pow2(k + 1)
  {
    SmallPower(k);
    assert bit * Bits.Pow2(k) <= Bits.Pow2(k);
    OrFields(bit, low, k);
    assert Bits.Pow2(k + 1) == 2 * Bits.Pow2(k);
  }

  /** The twelve pairs of terms interleave twelve bits of each coordinate. */
  lemma {:induction false} LowerInterleaves(x: Word, y: Word, n: nat)
    requires n <= 12
    ensures Lower(x, y, n) == Interleave(x, y, n) < Bits.Pow2(2 * n)
  {
    if n > 0 {
      var k := n - 1;
      LowerInterleaves(x, y, k);
      MaskedBit(x, k, k);
      MaskedBit(y, k, n);
      OrTwoBits(Lower(x, y, k), Bits.Bit(x, k), Bits.Bit(y, k), 2 * k, 2 * k + 1);
      InterleaveNext(x, y, k);
      InterleaveBound(x, y, n);
    }
  }

  lemma OrTwoBits(low: Word, a: nat, b: nat, k: nat, next: nat)
    requires a <= 1 && b <= 1 && low < Bits.Pow2(k) && next == k + 1 && next <= 31
    ensures Or32(Or32(low, Shl(a, k)), Shl(b, next)) == low + (a + 2 * b) * Bits.Pow2(k)
  {
    OrBit(low, a, k);
    OrBit(Or32(low, Shl(a, k)), b, next);
    TwoBits(a, b, k);
  }

  lemma TwoBits(a: nat, b: nat, k: nat)
    ensures a * Bits.Pow2(k) + b * Bits.Pow2(k + 1) == (a + 2 * b) * Bits.Pow2(k)
  {
    var p := Bits.Pow2(k);
    assert Bits.Pow2(k + 1) == 2 * p;
    assert b * (2 * p) == (2 * b) * p;
  }

  lemma UpperOf(w: Word, k: nat)
    requires k <= 32
    ensures Upper(w, k) == w - w % Bits.Pow2(k)
  {
    UpperAt(w, k, Bits.Pow2(k));
  }

  lemma UpperAt(w: Word, k: nat, p: nat)
    requires k <= 32 && p == Bits.Pow2(k)
    ensures p <= TWO_32 && Bits.And(w, TWO_32 - p) == w - w % p
  {
    Bits.PowersOfTwo();
    Bits.ClearLow(w, 32, k);
  }

  lemma ShiftOf(v: Word, n: nat, p: nat)
    requires p == Bits.Pow2(n) && v * p < TWO_32
    ensures Shl(v, n) == v * p
  {
    assert v * p >= 0;
    DivModUnique(v * p, TWO_32, 0, v * p);
  }

  lemma Squared(n: nat, p: nat, s: nat)
    requires p == Bits.Pow2(n) && s == Bits.Pow2(2 * n)
    ensures s == p * p
  {
    Bits.Pow2Adds(n, n);
  }

  lemma ScaledBy(v: nat, p: int, s: int, w: int)
    requires p > 0 && s == p * p && w == v * p
    ensures s > 0 && w - w % s == v / p * s && 0 <= v / p * s <= w
  {
    ScaledDivMod(v, p);
  }

  /** A coordinate above its low `n` bits, moved to where it belongs. */
  lemma UpperBits(v: Word, n: nat, s: nat)
    requires s == Bits.Pow2(2 * n) && v * Bits.Pow2(n) < TWO_32 && n <= 16
    ensures Upper(Shl(v, n), 2 * n) == Bits.Shr(v, n) * s
  {
    var p := Bits.Pow2(n);
    ShiftOf(v, n, p);
    UpperOf(Shl(v, n), 2 * n);
    Squared(n, p, s);
    ScaledBy(v, p, s, Shl(v, n));
    Bits.ShrIsDiv(v, n);
  }

  lemma LowerBits(x: Word, y: Word, n: nat)
    requires n <= 16
    ensures LowerMasked(x, y, n) == Interleave(x, y, Min(n, TERMS)) < Bits.Pow2(2 * n)
  {
    LowerBitsOf(x, y, n, TERMS, Lower(x, y, TERMS), Bits.Pow2(2 * n));
  }

  lemma LowerBitsOf(x: Word, y: Word, n: nat, terms: nat, low: Word, s: nat)
    requires terms <= 12 && low == Lower(x, y, terms) && s == Bits.Pow2(2 * n)
    ensures Bits.And(low, s - 1) == Interleave(x, y, Min(n, terms)) < s
  {
    LowerInterleaves(x, y, terms);
    LowerMod(x, y, n, terms, low, s);
    Bits.AndMasks(low, 2 * n, s);
  }

  lemma LowerMod(x: nat, y: nat, n: nat, terms: nat, low: nat, s: nat)
    requires low == Interleave(x, y, terms) && s == Bits.Pow2(2 * n)
    ensures low % s == Interleave(x, y, Min(n, terms)) < s
  {
    if n <= terms {
      InterleaveMod(x, y, terms, n);
      InterleaveBound(x, y, n);
    } else {
      InterleaveBound(x, y, terms);
      Bits.Pow2Monotone(2 * terms, 2 * n);
      DivModUnique(low, s, 0, low);
    }
  }

  lemma OrZero(z: Word)
    ensures Or32(z, 0) == z
  {
  }

  lemma OrUpper(low: Word, u: nat, v: nat, k: nat, s: nat, a: Word, b: Word)
    requires s == Bits.Pow2(k) && low < s && (u == 0 || v == 0) && a == u * s && b == v * s
    ensures Or32(Or32(low, a), b) == low + (u + v) * s
  {
    OrHigh(low, u, k, a);
    OrHigh(low, v, k, b);
    OrZero(low);
    OrZero(Or32(low, a));
    Distribute(u, v, s);
  }

  lemma OrHigh(low: Word, u: nat, k: nat, a: Word)
    requires low < Bits.Pow2(k) && a == u * Bits.Pow2(k)
    ensures Or32(low, a) == low + a && (u == 0 ==> a == 0)
  {
    ProductMonotone(1, Bits.Pow2(k), u);
    DivModUnique(a, TWO_32, 0, a);
    OrFields(u, low, k);
  }

  lemma OffsetFormula(x: Word, y: Word, wl: nat, hl: nat, n: nat, u: nat, v: nat, s: nat)
    requires wl + hl <= 31 && x < Bits.Pow2(wl) && y < Bits.Pow2(hl) && n == Min(wl, hl)
    requires u == Bits.Shr(x, n) && v == Bits.Shr(y, n) && s == Bits.Pow2(2 * n)
    ensures Joined(x, y, n) == Interleave(x, y, Min(n, 12)) + (u + v) * s
  {
    FieldsFit(x, y, wl, hl, n);
    JoinedFormula(x, y, n, u, v, s);
  }

  lemma FieldsFit(x: Word, y: Word, wl: nat, hl: nat, n: nat)
    requires wl + hl <= 31 && x < Bits.Pow2(wl) && y < Bits.Pow2(hl) && n == Min(wl, hl)
    ensures x * Bits.Pow2(n) < TWO_32 && y * Bits.Pow2(n) < TWO_32 && (Bits.Shr(x, n) == 0 || Bits.Shr(y, n) == 0)
  {
    ShiftFits(x, wl, n);
    ShiftFits(y, hl, n);
    ShortSide(x, y, wl, hl);
  }

  lemma JoinedFormula(x: Word, y: Word, n: nat, u: nat, v: nat, s: nat)
    requires n <= 16 && x * Bits.Pow2(n) < TWO_32 && y * Bits.Pow2(n) < TWO_32
    requires u == Bits.Shr(x, n) && v == Bits.Shr(y, n) && (u == 0 || v == 0) && s == Bits.Pow2(2 * n)
    ensures Joined(x, y, n) == Interleave(x, y, Min(n, 12)) + (u + v) * s
  {
    UpperBits(x, n, s);
    UpperBits(y, n, s);
    LowerBits(x, y, n);
    OrUpper(LowerMasked(x, y, n), u, v, 2 * n, s, Upper(Shl(x, n), 2 * n), Upper(Shl(y, n), 2 * n));
  }

  lemma Distribute(u: int, v: int, s: int)
    ensures (u + v) * s == u * s + v * s
  {
  }

  lemma ShiftFits(v: Word, l: nat, n: nat)
    requires v < Bits.Pow2(l) && l + n <= 31
    ensures v * Bits.Pow2(n) < TWO_32
  {
    Bits.Pow2Adds(l, n);
    SmallPower(l + n);
    ProductMonotone(v, Bits.Pow2(l), Bits.Pow2(n));
  }

  /** The shorter coordinate has nothing above its bits. */
  lemma ShortSide(x: nat, y: nat, wl: nat, hl: nat)
    requires x < Bits.Pow2(wl) && y < Bits.Pow2(hl)
    ensures Bits.Shr(x, Min(wl, hl)) == 0 || Bits.Shr(y, Min(wl, hl)) == 0
  {
    if wl < hl {
      Bits.ShrIsDiv(x, wl);
      DivModUnique(x, Bits.Pow2(wl), 0, x);
    } else {
      Bits.ShrIsDiv(y, hl);
      DivModUnique(y, Bits.Pow2(hl), 0, y);
    }
  }

  /** The formula is the swizzled address of the corner exactly when the shorter side has at most twelve bits, or
    the corner has nothing in the bits of both coordinates beyond the twelfth. */
  lemma OffsetIsAddress(x: Word, y: Word, wl: nat, hl: nat)
    requires wl + hl <= 31 && x < Bits.Pow2(wl) && y < Bits.Pow2(hl)
    ensures var n := Min(wl, hl);
      BlockOffset(x, y, wl, hl) == Address(x, y, wl, hl)
      <==> n <= 12 || (x % Bits.Pow2(n) < Bits.Pow2(12) && y % Bits.Pow2(n) < Bits.Pow2(12))
  {
    var n := Min(wl, hl);
    OffsetAndAddress(x, y, wl, hl, n, Bits.Shr(x, n), Bits.Shr(y, n), Bits.Pow2(2 * n));
    if n > 12 {
      InterleaveShort(x, y, n, 12);
    }
  }

  /** Both are an interleaving with the rest above, the offset's cut to twelve bits. */
  lemma OffsetAndAddress(x: Word, y: Word, wl: nat, hl: nat, n: nat, u: nat, v: nat, s: nat)
    requires wl + hl <= 31 && x < Bits.Pow2(wl) && y < Bits.Pow2(hl) && n == Min(wl, hl)
    requires u == Bits.Shr(x, n) && v == Bits.Shr(y, n) && s == Bits.Pow2(2 * n)
    ensures BlockOffset(x, y, wl, hl) == Address(x, y, wl, hl)
      <==> Interleave(x, y, Min(n, 12)) == Interleave(x, y, n)
  {
    OffsetFormula(x, y, wl, hl, n, u, v, s);
    AddressFormula(x, y, wl, hl, n, u, v, s);
    SameAbove(BlockOffset(x, y, wl, hl), Address(x, y, wl, hl), Interleave(x, y, Min(n, 12)), Interleave(x, y, n),
              (u + v) * s);
  }

  /** Where it is not, it falls short, by less than the size of the largest square. */
  lemma OffsetFallsShort(x: Word, y: Word, wl: nat, hl: nat)
    requires wl + hl <= 31 && x < Bits.Pow2(wl) && y < Bits.Pow2(hl)
    ensures Min(wl, hl) <= 16 && 0 <= Address(x, y, wl, hl) - BlockOffset(x, y, wl, hl) < 0x4000_0000
  {
    var n := Min(wl, hl);
    OffsetShortBy(x, y, wl, hl, n, Bits.Shr(x, n), Bits.Shr(y, n), Bits.Pow2(2 * n));
    InterleaveRest(x, y, n);
  }

  lemma OffsetShortBy(x: Word, y: Word, wl: nat, hl: nat, n: nat, u: nat, v: nat, s: nat)
    requires wl + hl <= 31 && x < Bits.Pow2(wl) && y < Bits.Pow2(hl) && n == Min(wl, hl)
    requires u == Bits.Shr(x, n) && v == Bits.Shr(y, n) && s == Bits.Pow2(2 * n)
    ensures Address(x, y, wl, hl) - BlockOffset(x, y, wl, hl) == Interleave(x, y, n) - Interleave(x, y, Min(n, 12))
  {
    OffsetFormula(x, y, wl, hl, n, u, v, s);
    AddressFormula(x, y, wl, hl, n, u, v, s);
    SameDifference(BlockOffset(x, y, wl, hl), Address(x, y, wl, hl), Interleave(x, y, Min(n, 12)),
                   Interleave(x, y, n), (u + v) * s);
  }

  lemma SameDifference(a: int, b: int, c: int, d: int, above: int)
    requires a == c + above && b == d + above
    ensures b - a == d - c
  {
  }

  lemma InterleaveRest(x: nat, y: nat, n: nat)
    requires n <= 15
    ensures 0 <= Interleave(x, y, n) - Interleave(x, y, Min(n, 12)) < 0x4000_0000
  {
    var k := Min(n, 12);
    InterleaveMod(x, y, n, k);
    InterleaveBound(x, y, n);
    Bits.Pow2Monotone(2 * n, 30);
    ThirtyBits();
    RestBelow(Interleave(x, y, n), Bits.Pow2(2 * k));
  }

  lemma RestBelow(a: nat, d: nat)
    requires d > 0
    ensures 0 <= a % d <= a
  {
    var q := a / d;
    assert a == q * d + a % d;
    assert q * d >= 0;
  }

  lemma ThirtyBits()
    ensures Bits.Pow2(30) == 0x4000_0000
  {
    Bits.PowersOfTwo();
  }

  lemma SameAbove(a: int, b: int, c: int, d: int, above: int)
    requires a == c + above && b == d + above
    ensures a == b <==> c == d
  {
  }

  lemma AddressFormula(x: nat, y: nat, wl: nat, hl: nat, n: nat, u: nat, v: nat, s: nat)
    requires x < Bits.Pow2(wl) && y < Bits.Pow2(hl) && n == Min(wl, hl)
    requires u == Bits.Shr(x, n) && v == Bits.Shr(y, n) && s == Bits.Pow2(2 * n)
    ensures Address(x, y, wl, hl) == Interleave(x, y, n) + (u + v) * s
  {
    AddressSplits(x, y, wl, hl);
  }
}
