/** Bitwise operators on natural numbers, defined bit by bit. */
module Bits {
  import opened Arith

  function Pow2(k: nat): (r: nat)
    ensures r >= 1
  {
    if k == 0 then 1 else 2 * Pow2(k - 1)
  }

  lemma {:induction false} Pow2Adds(a: nat, b: nat)
    ensures Pow2(a + b) == Pow2(a) * Pow2(b)
  {
    if a > 0 {
      Pow2Adds(a - 1, b);
      assert Pow2(a) * Pow2(b) == 2 * (Pow2(a - 1) * Pow2(b));
    }
  }

  lemma {:induction false} Pow2Monotone(a: nat, b: nat)
    requires a <= b
    ensures Pow2(a) <= Pow2(b)
  {
    if a < b {
      Pow2Monotone(a, b - 1);
    }
  }

  lemma PowersOfTwo()
    ensures Pow2(4) == 0x10 && Pow2(8) == 0x100 && Pow2(16) == 0x1_0000
    ensures Pow2(32) == 0x1_0000_0000 && Pow2(64) == 0x1_0000_0000_0000_0000
  {
    assert Pow2(2) == 4;
    assert Pow2(4) == 16;
    Pow2Adds(4, 4);
    Pow2Adds(8, 8);
    Pow2Adds(16, 16);
    Pow2Adds(32, 32);
  }

  /** Bit `k` of `x`. */
  function Bit(x: nat, k: nat): (r: nat)
    ensures r <= 1
  {
    if k == 0 then x % 2 else Bit(x / 2, k - 1)
  }

  /** `x` without its low `k` bits. */
  function Shr(x: nat, k: nat): nat {
    if k == 0 then x else Shr(x / 2, k - 1)
  }

  function And(a: nat, b: nat): (r: nat)
    ensures r <= a && r <= b
  {
    if a == 0 || b == 0 then 0 else 2 * And(a / 2, b / 2) + a % 2 * (b % 2)
  }

  function Or(a: nat, b: nat): (r: nat)
    ensures r >= a && r >= b && r <= a + b
    decreases a + b
  {
    if a == 0 then b else if b == 0 then a
    else 2 * Or(a / 2, b / 2) + (if a % 2 == 0 && b % 2 == 0 then 0 else 1)
  }

  function Xor(a: nat, b: nat): (r: nat)
    ensures r <= a + b
    decreases a + b
  {
    if a == 0 then b else if b == 0 then a
    else 2 * Xor(a / 2, b / 2) + (if a % 2 == b % 2 then 0 else 1)
  }

  lemma {:induction false} ZeroBits(k: nat)
    ensures Bit(0, k) == 0
  {
    if k > 0 {
      ZeroBits(k - 1);
    }
  }

  lemma {:induction false} AndBits(a: nat, b: nat, k: nat)
    ensures Bit(And(a, b), k) == Bit(a, k) * Bit(b, k)
    decreases k
  {
    ZeroBits(k);
    if a != 0 && b != 0 {
      Halves(And(a / 2, b / 2), a % 2 * (b % 2));
      if k > 0 {
        AndBits(a / 2, b / 2, k - 1);
      }
    }
  }

  lemma {:induction false} OrBits(a: nat, b: nat, k: nat)
    ensures Bit(Or(a, b), k) == if Bit(a, k) + Bit(b, k) == 0 then 0 else 1
    decreases k
  {
    ZeroBits(k);
    if a != 0 && b != 0 {
      Halves(Or(a / 2, b / 2), if a % 2 == 0 && b % 2 == 0 then 0 else 1);
      if k > 0 {
        OrBits(a / 2, b / 2, k - 1);
      }
    }
  }

  lemma {:induction false} XorBits(a: nat, b: nat, k: nat)
    ensures Bit(Xor(a, b), k) == (Bit(a, k) + Bit(b, k)) % 2
    decreases k
  {
    ZeroBits(k);
    if a != 0 && b != 0 {
      Halves(Xor(a / 2, b / 2), if a % 2 == b % 2 then 0 else 1);
      if k > 0 {
        XorBits(a / 2, b / 2, k - 1);
      }
    }
  }

  lemma Halves(h: nat, bit: nat)
    requires bit <= 1
    ensures (2 * h + bit) / 2 == h && (2 * h + bit) % 2 == bit
  {
  }

  /** Numbers below a power of two stay below it. */
  lemma {:induction false} OrBound(a: nat, b: nat, k: nat)
    requires a < Pow2(k) && b < Pow2(k)
    ensures Or(a, b) < Pow2(k) && Xor(a, b) < Pow2(k)
  {
    if k > 0 && a != 0 && b != 0 {
      OrBound(a / 2, b / 2, k - 1);
    }
  }

  lemma {:induction false} XorTwice(a: nat, b: nat)
    ensures Xor(Xor(a, b), b) == a
    decreases a + b
  {
    if a == 0 {
      XorSelf(b);
    } else {
      XorTwice(a / 2, b / 2);
      XorStep(a, b);
      XorTwiceStep(a, b, Xor(a, b), Xor(a / 2, b / 2));
    }
  }

  lemma XorTwiceStep(a: nat, b: nat, x: nat, h: nat)
    requires x == 2 * h + (if a % 2 == b % 2 then 0 else 1) && Xor(h, b / 2) == a / 2
    ensures Xor(x, b) == a
  {
    var flip := if a % 2 == b % 2 then 0 else 1;
    Halves(h, flip);
    XorStep(x, b);
    assert x / 2 == h && x % 2 == flip;
    LowBits(a, b, flip);
  }

  lemma LowBits(a: nat, b: nat, flip: nat)
    requires flip == if a % 2 == b % 2 then 0 else 1
    ensures 2 * (a / 2) + (if flip == b % 2 then 0 else 1) == a
  {
  }

  lemma {:induction false} XorCommutes(a: nat, b: nat)
    ensures Xor(a, b) == Xor(b, a)
    decreases a + b
  {
    if a != 0 && b != 0 {
      XorCommutes(a / 2, b / 2);
    }
  }

  lemma XorStep(x: nat, b: nat)
    ensures Xor(x, b) == 2 * Xor(x / 2, b / 2) + (if x % 2 == b % 2 then 0 else 1)
  {
  }

  lemma {:induction false} XorSelf(a: nat)
    ensures Xor(a, a) == 0
  {
    if a > 0 {
      XorSelf(a / 2);
    }
  }

  lemma {:induction false} ShrIsDiv(x: nat, k: nat)
    ensures Shr(x, k) == x / Pow2(k)
  {
    if k > 0 {
      ShrIsDiv(x / 2, k - 1);
      HalfDivides(x, x / 2, Pow2(k - 1), Pow2(k));
    }
  }

  lemma HalfDivides(x: nat, half: nat, p: nat, d: nat)
    requires half == x / 2 && 0 < p && d == 2 * p
    ensures half / p == x / d
  {
    var q, r := half / p, half % p;
    assert half == q * p + r;
    assert q * d == 2 * (q * p);
    DivModUnique(x, d, q, 2 * r + x % 2);
  }

  /** A number in the high bits and one below them: `|` puts them side by side. */
  lemma {:induction false} OrIsSum(high: nat, low: nat, k: nat)
    requires low < Pow2(k)
    ensures Or(high * Pow2(k), low) == high * Pow2(k) + low
    decreases k
  {
    if k == 0 {
    } else if high == 0 || low == 0 {
      assert high == 0 ==> high * Pow2(k) == 0;
    } else {
      assert high * Pow2(k) == 2 * (high * Pow2(k - 1));
      OrIsSum(high, low / 2, k - 1);
      Halves(high * Pow2(k - 1), 0);
      OrStep(2 * (high * Pow2(k - 1)), low);
    }
  }

  lemma OrStep(a: nat, b: nat)
    ensures Or(a, b) == 2 * Or(a / 2, b / 2) + (if a % 2 == 0 && b % 2 == 0 then 0 else 1)
  {
  }

  /** The low `k` bits. */
  lemma AndIsMod(x: nat, k: nat)
    ensures And(x, Pow2(k) - 1) == x % Pow2(k)
  {
    AndMasks(x, k, Pow2(k));
  }

  lemma {:induction false} AndMasks(x: nat, k: nat, d: nat)
    requires d == Pow2(k)
    ensures And(x, d - 1) == x % d
    decreases k
  {
    if k > 0 {
      AndMasks(x / 2, k - 1, Pow2(k - 1));
      AndMask(x, Pow2(k - 1), d, d - 1);
    }
  }

  lemma AndMask(x: nat, p: nat, d: nat, mask: nat)
    requires 0 < p && d == 2 * p == mask + 1 && And(x / 2, p - 1) == x / 2 % p
    ensures And(x, mask) == x % d
  {
    Halves(p - 1, 1);
    AndStep(x, mask);
    ModHalves(x, p);
  }

  /** Masking away the low `k` bits of an `n`-bit number. */
  lemma {:induction false} ClearLow(x: nat, n: nat, k: nat)
    requires k <= n && x < Pow2(n)
    ensures Pow2(k) <= Pow2(n) && And(x, Pow2(n) - Pow2(k)) == x - x % Pow2(k)
    decreases n
  {
    if k == 0 {
      AndIsMod(x, n);
      DivModUnique(x, Pow2(n), 0, x);
    } else {
      var mask := Pow2(n - 1) - Pow2(k - 1);
      ClearLow(x / 2, n - 1, k - 1);
      ClearLowStep(x, mask, x / 2 % Pow2(k - 1));
      ModHalves(x, Pow2(k - 1));
    }
  }

  lemma ClearLowStep(x: nat, mask: nat, r: nat)
    requires r <= x / 2 && And(x / 2, mask) == x / 2 - r
    ensures And(x, 2 * mask) == x - (2 * r + x % 2)
  {
    AndStep(x, 2 * mask);
    Halves(mask, 0);
  }

  /** A mask of one bit. */
  lemma {:induction false} AndPower(x: nat, k: nat)
    ensures And(x, Pow2(k)) == Bit(x, k) * Pow2(k)
    decreases k
  {
    AndPowerIs(x, k, Pow2(k));
  }

  lemma {:induction false} AndPowerIs(x: nat, k: nat, p: nat)
    requires p == Pow2(k)
    ensures And(x, p) == Bit(x, k) * p
    decreases k
  {
    if k > 0 {
      AndPowerIs(x / 2, k - 1, Pow2(k - 1));
      AndEven(x, Pow2(k - 1), p);
    } else {
      AndStep(x, 1);
    }
  }

  lemma AndEven(x: nat, half: nat, even: nat)
    requires even == 2 * half
    ensures And(x, even) == 2 * And(x / 2, half)
  {
    AndStep(x, even);
    Halves(half, 0);
  }

  lemma AndStep(a: nat, b: nat)
    ensures And(a, b) == 2 * And(a / 2, b / 2) + a % 2 * (b % 2)
  {
  }

  lemma ModHalves(x: nat, d: nat)
    requires d > 0
    ensures x % (2 * d) == 2 * (x / 2 % d) + x % 2
  {
    var q, r := x / 2 / d, x / 2 % d;
    assert x / 2 == q * d + r;
    assert q * (2 * d) == 2 * (q * d);
    DivModUnique(x, 2 * d, q, 2 * r + x % 2);
  }

  /** `|` works on the parts above and below a bit separately. */
  lemma {:induction false} OrScaled(h: nat, f: nat, or: nat, low: nat, k: nat, d: nat, hd: nat, fd: nat, od: nat)
    requires low < d == Pow2(k) && or == Or(h, f) && hd == h * d && fd == f * d && od == or * d
    ensures Or(hd, fd + low) == od + low
    decreases k
  {
    if k == 0 {
      Unscaled(h, f, or, d, hd, fd, od);
    } else {
      var p := Pow2(k - 1);
      var hp, fp, op := Halved(h, f, or, p, d, hd, fd, od);
      OrScaled(h, f, or, low / 2, k - 1, p, hp, fp, op);
      OrBelow(hp, fp, op, hd, fd, od, low);
    }
  }

  lemma Unscaled(a: nat, b: nat, c: nat, d: nat, ad: nat, bd: nat, cd: nat)
    requires d == 1 && ad == a * d && bd == b * d && cd == c * d
    ensures ad == a && bd == b && cd == c
  {
  }

  lemma Halved(a: nat, b: nat, c: nat, p: nat, d: nat, ad: nat, bd: nat, cd: nat) returns (ap: nat, bp: nat, cp: nat)
    requires d == 2 * p && ad == a * d && bd == b * d && cd == c * d
    ensures ap == a * p && bp == b * p && cp == c * p && ad == 2 * ap && bd == 2 * bp && cd == 2 * cp
  {
    DoubledProduct(a, p, d);
    DoubledProduct(b, p, d);
    DoubledProduct(c, p, d);
    ap, bp, cp := a * p, b * p, c * p;
  }

  lemma OrBelow(a: nat, b: nat, c: nat, a': nat, b': nat, c': nat, low: nat)
    requires a' == 2 * a && b' == 2 * b && c' == 2 * c && Or(a, b + low / 2) == c + low / 2
    ensures Or(a', b' + low) == c' + low
  {
    OrPartsStep(a, b, low, c + low / 2, a', b' + low);
  }

  lemma DoubledProduct(x: nat, p: nat, d: nat)
    requires d == 2 * p
    ensures x * d == 2 * (x * p) && x * p >= 0
  {
  }

  lemma OrPartsStep(a: nat, b: nat, low: nat, r: nat, x: nat, z: nat)
    requires r == Or(a, b + low / 2) && x == 2 * a && z == 2 * b + low
    ensures Or(x, z) == 2 * r + low % 2
  {
    OrDoubled(a, b + low / 2, low % 2, x, z);
  }

  lemma OrDoubled(a: nat, y: nat, bit: nat, x: nat, z: nat)
    requires bit <= 1 && x == 2 * a && z == 2 * y + bit
    ensures Or(x, z) == 2 * Or(a, y) + bit
  {
    Halves(a, 0);
    Halves(y, bit);
    OrStep(x, z);
  }
}
