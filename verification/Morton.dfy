/** Swizzled addresses: the bits of both coordinates interleaved, as far as both go, and the rest of the longer
  one above them. */
module Morton {
  import opened Arith
  import opened Bits

  /** The place of texel (x, y) in a swizzled surface of 2^wl by 2^hl texels. */
  function Address(x: nat, y: nat, wl: nat, hl: nat): nat
    decreases wl + hl
  {
    if wl == 0 && hl == 0 then 0
    else if hl == 0 then x % 2 + 2 * Address(x / 2, y, wl - 1, hl)
    else if wl == 0 then y % 2 + 2 * Address(x, y / 2, wl, hl - 1)
    else x % 2 + 2 * (y % 2) + 4 * Address(x / 2, y / 2, wl - 1, hl - 1)
  }

  function Min(a: nat, b: nat): nat { if a < b then a else b }

  /** Bit by bit: as far as both go, the bits of `x` are the even ones and those of `y` the odd ones; the others of the
    longer side follow in order. */
  lemma {:induction false} AddressBits(x: nat, y: nat, wl: nat, hl: nat, k: nat)
    ensures k < wl && k < hl ==>
      Bit(Address(x, y, wl, hl), 2 * k) == Bit(x, k) && Bit(Address(x, y, wl, hl), 2 * k + 1) == Bit(y, k)
    ensures hl <= k < wl ==> Bit(Address(x, y, wl, hl), hl + k) == Bit(x, k)
    ensures wl <= k < hl ==> Bit(Address(x, y, wl, hl), wl + k) == Bit(y, k)
    decreases k
  {
    if wl > 0 && hl > 0 {
      var rest := Address(x / 2, y / 2, wl - 1, hl - 1);
      Halves(y % 2 + 2 * rest, x % 2);
      Halves(rest, y % 2);
      if k > 0 {
        AddressBits(x / 2, y / 2, wl - 1, hl - 1, k - 1);
      }
    } else if wl > 0 {
      Halves(Address(x / 2, y, wl - 1, hl), x % 2);
      if k > 0 {
        AddressBits(x / 2, y, wl - 1, hl, k - 1);
      }
    } else if hl > 0 {
      Halves(Address(x, y / 2, wl, hl - 1), y % 2);
      if k > 0 {
        AddressBits(x, y / 2, wl, hl - 1, k - 1);
      }
    }
  }

  lemma {:induction false} ZeroAddress(wl: nat, hl: nat)
    ensures Address(0, 0, wl, hl) == 0
    decreases wl + hl
  {
    if wl > 0 || hl > 0 {
      ZeroAddress(if wl > 0 then wl - 1 else 0, if hl > 0 then hl - 1 else 0);
    }
  }

  /** `v` is a multiple of 2^d. */
  predicate Multiple(v: nat, d: nat) {
    d == 0 || (v % 2 == 0 && Multiple(v / 2, d - 1))
  }

  lemma {:induction false} MultipleOfPower(q: nat, d: nat)
    ensures Multiple(q * Pow2(d), d)
  {
    if d > 0 {
      var h := q * Pow2(d - 1);
      assert q * Pow2(d) == 2 * h;
      MultipleOfPower(q, d - 1);
    }
  }

  /** A surface is made of blocks of 2^d by 2^d texels (or less, if the surface itself is smaller): the address
    of a texel is that of its block's corner plus its address inside the block. */
  lemma {:induction false} BlockAddress(left: nat, x: nat, top: nat, y: nat, wl: nat, hl: nat, d: nat)
    requires Multiple(left, d) && Multiple(top, d) && x < Pow2(d) && y < Pow2(d)
    requires left + x < Pow2(wl) && top + y < Pow2(hl)
    ensures Address(left + x, top + y, wl, hl) == Address(left, top, wl, hl) + Address(x, y, Min(wl, d), Min(hl, d))
    decreases wl + hl
  {
    if d > 0 && (wl > 0 || hl > 0) {
      var left', x', w := HalfFits(left, x, d, wl);
      var top', y', h := HalfFits(top, y, d, hl);
      BlockAddress(left', x', top', y', w, h, d - 1);
      BlockStep(left, x, top, y, left', x', top', y', wl, hl, w, h, d);
    }
  }

  /** The half of a coordinate, in a surface half as long; a surface of one texel stays. */
  predicate HalfOf(x: nat, x': nat, l: nat, l': nat) {
    if l > 0 then x' == x / 2 && l' == l - 1 else x == 0 && x' == 0 && l' == 0
  }

  /** The lowest bits of the coordinates that have any, below the rest of the address. */
  function Placed(wide: bool, high: bool, xBit: nat, yBit: nat, rest: nat): nat {
    if wide && high then xBit + 2 * yBit + 4 * rest
    else if wide then xBit + 2 * rest
    else yBit + 2 * rest
  }

  lemma AddressStep(x: nat, y: nat, x': nat, y': nat, wl: nat, hl: nat, w: nat, h: nat)
    requires (wl > 0 || hl > 0) && HalfOf(x, x', wl, w) && HalfOf(y, y', hl, h)
    ensures Address(x, y, wl, hl) == Placed(wl > 0, hl > 0, x % 2, y % 2, Address(x', y', w, h))
  {
    if wl > 0 && hl > 0 {
      BothHalved(x, y, x', y', wl, hl, w, h);
    } else if wl > 0 {
      WidthHalved(x, x', y', wl, w, h);
    } else {
      HeightHalved(y, x', y', hl, w, h);
    }
  }

  lemma PlacedAdds(wide: bool, high: bool, xBit: nat, yBit: nat, a: nat, b: nat)
    ensures Placed(wide, high, xBit, yBit, a + b) == Placed(wide, high, 0, 0, a) + Placed(wide, high, xBit, yBit, b)
  {
  }

  lemma BothHalved(x: nat, y: nat, x': nat, y': nat, wl: nat, hl: nat, w: nat, h: nat)
    requires wl == w + 1 && hl == h + 1 && x' == x / 2 && y' == y / 2
    ensures Address(x, y, wl, hl) == x % 2 + 2 * (y % 2) + 4 * Address(x', y', w, h)
  {
  }

  lemma WidthHalved(x: nat, x': nat, y': nat, wl: nat, w: nat, h: nat)
    requires wl == w + 1 && h == 0 && x' == x / 2 && y' == 0
    ensures Address(x, y', wl, h) == x % 2 + 2 * Address(x', y', w, h)
  {
  }

  lemma HeightHalved(y: nat, x': nat, y': nat, hl: nat, w: nat, h: nat)
    requires hl == h + 1 && w == 0 && x' == 0 && y' == y / 2
    ensures Address(x', y, w, hl) == y % 2 + 2 * Address(x', y', w, h)
  {
  }

  lemma HalfFits(base: nat, r: nat, d: nat, l: nat) returns (base': nat, r': nat, l': nat)
    requires d > 0 && Multiple(base, d) && r < Pow2(d) && base + r < Pow2(l)
    ensures HalfOf(base + r, base' + r', l, l') && HalfOf(base, base', l, l')
      && HalfOf(r, r', Min(l, d), Min(l', d - 1))
    ensures Multiple(base', d - 1) && r' < Pow2(d - 1) && base' + r' < Pow2(l')
    ensures (base + r) % 2 == r % 2 && base % 2 == 0
  {
    base', r', l' := base / 2, r / 2, if l > 0 then l - 1 else 0;
  }

  lemma BlockStep(left: nat, x: nat, top: nat, y: nat, left': nat, x': nat, top': nat, y': nat,
                  wl: nat, hl: nat, w: nat, h: nat, d: nat)
    requires (wl > 0 || hl > 0) && d > 0
    requires HalfOf(left + x, left' + x', wl, w) && HalfOf(left, left', wl, w)
      && HalfOf(x, x', Min(wl, d), Min(w, d - 1))
    requires HalfOf(top + y, top' + y', hl, h) && HalfOf(top, top', hl, h) && HalfOf(y, y', Min(hl, d), Min(h, d - 1))
    requires (left + x) % 2 == x % 2 && left % 2 == 0 && (top + y) % 2 == y % 2 && top % 2 == 0
    requires Address(left' + x', top' + y', w, h) == Address(left', top', w, h) + Address(x', y', Min(w, d - 1),
    Min(h, d - 1))
    ensures Address(left + x, top + y, wl, hl) == Address(left, top, wl, hl) + Address(x, y, Min(wl, d), Min(hl, d))
  {
    var mw, mh, nw, nh := Min(wl, d), Min(hl, d), Min(w, d - 1), Min(h, d - 1);
    AddressStep(left + x, top + y, left' + x', top' + y', wl, hl, w, h);
    AddressStep(left, top, left', top', wl, hl, w, h);
    AddressStep(x, y, x', y', mw, mh, nw, nh);
    PlacedAdds(wl > 0, hl > 0, x % 2, y % 2, Address(left', top', w, h), Address(x', y', nw, nh));
    assert mw > 0 <==> wl > 0;
    assert mh > 0 <==> hl > 0;
  }

  // ----- interleaving the low bits

  /** The low `n` bits of both numbers, interleaved. */
  function Interleave(x: nat, y: nat, n: nat): nat {
    if n == 0 then 0 else x % 2 + 2 * (y % 2) + 4 * Interleave(x / 2, y / 2, n - 1)
  }

  lemma {:induction false} InterleaveBound(x: nat, y: nat, n: nat)
    ensures Interleave(x, y, n) < Pow2(2 * n)
  {
    if n > 0 {
      InterleaveBound(x / 2, y / 2, n - 1);
      assert Pow2(2 * n) == 4 * Pow2(2 * (n - 1));
    }
  }

  /** One bit more at the top. */
  lemma {:induction false} InterleaveNext(x: nat, y: nat, n: nat)
    ensures Interleave(x, y, n + 1) == Interleave(x, y, n) + (Bit(x, n) + 2 * Bit(y, n)) * Pow2(2 * n)
  {
    if n > 0 {
      var c, p := Bit(x, n) + 2 * Bit(y, n), Pow2(2 * (n - 1));
      InterleaveNext(x / 2, y / 2, n - 1);
      QuadPower(n);
      Quadrupled(x % 2 + 2 * (y % 2), Interleave(x / 2, y / 2, n - 1), c, p);
    }
  }

  lemma ModQuads(c: nat, i: nat, m: nat)
    requires c < 4 && m > 0
    ensures (c + 4 * i) % (4 * m) == c + 4 * (i % m)
  {
    var q, r := i / m, i % m;
    assert i == q * m + r;
    assert q * (4 * m) == 4 * (q * m);
    DivModUnique(c + 4 * i, 4 * m, q, c + 4 * r);
  }

  /** The low bits of a longer interleaving. */
  lemma {:induction false} InterleaveMod(x: nat, y: nat, n: nat, k: nat)
    requires k <= n
    ensures Interleave(x, y, n) % Pow2(2 * k) == Interleave(x, y, k)
    decreases k
  {
    if k > 0 {
      InterleaveMod(x / 2, y / 2, n - 1, k - 1);
      QuadPower(k);
      ModQuads(x % 2 + 2 * (y % 2), Interleave(x / 2, y / 2, n - 1), Pow2(2 * (k - 1)));
    }
  }

  lemma QuadPower(n: nat)
    requires n > 0
    ensures Pow2(2 * n) == 4 * Pow2(2 * (n - 1))
  {
    Quad(2 * n, 2 * (n - 1));
  }

  lemma Quad(k: nat, m: nat)
    requires k == m + 2
    ensures Pow2(k) == 4 * Pow2(m)
  {
    assert Pow2(k) == 2 * Pow2(k - 1);
  }

  /** An address, split where the shorter coordinate ends. */
  lemma {:induction false} AddressSplits(x: nat, y: nat, wl: nat, hl: nat)
    requires x < Pow2(wl) && y < Pow2(hl)
    ensures var n := Min(wl, hl);
      Address(x, y, wl, hl) == Interleave(x, y, n) + (Shr(x, n) + Shr(y, n)) * Pow2(2 * n)
    decreases wl + hl
  {
    var n := Min(wl, hl);
    if n == 0 {
      LinearAddress(x, y, wl, hl);
    } else {
      AddressSplits(x / 2, y / 2, wl - 1, hl - 1);
      QuadPower(n);
      Quadrupled(x % 2 + 2 * (y % 2), Interleave(x / 2, y / 2, n - 1), Shr(x, n) + Shr(y, n), Pow2(2 * (n - 1)));
    }
  }

  lemma Quadrupled(low: int, i: int, c: int, p: int)
    ensures low + 4 * (i + c * p) == low + 4 * i + c * (4 * p)
  {
  }

  lemma {:induction false} LinearAddress(x: nat, y: nat, wl: nat, hl: nat)
    requires Min(wl, hl) == 0 && x < Pow2(wl) && y < Pow2(hl)
    ensures Address(x, y, wl, hl) == x + y
    decreases wl + hl
  {
    if wl == 0 && hl == 0 {
    } else if hl == 0 {
      LinearAddress(x / 2, y, wl - 1, hl);
    } else {
      LinearAddress(x, y / 2, wl, hl - 1);
    }
  }

  lemma {:induction false} InterleaveZero(x: nat, y: nat, n: nat)
    ensures Interleave(x, y, n) == 0 <==> x % Pow2(n) == 0 && y % Pow2(n) == 0
  {
    if n > 0 {
      InterleaveZero(x / 2, y / 2, n - 1);
      ModHalves(x, Pow2(n - 1));
      ModHalves(y, Pow2(n - 1));
    }
  }

  /** Interleaving `k` bits is as good as `n` exactly when there is nothing in the bits between. */
  lemma {:induction false} InterleaveShort(x: nat, y: nat, n: nat, k: nat)
    requires k <= n
    ensures Interleave(x, y, n) == Interleave(x, y, k) <==> x % Pow2(n) < Pow2(k) && y % Pow2(n) < Pow2(k)
    decreases k
  {
    if k == 0 {
      InterleaveZero(x, y, n);
    } else {
      InterleaveShort(x / 2, y / 2, n - 1, k - 1);
      ModHalves(x, Pow2(n - 1));
      ModHalves(y, Pow2(n - 1));
    }
  }

  /** Different texels have different places, all below the number of texels. */
  lemma {:induction false} AddressInjective(x: nat, y: nat, x': nat, y': nat, wl: nat, hl: nat)
    requires x < Pow2(wl) && y < Pow2(hl) && x' < Pow2(wl) && y' < Pow2(hl)
    ensures Address(x, y, wl, hl) < Pow2(wl + hl)
    ensures Address(x, y, wl, hl) == Address(x', y', wl, hl) ==> x == x' && y == y'
    decreases wl + hl
  {
    if wl > 0 || hl > 0 {
      var w, h := if wl > 0 then wl - 1 else 0, if hl > 0 then hl - 1 else 0;
      var a, b, a', b' := x / 2, y / 2, x' / 2, y' / 2;
      AddressStep(x, y, a, b, wl, hl, w, h);
      AddressStep(x', y', a', b', wl, hl, w, h);
      AddressInjective(a, b, a', b', w, h);
      if wl > 0 && hl > 0 {
        Quad(wl + hl, w + h);
      }
    }
  }
}
