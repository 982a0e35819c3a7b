/** The context of the package keystream: 64 bytes, of which the last eight count the blocks. */
module KeyCounter {
  import opened Arith
  import Bits
  import opened Bytes
  import opened Words

  /** 64 bytes; the counter is in the last eight. */
  type Context = k: Buffer | |k| == 0x40 witness Zeros(0x40)

  // ----- the counter

  function Counter(key: Context): nat { FromBigEndian(key[0x38..]) }

  function SetCounter(key: Context, n: nat): (r: Context) { key[..0x38] + BigEndian(n, 8) }

  /** `byte << 24` promoted to a signed word and converted to 64 bits. */
  function SignExtended(b: Byte): nat {
    if b < 0x80 then b * 0x100_0000 else TWO_64 - TWO_32 + b * 0x100_0000
  }

  /** Eight bytes put together the way the C code does it: only the upper four are widened before they are shifted. */
  function LoadC(s: Buffer): nat
    requires |s| == 8
  {
    LowerBytes(Bits.Or(UpperBytes(s[0], s[1], s[2], s[3]), SignExtended(s[4])), s[5], s[6], s[7])
  }

  function UpperBytes(b0: nat, b1: nat, b2: nat, b3: nat): nat {
    Bits.Or(Bits.Or(Bits.Or(b0 * 0x100_0000_0000_0000, b1 * 0x1_0000_0000_0000), b2 * 0x100_0000_0000), b3 * TWO_32)
  }

  function LowerBytes(above: nat, b5: nat, b6: nat, b7: nat): nat {
    Bits.Or(Bits.Or(Bits.Or(above, b5 * 0x1_0000), b6 * 0x100), b7)
  }

  /** What that amounts to: the number, or all ones in the upper half. */
  function Misread(n: nat): nat {
    if n % TWO_32 < TWO_31 then n else TWO_64 - TWO_32 + n % TWO_32
  }

  lemma OrByte(acc: nat, h: nat, piece: nat, b: nat, k: nat, p: nat)
    requires b < 0x100 && p == Bits.Pow2(k) && acc == h * (0x100 * p) && piece == b * p
    ensures Bits.Or(acc, piece) == (h * 0x100 + b) * p
  {
    Bits.PowersOfTwo();
    Bits.Pow2Adds(8, k);
    ProductMonotone(b + 1, 0x100, p);
    assert (b + 1) * p == b * p + p;
    Bits.OrIsSum(h, piece, k + 8);
    OrByteSum(h, b, p);
  }

  lemma OrByteSum(h: int, b: int, p: int)
    ensures h * (0x100 * p) + b * p == (h * 0x100 + b) * p
  {
    assert h * (0x100 * p) == h * 0x100 * p;
  }

  lemma ShiftPowers()
    ensures Bits.Pow2(24) == 0x100_0000 && Bits.Pow2(40) == 0x100_0000_0000
    ensures Bits.Pow2(48) == 0x1_0000_0000_0000
  {
    Bits.PowersOfTwo();
    Bits.Pow2Adds(8, 16);
    Bits.Pow2Adds(8, 32);
    Bits.Pow2Adds(16, 32);
  }

  function Number(b0: int, b1: int, b2: int, b3: int): int {
    ((b0 * 0x100 + b1) * 0x100 + b2) * 0x100 + b3
  }

  /** The four widened bytes. */
  lemma LoadUpper(b0: nat, b1: nat, b2: nat, b3: nat)
    requires b0 < 0x100 && b1 < 0x100 && b2 < 0x100 && b3 < 0x100
    ensures UpperBytes(b0, b1, b2, b3) == Number(b0, b1, b2, b3) * TWO_32
  {
    var h2 := (b0 * 0x100 + b1) * 0x100 + b2;
    LoadThree(b0, b1, b2, h2);
    Bits.PowersOfTwo();
    OrByte(h2 * 0x100_0000_0000, h2, b3 * TWO_32, b3, 32, TWO_32);
  }

  lemma LoadThree(b0: nat, b1: nat, b2: nat, h2: nat)
    requires b0 < 0x100 && b1 < 0x100 && b2 < 0x100 && h2 == (b0 * 0x100 + b1) * 0x100 + b2
    ensures Bits.Or(Bits.Or(b0 * 0x100_0000_0000_0000, b1 * 0x1_0000_0000_0000), b2 * 0x100_0000_0000)
      == h2 * 0x100_0000_0000
  {
    var h1 := b0 * 0x100 + b1;
    ShiftPowers();
    OrByte(b0 * 0x100_0000_0000_0000, b0, b1 * 0x1_0000_0000_0000, b1, 48, 0x1_0000_0000_0000);
    OrByte(h1 * 0x1_0000_0000_0000, h1, b2 * 0x100_0000_0000, b2, 40, 0x100_0000_0000);
  }

  lemma FourBytes(s: Buffer)
    requires |s| == 4
    ensures FromBigEndian(s) == Number(s[0], s[1], s[2], s[3]) < TWO_32
  {
    var a, b, c := s[..3], s[..2], s[..1];
    assert a[..2] == b && b[..1] == c && c[..0] == [];
    assert FromBigEndian(c) == s[0];
    assert FromBigEndian(b) == FromBigEndian(c) * 0x100 + s[1];
    assert FromBigEndian(a) == FromBigEndian(b) * 0x100 + s[2];
    assert FromBigEndian(s) == FromBigEndian(a) * 0x100 + s[3];
    assert FromBigEndian(a) < 0x100_0000;
  }

  lemma EightBytes(s: Buffer)
    requires |s| == 8
    ensures FromBigEndian(s) == FromBigEndian(s[..4]) * TWO_32 + FromBigEndian(s[4..])
    ensures FromBigEndian(s[4..]) < TWO_32 && FromBigEndian(s[..4]) < TWO_32
  {
    FourBytes(s[..4]);
    FourBytes(s[4..]);
    assert s[..8] == s;
    ChopByte(s, 8);
    ChopByte(s, 7);
    ChopByte(s, 6);
    ChopByte(s, 5);
  }

  lemma ChopByte(s: Buffer, n: nat)
    requires 0 < n <= |s|
    ensures FromBigEndian(s[..n]) == FromBigEndian(s[..n - 1]) * 0x100 + s[n - 1]
  {
    assert s[..n][..n - 1] == s[..n - 1];
  }

  /** Anything below all ones in the same places disappears in them. */
  lemma {:induction false} OrOnes(a: nat, k: nat)
    requires a < Bits.Pow2(k)
    ensures Bits.Or(a, Bits.Pow2(k) - 1) == Bits.Pow2(k) - 1
  {
    if k > 0 && a > 0 {
      var ones := Bits.Pow2(k - 1) - 1;
      OrOnes(a / 2, k - 1);
      Bits.OrStep(a, 2 * ones + 1);
      Bits.Halves(ones, 1);
    }
  }

  lemma LoadMiddle(hi: nat, b: Byte)
    requires hi < TWO_32
    ensures Bits.Or(hi * TWO_32, SignExtended(b)) == (if b < 0x80 then hi else TWO_32 - 1) * TWO_32 + b * 0x100_0000
  {
    Bits.PowersOfTwo();
    if b < 0x80 {
      Bits.OrIsSum(hi, b * 0x100_0000, 32);
    } else {
      var ones := TWO_32 - 1;
      OrOnes(hi, 32);
      Bits.OrScaled(hi, ones, ones, b * 0x100_0000, 32, TWO_32, hi * TWO_32, ones * TWO_32, ones * TWO_32);
    }
  }

  lemma LoadLower(hi: nat, b4: nat, b5: nat, b6: nat, b7: nat)
    requires b4 < 0x100 && b5 < 0x100 && b6 < 0x100 && b7 < 0x100
    ensures LowerBytes(hi * TWO_32 + b4 * 0x100_0000, b5, b6, b7) == hi * TWO_32 + Number(b4, b5, b6, b7)
  {
    var h6 := ((hi * 0x100 + b4) * 0x100 + b5) * 0x100 + b6;
    LoadTwo(hi, b4, b5, b6, h6);
    OrByte(h6 * 0x100, h6, b7, b7, 0, 1);
  }

  lemma LoadTwo(hi: nat, b4: nat, b5: nat, b6: nat, h6: nat)
    requires b4 < 0x100 && b5 < 0x100 && b6 < 0x100 && h6 == ((hi * 0x100 + b4) * 0x100 + b5) * 0x100 + b6
    ensures Bits.Or(Bits.Or(hi * TWO_32 + b4 * 0x100_0000, b5 * 0x1_0000), b6 * 0x100) == h6 * 0x100
  {
    var h4 := hi * 0x100 + b4;
    LoadTwoBytes(hi * TWO_32 + b4 * 0x100_0000, h4, b5, h4 * 0x100 + b5, b6, h6);
  }

  lemma LoadTwoBytes(acc: nat, h4: nat, b5: nat, h5: nat, b6: nat, h6: nat)
    requires acc == h4 * 0x100_0000 && b5 < 0x100 && b6 < 0x100 && h5 == h4 * 0x100 + b5 && h6 == h5 * 0x100 + b6
    ensures Bits.Or(Bits.Or(acc, b5 * 0x1_0000), b6 * 0x100) == h6 * 0x100
  {
    Bits.PowersOfTwo();
    OrByte(acc, h4, b5 * 0x1_0000, b5, 16, 0x1_0000);
    OrByte(h5 * 0x1_0000, h5, b6 * 0x100, b6, 8, 0x100);
  }

  lemma LoadMisreads(s: Buffer)
    requires |s| == 8
    ensures LoadC(s) == Misread(FromBigEndian(s)) < TWO_64
  {
    var hi, low := FromBigEndian(s[..4]), FromBigEndian(s[4..]);
    EightBytes(s);
    FourBytes(s[..4]);
    FourBytes(s[4..]);
    LoadNumbers(s[0], s[1], s[2], s[3], s[4], s[5], s[6], s[7], hi, low);
    DivModUnique(FromBigEndian(s), TWO_32, hi, low);
  }

  lemma LoadNumbers(b0: nat, b1: nat, b2: nat, b3: nat, b4: Byte, b5: Byte, b6: Byte, b7: Byte, hi: nat, low: nat)
    requires b0 < 0x100 && b1 < 0x100 && b2 < 0x100 && b3 < 0x100
    requires hi == Number(b0, b1, b2, b3) && low == Number(b4, b5, b6, b7)
    ensures LowerBytes(Bits.Or(UpperBytes(b0, b1, b2, b3), SignExtended(b4)), b5, b6, b7)
         == (if low < TWO_31 then hi else TWO_32 - 1) * TWO_32 + low
  {
    LoadUpper(b0, b1, b2, b3);
    LoadMiddle(hi, b4);
    LoadLower(if b4 < 0x80 then hi else TWO_32 - 1, b4, b5, b6, b7);
  }

  lemma SmallNumberLoads(s: Buffer, n: nat)
    requires |s| == 8 && FromBigEndian(s) == n < TWO_31
    ensures LoadC(s) == n
  {
    LoadMisreads(s);
    SmallNumberKept(n);
  }

  lemma SmallNumberKept(n: nat)
    requires n < TWO_31
    ensures Misread(n) == n
  {
  }

  // ----- one step

  /** The C code steps the counter through its own way of reading it; the Python code reads it right. */
  datatype Variant = C | Python

  function Read(v: Variant, n: nat): nat {
    if v.C? then Misread(n) else n
  }

  function Next(v: Variant, key: Context): Context {
    SetCounter(key, (Read(v, Counter(key)) + 1) % TWO_64)
  }

  /** The context after `n` blocks. */
  function KeyAfter(v: Variant, key: Context, n: nat): Context {
    if n == 0 then key else Next(v, KeyAfter(v, key, n - 1))
  }

  /** The key of block `n` as it should be: the counter advanced by `n`, modulo 2^64. */
  function KeyOf(key: Context, n: nat): Context {
    SetCounter(key, (Counter(key) + n) % TWO_64)
  }

  lemma CounterSet(key: Context, n: nat)
    requires n < TWO_64
    ensures Counter(SetCounter(key, n)) == n && SetCounter(key, n)[..0x38] == key[..0x38]
  {
    Powers();
    BigEndianReads(n, 8);
    assert SetCounter(key, n)[0x38..] == BigEndian(n, 8);
  }

  lemma SetTwice(key: Context, n: nat, m: nat)
    ensures SetCounter(SetCounter(key, n), m) == SetCounter(key, m)
  {
    assert SetCounter(key, n)[..0x38] == key[..0x38];
  }

  lemma CounterBelow(key: Context)
    ensures Counter(key) < TWO_64 && SetCounter(key, Counter(key)) == key
  {
    Powers();
    FromBigEndianWrites(key[0x38..]);
    assert key == key[..0x38] + key[0x38..];
  }

  lemma NextOfSet(v: Variant, key: Context, n: nat)
    requires n < TWO_64
    ensures Next(v, SetCounter(key, n)) == SetCounter(key, (Read(v, n) + 1) % TWO_64)
  {
    CounterSet(key, n);
    SetTwice(key, n, (Read(v, n) + 1) % TWO_64);
  }

  lemma AddModulo(c: nat, n: nat)
    requires n > 0
    ensures ((c + (n - 1)) % TWO_64 + 1) % TWO_64 == (c + n) % TWO_64
  {
  }

  /** The Python code counts modulo 2^64. */
  lemma KeyOfNothing(key: Context)
    ensures KeyOf(key, 0) == key
  {
    CounterBelow(key);
  }

  lemma NextKeyOf(key: Context, n: nat)
    requires n > 0
    ensures Next(Python, KeyOf(key, n - 1)) == KeyOf(key, n)
  {
    var c := Counter(key);
    AddModulo(c, n);
    NextAt(key, (c + (n - 1)) % TWO_64, (c + n) % TWO_64);
  }

  lemma NextAt(key: Context, n: nat, next: nat)
    requires n < TWO_64 && next == (n + 1) % TWO_64
    ensures Next(Python, SetCounter(key, n)) == SetCounter(key, next)
  {
    NextOfSet(Python, key, n);
  }

  lemma {:induction false} PythonCounts(key: Context, n: nat)
    ensures KeyAfter(Python, key, n) == KeyOf(key, n)
  {
    if n == 0 {
      KeyOfNothing(key);
    } else {
      PythonCounts(key, n - 1);
      NextKeyOf(key, n);
    }
  }

  /** The C code steps from `n` as it should. */
  predicate StepsRight(n: nat) {
    n % TWO_32 < TWO_31 || n / TWO_32 == TWO_32 - 1
  }

  lemma StepsRightMeans(n: nat)
    requires n < TWO_64
    ensures (Misread(n) + 1) % TWO_64 == (n + 1) % TWO_64 <==> StepsRight(n)
    ensures Misread(n) < TWO_64
  {
    var hi, low := n / TWO_32, n % TWO_32;
    assert n == hi * TWO_32 + low;
  }

  /** Reading eight bytes of the count, `n` blocks on. */
  function CountAfter(c: nat, n: nat): nat { (c + n) % TWO_64 }

  /** The C code's context for block `n` is the right one. */
  predicate ContextRight(key: Context, n: nat) {
    KeyAfter(C, key, n) == KeyOf(key, n)
  }

  ghost predicate ContextsRight(key: Context, n: nat) {
    forall j | 0 <= j < n :: ContextRight(key, j)
  }

  ghost predicate AllStepRight(c: nat, n: nat) {
    forall j | 0 <= j < n :: StepsRight(CountAfter(c, j))
  }

  lemma OneMore(key: Context, n: nat)
    ensures ContextsRight(key, n + 1) <==> ContextsRight(key, n) && ContextRight(key, n)
  {
  }

  lemma OneMoreStep(c: nat, n: nat)
    ensures AllStepRight(c, n + 1) <==> AllStepRight(c, n) && StepsRight(CountAfter(c, n))
  {
  }

  /** The contexts of the C code are right exactly if it steps right from all but the last of them. */
  lemma {:induction false} FirstContexts(key: Context, n: nat)
    ensures ContextsRight(key, n + 1) <==> AllStepRight(Counter(key), n)
  {
    OneMore(key, n);
    if n > 0 {
      FirstContexts(key, n - 1);
      OneMore(key, n - 1);
      OneMoreStep(Counter(key), n - 1);
      if ContextsRight(key, n) {
        assert ContextRight(key, n - 1);
        LastContext(key, n);
      }
    } else {
      FirstContext(key);
    }
  }

  lemma FirstContext(key: Context)
    ensures ContextRight(key, 0)
  {
    CounterBelow(key);
  }

  lemma LastContext(key: Context, n: nat)
    requires n > 0 && ContextRight(key, n - 1)
    ensures ContextRight(key, n) <==> StepsRight(CountAfter(Counter(key), n - 1))
  {
    AddModulo(Counter(key), n);
    NextRight(key, CountAfter(Counter(key), n - 1), CountAfter(Counter(key), n));
  }

  lemma NextRight(key: Context, c: nat, wanted: nat)
    requires c < TWO_64 && wanted == (c + 1) % TWO_64
    ensures Next(C, SetCounter(key, c)) == SetCounter(key, wanted) <==> StepsRight(c)
  {
    NextOfSet(C, key, c);
    StepsRightMeans(c);
    SameCounter(key, (Misread(c) + 1) % TWO_64, wanted);
  }

  lemma SameCounter(key: Context, a: nat, b: nat)
    requires a < TWO_64 && b < TWO_64
    ensures SetCounter(key, a) == SetCounter(key, b) <==> a == b
  {
    CounterSet(key, a);
    CounterSet(key, b);
  }

  /** The counter stays out of the upper half of its lower word, or its upper word is all ones; one context needs no
    step. */
  predicate Unaffected(c: nat, n: nat) {
    n <= 1 || c % TWO_32 + (n - 2) < TWO_31 || c / TWO_32 == TWO_32 - 1
  }

  /** In closed form, for any run shorter than half a turn of the lower word. */
  lemma ContextsUnaffected(key: Context, n: nat)
    requires n <= TWO_31
    ensures ContextsRight(key, n) <==> Unaffected(Counter(key), n)
  {
    var c := Counter(key);
    CounterBelow(key);
    if n > 0 {
      FirstContexts(key, n - 1);
      if Unaffected(c, n) {
        forall j | 0 <= j < n - 1 ensures StepsRight(CountAfter(c, j)) {
          UnaffectedSteps(c, n, j);
        }
      } else {
        var j := FirstWrongStep(c, n);
        assert !StepsRight(CountAfter(c, j));
      }
    }
  }

  lemma UnaffectedSteps(c: nat, n: nat, j: nat)
    requires c < TWO_64 && n <= TWO_31 && j < n - 1 && Unaffected(c, n)
    ensures StepsRight(CountAfter(c, j))
  {
    var hi, low := c / TWO_32, c % TWO_32;
    if low + j < TWO_32 {
      DivModUnique(c + j, TWO_64, 0, c + j);
      DivModUnique(c + j, TWO_32, hi, low + j);
    } else {
      DivModUnique(c + j, TWO_64, 1, low + j - TWO_32);
      DivModUnique(low + j - TWO_32, TWO_32, 0, low + j - TWO_32);
    }
  }

  lemma FirstWrongStep(c: nat, n: nat) returns (j: nat)
    requires c < TWO_64 && n <= TWO_31 && !Unaffected(c, n)
    ensures j < n - 1 && !StepsRight(CountAfter(c, j))
  {
    var hi, low := c / TWO_32, c % TWO_32;
    j := if low < TWO_31 then TWO_31 - low else 0;
    assert c + j < TWO_64;
    DivModUnique(c + j, TWO_64, 0, c + j);
    DivModUnique(c + j, TWO_32, hi, low + j);
  }
}
