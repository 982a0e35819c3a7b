/** Bytes, and numbers written in them. */
module Bytes {
  import opened Arith
  import Bits

  type Byte = x: int | 0 <= x < 0x100

  type Buffer = seq<Byte>

  function Zeros(n: nat): (r: Buffer)
    ensures |r| == n
  {
    seq(n, _ => 0)
  }

  /** 256 to the power of `n`. */
  function Power(n: nat): (r: nat)
    ensures r >= 1
  {
    if n == 0 then 1 else 0x100 * Power(n - 1)
  }

  lemma Powers()
    ensures Power(2) == 0x1_0000 && Power(4) == 0x1_0000_0000 && Power(8) == 0x1_0000_0000_0000_0000
  {
    assert Power(4) == 0x1_0000_0000;
  }

  /** The `n` lowest bytes of `x`, highest first. */
  function BigEndian(x: nat, n: nat): (r: Buffer)
    ensures |r| == n
  {
    if n == 0 then [] else BigEndian(x / 0x100, n - 1) + [x % 0x100]
  }

  function FromBigEndian(s: Buffer): nat {
    if s == [] then 0 else FromBigEndian(s[..|s| - 1]) * 0x100 + s[|s| - 1]
  }

  /** The `n` lowest bytes of `x`, lowest first. */
  function LittleEndian(x: nat, n: nat): (r: Buffer)
    ensures |r| == n
  {
    if n == 0 then [] else [x % 0x100] + LittleEndian(x / 0x100, n - 1)
  }

  function FromLittleEndian(s: Buffer): nat {
    if s == [] then 0 else s[0] + FromLittleEndian(s[1..]) * 0x100
  }

  lemma {:induction false} BigEndianReads(x: nat, n: nat)
    requires x < Power(n)
    ensures FromBigEndian(BigEndian(x, n)) == x
  {
    if n > 0 {
      var s := BigEndian(x, n);
      assert s[..|s| - 1] == BigEndian(x / 0x100, n - 1);
      BigEndianReads(x / 0x100, n - 1);
    }
  }

  lemma {:induction false} FromBigEndianWrites(s: Buffer)
    ensures FromBigEndian(s) < Power(|s|) && BigEndian(FromBigEndian(s), |s|) == s
  {
    if s != [] {
      var front, low := s[..|s| - 1], s[|s| - 1];
      FromBigEndianWrites(front);
      DivModUnique(FromBigEndian(s), 0x100, FromBigEndian(front), low);
      assert s == front + [low];
    }
  }

  lemma {:induction false} ZeroNumber(n: nat)
    ensures FromBigEndian(Zeros(n)) == 0
  {
    if n > 0 {
      assert Zeros(n)[..n - 1] == Zeros(n - 1);
      ZeroNumber(n - 1);
    }
  }

  lemma {:induction false} LittleEndianReads(x: nat, n: nat)
    requires x < Power(n)
    ensures FromLittleEndian(LittleEndian(x, n)) == x
  {
    if n > 0 {
      var s := LittleEndian(x, n);
      assert s[1..] == LittleEndian(x / 0x100, n - 1);
      LittleEndianReads(x / 0x100, n - 1);
    }
  }

  /** Each byte by shifting and masking. */
  lemma {:induction false} BigEndianByte(x: nat, n: nat, i: nat)
    requires i < n
    ensures BigEndian(x, n)[i] == Bits.And(Bits.Shr(x, 8 * (n - 1 - i)), 0xFF)
  {
    if i == n - 1 {
      Bits.PowersOfTwo();
      Bits.AndIsMod(x, 8);
    } else {
      BigEndianByte(x / 0x100, n - 1, i);
      ShrByte(x, 8 * (n - 2 - i));
    }
  }

  lemma ShrByte(x: nat, k: nat)
    ensures Bits.Shr(x, k + 8) == Bits.Shr(x / 0x100, k)
  {
    ShrNibble(x, k + 4);
    ShrNibble(x / 0x10, k);
  }

  lemma ShrNibble(x: nat, k: nat)
    ensures Bits.Shr(x, k + 4) == Bits.Shr(x / 0x10, k)
  {
    assert Bits.Shr(x, k + 4) == Bits.Shr(x / 2 / 2, k + 2);
    assert Bits.Shr(x / 2 / 2, k + 2) == Bits.Shr(x / 2 / 2 / 2 / 2, k);
  }

  // ----- pieces put one behind the other

  function Concat(parts: seq<Buffer>): Buffer {
    if parts == [] then [] else Concat(parts[..|parts| - 1]) + parts[|parts| - 1]
  }

  /** Where piece `i` begins. */
  function Position(parts: seq<Buffer>, i: nat): nat
    requires i <= |parts|
  {
    |Concat(parts[..i])|
  }

  /** The pieces lie where their positions say, in order and apart. */
  lemma {:induction false} PartAt(parts: seq<Buffer>, i: nat)
    requires i < |parts|
    ensures Position(parts, i) + |parts[i]| == Position(parts, i + 1) <= |Concat(parts)|
    ensures Concat(parts)[Position(parts, i)..Position(parts, i) + |parts[i]|] == parts[i]
    decreases |parts|
  {
    var front := parts[..|parts| - 1];
    NextPosition(parts, i);
    if i < |front| {
      PartAt(front, i);
      assert front[..i] == parts[..i] && front[..i + 1] == parts[..i + 1];
      InFront(Concat(front), parts[|parts| - 1], Position(parts, i), Position(parts, i) + |parts[i]|);
    } else {
      assert parts[..i] == front && parts[..i + 1] == parts;
    }
  }

  lemma NextPosition(parts: seq<Buffer>, i: nat)
    requires i < |parts|
    ensures Concat(parts[..i + 1]) == Concat(parts[..i]) + parts[i]
  {
    assert parts[..i + 1][..i] == parts[..i];
  }

  lemma InFront(a: Buffer, b: Buffer, from: nat, till: nat)
    requires from <= till <= |a|
    ensures (a + b)[from..till] == a[from..till]
  {
  }

  lemma Behind(a: Buffer, b: Buffer, from: nat, till: nat)
    requires from <= till <= |b|
    ensures (a + b)[|a| + from..|a| + till] == b[from..till]
  {
  }

  /** Positions grow along the pieces. */
  lemma {:induction false} PositionsGrow(parts: seq<Buffer>, i: nat, j: nat)
    requires i <= j <= |parts|
    ensures Position(parts, i) <= Position(parts, j) <= |Concat(parts)|
    decreases j - i
  {
    if i < j {
      PositionsGrow(parts, i, j - 1);
      PartAt(parts, j - 1);
    } else if j < |parts| {
      PartAt(parts, j);
    } else {
      assert parts[..j] == parts;
    }
  }

  lemma {:induction false} UniformPositions(parts: seq<Buffer>, n: nat, i: nat)
    requires i <= |parts| && forall k | 0 <= k < |parts| :: |parts[k]| == n
    ensures Position(parts, i) == i * n
  {
    if i > 0 {
      UniformPositions(parts, n, i - 1);
      NextPosition(parts, i - 1);
      assert i * n == (i - 1) * n + n;
    }
  }

  lemma {:induction false} MultiplePositions(parts: seq<Buffer>, d: nat)
    requires d > 0 && forall p | p in parts :: |p| % d == 0
    ensures |Concat(parts)| % d == 0
    decreases |parts|
  {
    if parts == [] {
      MultipleHasNoRemainder(0, d);
    } else {
      var front, last := parts[..|parts| - 1], parts[|parts| - 1];
      assert last in parts && forall p | p in front :: p in parts;
      MultiplePositions(front, d);
      MultiplesAdd(|Concat(front)|, |last|, d);
    }
  }

  lemma Associates(a: Buffer, b: Buffer, c: Buffer)
    ensures a + b + c == a + (b + c)
  {
  }

  lemma Regroup(a: Buffer, b: Buffer, c: Buffer, d: Buffer, e: Buffer)
    ensures a + b + c + d + e == a + b + (c + d + e)
    ensures a + b + c + d + e == a + (b + c + d + e)
    ensures a + b + c + d + e == a + b + c + (d + e)
  {
  }

  /** A slice in Python: the bounds are cut down to the length. */
  function Slice(s: Buffer, from: nat, till: nat): Buffer {
    if from >= |s| || till <= from then [] else if till <= |s| then s[from..till] else s[from..]
  }

  lemma SliceWithin(s: Buffer, from: nat, n: nat)
    requires from + n <= |s|
    ensures Slice(s, from, from + n) == s[from..from + n]
  {
  }

  /** The beginning of piece `i`, when the pieces stand between other data. */
  lemma PieceReads(a: Buffer, parts: seq<Buffer>, c: Buffer, i: nat, n: nat, from: nat)
    requires i < |parts| && n <= |parts[i]| && from == |a| + Position(parts, i)
    ensures from + n <= |a + Concat(parts) + c|
    ensures Slice(a + Concat(parts) + c, from, from + n) == parts[i][..n]
  {
    var b, at := Concat(parts), Position(parts, i);
    PartAt(parts, i);
    PrefixOfSlice(b, at, |parts[i]|, n);
    Between(a, b, c, at, n, from);
    SliceWithin(a + b + c, from, n);
  }

  lemma Between(a: Buffer, b: Buffer, c: Buffer, at: nat, n: nat, from: nat)
    requires at + n <= |b| && from == |a| + at
    ensures (a + b + c)[from..from + n] == b[at..at + n]
  {
    Behind(a, b, at, at + n);
    InFront(a + b, c, from, from + n);
  }

  lemma LastPieces(a: Buffer, parts: seq<Buffer>, i: nat, n: nat, from: nat)
    requires i < |parts| && n <= |parts[i]| && from == |a| + Position(parts, i)
    ensures from + n <= |a + Concat(parts)|
    ensures Slice(a + Concat(parts), from, from + n) == parts[i][..n]
  {
    assert a + Concat(parts) + [] == a + Concat(parts);
    PieceReads(a, parts, [], i, n, from);
  }

  lemma FirstPieces(parts: seq<Buffer>, b: Buffer, c: Buffer, i: nat, n: nat, from: nat)
    requires i < |parts| && n == |parts[i]| && from == Position(parts, i)
    ensures from + n <= |Concat(parts) + b + c| && (Concat(parts) + b + c)[from..from + n] == parts[i]
  {
    PartAt(parts, i);
    InFront(Concat(parts) + b, c, from, from + n);
    InFront(Concat(parts), b, from, from + n);
  }

  lemma Inside(content: Buffer, bytes: Buffer, off: nat, at: nat, n: nat)
    requires at + n <= |bytes| && off + |bytes| <= |content| && bytes == content[off..off + |bytes|]
    ensures bytes[at..at + n] == content[off + at..off + at + n]
  {
    var front, rest := content[..off], content[off + |bytes|..];
    assert content == front + bytes + rest;
    Between(front, bytes, rest, at, n, off + at);
  }

  lemma PrefixOfSlice(s: Buffer, from: nat, long: nat, short: nat)
    requires short <= long && from + long <= |s|
    ensures s[from..from + short] == s[from..from + long][..short]
  {
  }

  /** Everything before the first zero byte. */
  function NullTerm(s: Buffer): Buffer {
    if s == [] || s[0] == 0 then [] else [s[0]] + NullTerm(s[1..])
  }

  lemma {:induction false} NullTermKeeps(s: Buffer)
    ensures 0 !in NullTerm(s) && NullTerm(s) <= s
    ensures NullTerm(s) == s <==> 0 !in s
    ensures |NullTerm(s)| < |s| ==> s[|NullTerm(s)|] == 0
  {
    if s != [] && s[0] != 0 {
      NullTermKeeps(s[1..]);
      assert s == [s[0]] + s[1..];
    }
  }
}
