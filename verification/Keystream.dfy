/** Encryption of debug packages: every 16 bytes are xored with the SHA-1 of the context, which then counts on. */
module Keystream {
  import Bits
  import opened Bytes
  import opened KeyCounter
  import opened Words

  const BLOCK := 0x10

  type Digest = d: Buffer | |d| == 20 witness Zeros(20)

  /** SHA-1 is a parameter: nothing but the length of its results is used. */
  type Sha = Buffer -> Digest

  function Mix(a: Byte, b: Byte): Byte {
    Bits.PowersOfTwo();
    Bits.OrBound(a, b, 8);
    Bits.Xor(a, b)
  }

  lemma MixCommutes(a: Byte, b: Byte)
    ensures Mix(a, b) == Mix(b, a)
  {
    Bits.XorCommutes(a, b);
  }

  lemma MixTwice(a: Byte, b: Byte)
    ensures Mix(Mix(a, b), b) == a
  {
    Bits.XorTwice(a, b);
  }

  // ----- what the encryption is

  /** Byte `i` of the keystream. */
  function Stream(v: Variant, sha: Sha, key: Context, i: nat): Byte {
    sha(KeyAfter(v, key, i / BLOCK))[i % BLOCK]
  }

  function Crypt(v: Variant, sha: Sha, key: Context, data: Buffer): (r: Buffer)
    ensures |r| == |data|
    ensures forall i | 0 <= i < |data| :: r[i] == Mix(data[i], Stream(v, sha, key, i))
  {
    seq(|data|, i requires 0 <= i < |data| => Mix(data[i], Stream(v, sha, key, i)))
  }

  /** How many blocks `n` bytes take. */
  function Blocks(n: nat): nat { (n + (BLOCK - 1)) / BLOCK }

  lemma BlockOf(i: nat, n: nat)
    requires i < n
    ensures i / BLOCK < Blocks(n) && (i / BLOCK) * BLOCK <= i
  {
  }

  // ----- stepping the context in place

  method SetContextNum(key: array<Byte>, n: nat)
    requires key.Length == 0x40
    modifies key
    ensures key[..] == SetCounter(old(key[..]), n)
  {
    var was := key[..];
    key[0x38], key[0x39] := Bits.And(Bits.Shr(n, 56), 0xFF), Bits.And(Bits.Shr(n, 48), 0xFF);
    key[0x3a], key[0x3b] := Bits.And(Bits.Shr(n, 40), 0xFF), Bits.And(Bits.Shr(n, 32), 0xFF);
    key[0x3c], key[0x3d] := Bits.And(Bits.Shr(n, 24), 0xFF), Bits.And(Bits.Shr(n, 16), 0xFF);
    key[0x3e], key[0x3f] := Bits.And(Bits.Shr(n, 8), 0xFF), Bits.And(Bits.Shr(n, 0), 0xFF);
    EightStored(n);
    assert key[0x38..] == BigEndian(n, 8);
    assert key[..0x38] == was[..0x38];
    assert key[..] == key[..0x38] + key[0x38..];
  }

  lemma EightStored(n: nat)
    ensures BigEndian(n, 8) == [
      Bits.And(Bits.Shr(n, 56), 0xFF), Bits.And(Bits.Shr(n, 48), 0xFF), Bits.And(Bits.Shr(n, 40), 0xFF),
      Bits.And(Bits.Shr(n, 32), 0xFF),
      Bits.And(Bits.Shr(n, 24), 0xFF), Bits.And(Bits.Shr(n, 16), 0xFF), Bits.And(Bits.Shr(n, 8), 0xFF),
      Bits.And(Bits.Shr(n, 0), 0xFF)]
  {
    BigEndianByte(n, 8, 0);
    BigEndianByte(n, 8, 1);
    BigEndianByte(n, 8, 2);
    BigEndianByte(n, 8, 3);
    BigEndianByte(n, 8, 4);
    BigEndianByte(n, 8, 5);
    BigEndianByte(n, 8, 6);
    BigEndianByte(n, 8, 7);
  }

  /** `manipulate` of the C code. */
  method ManipulateC(key: array<Byte>)
    requires key.Length == 0x40
    modifies key
    ensures key[..] == Next(C, old(key[..]))
  {
    var temp := LoadCounter(key);
    SetContextNum(key, (temp + 1) % TWO_64);
  }

  method LoadCounter(key: array<Byte>) returns (temp: nat)
    requires key.Length == 0x40
    ensures temp == Misread(Counter(key[..]))
  {
    var bytes := key[0x38..];
    temp := LoadC(bytes);
    LoadMisreads(bytes);
    assert bytes == key[..][0x38..];
  }

  /** `manipulate` of the Python code. */
  method ManipulatePython(key: array<Byte>)
    requires key.Length == 0x40
    modifies key
    ensures key[..] == Next(Python, old(key[..]))
  {
    var temp := FromBigEndian(key[0x38..]);
    assert key[0x38..] == key[..][0x38..];
    SetContextNum(key, (temp + 1) % TWO_64);
  }

  // ----- the loops

  /** The first `n` bytes have been encrypted. */
  ghost predicate Done(v: Variant, sha: Sha, key: Context, input: Buffer, ret: Buffer, n: nat) {
    n <= |input| && n <= |ret| && forall i | 0 <= i < n :: ret[i] == Mix(input[i], Stream(v, sha, key, i))
  }

  lemma OneMoreByte(v: Variant, sha: Sha, key: Context, input: Buffer, ret: Buffer, longer: Buffer, block: nat, i: nat,
                    n: nat)
    requires Done(v, sha, key, input, ret, n) && n == block * BLOCK + i && i < BLOCK && n < |input|
    requires n < |longer| && longer[..n] == ret[..n]
    requires longer[n] == Mix(sha(KeyAfter(v, key, block))[i], input[n])
    ensures Done(v, sha, key, input, longer, n + 1)
  {
    InBlock(n, block, i);
    MixCommutes(sha(KeyAfter(v, key, block))[i], input[n]);
    forall k | 0 <= k < n ensures longer[k] == Mix(input[k], Stream(v, sha, key, k)) {
      assert longer[k] == longer[..n][k] == ret[..n][k] == ret[k];
    }
  }

  lemma AllDone(v: Variant, sha: Sha, key: Context, input: Buffer, ret: Buffer, n: nat)
    requires Done(v, sha, key, input, ret, n) && |ret| == n
    ensures ret == Crypt(v, sha, key, input[..n])
  {
  }

  /** `pkg_crypt`: the result is a new buffer; the context counts on. */
  method PkgCrypt(sha: Sha, key: array<Byte>, input: Buffer, length: nat) returns (ret: array<Byte>)
    requires key.Length == 0x40 && length <= |input|
    modifies key
    ensures fresh(ret) && ret[..] == Crypt(C, sha, old(key[..]), input[..length])
    ensures key[..] == KeyAfter(C, old(key[..]), Blocks(length))
  {
    ghost var was: Context := key[..];
    ret := new Byte[length];
    var remaining, offset := length, 0;
    ghost var block := 0;
    while remaining > 0
      invariant 0 <= remaining && offset + remaining == length && ret.Length == length && fresh(ret)
      invariant offset == if remaining > 0 then block * BLOCK else length
      invariant remaining == 0 ==> block == Blocks(length)
      invariant key[..] == KeyAfter(C, was, block)
      invariant Done(C, sha, was, input, ret[..], offset)
    {
      var count := if remaining > BLOCK then BLOCK else remaining;
      var hash := sha(key[..]);
      for i := 0 to count
        invariant offset == block * BLOCK + i && ret.Length == length
        invariant key[..] == KeyAfter(C, was, block)
        invariant Done(C, sha, was, input, ret[..], offset)
      {
        ghost var sofar := ret[..];
        ret[offset] := Mix(hash[i], input[offset]);
        OneMoreByte(C, sha, was, input, sofar, ret[..], block, i, offset);
        offset := offset + 1;
      }
      ManipulateC(key);
      remaining := remaining - count;
      block := block + 1;
      LastBlock(length, block);
    }
    AllDone(C, sha, was, input, ret[..], length);
  }

  lemma InBlock(offset: nat, block: nat, i: nat)
    requires offset == block * BLOCK + i && i < BLOCK
    ensures offset / BLOCK == block && offset % BLOCK == i
  {
  }

  lemma LastBlock(length: nat, block: nat)
    requires block > 0
    ensures (block - 1) * BLOCK < length <= block * BLOCK ==> block == Blocks(length)
  {
  }

  /** The same in Python, kept there as a reference. */
  method CryptReference(sha: Sha, key: array<Byte>, inbuf: Buffer, length: nat) returns (ret: Buffer)
    requires key.Length == 0x40 && length <= |inbuf|
    modifies key
    ensures ret == Crypt(Python, sha, old(key[..]), inbuf[..length])
    ensures key[..] == KeyAfter(Python, old(key[..]), Blocks(length))
  {
    ghost var was: Context := key[..];
    ret := [];
    var left, offset := length, 0;
    ghost var block := 0;
    while left > 0
      invariant 0 <= left && offset + left == length && |ret| == offset
      invariant offset == if left > 0 then block * BLOCK else length
      invariant left == 0 ==> block == Blocks(length)
      invariant key[..] == KeyAfter(Python, was, block)
      invariant Done(Python, sha, was, inbuf, ret, offset)
    {
      var count := if left > BLOCK then BLOCK else left;
      var outhash := sha(key[..]);
      for i := 0 to count
        invariant offset == block * BLOCK + i && |ret| == offset
        invariant key[..] == KeyAfter(Python, was, block)
        invariant Done(Python, sha, was, inbuf, ret, offset)
      {
        ghost var sofar := ret;
        ret := ret + [Mix(outhash[i], inbuf[offset])];
        OneMoreByte(Python, sha, was, inbuf, sofar, ret, block, i, offset);
        offset := offset + 1;
      }
      ManipulatePython(key);
      left := left - count;
      block := block + 1;
      LastBlock(length, block);
    }
    AllDone(Python, sha, was, inbuf, ret, length);
  }

  /** The context that belongs to a digest: each half twice, and a counter of zero. */
  function ContextOf(digest: Buffer): Context
    requires |digest| == 0x10
  {
    digest[..8] + digest[..8] + digest[8..] + digest[8..] + Zeros(0x20)
  }

  /** `keyToContext`. */
  method KeyToContext(key: Buffer) returns (largekey: Buffer)
    requires |key| >= 0x10
    ensures |largekey| == 0x40 && largekey == ContextOf(key[..0x10])
  {
    largekey := [];
    largekey := AppendBytes(largekey, key, 0);
    largekey := AppendBytes(largekey, key, 0);
    largekey := AppendBytes(largekey, key, 8);
    largekey := AppendBytes(largekey, key, 8);
    for i := 0 to 0x20
      invariant largekey == key[..8] + key[..8] + key[8..16] + key[8..16] + Zeros(i)
    {
      largekey := largekey + [0];
    }
    assert key[..0x10][..8] == key[..8] && key[..0x10][8..] == key[8..16];
  }

  method AppendBytes(start: Buffer, key: Buffer, from: nat) returns (longer: Buffer)
    requires from + 8 <= |key|
    ensures longer == start + key[from..from + 8]
  {
    longer := start;
    for i := 0 to 8
      invariant longer == start + key[from..from + i]
    {
      longer := longer + [key[from + i]];
    }
  }

  // ----- the loop of `package_finalize`

  /** A number of the header as `package_finalize` reads it, cut down to a signed word. */
  function HeaderNumber(data: Buffer, at: nat): int
    requires at + 8 <= |data|
  {
    Truncated(LoadC(data[at..at + 8]))
  }

  /** A 64-bit number converted to a signed word. */
  function Truncated(x: nat): int {
    var low := x % TWO_32;
    if low < TWO_31 then low else low - TWO_32
  }

  lemma TruncatedSmall(n: nat)
    requires n < TWO_31
    ensures Truncated(n) == n
  {
  }

  function DataOffset(data: Buffer): int
    requires |data| >= 0x80
  {
    HeaderNumber(data, 0x20)
  }

  function DataSize(data: Buffer): int
    requires |data| >= 0x80
  {
    HeaderNumber(data, 0x28)
  }

  /** The area the loop xors: whole blocks, and so up to 15 bytes more than the header says. */
  function Whole(size: int): nat { if size <= 0 then 0 else Blocks(size) * BLOCK }

  predicate Finalizable(data: Buffer) {
    |data| >= 0x80 && 0x80 <= DataOffset(data) && DataOffset(data) + Whole(DataSize(data)) <= |data| < TWO_31
  }

  function Replace(data: Buffer, at: nat, piece: Buffer): (r: Buffer)
    requires at + |piece| <= |data|
    ensures |r| == |data|
  {
    data[..at] + piece + data[at + |piece|..]
  }

  /** The area the header names is xored with the keystream of the header's digest. */
  function Decrypted(sha: Sha, data: Buffer): (r: Buffer)
    requires Finalizable(data)
    ensures |r| == |data|
  {
    var from, size := DataOffset(data), Whole(DataSize(data));
    Replace(data, from, Crypt(C, sha, ContextOf(data[0x60..0x70]), data[from..from + size]))
  }

  method DecryptDebug(sha: Sha, data: array<Byte>)
    requires Finalizable(data[..])
    modifies data
    ensures data[..] == Decrypted(sha, old(data[..]))
  {
    var offset, size := DataOffset(data[..]), DataSize(data[..]);
    var crap := CopyContext(data);
    DecryptArea(sha, data, crap, offset, size);
  }

  method DecryptArea(sha: Sha, data: array<Byte>, crap: array<Byte>, offset: nat, size: int)
    requires crap != data && crap.Length == 0x40 && offset + Whole(size) <= data.Length
    modifies data, crap
    ensures data[..] == Replace(old(data[..]), offset,
                                Crypt(C, sha, old(crap[..]), old(data[..])[offset..offset + Whole(size)]))
  {
    ghost var was := data[..];
    ghost var key: Context := crap[..];
    var dptr := offset;
    ghost var block := 0;
    while dptr < offset + size
      invariant dptr == offset + block * BLOCK && 0 <= block && dptr <= offset + Whole(size)
      invariant dptr < offset + size || dptr == offset + Whole(size)
      invariant crap[..] == KeyAfter(C, key, block)
      invariant Partly(sha, key, was, data[..], offset, block * BLOCK)
      decreases offset + size - dptr
    {
      var hash := sha(crap[..]);
      XorBlock(sha, data, dptr, hash, was, offset, key, block);
      ManipulateC(crap);
      dptr := dptr + BLOCK;
      block := block + 1;
      LastBlock(size, block);
    }
    Replaced(sha, key, was, data[..], offset, Whole(size));
  }

  /** The first `n` bytes of the area have been xored, and nothing else. */
  ghost predicate Partly(sha: Sha, key: Context, was: Buffer, now: Buffer, at: nat, n: nat) {
    && |now| == |was| && at + n <= |was|
    && (forall k | 0 <= k < at || at + n <= k < |now| :: now[k] == was[k])
    && forall k | 0 <= k < n :: now[at + k] == Mix(was[at + k], Stream(C, sha, key, k))
  }

  lemma Replaced(sha: Sha, key: Context, was: Buffer, now: Buffer, at: nat, n: nat)
    requires Partly(sha, key, was, now, at, n)
    ensures now == Replace(was, at, Crypt(C, sha, key, was[at..at + n]))
  {
    var area := was[at..at + n];
    var piece := Crypt(C, sha, key, area);
    forall k | 0 <= k < n ensures now[at + k] == piece[k] {
      assert area[k] == was[at + k];
    }
    Spliced(was, now, at, n, piece);
  }

  lemma Spliced(was: Buffer, now: Buffer, at: nat, n: nat, piece: Buffer)
    requires |now| == |was| && at + n <= |was| && |piece| == n
    requires forall k | 0 <= k < at || at + n <= k < |now| :: now[k] == was[k]
    requires forall k | 0 <= k < n :: now[at + k] == piece[k]
    ensures now == Replace(was, at, piece)
  {
    assert now[..at] == was[..at] && now[at..at + n] == piece && now[at + n..] == was[at + n..];
    assert now == now[..at] + now[at..at + n] + now[at + n..];
  }

  /** The inner loop: one block is xored in place. */
  method XorBlock(sha: Sha, data: array<Byte>, dptr: nat, hash: Digest, ghost was: Buffer, ghost offset: nat,
                  ghost key: Context, ghost block: nat)
    requires dptr + BLOCK <= data.Length && dptr == offset + block * BLOCK
    requires hash == sha(KeyAfter(C, key, block)) && Partly(sha, key, was, data[..], offset, block * BLOCK)
    modifies data
    ensures Partly(sha, key, was, data[..], offset, (block + 1) * BLOCK)
  {
    for i := 0 to BLOCK
      invariant Partly(sha, key, was, data[..], offset, block * BLOCK + i)
    {
      ghost var sofar := data[..];
      data[dptr + i] := Mix(data[dptr + i], hash[i]);
      OneMoreXored(sha, key, was, sofar, data[..], offset, block, i, block * BLOCK + i);
    }
  }

  lemma OneMoreXored(sha: Sha, key: Context, was: Buffer, sofar: Buffer, now: Buffer, at: nat, block: nat, i: nat,
                     n: nat)
    requires Partly(sha, key, was, sofar, at, n) && n == block * BLOCK + i && i < BLOCK && at + n < |was|
    requires now == sofar[at + n := Mix(sofar[at + n], sha(KeyAfter(C, key, block))[i])]
    ensures Partly(sha, key, was, now, at, n + 1)
  {
    InBlock(n, block, i);
  }

  method CopyContext(data: array<Byte>) returns (crap: array<Byte>)
    requires data.Length >= 0x70
    ensures fresh(crap) && crap.Length == 0x40
    ensures crap[..] == ContextOf(data[0x60..0x70])
  {
    crap := new Byte[0x40](_ => 0);
    assert crap[..] == Zeros(0x40);
    Memcpy(crap, 0, data, 0x60);
    Memcpy(crap, 8, data, 0x60);
    Memcpy(crap, 0x10, data, 0x68);
    Memcpy(crap, 0x18, data, 0x68);
    var digest := data[0x60..0x70];
    assert digest[..8] == data[0x60..0x68] && digest[8..] == data[0x68..0x70];
    FourCopies(digest[..8], digest[8..]);
  }

  /** Eight bytes. */
  method Memcpy(dst: array<Byte>, at: nat, src: array<Byte>, from: nat)
    requires dst != src && at + 8 <= dst.Length && from + 8 <= src.Length
    modifies dst
    ensures dst[..] == Replace(old(dst[..]), at, src[from..from + 8])
  {
    ghost var was := dst[..];
    forall i | 0 <= i < 8 {
      dst[at + i] := src[from + i];
    }
    Spliced(was, dst[..], at, 8, src[from..from + 8]);
  }

  lemma FourCopies(a: Buffer, b: Buffer)
    requires |a| == 8 && |b| == 8
    ensures Replace(Replace(Replace(Replace(Zeros(0x40), 0, a), 8, a), 0x10, b), 0x18, b) == a + a + b + b + Zeros(0x20)
  {
    var one := Replace(Zeros(0x40), 0, a);
    assert one == a + Zeros(0x38);
    var two := Replace(one, 8, a);
    assert two == a + a + Zeros(0x30);
    var three := Replace(two, 0x10, b);
    assert three == a + a + b + Zeros(0x28);
  }

  // ----- what follows

  /** Encryption undoes itself from the same context. */
  lemma CryptTwice(v: Variant, sha: Sha, key: Context, data: Buffer)
    ensures Crypt(v, sha, key, Crypt(v, sha, key, data)) == data
  {
    forall i | 0 <= i < |data| ensures Mix(Mix(data[i], Stream(v, sha, key, i)), Stream(v, sha, key, i)) == data[i] {
      MixTwice(data[i], Stream(v, sha, key, i));
    }
  }

  /** The C code agrees with the reference whenever none of the contexts used is affected by the sign extension. */
  lemma VariantsAgree(sha: Sha, key: Context, data: Buffer)
    requires |data| < TWO_31 && Unaffected(Counter(key), Blocks(|data|))
    ensures Crypt(C, sha, key, data) == Crypt(Python, sha, key, data)
  {
    var n := Blocks(|data|);
    ContextsUnaffected(key, n);
    forall i | 0 <= i < |data| ensures Stream(C, sha, key, i) == Stream(Python, sha, key, i) {
      BlockOf(i, |data|);
      assert ContextRight(key, i / BLOCK);
      PythonCounts(key, i / BLOCK);
    }
  }

  /** Otherwise there is a digest function that tells them apart, on any data of that length. */
  lemma VariantsDiffer(key: Context, data: Buffer) returns (sha: Sha)
    requires |data| < TWO_31 && !Unaffected(Counter(key), Blocks(|data|))
    ensures Crypt(C, sha, key, data) != Crypt(Python, sha, key, data)
  {
    var n := Blocks(|data|);
    ContextsUnaffected(key, n);
    var j :| 0 <= j < n && !ContextRight(key, j);
    PythonCounts(key, j);
    var wrong, right := KeyAfter(C, key, j), KeyOf(key, j);
    var one: Digest, zero: Digest := Zeros(20)[0 := 1], Zeros(20);
    sha := k => if k == wrong then one else zero;
    var i := j * BLOCK;
    StartOfBlock(|data|, j, i);
    assert sha(wrong)[0] == 1 && sha(right)[0] == 0;
    MixesApart(data[i]);
  }

  lemma StartOfBlock(n: nat, j: nat, i: nat)
    requires j < Blocks(n) && i == j * BLOCK
    ensures i < n && i / BLOCK == j && i % BLOCK == 0
  {
  }

  lemma MixesApart(a: Byte)
    ensures Mix(a, 1) != Mix(a, 0)
  {
    Bits.XorStep(a, 1);
    Bits.XorStep(a, 0);
  }

  /** From a counter of zero the two always agree: this is how packages are encrypted. */
  lemma AgreeFromZero(sha: Sha, digest: Buffer, data: Buffer)
    requires |digest| == 0x10 && |data| < TWO_31
    ensures Counter(ContextOf(digest)) == 0
    ensures Crypt(C, sha, ContextOf(digest), data) == Crypt(Python, sha, ContextOf(digest), data)
  {
    var key := ContextOf(digest);
    assert key[0x38..] == Zeros(8);
    ZeroNumber(8);
    VariantsAgree(sha, key, data);
  }

  /** The context of block `n` in full: each half of the digest twice, and the number of the block behind zeros. */
  function BlockContext(digest: Buffer, n: nat): (r: Buffer)
    requires |digest| == 0x10
    ensures |r| == 0x40
  {
    digest[..8] + digest[..8] + digest[8..] + digest[8..] + Zeros(0x18) + BigEndian(n, 8)
  }

  lemma CountedContext(digest: Buffer, n: nat)
    requires |digest| == 0x10
    ensures SetCounter(ContextOf(digest), n) == BlockContext(digest, n)
  {
    var halves := digest[..8] + digest[..8] + digest[8..] + digest[8..];
    assert ContextOf(digest)[..0x38] == halves + Zeros(0x18);
  }

  /** Byte `i` of encrypted data: bit by bit, the byte and byte `i % 16` of the digest of the context of block
    `i / 16`, added modulo two. */
  lemma EncryptedByte(sha: Sha, digest: Buffer, data: Buffer, i: nat, k: nat)
    requires |digest| == 0x10 && i < |data| < TWO_31
    ensures Bits.Bit(Crypt(C, sha, ContextOf(digest), data)[i], k)
         == (Bits.Bit(data[i], k) + Bits.Bit(sha(BlockContext(digest, i / 0x10))[i % 0x10], k)) % 2
  {
    var key := ContextOf(digest);
    AgreeFromZero(sha, digest, data);
    PythonCounts(key, i / 0x10);
    SmallCount(i / 0x10);
    CountedContext(digest, i / 0x10);
    Bits.XorBits(data[i], Stream(Python, sha, key, i), k);
  }

  lemma SmallCount(n: nat)
    requires n < TWO_31
    ensures (0 + n) % TWO_64 == n
  {
  }

  lemma CryptPrefix(v: Variant, sha: Sha, key: Context, data: Buffer, more: Buffer)
    ensures Crypt(v, sha, key, data + more)[..|data|] == Crypt(v, sha, key, data)
  {
  }

  /** `package_finalize` finds the plain data again when its size is a multiple of 16. */
  lemma FinalizeUndoes(sha: Sha, digest: Buffer, plain: Buffer)
    requires |digest| == 0x10 && |plain| % BLOCK == 0
    ensures Whole(|plain|) == |plain|
    ensures Crypt(C, sha, ContextOf(digest), Crypt(C, sha, ContextOf(digest), plain)) == plain
  {
    CryptTwice(C, sha, ContextOf(digest), plain);
  }
}
