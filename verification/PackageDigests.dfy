/** What a package's header says beyond numbers: the digests, and the block that is derived from them. */
module PackageDigests {
  import opened Bytes
  import opened StructFormat
  import opened KeyCounter
  import opened Keystream
  import opened Npdrm
  import opened Package
  import opened Words

  /** The QA digest keys the data. */
  datatype Digests = Digests(qa: Buffer, licensee: Buffer, info: Buffer)

  predicate ValidDigests(d: Digests) { |d.qa| == 0x10 && |d.licensee| == 0x10 && |d.info| == 0xC0 }

  /** Eleven numbers of four bytes come first. */
  const META: Layout := Fours(11) + [2, 2, 4, 4, 4, 2, 2]

  function Fours(n: nat): (r: Layout)
    ensures |r| == n
  {
    seq(n, _ => 4)
  }

  lemma MetaSize()
    ensures Size(META) == 0x40
  {
    SizeUniform(Fours(11), 4);
    SizeAdds(Fours(11), [2, 2, 4, 4, 4, 2, 2]);
  }

  function HeaderValues(count: nat, size: nat): seq<nat> {
    [0x7F50_4B47, 1, 0xC0, 5, 0x80, count, size + 0x1A0, DATA_OFFSET, size]
  }

  function MetaValues(size: nat): seq<nat> { [1, 4, 3, 2, 4, 5, 3, 4, 0xE, 4, 8, 0, 0, size, 5, 4, 0x1061, 0] }

  /** The header proper: numbers, identifier, QA digest and licensee. */
  function Head(count: nat, size: nat, id: Buffer, qa: Buffer, licensee: Buffer): (r: Buffer)
    requires |id| == 0x30 && |qa| == 0x10 && |licensee| == 0x10
    ensures |r| == 0x80
  {
    HeaderSize();
    Pack(BE, HEADER, HeaderValues(count, size)) + id + qa + licensee
  }

  function MetaBytes(size: nat): (r: Buffer)
    ensures |r| == 0x40
  {
    MetaSize();
    Pack(BE, META, MetaValues(size))
  }

  function Encrypted(sha: Sha, digest: Buffer, plain: Buffer): Buffer
    requires |digest| == 0x10
  {
    Crypt(C, sha, ContextOf(digest), plain)
  }

  /** Sixteen bytes from the middle of the digest. */
  function Middle(sha: Sha, bytes: Buffer): (r: Buffer)
    ensures |r| == 0x10
  {
    sha(bytes)[3..19]
  }

  function Raw(files: seq<File>): seq<Buffer> {
    seq(|files|, i requires 0 <= i < |files| => if files[i].directory then [] else files[i].content)
  }

  /** The digest of the files as they were found, the header that still lacks its digests, descriptors and names. */
  function QaDigest(sha: Sha, files: seq<File>, size: nat): (r: Buffer)
    ensures |r| == 0x10
  {
    QaOf(sha, Concat(Raw(files)), |files|, size, Concat(Descriptors(files)) + Concat(Names(files)))
  }

  function QaOf(sha: Sha, hashed: Buffer, count: nat, size: nat, described: Buffer): (r: Buffer)
    ensures |r| == 0x10
  {
    sha(hashed + Head(count, size, Zeros(0x30), Zeros(0x10), Zeros(0x10)) + described)[..0x10]
  }

  /** Zeros encrypted from the last counter, cut off at the length of the identifier. */
  function Licensee(sha: Sha, qa: Buffer, contentId: Buffer): (r: Buffer)
    requires |qa| == 0x10
    ensures |r| == 0x10
  {
    var bytes := Crypt(C, sha, SetCounter(ContextOf(qa), TWO_64 - 1), Zeros(0x10));
    Slice(bytes, 0, |contentId|) + Zeros(0x10 - |Slice(bytes, 0, |contentId|)|)
  }

  /** The 0xC0 bytes behind the header. */
  function Info(sha: Sha, head: Buffer, size: nat): (r: Buffer)
    ensures |r| == 0xC0
  {
    var h, m := Middle(sha, head), Middle(sha, MetaBytes(size));
    var pad := Encrypted(sha, m, Zeros(0x30));
    h + Encrypted(sha, h, pad) + MetaBytes(size) + m + pad
  }

  function DigestsOf(sha: Sha, files: seq<File>, size: nat, contentId: Buffer): (d: Digests)
    ensures ValidDigests(d)
  {
    var qa := QaDigest(sha, files, size);
    var licensee := Licensee(sha, qa, contentId);
    Digests(qa, licensee, Info(sha, Head(|files|, size, PaddedId(contentId), qa, licensee), size))
  }

  /** What that is: the first bytes of the digest of the context with the highest number. */
  lemma LicenseeByte(sha: Sha, qa: Buffer, contentId: Buffer, i: nat)
    requires |qa| == 0x10 && i < 0x10
    ensures Licensee(sha, qa, contentId)[i] == if i < |contentId| then sha(BlockContext(qa, TWO_64 - 1))[i] else 0
  {
    var key := SetCounter(ContextOf(qa), TWO_64 - 1);
    var bytes := Crypt(C, sha, key, Zeros(0x10));
    CountedContext(qa, TWO_64 - 1);
    ZeroMixed(Stream(C, sha, key, i));
    assert bytes[i] == sha(key)[i];
  }

  lemma ZeroMixed(b: Byte)
    ensures Mix(0, b) == b
  {
  }

  // ----- computing them

  method Encrypt(sha: Sha, digest: Buffer, plain: Buffer) returns (bytes: Buffer)
    requires |digest| == 0x10
    ensures bytes == Encrypted(sha, digest, plain)
  {
    var context := KeyToContext(digest);
    assert digest[..0x10] == digest;
    var key := new Byte[0x40](i requires 0 <= i < 0x40 => context[i]);
    assert key[..] == context;
    var ret := PkgCrypt(sha, key, plain, |plain|);
    assert plain[..|plain|] == plain;
    bytes := ret[..];
  }

  method MakeLicensee(sha: Sha, qa: Buffer, contentId: Buffer) returns (r: Buffer)
    requires |qa| == 0x10
    ensures r == Licensee(sha, qa, contentId)
  {
    var context := KeyToContext(qa);
    assert qa[..0x10] == qa;
    var key := new Byte[0x40](i requires 0 <= i < 0x40 => context[i]);
    assert key[..] == context;
    SetContextNum(key, TWO_64 - 1);
    var zeros := Zeros(0x10);
    var licensee := PkgCrypt(sha, key, zeros, 0x10);
    assert zeros[..0x10] == zeros;
    r := CopyFront(licensee[..], |contentId|);
  }

  /** The first `n` of sixteen bytes, and zeros behind them. */
  method CopyFront(licensee: Buffer, n: nat) returns (r: Buffer)
    requires |licensee| == 0x10
    ensures r == Slice(licensee, 0, n) + Zeros(0x10 - |Slice(licensee, 0, n)|)
  {
    r := Zeros(0x10);
    var count := if n < 0x10 then n else 0x10;
    for i := 0 to count
      invariant r == licensee[..i] + Zeros(0x10 - i)
    {
      r := r[i := licensee[i]];
    }
    assert Slice(licensee, 0, n) == licensee[..count];
  }

  method MakeInfo(sha: Sha, head: Buffer, size: nat) returns (r: Buffer)
    ensures r == Info(sha, head, size)
  {
    var metaData := MetaBytes(size);
    var metaBlockSHA := Middle(sha, metaData);
    var metaBlockSHAPadEnc := Encrypt(sha, metaBlockSHA, Zeros(0x30));
    var headerSHA := Middle(sha, head);
    var metaBlockSHAPadEnc2 := Encrypt(sha, headerSHA, metaBlockSHAPadEnc);
    r := headerSHA + metaBlockSHAPadEnc2 + metaData + metaBlockSHA + metaBlockSHAPadEnc;
  }

  method MakeDigests(sha: Sha, files: seq<File>, size: nat, contentId: Buffer, described: Buffer, hashed: Buffer)
    returns (d: Digests)
    requires described == Concat(Descriptors(files)) + Concat(Names(files)) && hashed == Concat(Raw(files))
    ensures d == DigestsOf(sha, files, size, contentId)
  {
    var qa := QaOf(sha, hashed, |files|, size, described);
    var id := CopyId(contentId);
    var licensee := MakeLicensee(sha, qa, contentId);
    var info := MakeInfo(sha, Head(|files|, size, id, qa, licensee), size);
    d := Digests(qa, licensee, info);
  }

  // ----- what can be checked in the result

  /** The block answers for the header and for itself: both digests are those of the bytes in front of them, and
    decrypting its ends gives one from the other, and zeros from that. */
  predicate Checks(sha: Sha, data: Buffer) {
    && |data| >= 0x140
    && data[0x80..0x90] == Middle(sha, data[..0x80]) && data[0x100..0x110] == Middle(sha, data[0xC0..0x100])
    && Encrypted(sha, data[0x80..0x90], data[0x90..0xC0]) == data[0x110..0x140]
    && Encrypted(sha, data[0x100..0x110], data[0x110..0x140]) == Zeros(0x30)
  }

  lemma InfoChecks(sha: Sha, head: Buffer, size: nat, rest: Buffer)
    requires |head| == 0x80
    ensures Checks(sha, head + Info(sha, head, size) + rest)
  {
    var h, m := Middle(sha, head), Middle(sha, MetaBytes(size));
    var pad := Encrypted(sha, m, Zeros(0x30));
    var outer := Encrypted(sha, h, pad);
    CryptTwice(C, sha, ContextOf(m), Zeros(0x30));
    CryptTwice(C, sha, ContextOf(h), pad);
    FiveParts(head, h, outer, MetaBytes(size), m, pad, rest);
  }

  lemma FiveParts(head: Buffer, h: Buffer, outer: Buffer, meta: Buffer, m: Buffer, pad: Buffer, rest: Buffer)
    requires |head| == 0x80 && |h| == 0x10 && |outer| == 0x30 && |meta| == 0x40 && |m| == 0x10 && |pad| == 0x30
    ensures var data := head + (h + outer + meta + m + pad) + rest;
      && data[..0x80] == head && data[0x80..0x90] == h && data[0x90..0xC0] == outer && data[0xC0..0x100] == meta
      && data[0x100..0x110] == m && data[0x110..0x140] == pad
  {
  }
}
