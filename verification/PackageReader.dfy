/** Reading a package: what comes out is what went in. */
module PackageReader {
  import opened Arith
  import opened Bytes
  import opened StructFormat
  import opened KeyCounter
  import opened Keystream
  import opened Npdrm
  import opened Package
  import opened PackageDigests
  import opened PackageFile
  import opened Words

  const DIRECTORY := 4

  /** What `unpack` takes from descriptor `i`: a name, and for anything but a directory the contents. */
  function ItemAt(dec: Buffer, i: nat): Item
    requires 0x20 * (i + 1) <= |dec|
  {
    FileHeaderSize();
    var h := Unpack(BE, FILE_HEADER, dec[0x20 * i..0x20 * i + 0x20]);
    ItemOf(dec, h[0], h[1], h[2], h[3], h[4])
  }

  function ItemOf(dec: Buffer, nameOff: nat, nameLength: nat, fileOff: nat, fileSize: nat, flags: nat): Item {
    Item(NullTerm(Slice(dec, nameOff, nameOff + nameLength)), flags,
         if flags % 0x100 == DIRECTORY then [] else Slice(dec, fileOff, fileOff + fileSize))
  }

  function Items(dec: Buffer, count: nat): seq<Item>
    requires 0x20 * count <= |dec|
  {
    seq(count, i requires 0 <= i < count => ItemAt(dec, i))
  }

  function HeaderFields(data: Buffer): seq<nat>
    requires |data| >= 0x80
    ensures |HeaderFields(data)| == 9
  {
    HeaderSize();
    Unpack(BE, HEADER, data[..0x30])
  }

  /** `unpack`: a file that is too short, of another type or larger than the C code can handle is refused. */
  function Unpacked(sha: Sha, data: Buffer): Extraction {
    if |data| < 0x80 then Refused
    else
      var h := HeaderFields(data);
      if h[1] != 1 then Refused
      else if h[5] == 0 then Empty
      else UnpackedData(sha, Slice(data, h[7], h[7] + h[8]), h[8], h[5], data[0x30..0x60], data[0x60..0x70])
  }

  function UnpackedData(sha: Sha, dataEnc: Buffer, dataSize: nat, count: nat, contentId: Buffer,
                        digest: Buffer): Extraction
    requires |digest| == 0x10
  {
    if dataSize >= TWO_31 || |dataEnc| < dataSize || 0x20 * count > |dataEnc| then Refused
    else Extracted(NullTerm(contentId), Items(Encrypted(sha, digest, dataEnc), count))
  }

  method ReadPackage(sha: Sha, data: Buffer) returns (r: Extraction)
    ensures r == Unpacked(sha, data)
  {
    if |data| < 0x80 {
      return Refused;
    }
    var h := HeaderFields(data);
    if h[1] != 1 {
      return Refused;
    }
    if h[5] == 0 {
      return Empty;
    }
    r := ReadItems(sha, Slice(data, h[7], h[7] + h[8]), h[8], h[5], data[0x30..0x60], data[0x60..0x70]);
  }

  method ReadItems(sha: Sha, dataEnc: Buffer, dataSize: nat, count: nat, contentId: Buffer, digest: Buffer)
    returns (r: Extraction)
    requires |digest| == 0x10
    ensures r == UnpackedData(sha, dataEnc, dataSize, count, contentId, digest)
  {
    if dataSize >= TWO_31 || |dataEnc| < dataSize {
      return Refused;
    }
    var decData := Encrypt(sha, digest, dataEnc);
    var ok, items := ReadDescriptors(decData, count);
    if !ok {
      return Refused;
    }
    r := Extracted(NullTerm(contentId), items);
  }

  lemma SliceLength(s: Buffer, from: nat, n: nat)
    ensures |Slice(s, from, from + n)| <= n
    ensures |Slice(s, from, from + n)| < n <==> n > 0 && |s| < from + n
  {
  }

  method ReadDescriptors(decData: Buffer, count: nat) returns (ok: bool, items: seq<Item>)
    ensures ok <==> 0x20 * count <= |decData|
    ensures ok ==> items == Items(decData, count)
  {
    ok, items := true, [];
    for i := 0 to count
      invariant 0x20 * i <= |decData| && |items| == i
      invariant forall k | 0 <= k < i :: items[k] == ItemAt(decData, k)
    {
      SliceLength(decData, 0x20 * i, 0x20);
      if |Slice(decData, 0x20 * i, 0x20 * i + 0x20)| < 0x20 {
        return false, items;
      }
      var item := ItemAt(decData, i);
      items := items + [item];
    }
  }

  // ----- the round trip

  /** What a file should come out as: as many of its stored bytes as its size says. The program is filled up with
    zeros to its rounded size. */
  function Expected(seal: Sealing, f: File): Item
  {
    StoredLength(seal, f);
    EbootSizeMeans(|f.content|);
    Item(NullTerm(f.name), Flags(f),
         if f.directory then [] else (Stored(seal, f) + Zeros(FileSize(f) - |f.content|))[..FileSize(f)])
  }

  lemma HeaderReads(count: nat, size: nat, contentId: Buffer, d: Digests, rest: Buffer)
    requires ValidDigests(d) && count < TWO_31 && size < TWO_31
    ensures var data := Front(count, size, contentId, d) + rest;
      && HeaderFields(data) == HeaderValues(count, size)
      && data[0x30..0x60] == PaddedId(contentId) && data[0x60..0x70] == d.qa
  {
    var data := Front(count, size, contentId, d) + rest;
    var numbers := Pack(BE, HEADER, HeaderValues(count, size));
    HeaderSize();
    HeaderValuesFit(count, size);
    UnpackPack(BE, HEADER, HeaderValues(count, size));
    FrontParts(numbers, PaddedId(contentId), d.qa, d.licensee, d.info, rest);
  }

  lemma HeaderValuesFit(count: nat, size: nat)
    requires count < TWO_31 && size < TWO_31
    ensures Fits(HEADER, HeaderValues(count, size))
  {
    Powers();
  }

  lemma FrontParts(a: Buffer, b: Buffer, c: Buffer, d: Buffer, e: Buffer, rest: Buffer)
    requires |a| == 0x30 && |b| == 0x30 && |c| == 0x10
    ensures var data := a + b + c + d + e + rest; data[..0x30] == a && data[0x30..0x60] == b && data[0x60..0x70] == c
  {
  }

  /** The data area of a package holds the plain data again after decryption. */
  lemma DataReads(sha: Sha, front: Buffer, qa: Buffer, plain: Buffer, rest: Buffer)
    requires |front| == DATA_OFFSET && |qa| == 0x10
    ensures var enc := Slice(front + Encrypted(sha, qa, plain) + rest, DATA_OFFSET, DATA_OFFSET + |plain|);
      |enc| == |plain| && Encrypted(sha, qa, enc) == plain
  {
    var enc := Encrypted(sha, qa, plain);
    assert (front + enc + rest)[DATA_OFFSET..DATA_OFFSET + |plain|] == enc;
    CryptTwice(C, sha, ContextOf(qa), plain);
    if plain == [] {
      assert Slice(front + enc + rest, DATA_OFFSET, DATA_OFFSET) == [];
    }
  }

  lemma DescriptorReads(seal: Sealing, files: seq<File>, i: nat, dec: Buffer, h: FileHeader)
    requires i < |files| && dec == Plain(seal, files) && h == HeaderOf(files, i)
    ensures 0x20 * i + 0x20 <= |dec| && dec[0x20 * i..0x20 * i + 0x20] == HeaderBytes(h)
  {
    DescriptorPositions(files, i);
    DescriptorIs(files, i);
    FirstPieces(Descriptors(files), Concat(Names(files)), Concat(Contents(seal, files)), i, 0x20, 0x20 * i);
  }

  lemma DescriptorIs(files: seq<File>, i: nat)
    requires i < |files|
    ensures Descriptors(files)[i] == HeaderBytes(HeaderOf(files, i)) && |Descriptors(files)[i]| == 0x20
  {
    FileHeaderSize();
  }

  lemma NameReads(seal: Sealing, files: seq<File>, i: nat, dec: Buffer, h: FileHeader)
    requires i < |files| && dec == Plain(seal, files) && h == HeaderOf(files, i)
    ensures Slice(dec, h.nameOff, h.nameOff + h.nameLength) == files[i].name && h.flags == Flags(files[i])
  {
    DescriptorPositions(files, i);
    NameLengths(files, i);
    PieceReads(Concat(Descriptors(files)), Names(files), Concat(Contents(seal, files)), i, |files[i].name|, h.nameOff);
  }

  lemma ContentReads(seal: Sealing, files: seq<File>, i: nat, dec: Buffer, h: FileHeader)
    requires i < |files| && PatchesInside(files[..i]) && !files[i].directory
    requires dec == Plain(seal, files) && h == HeaderOf(files, i)
    ensures Slice(dec, h.fileOff, h.fileOff + h.fileSize) == Expected(seal, files[i]).contents
  {
    ContentReadsAt(seal, files, i, dec, h.fileOff, h.fileSize);
  }

  lemma ContentReadsAt(seal: Sealing, files: seq<File>, i: nat, dec: Buffer, from: nat, n: nat)
    requires i < |files| && PatchesInside(files[..i]) && !files[i].directory
    requires dec == Plain(seal, files) && from == HeaderOf(files, i).fileOff && n == FileSize(files[i])
    ensures Slice(dec, from, from + n) == Expected(seal, files[i]).contents
  {
    ContentPrefix(seal, files[i]);
    ContentPlace(seal, files, i, dec, from, n);
  }

  lemma ContentPlace(seal: Sealing, files: seq<File>, i: nat, dec: Buffer, from: nat, n: nat)
    requires i < |files| && PatchesInside(files[..i]) && dec == Plain(seal, files)
    requires from == HeaderOf(files, i).fileOff && n <= |PaddedContent(seal, files[i])|
    ensures Slice(dec, from, from + n) == PaddedContent(seal, files[i])[..n]
  {
    DescriptorPositions(files, i);
    PlannedPositions(seal, files, i);
    LastPieces(Concat(Descriptors(files)) + Concat(Names(files)), Contents(seal, files), i, n, from);
  }

  lemma ContentPrefix(seal: Sealing, f: File)
    requires !f.directory
    ensures FileSize(f) <= |PaddedContent(seal, f)|
    ensures PaddedContent(seal, f)[..FileSize(f)] == Expected(seal, f).contents
  {
    StoredLength(seal, f);
    ContentLength(seal, f);
    EbootSizeMeans(|f.content|);
    var size, aligned := FileSize(f), Align16(FileSize(f));
    var few, many := Zeros(size - |f.content|), Zeros(aligned - |f.content|);
    assert many == few + Zeros(aligned - size);
    assert (Stored(seal, f) + many)[..size] == (Stored(seal, f) + few)[..size];
  }

  lemma ItemAtReads(dec: Buffer, i: nat, h: FileHeader)
    requires 0x20 * i + 0x20 <= |dec| && dec[0x20 * i..0x20 * i + 0x20] == HeaderBytes(h) && HeaderEncodes(h)
    ensures ItemAt(dec, i) == ItemOf(dec, h.nameOff, h.nameLength, h.fileOff, h.fileSize, h.flags)
  {
    FileHeaderSize();
    UnpackPack(BE, FILE_HEADER, Values(h));
  }

  /** The item has the file's name and flags, and its bytes when its place is the planned one. */
  predicate ReadsAs(seal: Sealing, item: Item, f: File, inPlace: bool)
  {
    var expected := Expected(seal, f);
    item.name == expected.name && item.flags == expected.flags && (inPlace || f.directory ==> item == expected)
  }

  lemma ItemIs(seal: Sealing, dec: Buffer, h: FileHeader, f: File, inside: bool)
    requires h.flags == Flags(f)
    requires Slice(dec, h.nameOff, h.nameOff + h.nameLength) == f.name
    requires inside && !f.directory ==> Slice(dec, h.fileOff, h.fileOff + h.fileSize) == Expected(seal, f).contents
    ensures ReadsAs(seal, ItemOf(dec, h.nameOff, h.nameLength, h.fileOff, h.fileSize, h.flags), f, inside)
  {
    FlagsMean(f);
  }

  lemma PartsRead(seal: Sealing, files: seq<File>, i: nat, dec: Buffer, h: FileHeader)
    requires i < |files| && dec == Plain(seal, files) && h == HeaderOf(files, i)
    ensures ReadsAs(seal, ItemOf(dec, h.nameOff, h.nameLength, h.fileOff, h.fileSize, h.flags), files[i],
                    PatchesInside(files[..i]))
  {
    NameReads(seal, files, i, dec, h);
    if PatchesInside(files[..i]) && !files[i].directory {
      ContentReads(seal, files, i, dec, h);
    }
    ItemIs(seal, dec, h, files[i], PatchesInside(files[..i]));
  }

  lemma ItemReads(seal: Sealing, files: seq<File>, i: nat)
    requires i < |files| && |Plain(seal, files)| < TWO_31
    ensures 0x20 * (i + 1) <= |Plain(seal, files)|
    ensures ReadsAs(seal, ItemAt(Plain(seal, files), i), files[i], PatchesInside(files[..i]))
  {
    var dec, h := Plain(seal, files), HeaderOf(files, i);
    DescriptorReads(seal, files, i, dec, h);
    HeaderFits(seal, files, i);
    ItemAtReads(dec, i, h);
    PartsRead(seal, files, i, dec, h);
  }

  lemma FlagsMean(f: File)
    ensures Flags(f) % 0x100 == DIRECTORY <==> f.directory
  {
  }

  function ExpectedItems(seal: Sealing, files: seq<File>): seq<Item>
  {
    seq(|files|, i requires 0 <= i < |files| => Expected(seal, files[i]))
  }

  lemma ItemsRead(seal: Sealing, files: seq<File>)
    requires |Plain(seal, files)| < TWO_31
    ensures 0x20 * |files| <= |Plain(seal, files)|
    ensures var items := Items(Plain(seal, files), |files|);
      forall i | 0 <= i < |files| :: ReadsAs(seal, items[i], files[i], PatchesInside(files[..i]))
  {
    CountFits(seal, files);
    forall i | 0 <= i < |files| ensures 0x20 * (i + 1) <= |Plain(seal, files)|
      && ReadsAs(seal, ItemAt(Plain(seal, files), i), files[i], PatchesInside(files[..i])) {
      ItemReads(seal, files, i);
    }
  }

  /** Reading any written package gives every file's name up to its first NUL and its flags, in order, and the bytes
    of those in front of which no patch reaches out of its file. */
  lemma RoundTrip(sha: Sha, files: seq<File>, contentId: Buffer)
    requires files != [] && Packed(sha, files, contentId).Package?
    ensures var r := Unpacked(sha, Packed(sha, files, contentId).bytes);
      && r.Extracted? && r.directory == NullTerm(PaddedId(contentId)) && |r.items| == |files|
      && forall i | 0 <= i < |files| ::
           ReadsAs(Seal(sha, contentId), r.items[i], files[i], PatchesInside(files[..i]))
  {
    var seal := Seal(sha, contentId);
    var size := |Plain(seal, files)|;
    ItemsRead(seal, files);
    FileReads(sha, |files|, Plain(seal, files), contentId, DigestsOf(sha, files, size, contentId));
  }

  /** So without such patches everything comes back. */
  lemma NothingLost(sha: Sha, files: seq<File>, contentId: Buffer)
    requires PatchesInside(files) && files != [] && Packed(sha, files, contentId).Package?
    ensures Unpacked(sha, Packed(sha, files, contentId).bytes)
      == Extracted(NullTerm(PaddedId(contentId)), ExpectedItems(Seal(sha, contentId), files))
  {
    RoundTrip(sha, files, contentId);
    var seal := Seal(sha, contentId);
    var items := Unpacked(sha, Packed(sha, files, contentId).bytes).items;
    AllInPlace(seal, files, items);
  }

  lemma AllInPlace(seal: Sealing, files: seq<File>, items: seq<Item>)
    requires PatchesInside(files) && |items| == |files|
    requires forall i | 0 <= i < |files| :: ReadsAs(seal, items[i], files[i], PatchesInside(files[..i]))
    ensures items == ExpectedItems(seal, files)
  {
    forall i | 0 <= i < |files| ensures items[i] == Expected(seal, files[i]) {
      assert ReadsAs(seal, items[i], files[i], PatchesInside(files[..i]));
    }
  }

  lemma FileReads(sha: Sha, count: nat, plain: Buffer, contentId: Buffer, d: Digests)
    requires ValidDigests(d) && 0 < count && 0x20 * count <= |plain| < TWO_31
    ensures Unpacked(sha, Front(count, |plain|, contentId, d) + Encrypted(sha, d.qa, plain) + Zeros(TAIL))
         == Extracted(NullTerm(PaddedId(contentId)), Items(plain, count))
  {
    var n := |plain|;
    var front, rest := Front(count, n, contentId, d), Encrypted(sha, d.qa, plain) + Zeros(TAIL);
    var data := front + Encrypted(sha, d.qa, plain) + Zeros(TAIL);
    assert data == front + rest;
    HeaderReads(count, n, contentId, d, rest);
    DataReads(sha, front, d.qa, plain, Zeros(TAIL));
  }

  lemma CountFits(seal: Sealing, files: seq<File>)
    ensures 0x20 * |files| <= |Plain(seal, files)|
  {
    DescriptorPositions(files, 0);
  }

  /** A name without NUL comes back whole, and so do a file that is not the program and a program whose patch lies
    inside; the program is only lengthened. */
  lemma ExpectedIsTheFile(seal: Sealing, f: File)
    ensures 0 !in f.name <==> Expected(seal, f).name == f.name
    ensures !f.directory && !PatchOf(f.content).Replaced? ==>
      f.content <= Expected(seal, f).contents && (f.name != EBOOT ==> Expected(seal, f).contents == f.content)
    ensures !f.directory && PatchInside(f) ==> Stored(seal, f) <= Expected(seal, f).contents
  {
    NullTermKeeps(f.name);
    if !f.directory && PatchInside(f) {
      WholeStored(seal, f, Stored(seal, f));
    }
  }

  lemma WholeStored(seal: Sealing, f: File, stored: Buffer)
    requires !f.directory && PatchInside(f) && stored == Stored(seal, f)
    ensures stored <= Expected(seal, f).contents && (f.name != EBOOT ==> Expected(seal, f).contents == stored)
  {
    StoredLength(seal, f);
    EbootSizeMeans(|f.content|);
    var contents := stored + Zeros(FileSize(f) - |f.content|);
    assert contents[..FileSize(f)] == contents;
  }

  // ----- `package_finalize`

  /** The data is as much longer than a multiple of 16 as the patches reach out of their files. */
  lemma DataMultiple(seal: Sealing, files: seq<File>)
    ensures |Plain(seal, files)| % BLOCK == Displaced(files) % BLOCK
  {
    NamesMultiple(Names(files), files);
    PlannedMultiple(files);
    PlainLength(seal, files);
    ThreeMultiples(|files|, |Concat(Names(files))|, Planned(files), Displaced(files), |Plain(seal, files)|);
  }

  lemma PlainLength(seal: Sealing, files: seq<File>)
    ensures |Plain(seal, files)| == NameStart(files) + |Concat(Names(files))| + Planned(files) + Displaced(files)
  {
    DescriptorPositions(files, 0);
    PlannedPositions(seal, files, |files|);
    assert files[..|files|] == files && Contents(seal, files)[..|files|] == Contents(seal, files);
  }

  lemma ThreeMultiples(a: nat, b: nat, c: nat, d: nat, total: nat)
    requires b % BLOCK == 0 && c % BLOCK == 0 && total == 0x20 * a + b + c + d
    ensures total % BLOCK == d % BLOCK
  {
    DivModUnique(total, BLOCK, 2 * a + b / BLOCK + c / BLOCK + d / BLOCK, d % BLOCK);
  }

  lemma NumberReads(data: Buffer, at: nat, n: nat)
    requires at + 8 <= |data| && n < TWO_31 && data[at..at + 8] == BigEndian(n, 8)
    ensures HeaderNumber(data, at) == n
  {
    Powers();
    BigEndianReads(n, 8);
    SmallNumberLoads(data[at..at + 8], n);
    TruncatedSmall(n);
  }

  /** The first step of `package_finalize` finds the header's numbers, and puts the plain data in place of the
    encrypted; nothing else changes when the data ends with a block, as it does unless patches reach out of their
    files. */
  lemma FinalizeReveals(sha: Sha, seal: Sealing, files: seq<File>, contentId: Buffer, d: Digests)
    requires ValidDigests(d) && |Plain(seal, files)| + DATA_OFFSET + TAIL < TWO_31
    ensures var data := PackageOf(sha, seal, files, contentId, d); var n := |Plain(seal, files)|;
      && Finalizable(data) && DataOffset(data) == DATA_OFFSET && DataSize(data) == n && data[0x60..0x70] == d.qa
      && n <= Whole(n) < n + BLOCK
      && DecryptsTo(Decrypted(sha, data), Front(|files|, n, contentId, d), Plain(seal, files),
                    Displaced(files) % BLOCK == 0)
  {
    var plain := Plain(seal, files);
    CountFits(seal, files);
    DataMultiple(seal, files);
    WholeBlocks(|plain|);
    PlainRevealed(sha, |files|, plain, contentId, d, Front(|files|, |plain|, contentId, d));
  }

  /** The front, the plain data, and when there are only whole blocks the zeros behind it. */
  predicate DecryptsTo(now: Buffer, front: Buffer, plain: Buffer, whole: bool) {
    |front + plain| <= |now| == |front + plain| + TAIL && front + plain <= now
    && (whole ==> now == front + plain + Zeros(TAIL))
  }

  lemma PlainRevealed(sha: Sha, count: nat, plain: Buffer, contentId: Buffer, d: Digests, front: Buffer)
    requires ValidDigests(d) && count <= |plain| && |plain| + DATA_OFFSET + TAIL < TWO_31
    requires front == Front(count, |plain|, contentId, d)
    ensures var data := front + Encrypted(sha, d.qa, plain) + Zeros(TAIL); var n := |plain|;
      && Finalizable(data) && DataOffset(data) == DATA_OFFSET && DataSize(data) == n && data[0x60..0x70] == d.qa
      && DecryptsTo(Decrypted(sha, data), front, plain, n % BLOCK == 0)
  {
    var enc := Encrypted(sha, d.qa, plain);
    var data := front + enc + Zeros(TAIL);
    assert data == front + (enc + Zeros(TAIL));
    HeaderFound(count, |plain|, contentId, d, enc + Zeros(TAIL), data);
    WholeBlocks(|plain|);
    AreaRevealed(sha, front, d.qa, plain, enc, data, Whole(|plain|));
  }

  lemma HeaderFound(count: nat, n: nat, contentId: Buffer, d: Digests, rest: Buffer, data: Buffer)
    requires ValidDigests(d) && count <= n && n < TWO_31 && |rest| >= n
    requires data == Front(count, n, contentId, d) + rest
    ensures DataOffset(data) == DATA_OFFSET && DataSize(data) == n && data[0x60..0x70] == d.qa
  {
    FrontNumbers(count, n, contentId, d, rest);
    HeaderReads(count, n, contentId, d, rest);
    NumberReads(data, 0x20, DATA_OFFSET);
    NumberReads(data, 0x28, n);
  }

  lemma WholeBlocks(n: nat)
    ensures n <= Whole(n) < n + BLOCK && (Whole(n) == n <==> n % BLOCK == 0)
  {
  }

  lemma AreaRevealed(sha: Sha, front: Buffer, qa: Buffer, plain: Buffer, enc: Buffer, data: Buffer, whole: nat)
    requires |front| == DATA_OFFSET && |qa| == 0x10 && enc == Encrypted(sha, qa, plain)
    requires data == front + enc + Zeros(TAIL) && |plain| <= whole < |plain| + BLOCK
    ensures DecryptsTo(Replace(data, DATA_OFFSET, Crypt(C, sha, ContextOf(qa), data[DATA_OFFSET..DATA_OFFSET + whole])),
                       front, plain, whole == |plain|)
  {
    var pad := Zeros(whole - |plain|);
    assert data[DATA_OFFSET..DATA_OFFSET + whole] == enc + pad;
    CryptTwice(C, sha, ContextOf(qa), plain);
    CryptPrefix(C, sha, ContextOf(qa), enc, pad);
    Revealed(front, enc, plain, Crypt(C, sha, ContextOf(qa), enc + pad));
  }

  lemma Revealed(front: Buffer, enc: Buffer, plain: Buffer, piece: Buffer)
    requires |enc| == |plain| <= |piece| < |plain| + BLOCK && piece[..|plain|] == plain
    ensures DecryptsTo(Replace(front + enc + Zeros(TAIL), |front|, piece), front, plain, |piece| == |plain|)
  {
  }

  lemma FieldPlaces()
    ensures Size(HEADER[..7]) == 0x20 && Size(HEADER[..8]) == 0x28
  {
    var fours := [4, 4, 4, 4, 4, 4];
    SizeUniform(fours, 4);
    SizeUniform([8], 8);
    SizeUniform([8, 8], 8);
    SizeAdds(fours, [8]);
    SizeAdds(fours, [8, 8]);
    assert HEADER[..7] == fours + [8] && HEADER[..8] == fours + [8, 8];
  }

  lemma FrontNumbers(count: nat, size: nat, contentId: Buffer, d: Digests, rest: Buffer)
    requires ValidDigests(d)
    ensures var data := Front(count, size, contentId, d) + rest;
      data[0x20..0x28] == BigEndian(DATA_OFFSET, 8) && data[0x28..0x30] == BigEndian(size, 8)
  {
    var data := Front(count, size, contentId, d) + rest;
    var values := HeaderValues(count, size);
    HeaderSize();
    FieldPlaces();
    PackedField(BE, HEADER, values, 7);
    PackedField(BE, HEADER, values, 8);
    assert data[..0x30] == Pack(BE, HEADER, values);
    assert data[0x20..0x28] == data[..0x30][0x20..0x28] && data[0x28..0x30] == data[..0x30][0x28..0x30];
  }
}
