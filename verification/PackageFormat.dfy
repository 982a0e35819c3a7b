/** What lies where in a package, byte by byte. */
module PackageFormat {
  import Bits
  import opened Bytes
  import opened StructFormat
  import opened KeyCounter
  import opened Keystream
  import opened Npdrm
  import opened Package
  import opened PackageDigests
  import opened PackageFile
  import opened PackageReader
  import opened Words

  /** Field `i` of a structure that lies at `from`. */
  lemma FieldAtOffset(content: Buffer, from: nat, widths: Layout, values: seq<nat>, bytes: Buffer, i: nat, at: nat,
                      n: nat)
    requires Fits(widths, values) && i < |widths| && at == Size(widths[..i]) && n == widths[i]
    requires bytes == Pack(BE, widths, values) && from + |bytes| <= |content| && content[from..from + |bytes|] == bytes
    ensures from + at + n <= |content| && Field(content, from + at, n) == values[i]
  {
    PackedReads(BE, content, from, widths, values, bytes, i, at, n);
  }

  // ----- the header

  /** The numbers of the header; the size of the package is that of the file. */
  lemma HeaderBytesAre(count: nat, size: nat, contentId: Buffer, d: Digests, data: Buffer)
    requires ValidDigests(d) && count < TWO_31 && size < TWO_31
    requires |data| == 0x140 + size + 0x60 && data[..0x140] == Front(count, size, contentId, d)
    ensures Field(data, 0, 4) == 0x7F50_4B47 && Field(data, 4, 4) == 1 && Field(data, 8, 4) == 0xC0
    ensures Field(data, 0xC, 4) == 5 && Field(data, 0x10, 4) == 0x80 && Field(data, 0x14, 4) == count
    ensures Field(data, 0x18, 8) == |data| && Field(data, 0x20, 8) == 0x140 && Field(data, 0x28, 8) == size
  {
    HeaderFirst(count, size, contentId, d, data);
    HeaderValuesFit(count, size);
    HeaderFields(data, HeaderValues(count, size));
  }

  lemma HeaderFields(data: Buffer, values: seq<nat>)
    requires HeaderPacked(data, values) && |values| == 9
    ensures Field(data, 0, 4) == values[0] && Field(data, 4, 4) == values[1] && Field(data, 8, 4) == values[2]
    ensures Field(data, 0xC, 4) == values[3] && Field(data, 0x10, 4) == values[4] && Field(data, 0x14, 4) == values[5]
    ensures Field(data, 0x18, 8) == values[6] && Field(data, 0x20, 8) == values[7] && Field(data, 0x28, 8) == values[8]
  {
    SmallHeaderField(data, values, 0, 0);
    SmallHeaderField(data, values, 1, 4);
    SmallHeaderField(data, values, 2, 8);
    SmallHeaderField(data, values, 3, 0xC);
    SmallHeaderField(data, values, 4, 0x10);
    SmallHeaderField(data, values, 5, 0x14);
    HeaderStart(6);
    FieldPlaces();
    LargeHeaderField(data, values, 6, 0x18);
    LargeHeaderField(data, values, 7, 0x20);
    LargeHeaderField(data, values, 8, 0x28);
  }

  predicate HeaderPacked(data: Buffer, values: seq<nat>) { PackedFirst(data, HEADER, values) }

  predicate PackedFirst(data: Buffer, widths: Layout, values: seq<nat>) {
    Fits(widths, values) && |data| >= 0x30 && data[0..0x30] == Pack(BE, widths, values)
  }

  lemma HeaderField(data: Buffer, widths: Layout, values: seq<nat>, i: nat, at: nat, n: nat)
    requires PackedFirst(data, widths, values) && i < |widths| && at == Size(widths[..i]) && n == widths[i]
    ensures at + n <= |data| && Field(data, at, n) == values[i]
  {
    FieldAtOffset(data, 0, widths, values, data[0..0x30], i, at, n);
  }

  lemma HeaderStart(i: nat)
    requires i <= 6
    ensures Size(HEADER[..i]) == 4 * i && (i < 6 ==> HEADER[i] == 4)
  {
    SizeUniform(HEADER[..i], 4);
  }

  lemma SmallHeaderField(data: Buffer, values: seq<nat>, i: nat, at: nat)
    requires HeaderPacked(data, values) && |data| >= 0x30 && |values| == 9
    requires i < 6 && at == 4 * i
    ensures Field(data, at, 4) == values[i]
  {
    HeaderStart(i);
    HeaderField(data, HEADER, values, i, at, 4);
  }

  lemma LargeHeaderField(data: Buffer, values: seq<nat>, i: nat, at: nat)
    requires HeaderPacked(data, values) && |values| == 9
    requires 6 <= i < 9 && at == Size(HEADER[..i])
    ensures at + 8 <= |data| && Field(data, at, 8) == values[i]
  {
    HeaderField(data, HEADER, values, i, at, 8);
  }

  lemma HeaderFirst(count: nat, size: nat, contentId: Buffer, d: Digests, data: Buffer)
    requires ValidDigests(d) && |data| >= 0x140 && data[..0x140] == Front(count, size, contentId, d)
    ensures data[0..0x30] == Pack(BE, HEADER, HeaderValues(count, size))
  {
    HeaderSize();
    assert data[0..0x30] == data[..0x140][0..0x30];
  }

  // ----- the descriptors

  /** Descriptor `i` names where the name and the contents lie. Directories are of type 4, the program of type 1 and
    other files of type 3, all with the highest bit set. */
  lemma DescriptorBytesAre(seal: Sealing, files: seq<File>, i: nat, data: Buffer, at: nat)
    requires i < |files| && |Plain(seal, files)| < TWO_31 && data == Plain(seal, files) && at == 0x20 * i
    ensures at + 0x20 <= |data|
    ensures Describes(seal, data, at, files[i], PatchesInside(files[..i]))
  {
    var h := HeaderOf(files, i);
    DescriptorThere(seal, files, i, data, at, h);
    AsExpected(seal, files, i, data, h);
    DescriptorDescribes(seal, data, at, files[i], h, PatchesInside(files[..i]));
  }

  lemma DescriptorThere(seal: Sealing, files: seq<File>, i: nat, data: Buffer, at: nat, h: FileHeader)
    requires i < |files| && |Plain(seal, files)| < TWO_31 && data == Plain(seal, files) && at == 0x20 * i
    requires h == HeaderOf(files, i)
    ensures at + 0x20 <= |data| && data[at..at + 0x20] == HeaderBytes(h) && HeaderEncodes(h)
    ensures Slice(data, h.nameOff, h.nameOff + h.nameLength) == files[i].name
    ensures h.fileSize == FileSize(files[i]) && h.flags == Flags(files[i])
  {
    DescriptorReads(seal, files, i, data, h);
    HeaderFits(seal, files, i);
    NameReads(seal, files, i, data, h);
  }

  ghost predicate Describes(seal: Sealing, data: Buffer, at: nat, f: File, inPlace: bool)
    requires at + 0x20 <= |data|
  {
    var name, contents := Field(data, at, 4), Field(data, at + 8, 8);
    && Slice(data, name, name + Field(data, at + 4, 4)) == f.name
    && Field(data, at + 0x10, 8) == FileSize(f) && Field(data, at + 0x1C, 4) == 0
    && Field(data, at + 0x18, 4) == (if f.directory then 0x8000_0004 else if f.name == EBOOT then 0x8000_0001
                                     else 0x8000_0003)
    && (inPlace && !f.directory ==>
          Slice(data, contents, contents + Field(data, at + 0x10, 8)) == Expected(seal, f).contents)
  }

  lemma DescriptorDescribes(seal: Sealing, data: Buffer, at: nat, f: File, h: FileHeader, inPlace: bool)
    requires at + 0x20 <= |data| && data[at..at + 0x20] == HeaderBytes(h) && HeaderEncodes(h)
    requires Slice(data, h.nameOff, h.nameOff + h.nameLength) == f.name
    requires h.fileSize == FileSize(f) && h.flags == Flags(f)
    requires inPlace && !f.directory ==> Slice(data, h.fileOff, h.fileOff + h.fileSize) == Expected(seal, f).contents
    ensures Describes(seal, data, at, f, inPlace)
  {
    DescriptorFields(data, at, h);
  }

  lemma AsExpected(seal: Sealing, files: seq<File>, i: nat, data: Buffer, h: FileHeader)
    requires i < |files| && data == Plain(seal, files) && h == HeaderOf(files, i)
    ensures PatchesInside(files[..i]) && !files[i].directory ==>
      Slice(data, h.fileOff, h.fileOff + h.fileSize) == Expected(seal, files[i]).contents
  {
    if PatchesInside(files[..i]) && !files[i].directory {
      ContentReads(seal, files, i, data, h);
    }
  }

  lemma DescriptorFields(data: Buffer, at: nat, h: FileHeader)
    requires at + 0x20 <= |data| && data[at..at + 0x20] == HeaderBytes(h) && HeaderEncodes(h)
    ensures Field(data, at, 4) == h.nameOff && Field(data, at + 4, 4) == h.nameLength
    ensures Field(data, at + 8, 8) == h.fileOff && Field(data, at + 0x10, 8) == h.fileSize
    ensures Field(data, at + 0x18, 4) == h.flags
    ensures Field(data, at + 0x1C, 4) == 0
  {
    var values, bytes := Values(h), data[at..at + 0x20];
    SizeNext(FILE_HEADER, 0);
    FieldAtOffset(data, at, FILE_HEADER, values, bytes, 0, 0, 4);
    SizeNext(FILE_HEADER, 1);
    FieldAtOffset(data, at, FILE_HEADER, values, bytes, 1, 4, 4);
    SizeNext(FILE_HEADER, 2);
    FieldAtOffset(data, at, FILE_HEADER, values, bytes, 2, 8, 8);
    SizeNext(FILE_HEADER, 3);
    FieldAtOffset(data, at, FILE_HEADER, values, bytes, 3, 0x10, 8);
    SizeNext(FILE_HEADER, 4);
    FieldAtOffset(data, at, FILE_HEADER, values, bytes, 4, 0x18, 4);
    FieldAtOffset(data, at, FILE_HEADER, values, bytes, 5, 0x1C, 4);
  }

  /** Names are filled up with zeros to a multiple of 16, */
  lemma NameFilledUp(seal: Sealing, files: seq<File>, i: nat, data: Buffer, from: nat, k: nat)
    requires i < |files| && data == Plain(seal, files) && from == HeaderOf(files, i).nameOff
    requires |files[i].name| <= k < Align16(|files[i].name|)
    ensures from + k < |data| && data[from + k] == 0
  {
    var piece := PaddedName(files[i]);
    PaddedNameReads(seal, files, i, data, from);
    ByteInSlice(data, from, piece, k);
  }

  /** and contents to that of the size. */
  lemma ContentFilledUp(seal: Sealing, files: seq<File>, i: nat, data: Buffer, from: nat, k: nat)
    requires i < |files| && data == Plain(seal, files) && from == HeaderOf(files, i).fileOff
    requires PatchesInside(files[..i]) && !files[i].directory
    requires |Stored(seal, files[i])| <= k < Align16(FileSize(files[i]))
    ensures from + k < |data| && data[from + k] == 0
  {
    var piece := PaddedContent(seal, files[i]);
    PaddedContentReads(seal, files, i, data, from);
    ZeroPadded(seal, files[i], piece, k);
    ByteInSlice(data, from, piece, k);
  }

  lemma ZeroPadded(seal: Sealing, f: File, piece: Buffer, k: nat)
    requires !f.directory && piece == PaddedContent(seal, f) && |Stored(seal, f)| <= k < Align16(FileSize(f))
    ensures k < |piece| && piece[k] == 0
  {
    StoredLength(seal, f);
    ContentLength(seal, f);
  }

  lemma ByteInSlice(data: Buffer, from: nat, piece: Buffer, k: nat)
    requires Slice(data, from, from + |piece|) == piece && k < |piece|
    ensures from + k < |data| && data[from + k] == piece[k]
  {
  }

  lemma PaddedNameReads(seal: Sealing, files: seq<File>, i: nat, data: Buffer, from: nat)
    requires i < |files| && data == Plain(seal, files) && from == HeaderOf(files, i).nameOff
    ensures Slice(data, from, from + |PaddedName(files[i])|) == PaddedName(files[i])
  {
    DescriptorPositions(files, i);
    var piece := PaddedName(files[i]);
    PieceReads(Concat(Descriptors(files)), Names(files), Concat(Contents(seal, files)), i, |piece|, from);
    assert piece[..|piece|] == piece;
  }

  lemma PaddedContentReads(seal: Sealing, files: seq<File>, i: nat, data: Buffer, from: nat)
    requires i < |files| && data == Plain(seal, files) && from == HeaderOf(files, i).fileOff
    requires PatchesInside(files[..i]) && !files[i].directory
    ensures Slice(data, from, from + |PaddedContent(seal, files[i])|) == PaddedContent(seal, files[i])
  {
    var piece := PaddedContent(seal, files[i]);
    ContentPlace(seal, files, i, data, from, |piece|);
    assert piece[..|piece|] == piece;
  }

  // ----- the block behind the header

  lemma MetaStart(i: nat)
    requires i <= 11
    ensures Size(META[..i]) == 4 * i && |META| == 18
  {
    SizeUniform(Fours(i), 4);
    assert META[..i] == Fours(11)[..i] == Fours(i);
  }

  /** Its numbers: a free program, of the normal type, of this size, packed by revision 1061. */
  lemma MetaBytesAre(size: nat, data: Buffer, from: nat, i: nat)
    requires size < TWO_31 && from + 0x40 <= |data| && data[from..from + 0x40] == MetaBytes(size) && i < 11
    ensures Field(data, from + 4 * i, 4) == [1, 4, 3, 2, 4, 5, 3, 4, 0xE, 4, 8][i]
    ensures Field(data, from + 0x2C, 2) == 0 && Field(data, from + 0x2E, 2) == 0 && Field(data, from + 0x30, 4) == size
    ensures Field(data, from + 0x34, 4) == 5 && Field(data, from + 0x38, 4) == 4
    ensures Field(data, from + 0x3C, 2) == 0x1061 && Field(data, from + 0x3E, 2) == 0
  {
    MetaFits(size);
    MetaFirst(data, from, MetaValues(size), i);
    MetaEnd(data, from, MetaValues(size));
  }

  lemma MetaFirst(data: Buffer, from: nat, values: seq<nat>, i: nat)
    requires Fits(META, values) && from + 0x40 <= |data| && data[from..from + 0x40] == Pack(BE, META, values) && i < 11
    ensures Field(data, from + 4 * i, 4) == values[i]
  {
    MetaStart(i);
    FieldAtOffset(data, from, META, values, data[from..from + 0x40], i, 4 * i, 4);
  }

  lemma MetaEnd(data: Buffer, from: nat, values: seq<nat>)
    requires Fits(META, values) && from + 0x40 <= |data| && data[from..from + 0x40] == Pack(BE, META, values)
    ensures Field(data, from + 0x2C, 2) == values[11] && Field(data, from + 0x2E, 2) == values[12]
    ensures Field(data, from + 0x30, 4) == values[13] && Field(data, from + 0x34, 4) == values[14]
    ensures Field(data, from + 0x38, 4) == values[15] && Field(data, from + 0x3C, 2) == values[16]
    ensures Field(data, from + 0x3E, 2) == values[17]
  {
    var bytes := data[from..from + 0x40];
    MetaStart(11);
    FieldAtOffset(data, from, META, values, bytes, 11, 0x2C, 2);
    SizeNext(META, 11);
    FieldAtOffset(data, from, META, values, bytes, 12, 0x2E, 2);
    SizeNext(META, 12);
    FieldAtOffset(data, from, META, values, bytes, 13, 0x30, 4);
    SizeNext(META, 13);
    FieldAtOffset(data, from, META, values, bytes, 14, 0x34, 4);
    SizeNext(META, 14);
    FieldAtOffset(data, from, META, values, bytes, 15, 0x38, 4);
    SizeNext(META, 15);
    FieldAtOffset(data, from, META, values, bytes, 16, 0x3C, 2);
    SizeNext(META, 16);
    FieldAtOffset(data, from, META, values, bytes, 17, 0x3E, 2);
  }

  lemma MetaFits(size: nat)
    requires size < TWO_31
    ensures Fits(META, MetaValues(size))
  {
    Powers();
  }

  // ----- the block of an NPDRM program

  /** A mark, the identifier, and three times the digest of the whole file: as it is, inverted, and masked. */
  lemma EbootMetaIs(sha: Sha, contentId: Buffer, content: Buffer, i: nat, k: nat)
    requires i < 0x10
    ensures var m, h := EbootMeta(sha, contentId, content), sha(content);
      && Field(m, 0, 4) == 0x4E50_4400 && Field(m, 4, 4) == 1 && Field(m, 8, 4) == 3 && Field(m, 0xC, 4) == 1
      && m[0x10..0x40] == PaddedId(contentId)
      && m[0x40 + i] == h[i] && m[0x50 + i] + h[i] == 0xFF && m[0x70 + i] == 0
      && Bits.Bit(m[0x60 + i], k)
         == (Bits.Bit(if i == 0xF then 1 else 0, k) + Bits.Bit(m[0x50 + i], k) + Bits.Bit(0xAA, k)) % 2
  {
    var hash := sha(content)[..0x10];
    var m := EbootMeta(sha, contentId, content);
    MetaParts(sha, contentId, content, hash, m, i);
    StartFields(m);
    MaskedBits(hash[i], if i == 0xF then 1 else 0, 0xAA, k);
  }

  lemma MetaParts(sha: Sha, contentId: Buffer, content: Buffer, hash: Buffer, m: Buffer, i: nat)
    requires hash == sha(content)[..0x10] && m == EbootMeta(sha, contentId, content) && i < 0x10
    ensures |m| == 0x80 && m[..0x10] == Pack(BE, META_START, [0x4E50_4400, 1, 3, 1])
    ensures m[0x10..0x40] == PaddedId(contentId)
    ensures m[0x40 + i] == hash[i] == sha(content)[i] && m[0x50 + i] == 0xFF - hash[i]
    ensures m[0x60 + i] == MaskedByte(hash[i], i) && m[0x70 + i] == 0
  {
    SizeUniform(META_START, 4);
    SixParts(Pack(BE, META_START, [0x4E50_4400, 1, 3, 1]), PaddedId(contentId), hash, Inverted(hash), Masked(hash),
             Zeros(0x10), m);
  }

  lemma SixParts(a: Buffer, b: Buffer, c: Buffer, d: Buffer, e: Buffer, f: Buffer, m: Buffer)
    requires |a| == 0x10 && |b| == 0x30 && |c| == |d| == |e| == |f| == 0x10 && m == a + b + c + d + e + f
    ensures m[..0x10] == a && m[0x10..0x40] == b && m[0x40..0x50] == c && m[0x50..0x60] == d && m[0x60..0x70] == e
    ensures m[0x70..] == f
    ensures forall i | 0 <= i < 0x10 ::
              m[0x40 + i] == c[i] && m[0x50 + i] == d[i] && m[0x60 + i] == e[i] && m[0x70 + i] == f[i]
  {
  }

  lemma StartFields(m: Buffer)
    requires |m| == 0x80 && m[..0x10] == Pack(BE, META_START, [0x4E50_4400, 1, 3, 1])
    ensures Field(m, 0, 4) == 0x4E50_4400 && Field(m, 4, 4) == 1 && Field(m, 8, 4) == 3 && Field(m, 0xC, 4) == 1
  {
    var values: seq<nat> := [0x4E50_4400, 1, 3, 1];
    var bytes := m[..0x10];
    Powers();
    assert m[0..0x10] == bytes;
    SizeNext(META_START, 0);
    FieldAtOffset(m, 0, META_START, values, bytes, 0, 0, 4);
    SizeNext(META_START, 1);
    FieldAtOffset(m, 0, META_START, values, bytes, 1, 4, 4);
    SizeNext(META_START, 2);
    FieldAtOffset(m, 0, META_START, values, bytes, 2, 8, 4);
    FieldAtOffset(m, 0, META_START, values, bytes, 3, 0xC, 4);
  }

  lemma MaskedBits(b: Byte, last: Byte, mask: Byte, k: nat)
    ensures Bits.Bit(Mix(Mix(last, 0xFF - b), mask), k)
         == (Bits.Bit(last, k) + Bits.Bit(0xFF - b, k) + Bits.Bit(mask, k)) % 2
  {
    Bits.XorBits(last, 0xFF - b, k);
    Bits.XorBits(Bits.Xor(last, 0xFF - b), mask, k);
    Parity(Bits.Bit(last, k), Bits.Bit(0xFF - b, k), Bits.Bit(mask, k));
  }

  lemma Parity(a: nat, b: nat, c: nat)
    ensures ((a + b) % 2 + c) % 2 == (a + b + c) % 2
  {
  }

  // ----- a whole package

  /** Its beginning, and its end. */
  lemma PackageParts(sha: Sha, files: seq<File>, contentId: Buffer, d: Digests, plain: Buffer, data: Buffer)
    requires Packed(sha, files, contentId).Package? && data == Packed(sha, files, contentId).bytes
    requires plain == Plain(Seal(sha, contentId), files) && d == DigestsOf(sha, files, |plain|, contentId)
    ensures |plain| < TWO_31 && |files| < TWO_31 && |data| == 0x140 + |plain| + 0x60
    ensures data[..0x140] == Front(|files|, |plain|, contentId, d)
    ensures data[0x140..0x140 + |plain|] == Encrypted(sha, d.qa, plain)
  {
    CountFits(Seal(sha, contentId), files);
    ThreeParts(Front(|files|, |plain|, contentId, d), Encrypted(sha, d.qa, plain), Zeros(TAIL), data);
  }

  lemma ThreeParts(front: Buffer, enc: Buffer, tail: Buffer, data: Buffer)
    requires |front| == 0x140 && |tail| == 0x60 && data == front + enc + tail
    ensures data[..0x140] == front && data[0x140..0x140 + |enc|] == enc && |data| == 0x140 + |enc| + 0x60
  {
  }

  lemma FrontFields(count: nat, size: nat, contentId: Buffer, d: Digests, data: Buffer)
    requires ValidDigests(d) && |data| >= 0x140 && data[..0x140] == Front(count, size, contentId, d)
    ensures data[..0x30] == Pack(BE, HEADER, HeaderValues(count, size)) && data[0x30..0x60] == PaddedId(contentId)
    ensures data[0x60..0x70] == d.qa && data[0x70..0x80] == d.licensee && data[0x80..0x140] == d.info
  {
    HeaderSize();
    FiveFields(Pack(BE, HEADER, HeaderValues(count, size)), PaddedId(contentId), d.qa, d.licensee, d.info, data);
  }

  lemma FiveFields(a: Buffer, b: Buffer, c: Buffer, d: Buffer, e: Buffer, data: Buffer)
    requires |a| == 0x30 && |b| == 0x30 && |c| == |d| == 0x10 && |e| == 0xC0
    requires |data| >= 0x140 && data[..0x140] == a + b + c + d + e
    ensures data[..0x30] == a && data[0x30..0x60] == b && data[0x60..0x70] == c && data[0x70..0x80] == d
    ensures data[0x80..0x140] == e
  {
    var front := data[..0x140];
    assert data[..0x30] == front[..0x30] && data[0x30..0x60] == front[0x30..0x60];
    assert data[0x60..0x70] == front[0x60..0x70] && data[0x70..0x80] == front[0x70..0x80];
    assert data[0x80..0x140] == front[0x80..];
  }

  /** The package begins with these numbers and the identifier. Its digest is that of the files as they were found, of
    its own numbers, and of the descriptors and names that it holds; the bytes behind are those of the last counter, as
    many as the identifier has. */
  ghost predicate Begins(sha: Sha, files: seq<File>, contentId: Buffer, data: Buffer, size: nat, dec: Buffer, k: nat)
    requires |data| == size + 0x1A0 && k < 0x10
  {
    && Field(data, 0, 4) == 0x7F50_4B47 && Field(data, 4, 4) == 1 && Field(data, 8, 4) == 0xC0
    && Field(data, 0xC, 4) == 5 && Field(data, 0x10, 4) == 0x80 && Field(data, 0x14, 4) == |files|
    && Field(data, 0x18, 8) == |data| && Field(data, 0x20, 8) == 0x140 && Field(data, 0x28, 8) == size
    && data[0x30..0x60] == PaddedId(contentId) && ContentStart(files) <= |dec|
    && data[0x60..0x70]
       == sha(Concat(Raw(files)) + (data[..0x30] + Zeros(0x50)) + dec[..ContentStart(files)])[..0x10]
    && data[0x70 + k] == if k < |contentId| then sha(BlockContext(data[0x60..0x70], TWO_64 - 1))[k] else 0
  }

  lemma PackageBegins(sha: Sha, files: seq<File>, contentId: Buffer, data: Buffer, size: nat, dec: Buffer, k: nat)
    requires |data| == size + 0x1A0 && k < 0x10
    requires Packed(sha, files, contentId).Package? && data == Packed(sha, files, contentId).bytes
    requires dec == Encrypted(sha, data[0x60..0x70], data[0x140..0x140 + size])
    ensures Begins(sha, files, contentId, data, size, dec, k)
  {
    var plain := Plain(Seal(sha, contentId), files);
    var d := DigestsOf(sha, files, |plain|, contentId);
    PackageParts(sha, files, contentId, d, plain, data);
    FrontFields(|files|, |plain|, contentId, d, data);
    HeaderBytesAre(|files|, |plain|, contentId, d, data);
    CryptTwice(C, sha, ContextOf(d.qa), plain);
    assert dec == plain;
    LicenseeByte(sha, d.qa, contentId, k);
    DescribedFirst(Seal(sha, contentId), files, plain);
    DigestIs(sha, files, |plain|, data[..0x30], plain[..ContentStart(files)],
             Concat(Raw(files)) + (data[..0x30] + Zeros(0x50)) + plain[..ContentStart(files)]);
  }

  lemma DescribedFirst(seal: Sealing, files: seq<File>, plain: Buffer)
    requires plain == Plain(seal, files)
    ensures ContentStart(files) <= |plain|
    ensures plain[..ContentStart(files)] == Concat(Descriptors(files)) + Concat(Names(files))
  {
    DescriptorPositions(files, 0);
    TwoParts(Concat(Descriptors(files)) + Concat(Names(files)), Concat(Contents(seal, files)), plain);
  }

  lemma DigestIs(sha: Sha, files: seq<File>, size: nat, numbers: Buffer, described: Buffer, input: Buffer)
    requires numbers == Pack(BE, HEADER, HeaderValues(|files|, size))
    requires described == Concat(Descriptors(files)) + Concat(Names(files))
    requires input == Concat(Raw(files)) + (numbers + Zeros(0x50)) + described
    ensures QaDigest(sha, files, size) == sha(input)[..0x10]
  {
    EmptyHead(numbers, Zeros(0x30), Zeros(0x10));
  }

  lemma TwoParts(front: Buffer, rest: Buffer, all: Buffer)
    requires all == front + rest
    ensures all[..|front|] == front
  {
  }

  lemma EmptyHead(numbers: Buffer, id: Buffer, digest: Buffer)
    requires id == Zeros(0x30) && digest == Zeros(0x10)
    ensures numbers + id + digest + digest == numbers + Zeros(0x50)
  {
  }

  /** Decrypted, it holds a descriptor for every file. */
  lemma PackageDescribes(sha: Sha, files: seq<File>, contentId: Buffer, data: Buffer, size: nat, dec: Buffer, i: nat)
    requires Packed(sha, files, contentId).Package? && data == Packed(sha, files, contentId).bytes && i < |files|
    requires size + 0x1A0 == |data| && dec == Encrypted(sha, data[0x60..0x70], data[0x140..0x140 + size])
    ensures 0x20 * i + 0x20 <= |dec|
    ensures Describes(Seal(sha, contentId), dec, 0x20 * i, files[i], PatchesInside(files[..i]))
  {
    var plain := Plain(Seal(sha, contentId), files);
    var d := DigestsOf(sha, files, |plain|, contentId);
    PackageParts(sha, files, contentId, d, plain, data);
    FrontFields(|files|, |plain|, contentId, d, data);
    CryptTwice(C, sha, ContextOf(d.qa), plain);
    DescriptorBytesAre(Seal(sha, contentId), files, i, plain, 0x20 * i);
  }

  /** And the block behind the header says this about it. */
  lemma PackageInfo(sha: Sha, files: seq<File>, contentId: Buffer, data: Buffer, i: nat)
    requires Packed(sha, files, contentId).Package? && data == Packed(sha, files, contentId).bytes && i < 11
    ensures |data| >= 0x1A0 && Field(data, 0xC0 + 4 * i, 4) == [1, 4, 3, 2, 4, 5, 3, 4, 0xE, 4, 8][i]
    ensures Field(data, 0xEC, 2) == 0 && Field(data, 0xEE, 2) == 0 && Field(data, 0xF0, 4) == |data| - 0x1A0
    ensures Field(data, 0xF4, 4) == 5 && Field(data, 0xF8, 4) == 4
    ensures Field(data, 0xFC, 2) == 0x1061 && Field(data, 0xFE, 2) == 0
  {
    var plain := Plain(Seal(sha, contentId), files);
    var d := DigestsOf(sha, files, |plain|, contentId);
    PackageParts(sha, files, contentId, d, plain, data);
    FrontFields(|files|, |plain|, contentId, d, data);
    var head := Head(|files|, |plain|, PaddedId(contentId), d.qa, d.licensee);
    InfoMeta(sha, head, |plain|, data);
    MetaBytesAre(|plain|, data, 0xC0, i);
  }

  lemma InfoMeta(sha: Sha, head: Buffer, size: nat, data: Buffer)
    requires |data| >= 0x140 && data[0x80..0x140] == Info(sha, head, size)
    ensures data[0xC0..0x100] == MetaBytes(size)
  {
    var h, m := Middle(sha, head), Middle(sha, MetaBytes(size));
    var pad := Encrypted(sha, m, Zeros(0x30));
    ThirdPart(h, Encrypted(sha, h, pad), MetaBytes(size), Info(sha, head, size));
    Inside(data, Info(sha, head, size), 0x80, 0x40, 0x40);
  }

  lemma ThirdPart(a: Buffer, b: Buffer, c: Buffer, all: Buffer)
    requires |a| == 0x10 && |b| == 0x30 && |c| == 0x40 && |all| >= 0x80 && all[..0x80] == a + b + c
    ensures all[0x40..0x80] == c
  {
    assert all[0x40..0x80] == all[..0x80][0x40..];
  }

  // ----- any file that is read

  /** The numbers that the reader uses. */
  lemma HeaderRead(data: Buffer)
    requires |data| >= 0x80
    ensures var h := PackageReader.HeaderFields(data);
      && h[1] == Field(data, 4, 4) && h[5] == Field(data, 0x14, 4)
      && h[7] == Field(data, 0x20, 8) && h[8] == Field(data, 0x28, 8)
  {
    var head := data[..0x30];
    HeaderSize();
    assert Slice(data, 0, 0 + Size(HEADER)) == head;
    HeaderStart(1);
    HeaderStart(5);
    FieldPlaces();
    FieldOf(HEADER, data, 0, head, 1, 4, 4);
    FieldOf(HEADER, data, 0, head, 5, 0x14, 4);
    FieldOf(HEADER, data, 0, head, 7, 0x20, 8);
    FieldOf(HEADER, data, 0, head, 8, 0x28, 8);
  }

  /** A file is refused if and only if it has no whole header, is of another type, or has items but less data than the
    header says, 2 GB of it, or less than their descriptors take. Without items there is nothing to read. */
  lemma RefusedWhen(sha: Sha, data: Buffer)
    ensures Unpacked(sha, data).Refused? <==>
      || |data| < 0x80
      || Field(data, 4, 4) != 1
      || (Field(data, 0x14, 4) > 0
          && (|| Field(data, 0x28, 8) >= 0x8000_0000
              || Lacks(data, Field(data, 0x20, 8), Field(data, 0x28, 8), Field(data, 0x14, 4))))
    ensures Unpacked(sha, data).Empty? <==> |data| >= 0x80 && Field(data, 4, 4) == 1 && Field(data, 0x14, 4) == 0
  {
    if |data| >= 0x80 {
      HeaderRead(data);
    }
  }

  /** The data that the file holds from `from` on, at most `size` bytes, is not all of it or too short. */
  predicate Lacks(data: Buffer, from: nat, size: nat, count: nat) {
    var there := if from >= |data| then 0 else if from + size <= |data| then size else |data| - from;
    there < size || there < 0x20 * count
  }

  /** An item is a name up to the first NUL, a type, and unless that is a directory's the bytes that the descriptor
    names. */
  lemma ItemIsRead(dec: Buffer, i: nat, at: nat)
    requires at == 0x20 * i && at + 0x20 <= |dec|
    ensures var name, contents, flags := Field(dec, at, 4), Field(dec, at + 8, 8), Field(dec, at + 0x18, 4);
      ItemAt(dec, i) == Item(NullTerm(Slice(dec, name, name + Field(dec, at + 4, 4))), flags,
                             if flags % 0x100 == 4 then []
                             else Slice(dec, contents, contents + Field(dec, at + 0x10, 8)))
  {
    var h := DescriptorRead(dec, at, dec[at..at + 0x20]);
    ItemFrom(dec, i, at, h);
  }

  lemma ItemFrom(dec: Buffer, i: nat, at: nat, h: seq<nat>)
    requires at == 0x20 * i && at + 0x20 <= |dec| && |dec[at..at + 0x20]| == Size(FILE_HEADER)
    requires h == Unpack(BE, FILE_HEADER, dec[at..at + 0x20])
    ensures ItemAt(dec, i) == ItemOf(dec, h[0], h[1], h[2], h[3], h[4])
  {
  }

  lemma DescriptorRead(dec: Buffer, at: nat, bytes: Buffer) returns (h: seq<nat>)
    requires at + 0x20 <= |dec| && bytes == dec[at..at + 0x20]
    ensures |bytes| == Size(FILE_HEADER) && h == Unpack(BE, FILE_HEADER, bytes) && |h| == 6
    ensures h[0] == Field(dec, at, 4) && h[1] == Field(dec, at + 4, 4) && h[2] == Field(dec, at + 8, 8)
    ensures h[3] == Field(dec, at + 0x10, 8) && h[4] == Field(dec, at + 0x18, 4)
  {
    FileHeaderSize();
    SliceWithin(dec, at, 0x20);
    h := Unpack(BE, FILE_HEADER, bytes);
    DescriptorPlaces(FILE_HEADER);
    FieldOf(FILE_HEADER, dec, at, bytes, 0, 0, 4);
    FieldOf(FILE_HEADER, dec, at, bytes, 1, 4, 4);
    FieldOf(FILE_HEADER, dec, at, bytes, 2, 8, 8);
    FieldOf(FILE_HEADER, dec, at, bytes, 3, 0x10, 8);
    FieldOf(FILE_HEADER, dec, at, bytes, 4, 0x18, 4);
  }

  lemma DescriptorPlaces(widths: Layout)
    requires widths == [4, 4, 8, 8, 4, 4]
    ensures Size(widths[..0]) == 0 && Size(widths[..1]) == 4 && Size(widths[..2]) == 8 && Size(widths[..3]) == 0x10
    ensures Size(widths[..4]) == 0x18
  {
    SizeNext(widths, 0);
    SizeNext(widths, 1);
    SizeNext(widths, 2);
    SizeNext(widths, 3);
  }
}
