/** Debug packages: two layout passes, the data they describe, and the reader that takes them apart. */
module Package {
  import opened Arith
  import opened Bytes
  import opened StructFormat
  import opened Npdrm
  import opened Words

  const TYPE_NPDRMSELF := 0x8000_0001
  const TYPE_RAW := 0x8000_0003
  const TYPE_DIRECTORY := 0x8000_0004
  const DATA_OFFSET := 0x140

  /** `USRDIR/EBOOT.BIN` */
  const EBOOT: Buffer := [0x55, 0x53, 0x52, 0x44, 0x49, 0x52, 0x2F, 0x45, 0x42, 0x4F, 0x4F, 0x54, 0x2E, 0x42, 0x49,
                          0x4E]

  datatype File = File(name: Buffer, directory: bool, content: Buffer)

  datatype FileHeader = FileHeader(nameOff: nat, nameLength: nat, fileOff: nat, fileSize: nat, flags: nat)

  datatype Written = Package(bytes: Buffer) | Failed | Hanging

  datatype Item = Item(name: Buffer, flags: nat, contents: Buffer)

  datatype Extraction = Extracted(directory: Buffer, items: seq<Item>) | Empty | Refused

  const FILE_HEADER: Layout := [4, 4, 8, 8, 4, 4]
  const HEADER: Layout := [4, 4, 4, 4, 4, 4, 8, 8, 8]

  // ----- sizes

  function Align16(n: nat): nat { (n + 0xF) / 0x10 * 0x10 }

  lemma Align16Means(n: nat)
    ensures n <= Align16(n) < n + 0x10 && Align16(n) % 0x10 == 0
  {
  }

  /** The size of the program is rounded up to 0x30 more than a multiple of 64. */
  function EbootSize(n: nat): nat { (n - 0x30 + 63) / 64 * 64 + 0x30 }

  /** The least such number that is large enough. */
  lemma EbootSizeMeans(n: nat)
    ensures n <= EbootSize(n) < n + 0x40 && EbootSize(n) % 0x40 == 0x30
  {
  }

  function FileSize(f: File): nat {
    if f.directory then 0 else if f.name == EBOOT then EbootSize(|f.content|) else |f.content|
  }

  function Flags(f: File): nat {
    if f.directory then TYPE_DIRECTORY else if f.name == EBOOT then TYPE_NPDRMSELF else TYPE_RAW
  }

  function WithBlock(content: Buffer, at: nat, meta: Buffer): Buffer {
    Slice(content, 0, at) + meta + Slice(content, at + 0x80, |content|)
  }

  /** The bytes that are stored for a file. */
  function Stored(seal: Sealing, f: File): Buffer {
    match PatchOf(f.content)
    case Replaced(at) => WithBlock(f.content, at, seal(f.content))
    case _ => f.content
  }

  /** The block to be replaced lies inside the file. */
  predicate PatchInside(f: File) {
    PatchOf(f.content).Replaced? ==> PatchOf(f.content).at + 0x80 <= |f.content|
  }

  /** How far it reaches out of the file. */
  function Overhang(f: File): nat {
    if PatchInside(f) then 0 else PatchOf(f.content).at + 0x80 - |f.content|
  }

  lemma StoredLength(seal: Sealing, f: File)
    ensures |Stored(seal, f)| == |f.content| + Overhang(f)
  {
    PatchInFile(f.content);
  }

  /** A program that comes out of a package is handled as before when it is packed again: the same block is replaced,
    and nothing else changes. */
  lemma PackingAgain(seal: Sealing, again: Sealing, f: File, at: nat, g: File)
    requires PatchOf(f.content) == Replaced(at) && at >= 0x68 && Field(f.content, 0x28, 8) + 0x18 <= at
    requires g == f.(content := Stored(seal, f))
    ensures PatchOf(g.content) == Replaced(at) && PatchInside(g)
    ensures Stored(again, g) == WithBlock(f.content, at, again(g.content))
  {
    PatchInFile(f.content);
    BlockPut(f.content, at, seal(f.content), again(g.content));
    PrefixDecides(f.content, g.content, at);
  }

  lemma BlockPut(content: Buffer, at: nat, meta: Meta, other: Meta)
    requires at <= |content|
    ensures var put := WithBlock(content, at, meta);
      && SameFront(content, put, at) && at + 0x80 <= |put| && WithBlock(put, at, other) == WithBlock(content, at, other)
  {
    var front, rest := content[..at], Slice(content, at + 0x80, |content|);
    var put := WithBlock(content, at, meta);
    assert put == front + (meta + rest) && put[..at] == front;
    Behind(front, meta + rest, 0x80, |meta + rest|);
    assert put[at + 0x80..] == rest;
  }

  // ----- the layout

  function PaddedName(f: File): Buffer { f.name + Zeros(Align16(|f.name|) - |f.name|) }

  function PaddedContent(seal: Sealing, f: File): Buffer {
    if f.directory then []
    else
      EbootSizeMeans(|f.content|);
      Align16Means(FileSize(f));
      Stored(seal, f) + Zeros(Align16(FileSize(f)) - |f.content|)
  }

  function Names(files: seq<File>): seq<Buffer> { seq(|files|, i requires 0 <= i < |files| => PaddedName(files[i])) }

  function Contents(seal: Sealing, files: seq<File>): seq<Buffer> {
    seq(|files|, i requires 0 <= i < |files| => PaddedContent(seal, files[i]))
  }

  /** What the second pass adds up. */
  function Planned(files: seq<File>): nat {
    if files == [] then 0 else Planned(files[..|files| - 1]) + Align16(FileSize(files[|files| - 1]))
  }

  function NameStart(files: seq<File>): nat { 0x20 * |files| }

  function ContentStart(files: seq<File>): nat { NameStart(files) + |Concat(Names(files))| }

  function HeaderOf(files: seq<File>, i: nat): FileHeader
    requires i < |files|
  {
    FileHeader(NameStart(files) + Position(Names(files), i), |files[i].name|,
               ContentStart(files) + Planned(files[..i]), FileSize(files[i]), Flags(files[i]))
  }

  function Values(h: FileHeader): seq<nat> { [h.nameOff, h.nameLength, h.fileOff, h.fileSize, h.flags, 0] }

  lemma FileHeaderSize()
    ensures Size(FILE_HEADER) == 0x20
  {
    var four, eight := [4, 4], [8, 8];
    SizeUniform(four, 4);
    SizeUniform(eight, 8);
    SizeAdds(four, eight);
    SizeAdds(four + eight, four);
    assert FILE_HEADER == four + eight + four;
  }

  lemma HeaderSize()
    ensures Size(HEADER) == 0x30
  {
    var fours, eights := [4, 4, 4, 4, 4, 4], [8, 8, 8];
    SizeUniform(fours, 4);
    SizeUniform(eights, 8);
    SizeAdds(fours, eights);
    assert HEADER == fours + eights;
  }

  function Descriptors(files: seq<File>): seq<Buffer> {
    seq(|files|, i requires 0 <= i < |files| => Pack(BE, FILE_HEADER, Values(HeaderOf(files, i))))
  }

  /** Everything that is encrypted: the descriptors, the names, the contents. */
  function Plain(seal: Sealing, files: seq<File>): Buffer {
    Concat(Descriptors(files)) + Concat(Names(files)) + Concat(Contents(seal, files))
  }

  // ----- what the layout keeps

  /** No patch reaches out of its file; those of directories are not looked at. */
  predicate PatchesInside(files: seq<File>) {
    forall i | 0 <= i < |files| :: files[i].directory || PatchInside(files[i])
  }

  /** What is appended beyond the plan. */
  function Displaced(files: seq<File>): nat {
    if files == [] then 0
    else
      var f := files[|files| - 1];
      Displaced(files[..|files| - 1]) + if f.directory then 0 else Overhang(f)
  }

  lemma DescriptorPositions(files: seq<File>, i: nat)
    requires i <= |files|
    ensures Position(Descriptors(files), i) == 0x20 * i && |Concat(Descriptors(files))| == NameStart(files)
  {
    var parts := Descriptors(files);
    FileHeaderSize();
    UniformPositions(parts, 0x20, i);
    UniformPositions(parts, 0x20, |parts|);
    assert parts[..|parts|] == parts;
  }

  lemma NameLengths(files: seq<File>, i: nat)
    requires i < |files|
    ensures |files[i].name| <= |Names(files)[i]| && |Names(files)[i]| % 0x10 == 0
    ensures Names(files)[i][..|files[i].name|] == files[i].name
  {
    Align16Means(|files[i].name|);
  }

  lemma ContentLength(seal: Sealing, f: File)
    ensures FileSize(f) <= Align16(FileSize(f))
    ensures |PaddedContent(seal, f)| == Align16(FileSize(f)) + if f.directory then 0 else Overhang(f)
  {
    StoredLength(seal, f);
    EbootSizeMeans(|f.content|);
    Align16Means(FileSize(f));
  }

  /** A file is appended as far behind its planned place as the patches before it reach out of their files; so it is
    at that place if and only if none of them does. */
  lemma {:induction false} PlannedPositions(seal: Sealing, files: seq<File>, i: nat)
    requires i <= |files|
    ensures Position(Contents(seal, files), i) == Planned(files[..i]) + Displaced(files[..i])
    ensures Displaced(files[..i]) == 0 <==> PatchesInside(files[..i])
  {
    if i > 0 {
      PlannedPositions(seal, files, i - 1);
      PositionNext(seal, files, i - 1);
      InsideNext(files, i - 1);
    }
  }

  lemma PositionNext(seal: Sealing, files: seq<File>, i: nat)
    requires i < |files| && Position(Contents(seal, files), i) == Planned(files[..i]) + Displaced(files[..i])
    ensures Position(Contents(seal, files), i + 1) == Planned(files[..i + 1]) + Displaced(files[..i + 1])
  {
    PlannedNext(files, i);
    ContentNext(seal, files, i);
    ContentLength(seal, files[i]);
    DisplacedNext(files, i);
  }

  lemma InsideNext(files: seq<File>, i: nat)
    requires i < |files| && (Displaced(files[..i]) == 0 <==> PatchesInside(files[..i]))
    ensures Displaced(files[..i + 1]) == 0 <==> PatchesInside(files[..i + 1])
  {
    PatchesNext(files, i);
    DisplacedNext(files, i);
  }

  lemma PatchesNext(files: seq<File>, i: nat)
    requires i < |files|
    ensures PatchesInside(files[..i + 1])
      <==> PatchesInside(files[..i]) && (files[i].directory || PatchInside(files[i]))
  {
    assert files[..i + 1] == files[..i] + [files[i]];
  }

  lemma DisplacedNext(files: seq<File>, i: nat)
    requires i < |files|
    ensures Displaced(files[..i + 1]) == Displaced(files[..i]) + if files[i].directory then 0 else Overhang(files[i])
  {
    assert files[..i + 1][..i] == files[..i];
  }

  /** A program of 0x90 bytes: the header says that the application's description is at 0x68 and the first digest block
    at 0x80, the former says that this is an NPDRM program, and the latter is of the kind looked for and the end of the
    file. */
  function CutOff(): Buffer {
    MAGIC + Zeros(0x26) + [0x68] + Zeros(0x2F) + [0x80] + Zeros(0x17) + [8] + Zeros(11) + [3] + Zeros(12)
  }

  /** So its block is put behind it, and the next file begins 0x80 bytes behind the place planned for it. */
  lemma CutOffProgram(seal: Sealing, f: File, g: File)
    requires f == File(EBOOT, false, CutOff())
    ensures PatchOf(f.content) == Replaced(0x90)
    ensures ContentStart([f, g]) + Position(Contents(seal, [f, g]), 1) == HeaderOf([f, g], 1).fileOff + 0x80
  {
    CutOffFields(f.content);
    SecondPlace(seal, f, g);
  }

  lemma SecondPlace(seal: Sealing, f: File, g: File)
    requires !f.directory
    ensures ContentStart([f, g]) + Position(Contents(seal, [f, g]), 1) == HeaderOf([f, g], 1).fileOff + Overhang(f)
  {
    var files := [f, g];
    PlannedPositions(seal, files, 1);
    DisplacedNext(files, 0);
    assert files[..0] == [];
  }

  lemma CutOffFields(content: Buffer)
    requires content == CutOff()
    ensures PatchOf(content) == Replaced(0x90) && |content| == 0x90
  {
    SmallNumber(content, 0x28, 8);
    SmallNumber(content, 0x58, 8);
    SmallNumber(content, 0x74, 4);
    SmallNumber(content, 0x80, 4);
    PathSearched(content, [0x80]);
  }

  lemma ContentNext(seal: Sealing, files: seq<File>, i: nat)
    requires i < |files|
    ensures var parts := Contents(seal, files);
      Position(parts, i + 1) == Position(parts, i) + |PaddedContent(seal, files[i])|
  {
    NextPosition(Contents(seal, files), i);
  }

  lemma PlannedNext(files: seq<File>, i: nat)
    requires i < |files|
    ensures Planned(files[..i + 1]) == Planned(files[..i]) + Align16(FileSize(files[i]))
  {
    assert files[..i + 1][..i] == files[..i];
  }

  /** Every number of a file header is at most the size of the data. */
  lemma HeaderBounds(seal: Sealing, files: seq<File>, i: nat)
    requires i < |files|
    ensures var h := HeaderOf(files, i);
      && h.nameOff + h.nameLength <= ContentStart(files) <= |Plain(seal, files)|
      && h.fileOff + h.fileSize <= |Plain(seal, files)|
  {
    DescriptorPositions(files, i);
    NameLengths(files, i);
    PartAt(Names(files), i);
    PartAt(Contents(seal, files), i);
    PlannedNext(files, i);
    PlannedPositions(seal, files, i + 1);
    ContentLength(seal, files[i]);
  }

  lemma HeaderFits(seal: Sealing, files: seq<File>, i: nat)
    requires i < |files| && |Plain(seal, files)| < TWO_31
    ensures Fits(FILE_HEADER, Values(HeaderOf(files, i)))
  {
    HeaderBounds(seal, files, i);
    Powers();
  }

  /** Names and contents begin at multiples of 16. */
  lemma OffsetsAligned(files: seq<File>, i: nat)
    requires i < |files|
    ensures HeaderOf(files, i).nameOff % 0x10 == 0 && HeaderOf(files, i).fileOff % 0x10 == 0
  {
    var names := Names(files);
    NamesMultiple(names[..i], files);
    NamesMultiple(names, files);
    PlannedMultiple(files[..i]);
    SumsOfMultiples(|files|, Position(names, i), |Concat(names)|, Planned(files[..i]));
  }

  lemma SumsOfMultiples(count: nat, name: nat, names: nat, planned: nat)
    requires name % 0x10 == 0 && names % 0x10 == 0 && planned % 0x10 == 0
    ensures (0x20 * count + name) % 0x10 == 0 && (0x20 * count + names + planned) % 0x10 == 0
  {
    DivModUnique(0x20 * count + name, 0x10, 2 * count + name / 0x10, 0);
    DivModUnique(0x20 * count + names + planned, 0x10, 2 * count + names / 0x10 + planned / 0x10, 0);
  }

  lemma NamesMultiple(parts: seq<Buffer>, files: seq<File>)
    requires parts <= Names(files)
    ensures |Concat(parts)| % 0x10 == 0
  {
    forall p | p in parts ensures |p| % 0x10 == 0 {
      var k :| 0 <= k < |parts| && parts[k] == p;
      NameLengths(files, k);
    }
    MultiplePositions(parts, 0x10);
  }

  lemma {:induction false} PlannedMultiple(files: seq<File>)
    ensures Planned(files) % 0x10 == 0
  {
    if files != [] {
      PlannedMultiple(files[..|files| - 1]);
      Align16Means(FileSize(files[|files| - 1]));
    }
  }

  /** What the headers point to does not overlap: descriptors, then names, then contents, each in order. */
  lemma AreasApart(files: seq<File>, i: nat, j: nat)
    requires i < j < |files|
    ensures var a, b := HeaderOf(files, i), HeaderOf(files, j);
      && 0x20 * |files| <= a.nameOff && a.nameOff + a.nameLength <= b.nameOff && b.nameOff + b.nameLength <= a.fileOff
      && a.fileOff + a.fileSize <= b.fileOff
  {
    NameLengths(files, i);
    NameLengths(files, j);
    PartAt(Names(files), i);
    PartAt(Names(files), j);
    PositionsGrow(Names(files), i + 1, j);
    PlannedNext(files, i);
    PlannedGrows(files, i + 1, j);
    Align16Means(FileSize(files[i]));
  }

  lemma {:induction false} PlannedGrows(files: seq<File>, i: nat, j: nat)
    requires i <= j <= |files|
    ensures Planned(files[..i]) <= Planned(files[..j])
    decreases j
  {
    if i < j {
      PlannedGrows(files, i, j - 1);
      PlannedNext(files, j - 1);
    }
  }
}
