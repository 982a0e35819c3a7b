/** Writing a package file. */
module PackageFile {
  import opened Bytes
  import opened StructFormat
  import opened Keystream
  import opened Npdrm
  import opened Package
  import opened PackageDigests
  import opened Words

  const TAIL := 0x60

  // ----- the file as a whole

  /** The first 0x140 bytes. */
  function Front(count: nat, size: nat, contentId: Buffer, d: Digests): (r: Buffer)
    requires ValidDigests(d)
    ensures |r| == DATA_OFFSET
  {
    Head(count, size, PaddedId(contentId), d.qa, d.licensee) + d.info
  }

  function PackageOf(sha: Sha, seal: Sealing, files: seq<File>, contentId: Buffer, d: Digests): Buffer
    requires ValidDigests(d)
  {
    Front(|files|, |Plain(seal, files)|, contentId, d) + Encrypted(sha, d.qa, Plain(seal, files)) + Zeros(TAIL)
  }

  /** The package with the digests that `pack` computes. */
  function Finished(sha: Sha, files: seq<File>, contentId: Buffer): Buffer {
    var seal := Seal(sha, contentId);
    PackageOf(sha, seal, files, contentId, DigestsOf(sha, files, |Plain(seal, files)|, contentId))
  }

  /** What looking for the block to be replaced comes to. */
  datatype Outcome = Fine | Raises | Hangs

  function OutcomeOf(f: File): Outcome {
    if f.directory then Fine
    else
      match PatchOf(f.content)
      case Broken => Raises
      case Endless => Hangs
      case _ => Fine
  }

  /** The first file that is not fine decides. */
  function Outcomes(files: seq<File>): Outcome {
    if files == [] then Fine
    else
      var before := Outcomes(files[..|files| - 1]);
      if before.Fine? then OutcomeOf(files[|files| - 1]) else before
  }

  predicate DescriptorFits(files: seq<File>, i: nat) { i < |files| ==> HeaderEncodes(HeaderOf(files, i)) }

  predicate DescriptorsFit(files: seq<File>) { forall i | 0 <= i < |files| :: DescriptorFits(files, i) }

  /** What `pack` makes of its files: the data has to be short enough for the C code's signed length. */
  function Packed(sha: Sha, files: seq<File>, contentId: Buffer): Written {
    if !DescriptorsFit(files) then Failed
    else
      match Outcomes(files)
      case Raises => Failed
      case Hangs => Hanging
      case Fine =>
        if |Plain(Seal(sha, contentId), files)| >= TWO_31 then Failed
        else Written.Package(Finished(sha, files, contentId))
  }

  /** A package is written if and only if the data is short enough and every file is fine. */
  lemma WrittenWhen(sha: Sha, files: seq<File>, contentId: Buffer)
    ensures Packed(sha, files, contentId).Package?
      <==> |Plain(Seal(sha, contentId), files)| < TWO_31 && forall f | f in files :: OutcomeOf(f).Fine?
  {
    var seal := Seal(sha, contentId);
    AllFine(files);
    if |Plain(seal, files)| < TWO_31 {
      SmallDescriptorsFit(seal, files);
    }
  }

  lemma {:induction false} AllFine(files: seq<File>)
    ensures Outcomes(files).Fine? <==> forall f | f in files :: OutcomeOf(f).Fine?
  {
    if files != [] {
      var front, last := files[..|files| - 1], files[|files| - 1];
      AllFine(front);
      assert files == front + [last];
    }
  }

  lemma SmallDescriptorsFit(seal: Sealing, files: seq<File>)
    requires |Plain(seal, files)| < TWO_31
    ensures DescriptorsFit(files)
  {
    forall i | 0 <= i < |files| ensures DescriptorFits(files, i) {
      HeaderFits(seal, files, i);
    }
  }

  /** Every package that is written can be checked. */
  lemma PackageChecks(sha: Sha, files: seq<File>, contentId: Buffer)
    requires Packed(sha, files, contentId).Package?
    ensures Checks(sha, Packed(sha, files, contentId).bytes)
  {
    var plain := Plain(Seal(sha, contentId), files);
    var d := DigestsOf(sha, files, |plain|, contentId);
    FrontChecks(sha, |files|, |plain|, contentId, d, Encrypted(sha, d.qa, plain), Zeros(TAIL));
  }

  lemma FrontChecks(sha: Sha, count: nat, size: nat, contentId: Buffer, d: Digests, enc: Buffer, tail: Buffer)
    requires ValidDigests(d)
    requires d.info == Info(sha, Head(count, size, PaddedId(contentId), d.qa, d.licensee), size)
    ensures Checks(sha, Front(count, size, contentId, d) + enc + tail)
  {
    var head := Head(count, size, PaddedId(contentId), d.qa, d.licensee);
    InfoChecks(sha, head, size, enc + tail);
    Associates(head + d.info, enc, tail);
  }

  // ----- `pack`

  /** What `getFiles` puts into a header: no offsets yet. */
  method NewHeader(f: File) returns (h: FileHeader)
    ensures h == FileHeader(0, |f.name|, 0, FileSize(f), Flags(f))
  {
    if f.directory {
      return FileHeader(0, |f.name|, 0, 0, TYPE_DIRECTORY);
    }
    h := FileHeader(0, |f.name|, 0, |f.content|, TYPE_RAW);
    if f.name == EBOOT {
      h := h.(fileSize := (h.fileSize - 0x30 + 63) / 64 * 64 + 0x30, flags := TYPE_NPDRMSELF);
    }
  }

  method CollectHeaders(files: seq<File>) returns (headers: seq<FileHeader>)
    ensures |headers| == |files|
    ensures forall i | 0 <= i < |files| :: headers[i]
                                           == FileHeader(0, |files[i].name|, 0, FileSize(files[i]), Flags(files[i]))
  {
    headers := [];
    for i := 0 to |files|
      invariant |headers| == i
      invariant forall k | 0 <= k < i :: headers[k]
                                         == FileHeader(0, |files[k].name|, 0, FileSize(files[k]), Flags(files[k]))
    {
      var h := NewHeader(files[i]);
      headers := headers + [h];
    }
  }

  /** The first pass: where the names go. */
  method PlaceNames(files: seq<File>, headers: seq<FileHeader>) returns (placed: seq<FileHeader>, fileOff: nat)
    requires |headers| == |files|
    requires forall i | 0 <= i < |files| :: headers[i]
                                            == FileHeader(0, |files[i].name|, 0, FileSize(files[i]), Flags(files[i]))
    ensures |placed| == |files| && fileOff == ContentStart(files)
    ensures forall i | 0 <= i < |files| :: placed[i] == HeaderOf(files, i).(fileOff := 0)
  {
    placed := headers;
    fileOff := 0x20 * |files|;
    for i := 0 to |files|
      invariant |placed| == |files| && fileOff == NameStart(files) + Position(Names(files), i)
      invariant forall k | 0 <= k < i :: placed[k] == HeaderOf(files, k).(fileOff := 0)
      invariant forall k | i <= k < |files| :: placed[k] == headers[k]
    {
      var alignedSize := Align16(placed[i].nameLength);
      placed := placed[i := placed[i].(nameOff := fileOff)];
      NameNext(files, i);
      fileOff := fileOff + alignedSize;
    }
    assert Names(files)[..|files|] == Names(files);
  }

  lemma NameNext(files: seq<File>, i: nat)
    requires i < |files|
    ensures Position(Names(files), i + 1) == Position(Names(files), i) + Align16(|files[i].name|)
  {
    NextPosition(Names(files), i);
    Align16Means(|files[i].name|);
  }

  /** The second pass: where the contents go, and the headers as bytes; a number that does not fit is an error. */
  method PlaceContents(files: seq<File>, headers: seq<FileHeader>, start: nat) returns (ok: bool, data: Buffer)
    requires |headers| == |files| && start == ContentStart(files)
    requires forall i | 0 <= i < |files| :: headers[i] == HeaderOf(files, i).(fileOff := 0)
    ensures ok <==> DescriptorsFit(files)
    ensures ok ==> data == Concat(Descriptors(files))
  {
    data := [];
    var fileOff := start;
    for i := 0 to |files|
      invariant fileOff == ContentStart(files) + Planned(files[..i])
      invariant Described(files, data, i)
    {
      var h := headers[i].(fileOff := fileOff);
      PlannedNext(files, i);
      DescriptorNext(files, data, i, h);
      fileOff := fileOff + Align16(h.fileSize);
      if !HeaderEncodes(h) {
        return false, [];
      }
      data := data + HeaderBytes(h);
    }
    AllDescribed(files, data);
    ok := true;
  }

  predicate HeaderEncodes(h: FileHeader) { Fits(FILE_HEADER, Values(h)) }

  function HeaderBytes(h: FileHeader): Buffer { Pack(BE, FILE_HEADER, Values(h)) }

  /** The first `n` descriptors have been written. */
  ghost predicate Described(files: seq<File>, data: Buffer, n: nat) {
    n <= |files| && data == Concat(Descriptors(files)[..n]) && forall k | 0 <= k < n :: DescriptorFits(files, k)
  }

  lemma DescriptorNext(files: seq<File>, data: Buffer, i: nat, h: FileHeader)
    requires Described(files, data, i) && i < |files| && h == HeaderOf(files, i)
    ensures !HeaderEncodes(h) ==> !DescriptorsFit(files)
    ensures HeaderEncodes(h) ==> Described(files, data + HeaderBytes(h), i + 1)
  {
    NextPosition(Descriptors(files), i);
    if !HeaderEncodes(h) {
      assert !DescriptorFits(files, i);
    }
  }

  lemma AllDescribed(files: seq<File>, data: Buffer)
    requires Described(files, data, |files|)
    ensures data == Concat(Descriptors(files)) && DescriptorsFit(files)
  {
    assert Descriptors(files)[..|files|] == Descriptors(files);
  }

  method AppendNames(files: seq<File>, start: Buffer) returns (data: Buffer)
    ensures data == start + Concat(Names(files))
  {
    data := start;
    for i := 0 to |files|
      invariant data == start + Concat(Names(files)[..i])
    {
      var alignedSize := Align16(|files[i].name|);
      Align16Means(|files[i].name|);
      NextPosition(Names(files), i);
      data := data + files[i].name;
      data := data + Zeros(alignedSize - |files[i].name|);
      assert data == start + (Concat(Names(files)[..i]) + PaddedName(files[i]));
    }
    assert Names(files)[..|files|] == Names(files);
  }

  /** What is appended for the files, and what goes into the digest. */
  method AppendContents(sha: Sha, contentId: Buffer, files: seq<File>, start: Buffer)
    returns (outcome: Outcome, data: Buffer, hashed: Buffer)
    ensures outcome == Outcomes(files)
    ensures outcome.Fine? ==> data == start + Concat(Contents(Seal(sha, contentId), files))
    ensures outcome.Fine? ==> hashed == Concat(Raw(files))
  {
    ghost var seal := Seal(sha, contentId);
    data, hashed, outcome := start, [], Fine;
    for i := 0 to |files|
      invariant outcome.Fine? && Outcomes(files[..i]).Fine?
      invariant data == start + Concat(Contents(seal, files)[..i]) && hashed == Concat(Raw(files)[..i])
    {
      OutcomesNext(files, i);
      NextPosition(Raw(files), i);
      NextPosition(Contents(seal, files), i);
      Associates(start, Concat(Contents(seal, files)[..i]), PaddedContent(seal, files[i]));
      if !files[i].directory {
        hashed := hashed + files[i].content;
        outcome, data := AppendContent(sha, contentId, files[i], data);
        if !outcome.Fine? {
          OutcomesDecided(files, i + 1);
          return;
        }
      }
    }
    assert files[..|files|] == files;
    assert Contents(seal, files)[..|files|] == Contents(seal, files) && Raw(files)[..|files|] == Raw(files);
  }

  lemma OutcomesNext(files: seq<File>, i: nat)
    requires i < |files|
    ensures Outcomes(files[..i + 1]) == if Outcomes(files[..i]).Fine? then OutcomeOf(files[i]) else Outcomes(files[..i])
  {
    assert files[..i + 1][..i] == files[..i];
  }

  lemma {:induction false} OutcomesDecided(files: seq<File>, i: nat)
    requires i <= |files| && !Outcomes(files[..i]).Fine?
    ensures Outcomes(files) == Outcomes(files[..i])
    decreases |files| - i
  {
    if i < |files| {
      OutcomesNext(files, i);
      OutcomesDecided(files, i + 1);
    } else {
      assert files[..i] == files;
    }
  }

  method AppendContent(sha: Sha, contentId: Buffer, f: File, start: Buffer) returns (outcome: Outcome, data: Buffer)
    requires !f.directory
    ensures outcome == OutcomeOf(f)
    ensures outcome.Fine? ==> data == start + PaddedContent(Seal(sha, contentId), f)
  {
    ghost var seal := Seal(sha, contentId);
    data, outcome := start, Fine;
    var patch := FindPatch(f.content);
    match patch {
      case Broken => return Raises, data;
      case Endless => return Hangs, data;
      case Nothing => data := data + f.content;
      case Replaced(at) => data := AppendPatched(sha, contentId, f.content, at, data);
    }
    assert data == start + Stored(seal, f);
    EbootSizeMeans(|f.content|);
    Align16Means(FileSize(f));
    Associates(start, Stored(seal, f), Zeros(Align16(FileSize(f)) - |f.content|));
    data := data + Zeros(Align16(FileSize(f)) - |f.content|);
  }

  method AppendPatched(sha: Sha, contentId: Buffer, fileData: Buffer, digestOff: nat, start: Buffer)
    returns (data: Buffer)
    ensures data == start + WithBlock(fileData, digestOff, Seal(sha, contentId)(fileData))
  {
    data := start + Slice(fileData, 0, digestOff);
    var meta := BuildMeta(sha, contentId, fileData);
    data := data + meta;
    data := data + Slice(fileData, digestOff + 0x80, |fileData|);
  }

  method WritePackage(sha: Sha, files: seq<File>, contentId: Buffer) returns (r: Written)
    ensures r == Packed(sha, files, contentId)
  {
    var headers := CollectHeaders(files);
    var placed, fileOff := PlaceNames(files, headers);
    var ok, descriptors := PlaceContents(files, placed, fileOff);
    if !ok {
      return Failed;
    }
    var described := AppendNames(files, descriptors);
    var outcome, data, hashed := AppendContents(sha, contentId, files, described);
    match outcome {
      case Raises => return Failed;
      case Hangs => return Hanging;
      case Fine =>
    }
    if |data| >= TWO_31 {
      return Failed;
    }
    var bytes := Finish(sha, files, contentId, described, data, hashed);
    r := Written.Package(bytes);
  }

  /** The digests, the encryption and the file. */
  method Finish(sha: Sha, files: seq<File>, contentId: Buffer, described: Buffer, data: Buffer, hashed: Buffer)
    returns (bytes: Buffer)
    requires described == Concat(Descriptors(files)) + Concat(Names(files)) && hashed == Concat(Raw(files))
    requires data == Plain(Seal(sha, contentId), files)
    ensures bytes == Finished(sha, files, contentId)
  {
    var size := |data|;
    var d := MakeDigests(sha, files, size, contentId, described, hashed);
    var front := Front(|files|, size, contentId, d);
    var encData := Encrypt(sha, d.qa, data);
    bytes := front + encData + Zeros(TAIL);
  }
}
