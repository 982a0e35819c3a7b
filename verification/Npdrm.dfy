/** NPDRM programs: the search for the block that a package replaces, and what is put in its place. */
module Npdrm {
  import opened Bytes
  import opened StructFormat
  import opened Keystream

  /** The beginning of a signed program. */
  const MAGIC: Buffer := [0x53, 0x43, 0x45, 0, 0, 0, 0, 2, 0x80]

  /** Five small numbers, and eleven of eight bytes each. */
  const SELF_HEADER: Layout := [4, 4, 2, 2, 4] + Eights(11)
  const APP_INFO: Layout := [8, 4, 4, 8]
  const DIGEST_BLOCK: Layout := [4, 4, 8]

  const NPDRM_APP := 8
  const NPDRM_DIGEST := 3

  function Eights(n: nat): (r: Layout)
    ensures |r| == n
  {
    seq(n, _ => 8)
  }

  lemma EightsSize(n: nat)
    ensures Size(Eights(n)) == 8 * n
  {
    SizeUniform(Eights(n), 8);
  }

  lemma SelfHeaderPlace(n: nat)
    requires n <= 11
    ensures SELF_HEADER[..5 + n] == [4, 4, 2, 2, 4] + Eights(n) && Size(SELF_HEADER[..5 + n]) == 0x10 + 8 * n
  {
    EightsSize(n);
    SizeAdds([4, 4, 2, 2, 4], Eights(n));
    assert SELF_HEADER[..5 + n] == [4, 4, 2, 2, 4] + Eights(n);
  }

  lemma SelfHeaderPlaces()
    ensures Size(SELF_HEADER) == 0x68 && Size(SELF_HEADER[..8]) == 0x28 && Size(SELF_HEADER[..14]) == 0x58
  {
    SelfHeaderPlace(11);
    SelfHeaderPlace(3);
    SelfHeaderPlace(9);
    assert SELF_HEADER[..16] == SELF_HEADER;
  }

  lemma DigestBlockPlaces()
    ensures Size(DIGEST_BLOCK) == 0x10 && Size(DIGEST_BLOCK[..0]) == 0 && Size(DIGEST_BLOCK[..1]) == 4
    ensures Size(DIGEST_BLOCK[..2]) == 8
  {
    assert DIGEST_BLOCK[..0] == [] && DIGEST_BLOCK[..1] == [4] && DIGEST_BLOCK[..2] == [4, 4];
  }

  lemma AppInfoPlaces()
    ensures Size(APP_INFO) == 0x18 && Size(APP_INFO[..2]) == 12
  {
    assert APP_INFO[..2] == [8, 4];
  }

  /** A number in a file. */
  function Field(content: Buffer, at: nat, n: nat): nat
    requires at + n <= |content|
  {
    FromBigEndian(content[at..at + n])
  }

  // ----- the loop that looks for the block

  /** How the loop stands: it is at the digest block at `off`, or it has ended. */
  datatype Search = Running(off: nat) | Found(at: nat) | Missing | Raised

  /** One turn: a block that is cut off is an error, and one that is the last ends the loop. */
  function Turn(content: Buffer, off: nat): Search {
    if off + 0x10 > |content| then Raised
    else if Field(content, off, 4) == NPDRM_DIGEST then Found(off)
    else if Field(content, off + 8, 8) != 1 then Missing
    else Running(off + Field(content, off + 4, 4))
  }

  /** The loop after `n` turns. */
  function Turns(content: Buffer, off: nat, n: nat): Search
    decreases n
  {
    if n == 0 then Running(off)
    else
      match Turn(content, off)
      case Running(next) => Turns(content, next, n - 1)
      case ended => ended
  }

  /** What the loop ends with; it never does when a block that is not the last has no size. */
  function Searched(content: Buffer, off: nat): Search
    decreases if off <= |content| then |content| - off else 0
  {
    match Turn(content, off)
    case Running(next) => if next == off then Running(off) else Searched(content, next)
    case ended => ended
  }

  /** Some number of turns leads there, */
  lemma {:induction false} SearchGetsThere(content: Buffer, off: nat) returns (n: nat)
    ensures n > 0 && Turns(content, off, n) == Searched(content, off)
    decreases if off <= |content| then |content| - off else 0
  {
    var turn := Turn(content, off);
    if turn.Running? && turn.off != off {
      n := SearchGetsThere(content, turn.off);
      n := n + 1;
    } else {
      n := 1;
    }
  }

  /** and when that is no end, there is none. */
  lemma {:induction false} SearchNeverEnds(content: Buffer, off: nat, n: nat)
    requires Searched(content, off).Running?
    ensures Turns(content, off, n).Running?
    decreases n
  {
    if n > 0 {
      SearchNeverEnds(content, Turn(content, off).off, n - 1);
    }
  }

  lemma EndsWhen(content: Buffer, off: nat)
    ensures Searched(content, off).Running? <==> forall n: nat :: Turns(content, off, n).Running?
  {
    var n := SearchGetsThere(content, off);
    if Searched(content, off).Running? {
      forall k: nat ensures Turns(content, off, k).Running? {
        SearchNeverEnds(content, off, k);
      }
    }
  }

  // ----- what the loop finds, in terms of the bytes

  /** The digest block at `at` is of the kind looked for. */
  predicate Holds(content: Buffer, at: nat) { at + 0x10 <= |content| && Field(content, at, 4) == NPDRM_DIGEST }

  /** The digest block at `off` is another one, and says that one follows, at `next`. */
  predicate Leads(content: Buffer, off: nat, next: nat) {
    && off + 0x10 <= |content| && Field(content, off, 4) != NPDRM_DIGEST
    && Field(content, off + 8, 8) == 1 && next == off + Field(content, off + 4, 4)
  }

  predicate Path(content: Buffer, offs: seq<nat>) { forall i | 0 < i < |offs| :: Leads(content, offs[i - 1], offs[i]) }

  /** The blocks lead from `off` to `at`. */
  ghost predicate Reaches(content: Buffer, off: nat, at: nat) {
    exists offs: seq<nat> :: offs != [] && offs[0] == off && offs[|offs| - 1] == at && Path(content, offs)
  }

  lemma {:induction false} SearchedPath(content: Buffer, off: nat) returns (offs: seq<nat>)
    requires Searched(content, off).Found? || Searched(content, off).Running?
    ensures offs != [] && offs[0] == off && Path(content, offs)
    ensures var r := Searched(content, off); var last := offs[|offs| - 1];
      if r.Found? then r.at == last && Holds(content, last) else r.off == last && Leads(content, last, last)
    decreases if off <= |content| then |content| - off else 0
  {
    var turn := Turn(content, off);
    offs := [off];
    if turn.Running? && turn.off != off {
      var more := SearchedPath(content, turn.off);
      PathBefore(content, off, more);
      offs := offs + more;
    }
  }

  lemma PathBefore(content: Buffer, off: nat, more: seq<nat>)
    requires more != [] && Leads(content, off, more[0]) && Path(content, more)
    ensures Path(content, [off] + more) && ([off] + more)[|more|] == more[|more| - 1]
  {
    var offs := [off] + more;
    forall i | 0 < i < |offs| ensures Leads(content, offs[i - 1], offs[i]) {
      assert i > 1 ==> offs[i - 1] == more[i - 2] && offs[i] == more[i - 1];
    }
  }

  lemma {:induction false} PathSearched(content: Buffer, offs: seq<nat>)
    requires offs != [] && Path(content, offs)
    ensures var last := offs[|offs| - 1];
      && (Holds(content, last) ==> Searched(content, offs[0]) == Found(last))
      && (Leads(content, last, last) ==> Searched(content, offs[0]) == Running(last))
  {
    if |offs| > 1 {
      assert Leads(content, offs[0], offs[1]);
      PathSearched(content, offs[1..]);
    }
  }

  /** The loop finds the first block of the kind looked for, */
  lemma FoundWhen(content: Buffer, off: nat, at: nat)
    ensures Searched(content, off) == Found(at) <==> Holds(content, at) && Reaches(content, off, at)
  {
    if Searched(content, off) == Found(at) {
      var offs := SearchedPath(content, off);
    }
    if Holds(content, at) && Reaches(content, off, at) {
      var offs: seq<nat> :|
        offs != [] && offs[0] == off && offs[|offs| - 1] == at && Path(content, offs);
      PathSearched(content, offs);
    }
  }

  /** and never ends if and only if it comes to a block that leads to itself. */
  lemma EndlessWhen(content: Buffer, off: nat)
    ensures (forall n: nat :: Turns(content, off, n).Running?)
      <==> exists at: nat :: Leads(content, at, at) && Reaches(content, off, at)
  {
    EndsWhen(content, off);
    if Searched(content, off).Running? {
      var offs := SearchedPath(content, off);
      assert Reaches(content, off, offs[|offs| - 1]);
    }
    if at: nat :| Leads(content, at, at) && Reaches(content, off, at) {
      var offs: seq<nat> :|
        offs != [] && offs[0] == off && offs[|offs| - 1] == at && Path(content, offs);
      PathSearched(content, offs);
    }
  }

  // ----- the whole decision

  /** What becomes of a file: nothing, or 0x80 bytes of it are replaced; or looking for them raises an error, or never
    ends. */
  datatype Patch = Nothing | Replaced(at: nat) | Broken | Endless

  function PatchOf(content: Buffer): Patch {
    if !(MAGIC <= content) then Nothing
    else if |content| < 0x68 then Broken
    else PatchFor(content, Field(content, 0x28, 8), Searched(content, Field(content, 0x58, 8)))
  }

  predicate NpdrmApp(content: Buffer, appInfo: nat) {
    appInfo + 0x18 <= |content| && Field(content, appInfo + 12, 4) == NPDRM_APP
  }

  function PatchFor(content: Buffer, appInfo: nat, search: Search): Patch {
    if appInfo + 0x18 > |content| then Broken
    else
      match search
      case Raised => Broken
      case Running(_) => Endless
      case Missing => Nothing
      case Found(at) => if NpdrmApp(content, appInfo) then Replaced(at + 0x10) else Nothing
  }

  /** The loop of `pack`. Where the original would read one block for ever, this one stops. */
  method FindDigest(content: Buffer, start: nat) returns (r: Search)
    ensures r == Searched(content, start)
  {
    var digestOff: nat := start;
    var found := false;
    while !found
      invariant if found then Searched(content, start) == Found(digestOff)
                else Searched(content, start) == Searched(content, digestOff)
      decreases !found, if digestOff <= |content| then |content| - digestOff else 0
    {
      var bytes := Slice(content, digestOff, digestOff + 0x10);
      if |bytes| < 0x10 {
        return Raised;
      }
      DigestReads(content, digestOff, bytes);
      var digest := Unpack(BE, DIGEST_BLOCK, bytes);
      if digest[0] == NPDRM_DIGEST {
        found := true;
      } else if digest[2] == 1 && digest[1] == 0 {
        return Running(digestOff);
      } else {
        digestOff := digestOff + digest[1];
      }
      if digest[2] != 1 {
        break;
      }
    }
    r := if found then Found(digestOff) else Missing;
  }

  lemma DigestReads(content: Buffer, off: nat, bytes: Buffer)
    requires off + 0x10 <= |content| && bytes == Slice(content, off, off + 0x10)
    ensures |bytes| == Size(DIGEST_BLOCK)
    ensures var digest := Unpack(BE, DIGEST_BLOCK, bytes);
      && digest[0] == Field(content, off, 4) && digest[1] == Field(content, off + 4, 4)
      && digest[2] == Field(content, off + 8, 8)
  {
    DigestBlockPlaces();
    FieldOf(DIGEST_BLOCK, content, off, bytes, 0, 0, 4);
    FieldOf(DIGEST_BLOCK, content, off, bytes, 1, 4, 4);
    FieldOf(DIGEST_BLOCK, content, off, bytes, 2, 8, 8);
  }

  method FindPatch(content: Buffer) returns (r: Patch)
    ensures r == PatchOf(content)
  {
    assert Slice(content, 0, 9) == if |content| <= 9 then content else content[..9];
    if Slice(content, 0, 9) != MAGIC {
      return Nothing;
    }
    var head := Slice(content, 0, 0x68);
    if |head| < 0x68 {
      return Broken;
    }
    HeaderReads(content, head);
    var header := Unpack(BE, SELF_HEADER, head);
    var app := Slice(content, header[8], header[8] + 0x18);
    if |app| < 0x18 {
      return Broken;
    }
    AppReads(content, header[8], app);
    var appType := Unpack(BE, APP_INFO, app)[2];
    var search := FindDigest(content, header[14]);
    match search
    case Raised => r := Broken;
    case Running(_) => r := Endless;
    case Missing => r := Nothing;
    case Found(at) => r := if appType == NPDRM_APP then Replaced(at + 0x10) else Nothing;
  }

  lemma HeaderReads(content: Buffer, head: Buffer)
    requires |content| >= 0x68 && head == Slice(content, 0, 0x68)
    ensures |head| == Size(SELF_HEADER)
    ensures Unpack(BE, SELF_HEADER, head)[8] == Field(content, 0x28, 8)
    ensures Unpack(BE, SELF_HEADER, head)[14] == Field(content, 0x58, 8)
  {
    SelfHeaderPlaces();
    FieldOf(SELF_HEADER, content, 0, head, 8, 0x28, 8);
    FieldOf(SELF_HEADER, content, 0, head, 14, 0x58, 8);
  }

  lemma AppReads(content: Buffer, appInfo: nat, app: Buffer)
    requires appInfo + 0x18 <= |content| && app == Slice(content, appInfo, appInfo + 0x18)
    ensures |app| == Size(APP_INFO)
    ensures Unpack(BE, APP_INFO, app)[2] == Field(content, appInfo + 12, 4)
  {
    AppInfoPlaces();
    FieldOf(APP_INFO, content, appInfo, app, 2, 12, 4);
  }

  /** Field `i` of a structure at `off`, which begins `at` bytes behind. */
  lemma FieldOf(layout: Layout, content: Buffer, off: nat, bytes: Buffer, i: nat, at: nat, n: nat)
    requires bytes == Slice(content, off, off + Size(layout)) && off + Size(layout) <= |content|
    requires i < |layout| && Size(layout[..i]) == at && layout[i] == n
    ensures |bytes| == Size(layout) && at + n <= |bytes|
    ensures Unpack(BE, layout, bytes)[i] == Field(content, off + at, n)
  {
    SliceWithin(content, off, Size(layout));
    UnpackedField(BE, layout, bytes, i, at, n);
    Inside(content, bytes, off, at, n);
  }

  /** A signed program whose application type is that of NPDRM programs. */
  predicate NpdrmProgram(content: Buffer) {
    MAGIC <= content && |content| >= 0x68 && NpdrmApp(content, Field(content, 0x28, 8))
  }

  /** The digest block at `block` is of the kind looked for, and the header leads there. */
  ghost predicate Located(content: Buffer, block: nat) {
    NpdrmProgram(content) && Holds(content, block) && Reaches(content, Field(content, 0x58, 8), block)
  }

  /** What is replaced is what follows the first digest block of the kind looked for, in NPDRM programs alone. */
  lemma ReplacedWhen(content: Buffer, at: nat)
    ensures PatchOf(content) == Replaced(at) <==> at >= 0x10 && Located(content, at - 0x10)
  {
    if MAGIC <= content && |content| >= 0x68 && at >= 0x10 {
      FoundWhen(content, Field(content, 0x58, 8), at - 0x10);
    }
  }

  /** A file of which that cannot be said is one that begins as a signed program, but ends in its header, in the
    application's description, or in a digest block on the way; */
  lemma BrokenWhen(content: Buffer)
    ensures PatchOf(content).Broken? <==>
      && MAGIC <= content
      && (|| |content| < 0x68
          || Field(content, 0x28, 8) + 0x18 > |content|
          || exists at: nat :: at + 0x10 > |content| && Reaches(content, Field(content, 0x58, 8), at))
  {
    if MAGIC <= content && |content| >= 0x68 {
      RaisedWhen(content, Field(content, 0x58, 8));
    }
  }

  /** or one whose search never ends. */
  lemma HangsWhen(content: Buffer)
    ensures PatchOf(content).Endless? <==>
      && MAGIC <= content && |content| >= 0x68 && Field(content, 0x28, 8) + 0x18 <= |content|
      && forall n: nat :: Turns(content, Field(content, 0x58, 8), n).Running?
  {
    if MAGIC <= content && |content| >= 0x68 {
      EndsWhen(content, Field(content, 0x58, 8));
    }
  }

  lemma RaisedWhen(content: Buffer, off: nat)
    ensures Searched(content, off).Raised?
      <==> exists at: nat :: at + 0x10 > |content| && Reaches(content, off, at)
  {
    if Searched(content, off).Raised? {
      var offs := RaisedPath(content, off);
      assert Reaches(content, off, offs[|offs| - 1]);
    }
    if at: nat :| at + 0x10 > |content| && Reaches(content, off, at) {
      var offs: seq<nat> :|
        offs != [] && offs[0] == off && offs[|offs| - 1] == at && Path(content, offs);
      PathRaises(content, offs);
    }
  }

  lemma {:induction false} RaisedPath(content: Buffer, off: nat) returns (offs: seq<nat>)
    requires Searched(content, off).Raised?
    ensures offs != [] && offs[0] == off && Path(content, offs) && offs[|offs| - 1] + 0x10 > |content|
    decreases if off <= |content| then |content| - off else 0
  {
    var turn := Turn(content, off);
    offs := [off];
    if turn.Running? && turn.off != off {
      var more := RaisedPath(content, turn.off);
      PathBefore(content, off, more);
      offs := offs + more;
    }
  }

  lemma {:induction false} PathRaises(content: Buffer, offs: seq<nat>)
    requires offs != [] && Path(content, offs) && offs[|offs| - 1] + 0x10 > |content|
    ensures Searched(content, offs[0]).Raised?
  {
    if |offs| > 1 {
      assert Leads(content, offs[0], offs[1]);
      PathRaises(content, offs[1..]);
    }
  }

  lemma PatchInFile(content: Buffer)
    ensures PatchOf(content).Replaced? ==> 0x10 <= PatchOf(content).at <= |content|
  {
    if PatchOf(content).Replaced? {
      ReplacedWhen(content, PatchOf(content).at);
    }
  }

  lemma SmallNumber(content: Buffer, at: nat, n: nat)
    requires 0 < n && at + n <= |content| && forall k | at <= k < at + n - 1 :: content[k] == 0
    ensures Field(content, at, n) == content[at + n - 1]
  {
    var bytes := content[at..at + n];
    assert bytes[..n - 1] == Zeros(n - 1);
    ZeroNumber(n - 1);
  }

  /** A program of 0x90 bytes for which the search never ends: its only digest block says that another one follows, at
    the same place. */
  lemma EndlessProgram(content: Buffer, n: nat)
    requires content == MAGIC + Zeros(0x26) + [0x68] + Zeros(0x2F) + [0x80] + Zeros(0x2F) + [1]
    ensures PatchOf(content) == Endless && Turns(content, Field(content, 0x58, 8), n).Running?
  {
    SmallNumber(content, 0x28, 8);
    SmallNumber(content, 0x58, 8);
    SmallNumber(content, 0x80, 4);
    SmallNumber(content, 0x84, 4);
    SmallNumber(content, 0x88, 8);
    PathSearched(content, [0x80]);
    SearchNeverEnds(content, 0x80, n);
  }

  predicate SameFront(content: Buffer, other: Buffer, end: nat) {
    end <= |content| && end <= |other| && content[..end] == other[..end]
  }

  /** The decision is made by what lies in front of the block, when that holds the header and the application's
    description. */
  lemma PrefixDecides(content: Buffer, other: Buffer, at: nat)
    requires 0x68 <= at && SameFront(content, other, at)
    requires PatchOf(content) == Replaced(at) && Field(content, 0x28, 8) + 0x18 <= at
    ensures PatchOf(other) == Replaced(at)
  {
    var block := at - 0x10;
    assert Located(content, block) by {
      ReplacedWhen(content, at);
    }
    LocatedInside(content, other, block);
    assert Located(other, block);
    ReplacedWhen(other, at);
  }

  lemma LocatedInside(content: Buffer, other: Buffer, block: nat)
    requires 0x58 <= block && SameFront(content, other, block + 0x10)
    requires Located(content, block) && Field(content, 0x28, 8) + 0x18 <= block + 0x10
    ensures Located(other, block)
  {
    HeaderInside(content, other, block + 0x10, Field(content, 0x28, 8));
    SameField(content, other, block + 0x10, block, 4);
    ReachesInside(content, other, block + 0x10, Field(content, 0x58, 8), block);
  }

  lemma HeaderInside(content: Buffer, other: Buffer, end: nat, appInfo: nat)
    requires 0x68 <= end && SameFront(content, other, end)
    requires NpdrmProgram(content) && appInfo == Field(content, 0x28, 8) && appInfo + 0x18 <= end
    ensures NpdrmProgram(other) && Field(other, 0x58, 8) == Field(content, 0x58, 8)
  {
    SameField(content, other, end, 0x28, 8);
    SameField(content, other, end, 0x58, 8);
    SameField(content, other, end, appInfo + 12, 4);
    assert content[..end][..9] == content[..9] && other[..end][..9] == other[..9];
  }

  lemma ReachesInside(content: Buffer, other: Buffer, end: nat, off: nat, at: nat)
    requires SameFront(content, other, end)
    requires Reaches(content, off, at) && at + 0x10 <= end
    ensures Reaches(other, off, at)
  {
    var offs: seq<nat> :|
      offs != [] && offs[0] == off && offs[|offs| - 1] == at && Path(content, offs);
    PathInside(content, other, end, offs);
  }

  lemma SameField(content: Buffer, other: Buffer, end: nat, at: nat, n: nat)
    requires SameFront(content, other, end) && at + n <= end
    ensures Field(content, at, n) == Field(other, at, n)
  {
    assert content[at..at + n] == content[..end][at..at + n] && other[at..at + n] == other[..end][at..at + n];
  }

  /** Digest blocks never lead back, so all of them lie in front of the last one. */
  lemma {:induction false} PathInside(content: Buffer, other: Buffer, end: nat, offs: seq<nat>)
    requires SameFront(content, other, end)
    requires Path(content, offs) && offs != [] && offs[|offs| - 1] + 0x10 <= end
    ensures Path(other, offs) && offs[0] + 0x10 <= end
  {
    if |offs| > 1 {
      assert Leads(content, offs[0], offs[1]);
      PathInside(content, other, end, offs[1..]);
      SameField(content, other, end, offs[0], 4);
      SameField(content, other, end, offs[0] + 8, 8);
      SameField(content, other, end, offs[0] + 4, 4);
      PathBefore(other, offs[0], offs[1..]);
      assert offs == [offs[0]] + offs[1..];
    }
  }

  // ----- what is put in its place

  type Meta = m: Buffer | |m| == 0x80 witness Zeros(0x80)

  /** What a package puts in place of the block: it depends on the whole file. */
  type Sealing = Buffer -> Meta

  const META_START: Layout := [4, 4, 4, 4]

  /** A content identifier: cut off at 0x30 bytes, or filled up with zeros. */
  function PaddedId(contentId: Buffer): (r: Buffer)
    ensures |r| == 0x30
  {
    Slice(contentId, 0, 0x30) + Zeros(0x30 - |Slice(contentId, 0, 0x30)|)
  }

  function Inverted(hash: Buffer): Buffer { seq(|hash|, i requires 0 <= i < |hash| => 0xFF - hash[i]) }

  /** The last of 16 bytes is masked differently. */
  function MaskedByte(b: Byte, i: nat): Byte { Mix(Mix(if i == 0xF then 1 else 0, 0xFF - b), 0xAA) }

  function Masked(hash: Buffer): Buffer { seq(|hash|, i requires 0 <= i < |hash| => MaskedByte(hash[i], i)) }

  function EbootMeta(sha: Sha, contentId: Buffer, content: Buffer): Meta {
    var hash := sha(content)[..0x10];
    Pack(BE, META_START, [0x4E50_4400, 1, 3, 1]) + PaddedId(contentId) + hash + Inverted(hash) + Masked(hash)
    + Zeros(0x10)
  }

  function Seal(sha: Sha, contentId: Buffer): Sealing { (content: Buffer) => EbootMeta(sha, contentId, content) }

  method CopyId(contentId: Buffer) returns (id: Buffer)
    ensures id == PaddedId(contentId)
  {
    id := Zeros(0x30);
    var n := if |contentId| < 0x30 then |contentId| else 0x30;
    for i := 0 to n
      invariant id == contentId[..i] + Zeros(0x30 - i)
    {
      id := id[i := contentId[i]];
    }
    assert Slice(contentId, 0, 0x30) == contentId[..n];
  }

  method BuildMeta(sha: Sha, contentId: Buffer, content: Buffer) returns (meta: Buffer)
    ensures meta == EbootMeta(sha, contentId, content)
  {
    var id := CopyId(contentId);
    var fileHash, notHash, masked := HashFields(sha(content)[..0x10]);
    meta := Pack(BE, META_START, [0x4E50_4400, 1, 3, 1]) + id + fileHash + notHash + masked + Zeros(0x10);
  }

  method HashFields(hash: Buffer) returns (fileHash: Buffer, notHash: Buffer, masked: Buffer)
    requires |hash| == 0x10
    ensures fileHash == hash && notHash == Inverted(hash) && masked == Masked(hash)
  {
    fileHash, notHash, masked := Zeros(0x10), Zeros(0x10), Zeros(0x10);
    for i := 0 to 0x10
      invariant |fileHash| == |notHash| == |masked| == 0x10
      invariant forall k | 0 <= k < i :: fileHash[k] == hash[k]
      invariant forall k | 0 <= k < i :: notHash[k] == 0xFF - hash[k]
      invariant forall k | 0 <= k < i :: masked[k] == MaskedByte(hash[k], k)
    {
      fileHash := fileHash[i := hash[i]];
      var inverse: Byte := 0xFF - fileHash[i];
      notHash := notHash[i := inverse];
      var last: Byte := if i == 0xF then 1 else 0;
      masked := masked[i := Mix(Mix(last, inverse), 0xAA)];
    }
  }
}
