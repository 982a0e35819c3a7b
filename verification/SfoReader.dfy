/** Reading a parameter file: the pairs that were written, in order. */
module SfoReader {
  import opened Bytes
  import opened StructFormat
  import opened Sfo
  import opened Words

  // ----- the reader

  function HeaderNumbers(data: Buffer): (h: seq<nat>)
    requires |data| >= 0x14
    ensures |h| == 5
  {
    EntrySize();
    Unpack(LE, HEADER, data[..0x14])
  }

  function EntryNumbers(data: Buffer, x: nat): (e: seq<nat>)
    requires KeyOffset(x + 1) <= |data|
    ensures |e| == 6
  {
    EntrySize();
    Unpack(LE, ENTRY, data[KeyOffset(x)..KeyOffset(x) + 0x10])
  }

  function From(s: Buffer, from: nat): Buffer { if from <= |s| then s[from..] else [] }

  /** One pair; an integer needs its four bytes. */
  function PairAt(data: Buffer, keyAt: nat, valueAt: nat, valueType: nat): Reading {
    var key := NullTerm(From(data, keyAt));
    if valueType == SFO_STRING then Pairs([Pair(key, Text(NullTerm(From(data, valueAt))))])
    else if |Slice(data, valueAt, valueAt + 4)| == 4 then
      Pairs([Pair(key, Integer(FromLittleEndian(Slice(data, valueAt, valueAt + 4))))])
    else Refused
  }

  /** What entry `x` points to, if there is such an entry. */
  function OneEntry(data: Buffer, off1: nat, off2: nat, x: nat): Reading {
    if |data| < KeyOffset(x + 1) then Refused
    else
      var e := EntryNumbers(data, x);
      PairAt(data, off1 + e[0], off2 + e[5], e[2])
  }

  function AllEntries(data: Buffer, off1: nat, off2: nat, n: nat): seq<Reading> {
    seq(n, x requires 0 <= x < n => OneEntry(data, off1, off2, x))
  }

  function ReadPairs(data: Buffer, off1: nat, off2: nat, n: nat): Reading { JoinAll(AllEntries(data, off1, off2, n)) }

  /** One reading that fails makes the whole fail. */
  function JoinAll(rs: seq<Reading>): Reading {
    if rs == [] then Pairs([]) else Joined(JoinAll(rs[..|rs| - 1]), rs[|rs| - 1])
  }

  function Joined(a: Reading, b: Reading): Reading {
    if a.Pairs? && b.Pairs? then Pairs(a.pairs + b.pairs) else Refused
  }

  function Read(data: Buffer): Reading {
    if |data| < 0x14 then Refused
    else
      var h := HeaderNumbers(data);
      if h[0] != SFO_MAGIC || h[1] != SFO_VERSION then Refused else ReadPairs(data, h[2], h[3], h[4])
  }

  /** The reader half of `convertToXml`. */
  method ConvertToXml(data: Buffer) returns (r: Reading)
    ensures r == Read(data)
  {
    if |data| < 0x14 {
      return Refused;
    }
    var h := HeaderNumbers(data);
    if h[0] != SFO_MAGIC {
      return Refused;
    }
    if h[1] != SFO_VERSION {
      return Refused;
    }
    r := ReadEntries(data, h[2], h[3], h[4]);
  }

  method ReadEntries(data: Buffer, off1: nat, off2: nat, count: nat) returns (r: Reading)
    ensures r == ReadPairs(data, off1, off2, count)
  {
    ghost var all := AllEntries(data, off1, off2, count);
    var offset := 0x14;
    r := Pairs([]);
    for x := 0 to count
      invariant offset == KeyOffset(x) && r == JoinAll(all[..x]) && r.Pairs?
    {
      var pair := ReadEntry(data, off1, off2, offset, x);
      JoinNext(all, x);
      if pair.Refused? {
        RefusedStays(all, x + 1, count);
        assert all[..count] == all;
        return Refused;
      }
      r := Pairs(r.pairs + pair.pairs);
      offset := offset + 0x10;
    }
    assert all[..count] == all;
  }

  lemma JoinNext(rs: seq<Reading>, n: nat)
    requires n < |rs|
    ensures JoinAll(rs[..n + 1]) == Joined(JoinAll(rs[..n]), rs[n])
  {
    assert rs[..n + 1][..n] == rs[..n];
  }

  method ReadEntry(data: Buffer, off1: nat, off2: nat, offset: nat, ghost x: nat) returns (pair: Reading)
    requires offset == KeyOffset(x)
    ensures pair == OneEntry(data, off1, off2, x)
  {
    if |data| < offset + 0x10 {
      return Refused;
    }
    EntrySize();
    var entry := Unpack(LE, ENTRY, data[offset..offset + 0x10]);
    var keyAt, valueAt := off1 + entry[0], off2 + entry[5];
    pair := PairAt(data, keyAt, valueAt, entry[2]);
    NumbersToPair(data, off1, off2, x, entry, keyAt, valueAt);
  }

  lemma NumbersToPair(data: Buffer, off1: nat, off2: nat, x: nat, numbers: seq<nat>, keyAt: nat, valueAt: nat)
    requires KeyOffset(x + 1) <= |data| && numbers == EntryNumbers(data, x)
    requires keyAt == off1 + numbers[0] && valueAt == off2 + numbers[5]
    ensures OneEntry(data, off1, off2, x) == PairAt(data, keyAt, valueAt, numbers[2])
  {
  }

  lemma {:induction false} RefusedStays(rs: seq<Reading>, n: nat, count: nat)
    requires n <= count <= |rs| && JoinAll(rs[..n]) == Refused
    ensures JoinAll(rs[..count]) == Refused
  {
    if n < count {
      RefusedStays(rs, n, count - 1);
      JoinNext(rs, count - 1);
    }
  }

  // ----- the round trip

  /** A pair as it comes back: strings end at their first NUL. */
  function Stripped(p: Pair): Pair {
    Pair(NullTerm(p.key), if p.value.Text? then Text(NullTerm(p.value.text)) else p.value)
  }

  function AllStripped(kvs: seq<Pair>): seq<Pair> { seq(|kvs|, i requires 0 <= i < |kvs| => Stripped(kvs[i])) }

  lemma {:induction false} TermBefore(s: Buffer, rest: Buffer)
    ensures NullTerm(s + [0] + rest) == NullTerm(s)
  {
    if s != [] {
      assert (s + [0] + rest)[1..] == s[1..] + [0] + rest;
      TermBefore(s[1..], rest);
    }
  }

  /** Reading from the beginning of a piece that starts with a terminated string. */
  lemma TermAt(data: Buffer, from: nat, s: Buffer)
    requires from + |s| + 1 <= |data| && Slice(data, from, from + |s| + 1) == s + [0]
    ensures NullTerm(From(data, from)) == NullTerm(s)
  {
    SliceWithin(data, from, |s| + 1);
    var rest := CutBehind(data, from, from + |s| + 1, s + [0]);
    TermBefore(s, rest);
  }

  lemma CutBehind(data: Buffer, from: nat, till: nat, piece: Buffer) returns (rest: Buffer)
    requires from <= till <= |data| && data[from..till] == piece
    ensures From(data, from) == piece + rest
  {
    rest := data[till..];
    assert data[from..] == data[from..till] + rest;
  }

  lemma EntriesLength(kvs: seq<Pair>, i: nat)
    requires i <= |kvs|
    ensures Position(Entries(kvs), i) == 0x10 * i && |Concat(Entries(kvs))| == 0x10 * |kvs|
  {
    UniformPositions(Entries(kvs), 0x10, i);
    UniformPositions(Entries(kvs), 0x10, |kvs|);
    assert Entries(kvs)[..|kvs|] == Entries(kvs);
  }

  /** What stands before the keys and before the values is as long as the offsets say. */
  lemma Lengths(kvs: seq<Pair>)
    ensures var ahead := Front(|kvs|, ValueOffset(kvs)) + Concat(Entries(kvs));
      && |ahead| == KeyOffset(|kvs|)
      && |ahead + Concat(Keys(kvs)) + Zeros(KeyPad(kvs))| == ValueOffset(kvs)
  {
    EntriesLength(kvs, 0);
  }

  ghost predicate Holds(data: Buffer, from: nat, piece: Buffer) {
    from + |piece| <= |data| && data[from..from + |piece|] == piece
  }

  lemma HoldsPrefix(data: Buffer, from: nat, piece: Buffer, n: nat)
    requires Holds(data, from, piece) && n <= |piece|
    ensures Slice(data, from, from + n) == piece[..n]
  {
    PrefixOfSlice(data, from, |piece|, n);
    SliceWithin(data, from, n);
  }

  lemma PieceHeld(a: Buffer, parts: seq<Buffer>, c: Buffer, i: nat, from: nat, data: Buffer)
    requires i < |parts| && from == |a| + Position(parts, i) && data == a + Concat(parts) + c
    ensures Holds(data, from, parts[i])
  {
    var piece := parts[i];
    PieceReads(a, parts, c, i, |piece|, from);
    SliceWithin(data, from, |piece|);
    assert piece[..|piece|] == piece;
  }

  lemma KeyReads(kvs: seq<Pair>, i: nat, data: Buffer, ahead: Buffer, rest: Buffer, from: nat)
    requires i < |kvs| && data == ahead + Concat(Keys(kvs)) + rest && from == |ahead| + Position(Keys(kvs), i)
    ensures NullTerm(From(data, from)) == NullTerm(kvs[i].key)
  {
    var key := kvs[i].key;
    PieceHeld(ahead, Keys(kvs), rest, i, from, data);
    SliceWithin(data, from, |key| + 1);
    TermAt(data, from, key);
  }

  lemma ValueReads(kvs: seq<Pair>, i: nat, data: Buffer, ahead: Buffer, from: nat)
    requires i < |kvs| && data == ahead + Concat(Values(kvs)) && from == |ahead| + Position(Values(kvs), i)
    ensures Holds(data, from, ValueBytes(kvs[i]))
  {
    assert data == data + [];
    PieceHeld(ahead, Values(kvs), [], i, from, data);
  }

  /** Key and value lie where their entry says. */
  lemma AllHeld(kvs: seq<Pair>, i: nat, data: Buffer, keyAt: nat, valueAt: nat)
    requires i < |kvs| && data == FileOf(kvs)
    requires keyAt == KeyOffset(|kvs|) + EntryOf(kvs, i).keyOff
      && valueAt == ValueOffset(kvs) + EntryOf(kvs, i).valueOff
    ensures PairHeld(data, keyAt, valueAt, kvs[i])
  {
    var front, entries := Front(|kvs|, ValueOffset(kvs)), Concat(Entries(kvs));
    var keys, pad, values := Concat(Keys(kvs)), Zeros(KeyPad(kvs)), Concat(Values(kvs));
    Lengths(kvs);
    Regroup(front, entries, keys, pad, values);
    KeyReads(kvs, i, data, front + entries, pad + values, keyAt);
    ValueReads(kvs, i, data, front + entries + keys + pad, valueAt);
  }

  lemma EntryReads(kvs: seq<Pair>, i: nat, data: Buffer, e: Entry)
    requires i < |kvs| && data == FileOf(kvs) && e == EntryOf(kvs, i) && EntryEncodes(e)
    ensures KeyOffset(i + 1) <= |data| && EntryNumbers(data, i) == EntryFields(e)
  {
    EntryHeld(kvs, i, data, e);
    NumbersRead(data, i, e);
  }

  lemma EntryHeld(kvs: seq<Pair>, i: nat, data: Buffer, e: Entry)
    requires i < |kvs| && data == FileOf(kvs) && e == EntryOf(kvs, i)
    ensures KeyOffset(i) + 0x10 <= |data| && data[KeyOffset(i)..KeyOffset(i) + 0x10] == EntryBytes(e)
  {
    var front, entries := Front(|kvs|, ValueOffset(kvs)), Entries(kvs);
    var rest := Concat(Keys(kvs)) + Zeros(KeyPad(kvs)) + Concat(Values(kvs));
    EntriesLength(kvs, i);
    Regroup(front, Concat(entries), Concat(Keys(kvs)), Zeros(KeyPad(kvs)), Concat(Values(kvs)));
    EntryIs(kvs, i, e);
    PieceReads(front, entries, rest, i, 0x10, KeyOffset(i));
    SliceWithin(data, KeyOffset(i), 0x10);
  }

  lemma NumbersRead(data: Buffer, i: nat, e: Entry)
    requires KeyOffset(i) + 0x10 <= |data| && data[KeyOffset(i)..KeyOffset(i) + 0x10] == EntryBytes(e)
      && EntryEncodes(e)
    ensures EntryNumbers(data, i) == EntryFields(e)
  {
    EntrySize();
    UnpackPack(LE, ENTRY, EntryFields(e));
  }

  lemma EntryIs(kvs: seq<Pair>, i: nat, e: Entry)
    requires i < |kvs| && e == EntryOf(kvs, i)
    ensures |Entries(kvs)[i]| == 0x10 && Entries(kvs)[i][..0x10] == EntryBytes(e)
  {
  }

  /** A pair whose key and value lie at the given places. */
  ghost predicate PairHeld(data: Buffer, keyAt: nat, valueAt: nat, p: Pair) {
    NullTerm(From(data, keyAt)) == NullTerm(p.key) && Holds(data, valueAt, ValueBytes(p))
  }

  /** What is held is read. */
  lemma PairReads(data: Buffer, keyAt: nat, valueAt: nat, p: Pair)
    requires PairHeld(data, keyAt, valueAt, p) && Writable(p)
    ensures PairAt(data, keyAt, valueAt, ValueType(p)) == Pairs([Stripped(p)])
  {
    if p.value.Integer? {
      NumberPair(data, keyAt, valueAt, p);
    } else {
      TextPair(data, keyAt, valueAt, p);
    }
  }

  lemma NumberPair(data: Buffer, keyAt: nat, valueAt: nat, p: Pair)
    requires PairHeld(data, keyAt, valueAt, p) && Writable(p) && p.value.Integer?
    ensures PairAt(data, keyAt, valueAt, ValueType(p)) == Pairs([Stripped(p)])
  {
    NumberBytes(p, p.value.number);
    HoldsPrefix(data, valueAt, ValueBytes(p), 4);
    PairOfNumber(data, keyAt, valueAt, ValueType(p), p.value.number);
  }

  lemma TextPair(data: Buffer, keyAt: nat, valueAt: nat, p: Pair)
    requires PairHeld(data, keyAt, valueAt, p) && p.value.Text?
    ensures PairAt(data, keyAt, valueAt, ValueType(p)) == Pairs([Stripped(p)])
  {
    var s := p.value.text;
    TextBytes(p, s);
    HoldsPrefix(data, valueAt, ValueBytes(p), |s| + 1);
    TermAt(data, valueAt, s);
    PairOfText(data, keyAt, valueAt, ValueType(p));
  }

  lemma PairOfNumber(data: Buffer, keyAt: nat, valueAt: nat, valueType: nat, n: int)
    requires valueType != SFO_STRING && |Slice(data, valueAt, valueAt + 4)| == 4
    requires FromLittleEndian(Slice(data, valueAt, valueAt + 4)) == n
    ensures PairAt(data, keyAt, valueAt, valueType) == Pairs([Pair(NullTerm(From(data, keyAt)), Integer(n))])
  {
  }

  lemma PairOfText(data: Buffer, keyAt: nat, valueAt: nat, valueType: nat)
    requires valueType == SFO_STRING
    ensures PairAt(data, keyAt, valueAt, valueType)
      == Pairs([Pair(NullTerm(From(data, keyAt)), Text(NullTerm(From(data, valueAt))))])
  {
  }

  lemma NumberBytes(p: Pair, n: int)
    requires p.value == Integer(n) && Writable(p)
    ensures |ValueBytes(p)| == 4 && ValueBytes(p)[..4] == LittleEndian(n, 4)
      && FromLittleEndian(LittleEndian(n, 4)) == n
  {
    Powers();
    LittleEndianReads(n, 4);
  }

  lemma TextBytes(p: Pair, s: Buffer)
    requires p.value == Text(s)
    ensures |s| + 1 <= |ValueBytes(p)| && ValueBytes(p)[..|s| + 1] == s + [0]
  {
    AlignMeans(|s| + 1, Alignment(p.key));
  }

  lemma PairsRead(kvs: seq<Pair>, data: Buffer, off1: nat, off2: nat)
    requires Encodes(kvs) && data == FileOf(kvs) && off1 == KeyOffset(|kvs|) && off2 == ValueOffset(kvs)
    ensures ReadPairs(data, off1, off2, |kvs|) == Pairs(AllStripped(kvs))
  {
    var all := AllEntries(data, off1, off2, |kvs|);
    forall i | 0 <= i < |kvs| ensures all[i] == Pairs([Stripped(kvs[i])]) {
      EntryReadsPair(kvs, i, data, off1, off2);
    }
    JoinStripped(kvs, all, |kvs|);
    assert all[..|kvs|] == all && kvs[..|kvs|] == kvs;
  }

  lemma {:induction false} JoinStripped(kvs: seq<Pair>, all: seq<Reading>, n: nat)
    requires n <= |kvs| == |all| && forall i | 0 <= i < |kvs| :: all[i] == Pairs([Stripped(kvs[i])])
    ensures JoinAll(all[..n]) == Pairs(AllStripped(kvs[..n]))
  {
    if n > 0 {
      JoinStripped(kvs, all, n - 1);
      JoinNext(all, n - 1);
      StrippedNext(kvs, n);
    }
  }

  lemma EntryReadsPair(kvs: seq<Pair>, i: nat, data: Buffer, off1: nat, off2: nat)
    requires Encodes(kvs) && i < |kvs| && data == FileOf(kvs) && off1 == KeyOffset(|kvs|) && off2 == ValueOffset(kvs)
    ensures OneEntry(data, off1, off2, i) == Pairs([Stripped(kvs[i])])
  {
    var e := EntryOf(kvs, i);
    EntryReadsItsPair(kvs, i, data, off1, off2, e, off1 + e.keyOff, off2 + e.valueOff);
  }

  lemma EntryReadsItsPair(kvs: seq<Pair>, i: nat, data: Buffer, off1: nat, off2: nat, e: Entry, keyAt: nat,
                          valueAt: nat)
    requires i < |kvs| && data == FileOf(kvs) && e == EntryOf(kvs, i) && EntryEncodes(e) && Writable(kvs[i])
    requires keyAt == off1 + e.keyOff == KeyOffset(|kvs|) + EntryOf(kvs, i).keyOff
    requires valueAt == off2 + e.valueOff == ValueOffset(kvs) + EntryOf(kvs, i).valueOff
    ensures OneEntry(data, off1, off2, i) == Pairs([Stripped(kvs[i])])
  {
    EntryFound(kvs, i, data, off1, off2, e, keyAt, valueAt);
    PairFound(kvs, i, data, keyAt, valueAt, e.valueType);
  }

  lemma EntryFound(kvs: seq<Pair>, i: nat, data: Buffer, off1: nat, off2: nat, e: Entry, keyAt: nat, valueAt: nat)
    requires i < |kvs| && data == FileOf(kvs) && e == EntryOf(kvs, i) && EntryEncodes(e)
    requires keyAt == off1 + e.keyOff && valueAt == off2 + e.valueOff
    ensures OneEntry(data, off1, off2, i) == PairAt(data, keyAt, valueAt, e.valueType)
  {
    EntryReads(kvs, i, data, e);
    OneEntryIs(data, off1, off2, i, e, keyAt, valueAt);
  }

  lemma PairFound(kvs: seq<Pair>, i: nat, data: Buffer, keyAt: nat, valueAt: nat, valueType: nat)
    requires i < |kvs| && data == FileOf(kvs) && Writable(kvs[i]) && valueType == EntryOf(kvs, i).valueType
    requires keyAt == KeyOffset(|kvs|) + EntryOf(kvs, i).keyOff
      && valueAt == ValueOffset(kvs) + EntryOf(kvs, i).valueOff
    ensures PairAt(data, keyAt, valueAt, valueType) == Pairs([Stripped(kvs[i])])
  {
    AllHeld(kvs, i, data, keyAt, valueAt);
    PairReads(data, keyAt, valueAt, kvs[i]);
  }

  lemma OneEntryIs(data: Buffer, off1: nat, off2: nat, i: nat, e: Entry, keyAt: nat, valueAt: nat)
    requires KeyOffset(i + 1) <= |data| && EntryNumbers(data, i) == EntryFields(e)
    requires keyAt == off1 + e.keyOff && valueAt == off2 + e.valueOff
    ensures OneEntry(data, off1, off2, i) == PairAt(data, keyAt, valueAt, e.valueType)
  {
  }

  lemma StrippedNext(kvs: seq<Pair>, n: nat)
    requires 0 < n <= |kvs|
    ensures AllStripped(kvs[..n]) == AllStripped(kvs[..n - 1]) + [Stripped(kvs[n - 1])]
  {
  }

  lemma HeaderReads(count: nat, valueOffset: nat, rest: Buffer)
    requires HeaderEncodes(count, valueOffset)
    ensures HeaderNumbers(Front(count, valueOffset) + rest) == HeaderFields(count, valueOffset)
  {
    var front := Front(count, valueOffset);
    EntrySize();
    UnpackPack(LE, HEADER, HeaderFields(count, valueOffset));
    assert (front + rest)[..0x14] == front;
  }

  /** Whatever was written is read back: the same pairs in the same order, with strings up to their first NUL. */
  lemma RoundTrip(kvs: seq<Pair>)
    requires Converted(kvs).Sfo?
    ensures Read(Converted(kvs).bytes) == Pairs(AllStripped(kvs))
  {
    var data := FileOf(kvs);
    var rest := Concat(Entries(kvs)) + Concat(Keys(kvs)) + Zeros(KeyPad(kvs)) + Concat(Values(kvs));
    Regroup(Front(|kvs|, ValueOffset(kvs)), Concat(Entries(kvs)), Concat(Keys(kvs)), Zeros(KeyPad(kvs)),
            Concat(Values(kvs)));
    HeaderReads(|kvs|, ValueOffset(kvs), rest);
    PairsRead(kvs, data, KeyOffset(|kvs|), ValueOffset(kvs));
  }

  predicate WithoutNul(p: Pair) { 0 !in p.key && (p.value.Text? ==> 0 !in p.value.text) }

  /** They are the very same pairs exactly if no key and no string holds a NUL. */
  lemma StrippedIsSame(kvs: seq<Pair>)
    ensures AllStripped(kvs) == kvs <==> forall i | 0 <= i < |kvs| :: WithoutNul(kvs[i])
  {
    forall i | 0 <= i < |kvs| ensures Stripped(kvs[i]) == kvs[i] <==> WithoutNul(kvs[i]) {
      NullTermKeeps(kvs[i].key);
      if kvs[i].value.Text? {
        NullTermKeeps(kvs[i].value.text);
      }
    }
    assert forall i | 0 <= i < |kvs| :: AllStripped(kvs)[i] == Stripped(kvs[i]);
    if forall i | 0 <= i < |kvs| :: WithoutNul(kvs[i]) {
      assert AllStripped(kvs) == kvs;
    }
  }

  /** Files below 4 GB with writable integers are written exactly if the last key begins below 64 KB. */
  lemma WrittenWhen(kvs: seq<Pair>)
    requires AllWritable(kvs) && |FileOf(kvs)| < TWO_32
    ensures Converted(kvs).Sfo? <==> kvs == [] || Position(Keys(kvs), |kvs| - 1) < TWO_16
  {
    FileLength(kvs);
    HeaderFits(|kvs|, ValueOffset(kvs));
    forall i | 0 <= i < |kvs| ensures EntryEncodes(EntryOf(kvs, i)) <==> Position(Keys(kvs), i) < TWO_16 {
      EntryEncodesWhen(kvs, i);
    }
    if kvs != [] && Position(Keys(kvs), |kvs| - 1) < TWO_16 {
      forall i | 0 <= i < |kvs| ensures Position(Keys(kvs), i) < TWO_16 {
        PositionsGrow(Keys(kvs), i, |kvs| - 1);
      }
    }
  }

  lemma FileLength(kvs: seq<Pair>)
    ensures |FileOf(kvs)| == ValueOffset(kvs) + |Concat(Values(kvs))|
    ensures KeyOffset(|kvs|) <= ValueOffset(kvs)
  {
    Lengths(kvs);
  }

  lemma EntryEncodesWhen(kvs: seq<Pair>, i: nat)
    requires i < |kvs| && |FileOf(kvs)| < TWO_32
    ensures EntryEncodes(EntryOf(kvs, i)) <==> Position(Keys(kvs), i) < TWO_16
  {
    var e := EntryOf(kvs, i);
    FileLength(kvs);
    PartAt(Values(kvs), i);
    ValueFits(kvs[i]);
    assert e.paddedLen + e.valueOff < TWO_32;
    KeyOffsetFits(e);
  }

  /** The only field of an entry that can be too narrow is that of the key's offset. */
  lemma KeyOffsetFits(e: Entry)
    requires e.valueType < 0x100 && e.valueLen < TWO_32 && e.paddedLen < TWO_32 && e.valueOff < TWO_32
    ensures EntryEncodes(e) <==> e.keyOff < TWO_16
  {
    Powers();
    assert Power(1) == 0x100;
    assert EntryFields(e)[0] == e.keyOff;
  }

  lemma HeaderFits(count: nat, valueOffset: nat)
    requires KeyOffset(count) < TWO_32 && valueOffset < TWO_32
    ensures HeaderEncodes(count, valueOffset)
  {
    Powers();
  }

  lemma ValueFits(p: Pair)
    ensures ValueLen(p) <= PaddedLen(p) == |ValueBytes(p)| && ValueType(p) < 0x100
  {
    AlignMeans(ValueLen(p), Alignment(p.key));
  }
}
