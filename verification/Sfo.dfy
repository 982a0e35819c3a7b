/** Parameter files: a header, one entry a pair, the keys and the padded values. */
module Sfo {
  import opened Arith
  import Bits
  import opened Bytes
  import opened StructFormat
  import opened Words

  const SFO_MAGIC := 0x4653_5000
  const SFO_VERSION := 0x101
  const SFO_STRING := 2
  const SFO_INT := 4

  const TWO_16 := 0x1_0000

  const HEADER: Layout := [4, 4, 4, 4, 4]
  const ENTRY: Layout := [2, 1, 1, 4, 4, 4]

  const TITLE: Buffer := [0x54, 0x49, 0x54, 0x4C, 0x45]
  const LICENSE: Buffer := [0x4C, 0x49, 0x43, 0x45, 0x4E, 0x53, 0x45]
  const TITLE_ID: Buffer := [0x54, 0x49, 0x54, 0x4C, 0x45, 0x5F, 0x49, 0x44]

  datatype Value = Text(text: Buffer) | Integer(number: int)

  datatype Pair = Pair(key: Buffer, value: Value)

  datatype Entry = Entry(keyOff: nat, valueType: nat, valueLen: nat, paddedLen: nat, valueOff: nat)

  datatype Written = Sfo(bytes: Buffer) | Failed

  datatype Reading = Pairs(pairs: seq<Pair>) | Refused

  // ----- sizes

  function Align(num: nat, alignment: nat): nat
    requires alignment > 0
  {
    (num + alignment - 1) / alignment * alignment
  }

  /** The least multiple that is large enough. */
  lemma AlignMeans(num: nat, alignment: nat)
    requires alignment > 0
    ensures num <= Align(num, alignment) < num + alignment && Align(num, alignment) % alignment == 0
  {
    var q, r := (num + alignment - 1) / alignment, (num + alignment - 1) % alignment;
    assert num + alignment - 1 == q * alignment + r;
    MultipleHasNoRemainder(q, alignment);
  }

  /** For a power of two it is what masking gives, in words of any width that holds the number. */
  lemma AlignMasks(num: nat, k: nat, width: nat)
    requires k <= width && num + Bits.Pow2(k) - 1 < Bits.Pow2(width)
    ensures Bits.Pow2(k) <= Bits.Pow2(width)
    ensures Align(num, Bits.Pow2(k)) == Bits.And(num + Bits.Pow2(k) - 1, Bits.Pow2(width) - Bits.Pow2(k))
  {
    Bits.ClearLow(num + Bits.Pow2(k) - 1, width, k);
    QuotientTimes(num + Bits.Pow2(k) - 1, Bits.Pow2(k));
  }

  lemma QuotientTimes(x: nat, d: nat)
    requires d > 0
    ensures x / d * d == x - x % d
  {
  }

  /** Some keys have a value of a fixed size. */
  function Alignment(key: Buffer): (a: nat)
    ensures a > 0
  {
    if key == TITLE then 0x80 else if key == LICENSE then 0x200 else if key == TITLE_ID then 0x10 else 4
  }

  function ValueLen(p: Pair): nat {
    if p.value.Integer? then 4 else |p.value.text| + 1
  }

  function PaddedLen(p: Pair): nat {
    if p.value.Integer? then 4 else Align(ValueLen(p), Alignment(p.key))
  }

  function ValueType(p: Pair): nat { if p.value.Integer? then SFO_INT else SFO_STRING }

  // ----- the pieces of the file

  function KeyBytes(p: Pair): Buffer { p.key + [0] }

  /** An integer that is no unsigned word cannot be written. */
  predicate Writable(p: Pair) { p.value.Integer? ==> 0 <= p.value.number < TWO_32 }

  function ValueBytes(p: Pair): (r: Buffer)
    ensures |r| == PaddedLen(p)
  {
    match p.value
    case Integer(n) => LittleEndian(if n >= 0 then n else 0, 4)
    case Text(s) =>
      AlignMeans(|s| + 1, Alignment(p.key));
      s + [0] + Zeros(Align(|s| + 1, Alignment(p.key)) - (|s| + 1))
  }

  function Keys(kvs: seq<Pair>): seq<Buffer> { seq(|kvs|, i requires 0 <= i < |kvs| => KeyBytes(kvs[i])) }

  function Values(kvs: seq<Pair>): seq<Buffer> { seq(|kvs|, i requires 0 <= i < |kvs| => ValueBytes(kvs[i])) }

  function EntryOf(kvs: seq<Pair>, i: nat): Entry
    requires i < |kvs|
  {
    Entry(Position(Keys(kvs), i), ValueType(kvs[i]), ValueLen(kvs[i]), PaddedLen(kvs[i]), Position(Values(kvs), i))
  }

  function EntryFields(e: Entry): seq<nat> { [e.keyOff, 4, e.valueType, e.valueLen, e.paddedLen, e.valueOff] }

  predicate EntryEncodes(e: Entry) { Fits(ENTRY, EntryFields(e)) }

  function EntryBytes(e: Entry): (r: Buffer)
    ensures |r| == 0x10
  {
    EntrySize();
    Pack(LE, ENTRY, EntryFields(e))
  }

  lemma EntrySize()
    ensures Size(ENTRY) == 0x10 && Size(HEADER) == 0x14
  {
    SizeUniform([2], 2);
    SizeUniform([1, 1], 1);
    SizeUniform([4, 4, 4], 4);
    SizeUniform([4, 4, 4, 4, 4], 4);
    SizeAdds([2], [1, 1]);
    SizeAdds([2] + [1, 1], [4, 4, 4]);
    assert ENTRY == [2] + [1, 1] + [4, 4, 4];
  }

  function Entries(kvs: seq<Pair>): seq<Buffer> { seq(|kvs|, i requires 0 <= i < |kvs| => EntryBytes(EntryOf(kvs, i))) }

  function KeyOffset(count: nat): nat { 0x14 + 0x10 * count }

  function ValueOffset(kvs: seq<Pair>): nat { Align(KeyOffset(|kvs|) + |Concat(Keys(kvs))|, 4) }

  function HeaderFields(count: nat, valueOffset: nat): seq<nat> {
    [SFO_MAGIC, SFO_VERSION, KeyOffset(count), valueOffset, count]
  }

  function Front(count: nat, valueOffset: nat): (r: Buffer)
    ensures |r| == 0x14
  {
    EntrySize();
    Pack(LE, HEADER, HeaderFields(count, valueOffset))
  }

  function KeyPad(kvs: seq<Pair>): nat {
    AlignMeans(KeyOffset(|kvs|) + |Concat(Keys(kvs))|, 4);
    ValueOffset(kvs) - (KeyOffset(|kvs|) + |Concat(Keys(kvs))|)
  }

  function FileOf(kvs: seq<Pair>): Buffer {
    Front(|kvs|, ValueOffset(kvs)) + Concat(Entries(kvs)) + Concat(Keys(kvs)) + Zeros(KeyPad(kvs)) + Concat(Values(kvs))
  }

  predicate HeaderEncodes(count: nat, valueOffset: nat) { Fits(HEADER, HeaderFields(count, valueOffset)) }

  predicate EntriesEncode(kvs: seq<Pair>) { forall i | 0 <= i < |kvs| :: EntryEncodes(EntryOf(kvs, i)) }

  predicate AllWritable(kvs: seq<Pair>) { forall i | 0 <= i < |kvs| :: Writable(kvs[i]) }

  /** Everything fits into its field. */
  predicate Encodes(kvs: seq<Pair>) {
    HeaderEncodes(|kvs|, ValueOffset(kvs)) && EntriesEncode(kvs) && AllWritable(kvs)
  }

  function Converted(kvs: seq<Pair>): Written {
    if Encodes(kvs) then Written.Sfo(FileOf(kvs)) else Written.Failed
  }

  // ----- the writer

  method NewEntry(p: Pair, keyoff: nat, valueoff: nat) returns (e: Entry)
    ensures e == Entry(keyoff, ValueType(p), ValueLen(p), PaddedLen(p), valueoff)
  {
    match p.value
    case Integer(_) =>
      e := Entry(keyoff, SFO_INT, 4, 4, valueoff);
    case Text(v) =>
      var alignment := 4;
      if p.key == TITLE {
        alignment := 0x80;
      } else if p.key == LICENSE {
        alignment := 0x200;
      } else if p.key == TITLE_ID {
        alignment := 0x10;
      }
      e := Entry(keyoff, SFO_STRING, |v| + 1, Align(|v| + 1, alignment), valueoff);
  }

  method CollectEntries(kvs: seq<Pair>) returns (entries: seq<Entry>, keyoff: nat)
    ensures |entries| == |kvs| && keyoff == |Concat(Keys(kvs))|
    ensures forall i | 0 <= i < |kvs| :: entries[i] == EntryOf(kvs, i)
  {
    entries, keyoff := [], 0;
    var valueoff := 0;
    for i := 0 to |kvs|
      invariant |entries| == i && keyoff == Position(Keys(kvs), i) && valueoff == Position(Values(kvs), i)
      invariant FirstEntries(kvs, entries)
    {
      var entry := NewEntry(kvs[i], keyoff, valueoff);
      NextOffsets(kvs, i);
      OneEntryMore(kvs, entries, entry);
      keyoff := keyoff + (|kvs[i].key| + 1);
      valueoff := valueoff + entry.paddedLen;
      entries := entries + [entry];
    }
    assert Keys(kvs)[..|kvs|] == Keys(kvs);
  }

  ghost predicate FirstEntries(kvs: seq<Pair>, entries: seq<Entry>) {
    |entries| <= |kvs| && forall k | 0 <= k < |entries| :: entries[k] == EntryOf(kvs, k)
  }

  lemma OneEntryMore(kvs: seq<Pair>, entries: seq<Entry>, entry: Entry)
    requires |entries| < |kvs| && FirstEntries(kvs, entries) && entry == EntryOf(kvs, |entries|)
    ensures FirstEntries(kvs, entries + [entry])
  {
  }

  lemma NextOffsets(kvs: seq<Pair>, i: nat)
    requires i < |kvs|
    ensures Position(Keys(kvs), i + 1) == Position(Keys(kvs), i) + |kvs[i].key| + 1
    ensures Position(Values(kvs), i + 1) == Position(Values(kvs), i) + PaddedLen(kvs[i])
  {
    NextPosition(Keys(kvs), i);
    NextPosition(Values(kvs), i);
  }

  method PackEntry(e: Entry) returns (ok: bool, bytes: Buffer)
    ensures ok <==> EntryEncodes(e)
    ensures ok ==> bytes == EntryBytes(e)
  {
    if !Fits(ENTRY, EntryFields(e)) {
      return false, [];
    }
    return true, EntryBytes(e);
  }

  method WriteEntries(kvs: seq<Pair>, entries: seq<Entry>, start: Buffer) returns (ok: bool, file: Buffer)
    requires |entries| == |kvs| && forall i | 0 <= i < |kvs| :: entries[i] == EntryOf(kvs, i)
    ensures ok <==> EntriesEncode(kvs)
    ensures ok ==> file == start + Concat(Entries(kvs))
  {
    file := start;
    for i := 0 to |entries|
      invariant i <= |kvs| && EncodeUpTo(kvs, i) && EntriesWritten(kvs, start, file, i)
    {
      var fits, bytes := PackEntry(entries[i]);
      OneMoreEncodes(kvs, i, entries[i]);
      if !fits {
        return false, file;
      }
      EntryNext(kvs, start, file, bytes, i);
      file := file + bytes;
    }
    assert Entries(kvs)[..|kvs|] == Entries(kvs);
    ok := true;
  }

  predicate EncodeUpTo(kvs: seq<Pair>, n: nat)
    requires n <= |kvs|
  {
    forall k | 0 <= k < n :: EntryEncodes(EntryOf(kvs, k))
  }

  lemma OneMoreEncodes(kvs: seq<Pair>, i: nat, e: Entry)
    requires i < |kvs| && e == EntryOf(kvs, i)
    ensures EncodeUpTo(kvs, i) && EntryEncodes(e) ==> EncodeUpTo(kvs, i + 1)
    ensures !EntryEncodes(e) ==> !EntriesEncode(kvs)
  {
  }

  ghost predicate EntriesWritten(kvs: seq<Pair>, start: Buffer, file: Buffer, n: nat) {
    n <= |kvs| && file == start + Concat(Entries(kvs)[..n])
  }

  lemma EntryNext(kvs: seq<Pair>, start: Buffer, file: Buffer, bytes: Buffer, i: nat)
    requires i < |kvs| && EntriesWritten(kvs, start, file, i) && bytes == EntryBytes(EntryOf(kvs, i))
    ensures EntriesWritten(kvs, start, file + bytes, i + 1)
  {
    NextPosition(Entries(kvs), i);
    Associates(start, Concat(Entries(kvs)[..i]), bytes);
  }

  method WriteKeys(kvs: seq<Pair>, start: Buffer) returns (file: Buffer)
    ensures file == start + Concat(Keys(kvs))
  {
    file := start;
    for i := 0 to |kvs|
      invariant file == start + Concat(Keys(kvs)[..i])
    {
      NextPosition(Keys(kvs), i);
      Associates(start, Concat(Keys(kvs)[..i]), kvs[i].key + [0]);
      file := file + (kvs[i].key + [0]);
    }
    assert Keys(kvs)[..|kvs|] == Keys(kvs);
  }

  method WriteValue(p: Pair) returns (ok: bool, bytes: Buffer)
    ensures ok <==> Writable(p)
    ensures ok ==> bytes == ValueBytes(p)
  {
    match p.value
    case Integer(v) =>
      if !(0 <= v < TWO_32) {
        return false, [];
      }
      return true, LittleEndian(v, 4);
    case Text(v) =>
      AlignMeans(|v| + 1, Alignment(p.key));
      bytes := v + [0];
      bytes := bytes + Zeros(Align(|v| + 1, Alignment(p.key)) - (|v| + 1));
      return true, bytes;
  }

  method WriteValues(kvs: seq<Pair>, start: Buffer) returns (ok: bool, file: Buffer)
    ensures ok <==> AllWritable(kvs)
    ensures ok ==> file == start + Concat(Values(kvs))
  {
    file := start;
    for i := 0 to |kvs|
      invariant forall k | 0 <= k < i :: Writable(kvs[k])
      invariant file == start + FirstValues(kvs, i)
    {
      var fits, bytes := WriteValue(kvs[i]);
      if !fits {
        assert !AllWritable(kvs);
        return false, file;
      }
      OneValueMore(kvs, i, start, bytes);
      file := file + bytes;
    }
    assert Values(kvs)[..|kvs|] == Values(kvs);
    ok := true;
  }

  function FirstValues(kvs: seq<Pair>, i: nat): Buffer
    requires i <= |kvs|
  {
    Concat(Values(kvs)[..i])
  }

  lemma OneValueMore(kvs: seq<Pair>, i: nat, start: Buffer, bytes: Buffer)
    requires i < |kvs| && bytes == ValueBytes(kvs[i])
    ensures start + FirstValues(kvs, i) + bytes == start + FirstValues(kvs, i + 1)
  {
    NextPosition(Values(kvs), i);
    Associates(start, FirstValues(kvs, i), bytes);
  }

  /** The writer half of `convertToSFO`. */
  method ConvertToSfo(kvs: seq<Pair>) returns (r: Written)
    ensures r == Converted(kvs)
  {
    var entries, keyoff := CollectEntries(kvs);
    var keyOffset := 0x14 + 0x10 * |kvs|;
    var valueOffset := Align(keyOffset + keyoff, 4);
    assert valueOffset == ValueOffset(kvs);
    var keypad := KeyPad(kvs);
    if !HeaderEncodes(|kvs|, valueOffset) {
      return Written.Failed;
    }
    var ok, file := WriteEntries(kvs, entries, Front(|kvs|, valueOffset));
    if !ok {
      return Written.Failed;
    }
    file := WriteKeys(kvs, file);
    file := file + Zeros(keypad);
    ok, file := WriteValues(kvs, file);
    r := if ok then Written.Sfo(file) else Written.Failed;
  }
}
