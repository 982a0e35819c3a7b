/** What lies where in a parameter file, byte by byte. */
module SfoFormat {
  import opened Bytes
  import opened StructFormat
  import opened Sfo
  import opened SfoReader

  /** A number in the file, lowest byte first. */
  function Low(data: Buffer, at: nat, n: nat): nat
    requires at + n <= |data|
  {
    FromLittleEndian(data[at..at + n])
  }

  /** The file begins with a mark and a version, and says where the keys and the values are, and how many. */
  lemma FileBegins(kvs: seq<Pair>, data: Buffer)
    requires Encodes(kvs) && data == FileOf(kvs)
    ensures |data| >= 0x14 && Low(data, 0, 4) == 0x4653_5000 && Low(data, 4, 4) == 0x101
    ensures Low(data, 8, 4) == 0x14 + 0x10 * |kvs| && Low(data, 0x10, 4) == |kvs|
    ensures Low(data, 0xC, 4) == ValueOffset(kvs)
  {
    FrontFirst(kvs, data);
    FrontNumbers(data, |kvs|, ValueOffset(kvs));
  }

  /** The values begin at the next multiple of four behind the keys. */
  lemma ValuesFollow(kvs: seq<Pair>)
    ensures var end := KeyOffset(|kvs|) + |Concat(Keys(kvs))|;
      end <= ValueOffset(kvs) < end + 4 && ValueOffset(kvs) % 4 == 0
  {
    AlignMeans(KeyOffset(|kvs|) + |Concat(Keys(kvs))|, 4);
  }

  lemma FrontNumbers(data: Buffer, count: nat, valueOffset: nat)
    requires HeaderEncodes(count, valueOffset)
    requires |data| >= 0x14 && data[0..0x14] == Pack(LE, HEADER, HeaderFields(count, valueOffset))
    ensures Low(data, 0, 4) == 0x4653_5000 && Low(data, 4, 4) == 0x101
    ensures Low(data, 8, 4) == 0x14 + 0x10 * count && Low(data, 0x10, 4) == count && Low(data, 0xC, 4) == valueOffset
  {
    FrontFields(data, HEADER, HeaderFields(count, valueOffset));
  }

  lemma FrontFirst(kvs: seq<Pair>, data: Buffer)
    requires Encodes(kvs) && data == FileOf(kvs)
    ensures |data| >= 0x14 && data[0..0x14] == Pack(LE, HEADER, HeaderFields(|kvs|, ValueOffset(kvs)))
  {
    var front, entries := Front(|kvs|, ValueOffset(kvs)), Concat(Entries(kvs));
    Regroup(front, entries, Concat(Keys(kvs)), Zeros(KeyPad(kvs)), Concat(Values(kvs)));
    assert data[..0x14] == front;
  }

  lemma FrontFields(data: Buffer, widths: Layout, values: seq<nat>)
    requires widths == [4, 4, 4, 4, 4] && Fits(widths, values)
    requires |data| >= 0x14 && data[0..0x14] == Pack(LE, widths, values)
    ensures Low(data, 0, 4) == values[0] && Low(data, 4, 4) == values[1] && Low(data, 8, 4) == values[2]
    ensures Low(data, 0xC, 4) == values[3] && Low(data, 0x10, 4) == values[4]
  {
    var bytes := data[0..0x14];
    SizeNext(widths, 0);
    PackedReads(LE, data, 0, widths, values, bytes, 0, 0, 4);
    SizeNext(widths, 1);
    PackedReads(LE, data, 0, widths, values, bytes, 1, 4, 4);
    SizeNext(widths, 2);
    PackedReads(LE, data, 0, widths, values, bytes, 2, 8, 4);
    SizeNext(widths, 3);
    PackedReads(LE, data, 0, widths, values, bytes, 3, 0xC, 4);
    PackedReads(LE, data, 0, widths, values, bytes, 4, 0x10, 4);
  }

  /** Its entry `i` says of which type and how long the value is, and where key and value lie. */
  ghost predicate Names(data: Buffer, at: nat, p: Pair)
    requires at + 0x10 <= |data| && |data| >= 0x14
  {
    var keyAt, valueAt := Low(data, 8, 4) + Low(data, at, 2), Low(data, 0xC, 4) + Low(data, at + 0xC, 4);
    var length, room := Low(data, at + 4, 4), Low(data, at + 8, 4);
    && Low(data, at + 2, 1) == 4 && Holds(data, keyAt, p.key + [0])
    && match p.value
       case Integer(n) =>
         && Low(data, at + 3, 1) == 4 && length == room == 4
         && valueAt + 4 <= |data| && Low(data, valueAt, 4) == n
       case Text(text) =>
         && Low(data, at + 3, 1) == 2 && length == |text| + 1 <= room && room % Room(p.key) == 0
         && room < length + Room(p.key) && Holds(data, valueAt, text + [0] + Zeros(room - length))
  }

  /** Some values have places of a fixed size. */
  function Room(key: Buffer): nat
    ensures Room(key) > 0
  {
    if key == [0x54, 0x49, 0x54, 0x4C, 0x45] then 0x80
    else if key == [0x4C, 0x49, 0x43, 0x45, 0x4E, 0x53, 0x45] then 0x200
    else if key == [0x54, 0x49, 0x54, 0x4C, 0x45, 0x5F, 0x49, 0x44] then 0x10
    else 4
  }

  lemma EntryNames(kvs: seq<Pair>, i: nat, data: Buffer, at: nat)
    requires Encodes(kvs) && data == FileOf(kvs) && i < |kvs| && at == 0x14 + 0x10 * i
    ensures at + 0x10 <= |data| && |data| >= 0x14 && Names(data, at, kvs[i])
  {
    var e := EntryOf(kvs, i);
    FileBegins(kvs, data);
    EntryThere(kvs, i, data, at, e);
    EntryFieldsAre(data, at, e);
    var keyAt, valueAt := KeyOffset(|kvs|) + e.keyOff, ValueOffset(kvs) + e.valueOff;
    KeyThere(kvs, i, data, keyAt);
    ValueThere(kvs, i, data, valueAt);
    EntryNamesPair(data, at, kvs[i], e, keyAt, valueAt);
  }

  lemma EntryNamesPair(data: Buffer, at: nat, p: Pair, e: Entry, keyAt: nat, valueAt: nat)
    requires at + 0x10 <= |data| && |data| >= 0x14 && Writable(p)
    requires Low(data, at, 2) == e.keyOff && Low(data, at + 2, 1) == 4 && Low(data, at + 3, 1) == e.valueType
    requires Low(data, at + 4, 4) == e.valueLen && Low(data, at + 8, 4) == e.paddedLen
    requires Low(data, at + 0xC, 4) == e.valueOff
    requires e.valueType == ValueType(p) && e.valueLen == ValueLen(p) && e.paddedLen == PaddedLen(p)
    requires keyAt == Low(data, 8, 4) + e.keyOff && valueAt == Low(data, 0xC, 4) + e.valueOff
    requires Holds(data, keyAt, p.key + [0]) && Holds(data, valueAt, ValueBytes(p))
    ensures Names(data, at, p)
  {
    ValueIs(data, valueAt, p);
  }

  lemma EntryThere(kvs: seq<Pair>, i: nat, data: Buffer, at: nat, e: Entry)
    requires Encodes(kvs) && data == FileOf(kvs) && i < |kvs| && at == KeyOffset(i) && e == EntryOf(kvs, i)
    ensures at + 0x10 <= |data| && data[at..at + 0x10] == EntryBytes(e) && EntryEncodes(e)
  {
    EntryHeld(kvs, i, data, e);
    assert EntryEncodes(EntryOf(kvs, i));
  }

  lemma EntryFieldsAre(data: Buffer, at: nat, e: Entry)
    requires at + 0x10 <= |data| && data[at..at + 0x10] == EntryBytes(e) && EntryEncodes(e)
    ensures Low(data, at, 2) == e.keyOff && Low(data, at + 2, 1) == 4 && Low(data, at + 3, 1) == e.valueType
    ensures Low(data, at + 4, 4) == e.valueLen && Low(data, at + 8, 4) == e.paddedLen
    ensures Low(data, at + 0xC, 4) == e.valueOff
  {
    var values, bytes := EntryFields(e), data[at..at + 0x10];
    SizeNext(ENTRY, 0);
    PackedReads(LE, data, at, ENTRY, values, bytes, 0, 0, 2);
    SizeNext(ENTRY, 1);
    PackedReads(LE, data, at, ENTRY, values, bytes, 1, 2, 1);
    SizeNext(ENTRY, 2);
    PackedReads(LE, data, at, ENTRY, values, bytes, 2, 3, 1);
    SizeNext(ENTRY, 3);
    PackedReads(LE, data, at, ENTRY, values, bytes, 3, 4, 4);
    SizeNext(ENTRY, 4);
    PackedReads(LE, data, at, ENTRY, values, bytes, 4, 8, 4);
    PackedReads(LE, data, at, ENTRY, values, bytes, 5, 0xC, 4);
  }

  lemma KeyThere(kvs: seq<Pair>, i: nat, data: Buffer, from: nat)
    requires i < |kvs| && data == FileOf(kvs) && from == KeyOffset(|kvs|) + EntryOf(kvs, i).keyOff
    ensures Holds(data, from, kvs[i].key + [0])
  {
    var front, entries := Front(|kvs|, ValueOffset(kvs)), Concat(Entries(kvs));
    var keys, pad, values := Concat(Keys(kvs)), Zeros(KeyPad(kvs)), Concat(Values(kvs));
    Lengths(kvs);
    Regroup(front, entries, keys, pad, values);
    PieceHeld(front + entries, Keys(kvs), pad + values, i, from, data);
  }

  lemma ValueThere(kvs: seq<Pair>, i: nat, data: Buffer, from: nat)
    requires i < |kvs| && data == FileOf(kvs) && from == ValueOffset(kvs) + EntryOf(kvs, i).valueOff
    ensures Holds(data, from, ValueBytes(kvs[i]))
  {
    var front, entries := Front(|kvs|, ValueOffset(kvs)), Concat(Entries(kvs));
    Lengths(kvs);
    ValueReads(kvs, i, data, front + entries + Concat(Keys(kvs)) + Zeros(KeyPad(kvs)), from);
  }

  lemma ValueIs(data: Buffer, from: nat, p: Pair)
    requires Holds(data, from, ValueBytes(p)) && Writable(p)
    ensures p.value.Integer? ==> from + 4 <= |data| && Low(data, from, 4) == p.value.number
    ensures p.value.Text? ==>
      var length, room := |p.value.text| + 1, PaddedLen(p);
      && length <= room < length + Room(p.key) && room % Room(p.key) == 0
      && Holds(data, from, p.value.text + [0] + Zeros(room - length))
  {
    if p.value.Integer? {
      NumberBytes(p, p.value.number);
      HoldsPrefix(data, from, ValueBytes(p), 4);
      SliceWithin(data, from, 4);
    } else {
      AlignMeans(|p.value.text| + 1, Alignment(p.key));
    }
  }
}
