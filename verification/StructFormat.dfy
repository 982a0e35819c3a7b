/** Fixed layouts of unsigned numbers, as `Struct.pack` writes and `Struct.unpack` reads them. */
module StructFormat {
  import opened Bytes

  datatype Endian = BE | LE

  /** The widths of the fields in bytes. */
  type Layout = seq<nat>

  function Size(widths: Layout): nat {
    if widths == [] then 0 else widths[0] + Size(widths[1..])
  }

  lemma {:induction false} SizeAdds(a: Layout, b: Layout)
    ensures Size(a + b) == Size(a) + Size(b)
  {
    if a == [] {
      assert a + b == b;
    } else {
      assert (a + b)[1..] == a[1..] + b;
      SizeAdds(a[1..], b);
    }
  }

  lemma SizeNext(widths: Layout, i: nat)
    requires i < |widths|
    ensures Size(widths[..i + 1]) == Size(widths[..i]) + widths[i]
  {
    assert widths[..i + 1] == widths[..i] + [widths[i]];
    SizeAdds(widths[..i], [widths[i]]);
  }

  lemma {:induction false} SizeUniform(a: Layout, n: nat)
    requires forall i | 0 <= i < |a| :: a[i] == n
    ensures Size(a) == |a| * n
  {
    if a != [] {
      SizeUniform(a[1..], n);
      assert |a| * n == (|a| - 1) * n + n;
    }
  }

  /** Anything else makes `struct.pack` raise an error. */
  predicate Fits(widths: Layout, values: seq<nat>) {
    |values| == |widths| && forall i | 0 <= i < |widths| :: values[i] < Power(widths[i])
  }

  function Number(e: Endian, x: nat, n: nat): (r: Buffer)
    ensures |r| == n
  {
    if e.BE? then BigEndian(x, n) else LittleEndian(x, n)
  }

  function FromNumber(e: Endian, s: Buffer): nat {
    if e.BE? then FromBigEndian(s) else FromLittleEndian(s)
  }

  function Pack(e: Endian, widths: Layout, values: seq<nat>): (r: Buffer)
    requires |values| == |widths|
    ensures |r| == Size(widths)
  {
    if widths == [] then [] else Number(e, values[0], widths[0]) + Pack(e, widths[1..], values[1..])
  }

  function Unpack(e: Endian, widths: Layout, data: Buffer): (r: seq<nat>)
    requires |data| == Size(widths)
    ensures |r| == |widths|
  {
    if widths == [] then [] else [FromNumber(e, data[..widths[0]])] + Unpack(e, widths[1..], data[widths[0]..])
  }

  lemma NumberReads(e: Endian, x: nat, n: nat)
    requires x < Power(n)
    ensures FromNumber(e, Number(e, x, n)) == x
  {
    if e.BE? {
      BigEndianReads(x, n);
    } else {
      LittleEndianReads(x, n);
    }
  }

  /** What fits is read back. */
  lemma {:induction false} UnpackPack(e: Endian, widths: Layout, values: seq<nat>)
    requires Fits(widths, values)
    ensures Unpack(e, widths, Pack(e, widths, values)) == values
    decreases |widths|
  {
    if widths != [] {
      var n := widths[0];
      var first, rest := Number(e, values[0], n), Pack(e, widths[1..], values[1..]);
      NumberReads(e, values[0], n);
      FitsRest(widths, values);
      UnpackPack(e, widths[1..], values[1..]);
      assert (first + rest)[..n] == first && (first + rest)[n..] == rest;
      assert values == [values[0]] + values[1..];
    }
  }

  lemma FitsRest(widths: Layout, values: seq<nat>)
    requires widths != [] && Fits(widths, values)
    ensures Fits(widths[1..], values[1..])
  {
    forall i | 0 <= i < |widths| - 1 ensures values[1..][i] < Power(widths[1..][i]) {
      assert values[1..][i] == values[i + 1] && widths[1..][i] == widths[i + 1];
    }
  }

  /** Field `i` begins after the fields before it. */
  lemma PackedField(e: Endian, widths: Layout, values: seq<nat>, i: nat)
    requires |values| == |widths| && i < |widths|
    ensures Size(widths[..i]) + widths[i] <= Size(widths)
    ensures Pack(e, widths, values)[Size(widths[..i])..Size(widths[..i]) + widths[i]] == Number(e, values[i], widths[i])
  {
    FieldAt(e, widths, values, i, Size(widths[..i]), widths[i]);
  }

  lemma {:induction false} FieldAt(e: Endian, widths: Layout, values: seq<nat>, i: nat, from: nat, n: nat)
    requires |values| == |widths| && i < |widths| && from == Size(widths[..i]) && n == widths[i]
    ensures from + n <= Size(widths) && Pack(e, widths, values)[from..from + n] == Number(e, values[i], n)
    decreases i
  {
    var first, rest := Number(e, values[0], widths[0]), Pack(e, widths[1..], values[1..]);
    if i == 0 {
      assert widths[..0] == [];
      assert (first + rest)[..n] == first;
    } else {
      var at := Size(widths[1..][..i - 1]);
      FieldAt(e, widths[1..], values[1..], i - 1, at, n);
      SizeOfMore(widths, i);
      FieldBehind(Pack(e, widths, values), first, rest, at, from, n);
    }
  }

  lemma SizeOfMore(widths: Layout, i: nat)
    requires 0 < i <= |widths|
    ensures Size(widths[..i]) == widths[0] + Size(widths[1..][..i - 1])
  {
    assert widths[..i][1..] == widths[1..][..i - 1];
  }

  lemma FieldBehind(all: Buffer, first: Buffer, rest: Buffer, at: nat, from: nat, n: nat)
    requires all == first + rest && from == |first| + at && at + n <= |rest|
    ensures all[from..from + n] == rest[at..at + n]
  {
    Behind(first, rest, at, at + n);
  }

  /** A field is read from behind the fields before it. */
  lemma {:induction false} UnpackedField(e: Endian, widths: Layout, data: Buffer, i: nat, from: nat, n: nat)
    requires |data| == Size(widths) && i < |widths| && from == Size(widths[..i]) && n == widths[i]
    ensures from + n <= |data| && Unpack(e, widths, data)[i] == FromNumber(e, data[from..from + n])
    decreases i
  {
    if i == 0 {
      assert widths[..0] == [];
    } else {
      var rest, at := data[widths[0]..], Size(widths[1..][..i - 1]);
      UnpackedField(e, widths[1..], rest, i - 1, at, n);
      SizeOfMore(widths, i);
      assert data[from..from + n] == rest[at..at + n];
    }
  }

  /** Field `i` of a structure that lies at `from`. */
  lemma PackedReads(e: Endian, content: Buffer, from: nat, widths: Layout, values: seq<nat>, bytes: Buffer, i: nat,
                    at: nat, n: nat)
    requires Fits(widths, values) && i < |widths| && at == Size(widths[..i]) && n == widths[i]
    requires bytes == Pack(e, widths, values) && from + |bytes| <= |content| && content[from..from + |bytes|] == bytes
    ensures from + at + n <= |content| && FromNumber(e, content[from + at..from + at + n]) == values[i]
  {
    FieldAt(e, widths, values, i, at, n);
    NumberAt(e, content, from, bytes, at, n, values[i]);
  }

  lemma NumberAt(e: Endian, content: Buffer, from: nat, bytes: Buffer, at: nat, n: nat, x: nat)
    requires at + n <= |bytes| && bytes[at..at + n] == Number(e, x, n) && x < Power(n)
    requires from + |bytes| <= |content| && content[from..from + |bytes|] == bytes
    ensures FromNumber(e, content[from + at..from + at + n]) == x
  {
    Inside(content, bytes, from, at, n);
    NumberReads(e, x, n);
  }
}
