/** The command stream of ppu/librsx: how 32-bit command words are built, and what they mean to the RSX. */
module RsxStream {
  import opened Arith
  import Bits
  import opened Words

  const MAX_METHOD_COUNT := 0x7ff

  type Word = x: int | 0 <= x < TWO_32

  datatype Option<T> = None | Some(value: T)

  // ----- building words

  function Shl(x: Word, k: nat): Word { x * Bits.Pow2(k) % TWO_32 }

  function Or32(a: Word, b: Word): Word {
    Bits.PowersOfTwo();
    Bits.OrBound(a, b, 32);
    Bits.Or(a, b)
  }

  /** RSX_METHOD, RSX_METHOD_NI and RSX_SUBCHANNEL_METHOD. */
  function Method(reg: Word, count: Word): Word { Or32(Shl(count, 18), reg) }
  function FixedMethod(reg: Word, count: Word): Word { Or32(Method(reg, count), 0x4000_0000) }
  function ChannelMethod(channel: Word, reg: Word, count: Word): Word {
    Or32(Or32(Shl(count, 18), Shl(channel, 13)), reg)
  }

  // ----- what a header says

  /** No jump, call or return. */
  predicate IsMethod(w: int) {
    0 <= w && w / 0x8000_0000 == 0 && w / 0x2000_0000 % 2 == 0 && w / 0x1_0000 % 4 == 0 && w % 4 == 0
  }

  function CountOf(w: int): nat { w / 0x4_0000 % 0x800 }
  function ChannelOf(w: int): nat { w / 0x2000 % 8 }
  function MethodOf(w: int): nat { w % 0x2000 }
  predicate IsFixed(w: int) { w / 0x4000_0000 % 2 == 1 }

  lemma {:induction false} OrComm(a: nat, b: nat)
    ensures Bits.Or(a, b) == Bits.Or(b, a)
    decreases a + b
  {
    if a != 0 && b != 0 {
      OrComm(a / 2, b / 2);
    }
  }

  /** Fields that do not overlap are added by `|`. */
  lemma OrFields(high: Word, low: Word, k: nat)
    requires low < Bits.Pow2(k) && high * Bits.Pow2(k) < TWO_32
    ensures Or32(Shl(high, k), low) == high * Bits.Pow2(k) + low
    ensures Or32(low, Shl(high, k)) == high * Bits.Pow2(k) + low
  {
    var h := high * Bits.Pow2(k);
    assert h >= 0;
    DivModUnique(h, TWO_32, 0, h);
    Bits.OrIsSum(high, low, k);
    OrComm(h, low);
  }

  lemma Shifts()
    ensures Bits.Pow2(13) == 0x2000 && Bits.Pow2(18) == 0x4_0000 && Bits.Pow2(24) == 0x100_0000
      && Bits.Pow2(30) == 0x4000_0000
  {
    Bits.PowersOfTwo();
    assert Bits.Pow2(5) == 32 && Bits.Pow2(2) == 4 && Bits.Pow2(6) == 64;
    Bits.Pow2Adds(8, 5);
    Bits.Pow2Adds(16, 2);
    Bits.Pow2Adds(16, 8);
    Bits.Pow2Adds(24, 6);
  }

  lemma HeaderFields(w: nat, fixed: nat, count: nat, channel: nat, reg: nat)
    requires fixed <= 1 && count <= MAX_METHOD_COUNT && channel < 8 && reg < 0x2000 && reg % 4 == 0
    requires w == fixed * 0x4000_0000 + count * 0x4_0000 + channel * 0x2000 + reg
    ensures IsMethod(w) && CountOf(w) == count && ChannelOf(w) == channel && MethodOf(w) == reg
    ensures IsFixed(w) <==> fixed == 1
  {
    DivModUnique(w, 0x2000, fixed * 0x2_0000 + count * 0x20 + channel, reg);
    DivModUnique(fixed * 0x2_0000 + count * 0x20 + channel, 8, fixed * 0x4000 + count * 4, channel);
    DivModUnique(w, 0x4_0000, fixed * 0x1000 + count, channel * 0x2000 + reg);
    DivModUnique(fixed * 0x1000 + count, 0x800, fixed * 2, count);
    DivModUnique(w, 0x4000_0000, fixed, count * 0x4_0000 + channel * 0x2000 + reg);
    DivModUnique(w, 0x2000_0000, fixed * 2, count * 0x4_0000 + channel * 0x2000 + reg);
    DivModUnique(w, 0x8000_0000, 0, w);
    DivModUnique(w, 0x1_0000, fixed * 0x4000 + count * 4, channel * 0x2000 + reg);
    DivModUnique(w, 4, fixed * 0x1000_0000 + count * 0x1_0000 + channel * 0x800 + reg / 4, 0);
  }

  lemma MethodReads(reg: Word, count: Word)
    requires count <= MAX_METHOD_COUNT && reg < 0x2000 && reg % 4 == 0
    ensures Method(reg, count) == count * 0x4_0000 + reg
    ensures var w := Method(reg, count);
      IsMethod(w) && CountOf(w) == count && ChannelOf(w) == 0 && MethodOf(w) == reg && !IsFixed(w)
  {
    Shifts();
    OrFields(count, reg, 18);
    HeaderFields(Method(reg, count), 0, count, 0, reg);
  }

  lemma FixedMethodReads(reg: Word, count: Word)
    requires count <= MAX_METHOD_COUNT && reg < 0x2000 && reg % 4 == 0
    ensures var w := FixedMethod(reg, count);
      IsMethod(w) && CountOf(w) == count && ChannelOf(w) == 0 && MethodOf(w) == reg && IsFixed(w)
  {
    FixedMethodIs(reg, count);
    HeaderFields(FixedMethod(reg, count), 1, count, 0, reg);
  }

  lemma FixedMethodIs(reg: Word, count: Word)
    requires count <= MAX_METHOD_COUNT && reg < 0x2000 && reg % 4 == 0
    ensures FixedMethod(reg, count) == 0x4000_0000 + count * 0x4_0000 + reg
  {
    MethodReads(reg, count);
    FlagAdds(Method(reg, count));
  }

  lemma FlagAdds(w: Word)
    requires w < 0x4000_0000
    ensures Or32(w, 0x4000_0000) == 0x4000_0000 + w
  {
    Shifts();
    DivModUnique(0x4000_0000, TWO_32, 0, 0x4000_0000);
    assert Shl(1, 30) == 0x4000_0000;
    OrFields(1, w, 30);
  }

  lemma ChannelMethodReads(channel: Word, reg: Word, count: Word)
    requires count <= MAX_METHOD_COUNT && channel < 8 && reg < 0x2000 && reg % 4 == 0
    ensures var w := ChannelMethod(channel, reg, count);
      IsMethod(w) && CountOf(w) == count && ChannelOf(w) == channel && MethodOf(w) == reg && !IsFixed(w)
  {
    Shifts();
    var c := count * 0x20 + channel;
    DivModUnique(channel * 0x2000, TWO_32, 0, channel * 0x2000);
    OrFields(count, Shl(channel, 13), 18);
    assert Or32(Shl(count, 18), Shl(channel, 13)) == c * 0x2000;
    DivModUnique(c * 0x2000, TWO_32, 0, c * 0x2000);
    OrFields(c, reg, 13);
    HeaderFields(ChannelMethod(channel, reg, count), 0, count, channel, reg);
  }

  // ----- what a stream means

  /** A value written to a method register. */
  datatype Write = Write(channel: nat, reg: nat, value: int)

  function PacketWrites(header: int, data: seq<int>): seq<Write> {
    seq(|data|, i requires 0 <= i < |data| =>
      Write(ChannelOf(header), MethodOf(header) + (if IsFixed(header) then 0 else 4 * i), data[i]))
  }

  /** The register writes of a stream; None if it is cut off inside a packet or holds anything but packets. */
  function Decode(words: seq<int>): Option<seq<Write>> {
    if words == [] then Some([])
    else
      var n := CountOf(words[0]);
      if !IsMethod(words[0]) || |words| < n + 1 then None
      else
        match Decode(words[n + 1..])
        case None => None
        case Some(rest) => Some(PacketWrites(words[0], words[1..n + 1]) + rest)
  }

  lemma DecodePacket(header: int, data: seq<int>, rest: seq<int>)
    requires IsMethod(header) && CountOf(header) == |data|
    ensures Decode([header] + data + rest) ==
      match Decode(rest)
      case None => None
      case Some(writes) => Some(PacketWrites(header, data) + writes)
  {
    var words := [header] + data + rest;
    assert words[0] == header && words[1..|data| + 1] == data && words[|data| + 1..] == rest;
  }

  lemma SplitAt(a: seq<int>, b: seq<int>, n: nat)
    requires |a| > n
    ensures a == [a[0]] + a[1..n + 1] + a[n + 1..]
    ensures a + b == [a[0]] + a[1..n + 1] + (a[n + 1..] + b)
  {
  }

  lemma Regroup(a: seq<Write>, b: seq<Write>, c: seq<Write>)
    ensures a + b + c == a + (b + c)
  {
  }

  lemma FirstPacket(words: seq<int>)
    requires Decode(words).Some? && words != []
    ensures IsMethod(words[0]) && |words| > CountOf(words[0]) && Decode(words[CountOf(words[0]) + 1..]).Some?
  {
  }

  lemma {:induction false} DecodeAppend(a: seq<int>, b: seq<int>)
    requires Decode(a).Some? && Decode(b).Some?
    ensures Decode(a + b) == Some(Decode(a).value + Decode(b).value)
  {
    if a == [] {
      assert a + b == b && [] + Decode(b).value == Decode(b).value;
    } else {
      FirstPacket(a);
      var header, n := a[0], CountOf(a[0]);
      var data, rest := a[1..n + 1], a[n + 1..];
      SplitAt(a, b, n);
      DecodePacket(header, data, rest);
      DecodeAppend(rest, b);
      DecodePacket(header, data, rest + b);
      Regroup(PacketWrites(header, data), Decode(rest).value, Decode(b).value);
    }
  }

  /** The words after `before` write exactly `writes`. */
  ghost predicate Emits(before: seq<int>, after: seq<int>, writes: seq<Write>) {
    before <= after && Decode(after[|before|..]) == Some(writes)
  }

  lemma EmitsThen(a: seq<int>, b: seq<int>, c: seq<int>, w1: seq<Write>, w2: seq<Write>)
    requires Emits(a, b, w1) && Emits(b, c, w2)
    ensures Emits(a, c, w1 + w2)
  {
    DecodeAppend(b[|a|..], c[|b|..]);
    assert c[|a|..] == b[|a|..] + c[|b|..];
  }

  lemma EmitsNothing(a: seq<int>)
    ensures Emits(a, a, [])
  {
  }

  lemma EmitsPacket(before: seq<int>, after: seq<int>, header: int, data: seq<int>)
    requires after == before + [header] + data && IsMethod(header) && CountOf(header) == |data|
    ensures Emits(before, after, PacketWrites(header, data))
  {
    var tail := [header] + data;
    assert after[|before|..] == tail;
    assert tail[1..|data| + 1] == data && tail[|data| + 1..] == [];
    assert PacketWrites(header, data) + [] == PacketWrites(header, data);
  }

  /** One packet of each kind. */
  lemma EmitsMethod(before: seq<int>, after: seq<int>, reg: Word, data: seq<int>)
    requires |data| <= MAX_METHOD_COUNT && reg < 0x2000 && reg % 4 == 0
    requires after == before + [Method(reg, |data|)] + data
    ensures Emits(before, after, seq(|data|, i requires 0 <= i < |data| => Write(0, reg + 4 * i, data[i])))
  {
    MethodReads(reg, |data|);
    EmitsPacket(before, after, Method(reg, |data|), data);
    assert PacketWrites(Method(reg, |data|), data) == seq(|data|,
                                                          i requires 0 <= i < |data| => Write(0, reg + 4 * i, data[i]));
  }

  lemma EmitsFixed(before: seq<int>, after: seq<int>, reg: Word, data: seq<int>)
    requires |data| <= MAX_METHOD_COUNT && reg < 0x2000 && reg % 4 == 0
    requires after == before + [FixedMethod(reg, |data|)] + data
    ensures Emits(before, after, seq(|data|, i requires 0 <= i < |data| => Write(0, reg, data[i])))
  {
    FixedMethodReads(reg, |data|);
    EmitsPacket(before, after, FixedMethod(reg, |data|), data);
    assert PacketWrites(FixedMethod(reg, |data|), data)
      == seq(|data|, i requires 0 <= i < |data| => Write(0, reg, data[i]));
  }

  lemma EmitsChannel(before: seq<int>, after: seq<int>, channel: Word, reg: Word, data: seq<int>)
    requires |data| <= MAX_METHOD_COUNT && channel < 8 && reg < 0x2000 && reg % 4 == 0
    requires after == before + [ChannelMethod(channel, reg, |data|)] + data
    ensures Emits(before, after, seq(|data|, i requires 0 <= i < |data| => Write(channel, reg + 4 * i, data[i])))
  {
    ChannelMethodReads(channel, reg, |data|);
    EmitsPacket(before, after, ChannelMethod(channel, reg, |data|), data);
    assert PacketWrites(ChannelMethod(channel, reg, |data|), data)
        == seq(|data|, i requires 0 <= i < |data| => Write(channel, reg + 4 * i, data[i]));
  }

  // ----- the context

  /** The command buffer: the words up to the cursor. `reserved` counts the words that BEGIN asked for, and
    `exact` says that whenever BEGIN was called, all that had been asked for had been written. */
  class Context {
    var words: seq<int>
    ghost var reserved: nat
    ghost var exact: bool

    constructor ()
      ensures words == [] && reserved == 0 && exact
    {
      words := [];
      reserved := 0;
      exact := true;
    }

    ghost predicate Filled()
      reads this
    {
      exact && |words| == reserved
    }

    method Begin(count: Word)
      modifies `reserved, `exact
      ensures reserved == old(reserved) + count && exact == old(Filled())
    {
      exact := exact && |words| == reserved;
      reserved := reserved + count;
    }

    method Put(word: Word)
      modifies `words
      ensures words == old(words) + [word]
    {
      words := words + [word];
    }
  }
}
