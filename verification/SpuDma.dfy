/** `spu_dma_large_cmd`: a transfer of any size as a sequence of commands of legal sizes. */
module SpuDma {
  import opened Arith
  import Bits
  import opened Words

  const MAX_DMA_BLOCK_SIZE := 16384

  type Word32 = x: int | 0 <= x < TWO_32
  type Word64 = x: int | 0 <= x < TWO_64

  /** One command to the memory flow controller. */
  datatype Command = Command(ls: Word32, ea: Word64, size: Word32, tag: Word32, cmd: Word32)

  // ----- what the commands should do

  /** 1, 2, 4, 8 or a multiple of 16 up to the largest block. */
  predicate LegalSize(n: int) {
    n == 1 || n == 2 || n == 4 || n == 8 || (16 <= n <= MAX_DMA_BLOCK_SIZE && n % 16 == 0)
  }

  /** The alignment a transfer of a legal size needs on both sides. */
  function NaturalAlignment(n: int): int {
    if n == 1 || n == 2 || n == 4 || n == 8 then n else 16
  }

  /** The commands move `size` bytes from `ea` to `ls` (or back), each byte once and in order. */
  predicate Transfers(commands: seq<Command>, ls: int, ea: int, size: int, tag: Word32, cmd: Word32) {
    if commands == [] then size == 0
    else
      var c := commands[0];
      && c.ls == ls % TWO_32 && c.ea == ea % TWO_64 && c.tag == tag && c.cmd == cmd
      && LegalSize(c.size) && Transfers(commands[1..], ls + c.size, ea + c.size, size - c.size, tag, cmd)
  }

  predicate Aligned(c: Command) {
    c.ls % NaturalAlignment(c.size) == 0 && c.ea % NaturalAlignment(c.size) == 0
  }

  /** The byte at distance `b` from the start is moved by exactly one command, at the same distance on both sides. */
  function Movers(commands: seq<Command>, from: int, b: int): nat {
    if commands == [] then 0
    else (if from <= b < from + commands[0].size then 1 else 0) + Movers(commands[1..], from + commands[0].size, b)
  }

  lemma {:induction false} EachByteOnce(commands: seq<Command>, ls: int, ea: int, size: int, tag: Word32, cmd: Word32,
                                        from: int, b: int)
    requires Transfers(commands, ls, ea, size, tag, cmd)
    ensures size >= 0 && Movers(commands, from, b) == if from <= b < from + size then 1 else 0
  {
    if commands != [] {
      var n := commands[0].size;
      EachByteOnce(commands[1..], ls + n, ea + n, size - n, tag, cmd, from + n, b);
    }
  }

  // ----- the size of the next command

  /** The largest legal size that fits. */
  function Chunk(left: Word32): Word32 {
    if left >= MAX_DMA_BLOCK_SIZE then MAX_DMA_BLOCK_SIZE
    else if left >= 16 then left - left % 16
    else if left >= 8 then 8
    else if left >= 4 then 4
    else if left >= 2 then 2
    else 1
  }

  lemma ChunkIsLargest(left: Word32, n: int)
    requires left > 0
    ensures LegalSize(Chunk(left)) && Chunk(left) <= left
    ensures LegalSize(n) && n <= left ==> n <= Chunk(left)
  {
    if 16 <= left < MAX_DMA_BLOCK_SIZE {
      var q, r := left / 16, left % 16;
      DivModUnique(left - r, 16, q, 0);
      if LegalSize(n) && n <= left && n >= 16 {
        ProductMonotone(n / 16, q, 16);
      }
    }
  }

  /** The cascade of selections: each replaces the one before it when the size is large enough. */
  method SelectChunk(size: Word32) returns (chunk: Word32)
    ensures chunk == Chunk(size)
  {
    var tmp: int := if size > 1 then 2 else 1;
    tmp := if size > 3 then 4 else tmp;
    tmp := if size > 7 then 8 else tmp;
    var masked := MaskLow(size);
    tmp := if size > 15 then masked else tmp;
    tmp := if size > 16383 then MAX_DMA_BLOCK_SIZE else tmp;
    chunk := tmp;
  }

  /** `spu_and(size, -16)`. */
  method MaskLow(size: Word32) returns (masked: Word32)
    ensures masked == size - size % 16
  {
    Bits.PowersOfTwo();
    Bits.ClearLow(size, 32, 4);
    masked := Bits.And(size, TWO_32 - 16);
  }

  /** How many commands a transfer takes: full blocks, one multiple of 16, and one for every bit of the rest. */
  function CommandCount(size: int): int
    requires size >= 0
  {
    size / MAX_DMA_BLOCK_SIZE + (if size % MAX_DMA_BLOCK_SIZE >= 16 then 1 else 0) + SmallCount(size % 16)
  }

  function SmallCount(r: int): int {
    (if r / 8 % 2 == 1 then 1 else 0) + (if r / 4 % 2 == 1 then 1 else 0) + (if r / 2 % 2 == 1 then 1 else 0) + r % 2
  }

  lemma OneCommandLess(size: Word32)
    requires size > 0
    ensures Chunk(size) <= size && CommandCount(size) == 1 + CommandCount(size - Chunk(size))
  {
    if size >= MAX_DMA_BLOCK_SIZE {
      BlockLess(size);
    } else if size >= 16 {
      MultipleLess(size);
    } else {
      BitLess(size);
    }
  }

  lemma BlockLess(size: int)
    requires size >= MAX_DMA_BLOCK_SIZE
    ensures CommandCount(size) == 1 + CommandCount(size - MAX_DMA_BLOCK_SIZE)
  {
    var q, r := size / MAX_DMA_BLOCK_SIZE, size % MAX_DMA_BLOCK_SIZE;
    DivModUnique(size - MAX_DMA_BLOCK_SIZE, MAX_DMA_BLOCK_SIZE, q - 1, r);
    DivModUnique(size - MAX_DMA_BLOCK_SIZE, 16, size / 16 - 1024, size % 16);
  }

  lemma MultipleLess(size: int)
    requires 16 <= size < MAX_DMA_BLOCK_SIZE
    ensures CommandCount(size) == 1 + CommandCount(size % 16)
  {
    var r := size % 16;
    DivModUnique(r, 16, 0, r);
    DivModUnique(r, MAX_DMA_BLOCK_SIZE, 0, r);
    DivModUnique(size, MAX_DMA_BLOCK_SIZE, 0, size);
  }

  lemma BitLess(size: Word32)
    requires 0 < size < 16
    ensures CommandCount(size) == 1 + CommandCount(size - Chunk(size))
  {
    var left := size - Chunk(size);
    DivModUnique(size, MAX_DMA_BLOCK_SIZE, 0, size);
    DivModUnique(left, MAX_DMA_BLOCK_SIZE, 0, left);
    DivModUnique(size, 16, 0, size);
    DivModUnique(left, 16, 0, left);
    HighestBit(size);
  }

  lemma HighestBit(size: int)
    requires 0 < size < 16
    ensures SmallCount(size)
      == 1 + SmallCount(size - (if size >= 8 then 8 else if size >= 4 then 4 else if size >= 2 then 2 else 1))
  {
    if size >= 8 {
      assert size / 8 == 1 && size / 4 == 2 + (size - 8) / 4 && size / 2 == 4 + (size - 8) / 2;
    } else if size >= 4 {
      assert size / 4 == 1 && size / 2 == 2 + (size - 4) / 2;
    }
  }

  /** The alignment the next command needs, from what is left to move. */
  function NextAlignment(left: int): int {
    if left >= 16 then 16 else if left >= 8 then 8 else if left >= 4 then 4 else if left >= 2 then 2 else 1
  }

  predicate IsAlignment(a: int) { a == 1 || a == 2 || a == 4 || a == 8 || a == 16 }

  lemma WeakerAlignment(x: int, big: int, a: int)
    requires IsAlignment(big) && IsAlignment(a) && a <= big && x % big == 0
    ensures x % a == 0
  {
    var q := x / big;
    assert big / a * a == big;
    assert x == q * (big / a) * a by {
      assert q * (big / a) * a == q * (big / a * a);
    }
    DivModUnique(x, a, q * (big / a), 0);
  }

  lemma AlignmentKept(address: int, left: Word32)
    requires left > 0 && address % NextAlignment(left) == 0
    ensures NextAlignment(left) == NaturalAlignment(Chunk(left)) && Chunk(left) <= left
    ensures (address + Chunk(left)) % NextAlignment(left - Chunk(left)) == 0
  {
    var a := NextAlignment(left);
    ChunkIsLargest(left, 1);
    ChunkAligned(left);
    MultiplesAdd(address, Chunk(left), a);
    WeakerAlignment(address + Chunk(left), a, NextAlignment(left - Chunk(left)));
  }

  lemma ChunkAligned(left: Word32)
    requires left > 0
    ensures var a := NextAlignment(left);
      && IsAlignment(a) && a == NaturalAlignment(Chunk(left)) && Chunk(left) % a == 0
      && Chunk(left) <= left && NextAlignment(left - Chunk(left)) <= a
  {
    if 16 <= left < MAX_DMA_BLOCK_SIZE {
      DivModUnique(left - left % 16, 16, left / 16, 0);
    }
  }

  lemma WrapKeepsAlignment(address: int, modulus: int, a: int)
    requires (modulus == TWO_32 || modulus == TWO_64) && IsAlignment(a) && address % a == 0
    ensures address % modulus % a == 0
  {
    var q := address / modulus;
    var m := modulus / a;
    assert m * a == modulus;
    assert q * modulus == q * m * a;
    MultipleHasNoRemainder(q * m, a);
    MultiplesAdd(address, q * modulus, a);
  }

  // ----- the loop

  method LargeCmd(ls: Word32, ea: Word64, size: Word32, tag: Word32, cmd: Word32) returns (commands: seq<Command>)
    ensures Transfers(commands, ls, ea, size, tag, cmd)
    ensures |commands| == CommandCount(size) <= size / MAX_DMA_BLOCK_SIZE + 5
    ensures ls % 16 == 0 && ea % 16 == 0 ==> forall i | 0 <= i < |commands| :: Aligned(commands[i])
  {
    commands := [];
    var left: Word32, ls': Word32, ea': Word64 := size, ls, ea;
    ghost var done := 0;
    Starts(ls, ea, size, tag, cmd);
    while left != 0
      invariant done + left == size && Progress(commands, ls, ea, size, done, left, ls', ea', tag, cmd)
      decreases left
    {
      var chunk := SelectChunk(left);
      var command := Command(ls', ea', chunk, tag, cmd);
      OneStep(commands, ls, ea, size, done, left, ls', ea', tag, cmd, command, chunk);
      commands := commands + [command];
      left := left - chunk;
      done := done + chunk;
      ls' := (ls' + chunk) % TWO_32;
      ea' := (ea' + chunk) % TWO_64;
    }
  }

  /** What has been moved and what is left make up the whole. */
  ghost predicate Progress(commands: seq<Command>, ls: Word32, ea: Word64, size: Word32, done: int, left: int,
                           ls': int, ea': int,
                           tag: Word32, cmd: Word32) {
    && Wrapped(ls, done, ls', TWO_32) && Wrapped(ea, done, ea', TWO_64)
    && Transfers(commands, ls, ea, done, tag, cmd)
    && Counted(|commands|, left, size)
    && AlignedSoFar(commands, ls, ea, done, left)
  }

  /** `place` is `done` after `from`, in addresses of the given width. */
  ghost predicate Wrapped(from: int, done: int, place: int, modulus: int) {
    modulus > 0 && place == (from + done) % modulus
  }

  ghost predicate AlignedSoFar(commands: seq<Command>, ls: int, ea: int, done: int, left: int) {
    ls % 16 == 0 && ea % 16 == 0 ==> StayAligned(commands, ls + done, ea + done, left)
  }

  /** With `n` commands issued, as many are still to come as the rest takes. */
  ghost predicate Counted(n: int, left: int, size: int) {
    0 <= left && 0 <= size && n + CommandCount(left) == CommandCount(size)
  }

  lemma CountStep(n: int, left: Word32, size: Word32, chunk: Word32)
    requires Counted(n, left, size) && left > 0 && chunk == Chunk(left)
    ensures chunk <= left && Counted(n + 1, left - chunk, size)
  {
    OneCommandLess(left);
  }

  lemma OneStep(commands: seq<Command>, ls: Word32, ea: Word64, size: Word32, done: int, left: Word32, ls': Word32,
                ea': Word64,
                tag: Word32, cmd: Word32, c: Command, chunk: Word32)
    requires Progress(commands, ls, ea, size, done, left, ls', ea', tag, cmd) && left > 0
    requires chunk == Chunk(left) && c == Command(ls', ea', chunk, tag, cmd)
    ensures 0 < chunk <= left
    ensures Progress(commands + [c], ls, ea, size, done + chunk, left - chunk, (ls' + chunk) % TWO_32,
                     (ea' + chunk) % TWO_64, tag, cmd)
  {
    assert |commands + [c]| == |commands| + 1;
    CountStep(|commands|, left, size, chunk);
    ChunkIsLargest(left, 1);
    WrapStep(ls, done, chunk, ls', TWO_32);
    WrapStep(ea, done, chunk, ea', TWO_64);
    TransfersAppend(commands, ls, ea, done, tag, cmd, c);
    AlignStep(commands, ls, ea, done, left, c, chunk);
  }

  /** All commands so far are aligned, and both addresses suit the next one. */
  ghost predicate StayAligned(commands: seq<Command>, ls: int, ea: int, left: int) {
    && (forall i | 0 <= i < |commands| :: Aligned(commands[i]))
    && ls % NextAlignment(left) == 0 && ea % NextAlignment(left) == 0
  }

  lemma Starts(ls: Word32, ea: Word64, size: Word32, tag: Word32, cmd: Word32)
    ensures Progress([], ls, ea, size, 0, size, ls, ea, tag, cmd)
  {
    StartsAligned(ls, ea, size);
  }

  lemma StartsAligned(ls: int, ea: int, size: int)
    ensures ls % 16 == 0 && ea % 16 == 0 ==> StayAligned([], ls, ea, size)
  {
    if ls % 16 == 0 && ea % 16 == 0 {
      WeakerAlignment(ls, 16, NextAlignment(size));
      WeakerAlignment(ea, 16, NextAlignment(size));
    }
  }

  lemma NextAligned(commands: seq<Command>, ls: int, ea: int, ls': int, ea': int, left: Word32, c: Command)
    requires StayAligned(commands, ls, ea, left) && left > 0 && ls' == ls + Chunk(left) && ea' == ea + Chunk(left)
    requires c.ls == ls % TWO_32 && c.ea == ea % TWO_64 && c.size == Chunk(left)
    ensures Chunk(left) <= left && StayAligned(commands + [c], ls', ea', left - Chunk(left))
  {
    ChunkAligned(left);
    AlignmentKept(ls, left);
    AlignmentKept(ea, left);
    WrapKeepsAlignment(ls, TWO_32, NextAlignment(left));
    WrapKeepsAlignment(ea, TWO_64, NextAlignment(left));
  }

  lemma AlignStep(commands: seq<Command>, ls: int, ea: int, done: int, left: Word32, c: Command, chunk: Word32)
    requires AlignedSoFar(commands, ls, ea, done, left) && left > 0
    requires Wrapped(ls, done, c.ls, TWO_32) && Wrapped(ea, done, c.ea, TWO_64) && c.size == chunk == Chunk(left)
    ensures chunk <= left && AlignedSoFar(commands + [c], ls, ea, done + chunk, left - chunk)
  {
    var next := done + chunk;
    ChunkIsLargest(left, 1);
    if ls % 16 == 0 && ea % 16 == 0 {
      NextAligned(commands, ls + done, ea + done, ls + next, ea + next, left, c);
    }
  }

  lemma WrapStep(from: int, done: int, chunk: int, place: int, modulus: int)
    requires Wrapped(from, done, place, modulus)
    ensures Wrapped(from, done + chunk, (place + chunk) % modulus, modulus)
  {
    var q := (from + done) / modulus;
    var r := (place + chunk) % modulus;
    var p := (place + chunk) / modulus;
    assert from + (done + chunk) == (q + p) * modulus + r by {
      assert (q + p) * modulus == q * modulus + p * modulus;
    }
    DivModUnique(from + (done + chunk), modulus, q + p, r);
  }

  lemma {:induction false} TransfersAppend(commands: seq<Command>, ls: int, ea: int, size: int, tag: Word32,
                                           cmd: Word32, c: Command)
    requires Transfers(commands, ls, ea, size, tag, cmd) && LegalSize(c.size) && c.tag == tag && c.cmd == cmd
    requires Wrapped(ls, size, c.ls, TWO_32) && Wrapped(ea, size, c.ea, TWO_64)
    ensures Transfers(commands + [c], ls, ea, size + c.size, tag, cmd)
  {
    var more := commands + [c];
    if commands == [] {
      assert more[1..] == [];
    } else {
      var n := commands[0].size;
      assert more[1..] == commands[1..] + [c];
      assert ls + n + (size - n) == ls + size && ea + n + (size - n) == ea + size;
      TransfersAppend(commands[1..], ls + n, ea + n, size - n, tag, cmd, c);
    }
  }
}
