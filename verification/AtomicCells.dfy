/** What the operations of spu/libspuatomic/spu_atomic.c do to one 128-byte line: the specification of the
  atomic steps. A line is 32 words of 32 bits; a 64-bit cell is two of them, the high word first. */
module AtomicCells {
  import Bits
  import opened Words

  type Line = s: seq<int> | |s| == 32 && forall i | 0 <= i < 32 :: 0 <= s[i] < TWO_32
    witness seq(32, _ => 0)

  datatype Kind = Add | And | CompareAndSwap | Decr | Incr | Nop | Or | Store | Sub | TestAndDecr

  /** One call: `wide` says whether it works on 64 bits. */
  datatype Operation = Operation(kind: Kind, wide: bool, ea: nat, value: nat, compare: nat)
  type Request = o: Operation | o.value < Modulus(o.wide) && o.compare < Modulus(o.wide)
    witness Operation(Nop, false, 0, 0, 0)

  function Modulus(wide: bool): nat {
    if wide then TWO_64 else TWO_32
  }

  /** The line of an effective address, and the first 32-bit word of the cell it means. */
  function LineOf(ea: nat): nat { ea / 128 }

  function WordOf(r: Request): (w: nat)
    ensures w < 32 && (r.wide ==> w < 31)
  {
    if r.wide then 2 * (r.ea % 128 / 8) else r.ea % 128 / 4
  }

  function Cell(line: Line, r: Request): (v: nat)
    ensures v < Modulus(r.wide)
  {
    var w := WordOf(r);
    if r.wide then line[w] * TWO_32 + line[w + 1] else line[w]
  }

  function WithCell(line: Line, r: Request, v: nat): Line
    requires v < Modulus(r.wide)
  {
    var w := WordOf(r);
    if r.wide then line[w := v / TWO_32][w + 1 := v % TWO_32] else line[w := v]
  }

  /** Whether a call that finds `found` stores anything. */
  predicate Stores(r: Request, found: nat) {
    match r.kind
    case CompareAndSwap => found == r.compare
    case TestAndDecr => found != 0
    case Nop => false
    case _ => true
  }

  /** What it stores then. */
  function NewValue(r: Request, found: nat): (v: nat)
    requires found < Modulus(r.wide)
    ensures v < Modulus(r.wide)
  {
    match r.kind
    case Add => (found + r.value) % Modulus(r.wide)
    case Sub => (found - r.value) % Modulus(r.wide)
    case And => Bits.And(found, r.value)
    case Or => OrBelow(found, r.value, r.wide); Bits.Or(found, r.value)
    case Incr => (found + 1) % Modulus(r.wide)
    case Decr => (found - 1) % Modulus(r.wide)
    case TestAndDecr => (found - 1) % Modulus(r.wide)
    case Store => r.value
    case CompareAndSwap => r.value
    case Nop => found
  }

  lemma OrBelow(a: nat, b: nat, wide: bool)
    requires a < Modulus(wide) && b < Modulus(wide)
    ensures Bits.Or(a, b) < Modulus(wide)
  {
    Bits.PowersOfTwo();
    Bits.OrBound(a, b, if wide then 64 else 32);
  }

  /** What the call returns. */
  function Returned(r: Request, found: nat): nat {
    if r.kind == CompareAndSwap && found == r.compare then r.value else found
  }

  /** The line after the whole call, done in one step. */
  function After(line: Line, r: Request): Line
  {
    var found := Cell(line, r);
    if Stores(r, found) then WithCell(line, r, NewValue(r, found)) else line
  }

  // ----- what that means

  lemma CellReadsBack(line: Line, r: Request, v: nat)
    requires v < Modulus(r.wide)
    ensures Cell(WithCell(line, r, v), r) == v
  {
  }

  /** Two cells of one line that share no word. */
  predicate Apart(r: Request, s: Request) {
    var w, x := WordOf(r), WordOf(s);
    w + (if r.wide then 2 else 1) <= x || x + (if s.wide then 2 else 1) <= w
  }

  /** The cell gets its new value if the call stores, and every other word of the line stays. */
  lemma AfterWords(line: Line, r: Request, k: nat)
    requires k < 32
    ensures Cell(After(line, r), r) == if Stores(r, Cell(line, r)) then NewValue(r, Cell(line, r)) else Cell(line, r)
    ensures k < WordOf(r) || k >= WordOf(r) + (if r.wide then 2 else 1) ==> After(line, r)[k] == line[k]
  {
    CellReadsBack(line, r, NewValue(r, Cell(line, r)));
  }

  lemma AfterLeavesApart(line: Line, r: Request, s: Request)
    requires Apart(r, s)
    ensures Cell(After(line, r), s) == Cell(line, s)
  {
  }

  /** Every operation returns the cell as it was just before its step, but compare-and-swap, which returns it
    as it is just after, whether it stores or not. */
  lemma ReturnedBeforeOrAfter(line: Line, r: Request)
    ensures r.kind != CompareAndSwap ==> Returned(r, Cell(line, r)) == Cell(line, r)
    ensures r.kind == CompareAndSwap ==> Returned(r, Cell(line, r)) == Cell(After(line, r), r)
  {
    AfterWords(line, r, 0);
  }

  // ----- what each call does to its cell, and what it returns

  ghost predicate IsAnd(now: nat, a: nat, b: nat) {
    forall k: nat :: Bits.Bit(now, k) == Bits.Bit(a, k) * Bits.Bit(b, k)
  }

  ghost predicate IsOr(now: nat, a: nat, b: nat) {
    forall k: nat :: Bits.Bit(now, k) == if Bits.Bit(a, k) == 0 && Bits.Bit(b, k) == 0 then 0 else 1
  }

  /** The cell was `was` before the call and is `now` after it, and the call returned `ret`. */
  ghost predicate CallLaw(r: Request, was: nat, now: nat, ret: nat) {
    var size := if r.wide then TWO_64 else TWO_32;
    match r.kind
    case Add => now == (was + r.value) % size && ret == was
    case Sub => now == (was - r.value) % size && ret == was
    case Incr => now == (was + 1) % size && ret == was
    case Decr => now == (was - 1) % size && ret == was
    case TestAndDecr => now == (if was == 0 then 0 else was - 1) && ret == was
    case And => IsAnd(now, was, r.value) && ret == was
    case Or => IsOr(now, was, r.value) && ret == was
    case Store => now == r.value && ret == was
    case CompareAndSwap => now == (if was == r.compare then r.value else was) && ret == now
    case Nop => now == was && ret == was
  }

  lemma AfterObeys(line: Line, r: Request)
    ensures CallLaw(r, Cell(line, r), Cell(After(line, r), r), Returned(r, Cell(line, r)))
  {
    var was := Cell(line, r);
    AfterWords(line, r, 0);
    if r.kind == And {
      forall k: nat ensures Bits.Bit(Bits.And(was, r.value), k) == Bits.Bit(was, k) * Bits.Bit(r.value, k) {
        Bits.AndBits(was, r.value, k);
      }
    } else if r.kind == Or {
      forall k: nat ensures Bits.Bit(Bits.Or(was, r.value), k)
        == if Bits.Bit(was, k) == 0 && Bits.Bit(r.value, k) == 0 then 0 else 1 {
        Bits.OrBits(was, r.value, k);
      }
    } else if r.kind == TestAndDecr && was > 0 {
      DownByOne(was, r.wide);
    }
  }

  lemma DownByOne(was: nat, wide: bool)
    requires 0 < was < Modulus(wide)
    ensures (was - 1) % Modulus(wide) == was - 1
  {
  }

  // ----- where a cell is

  /** An aligned cell lies at its address. */
  lemma CellPlace(r: Request)
    requires r.ea % (if r.wide then 8 else 4) == 0
    ensures 128 * LineOf(r.ea) + 4 * WordOf(r) == r.ea
  {
  }

  /** A 64-bit cell is two 32-bit cells, the high one first. */
  lemma WideCell(line: Line, r: Request, high: Request, low: Request)
    requires r.wide && !high.wide && !low.wide && r.ea % 8 == 0 && high.ea == r.ea && low.ea == r.ea + 4
    ensures LineOf(low.ea) == LineOf(r.ea) && Cell(line, r) == Cell(line, high) * 0x1_0000_0000 + Cell(line, low)
  {
    var w := r.ea % 128 / 8;
    assert r.ea % 128 == 8 * w;
  }
}
