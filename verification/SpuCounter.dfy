/** A cell that is only counted up and down. */
module SpuCounter {
  import opened Arith
  import opened AtomicCells
  import opened SpuAtomic
  import opened SpuAtomicRuns
  import opened SpuSemaphore
  import opened Words

  const ARITHMETIC: set<Kind> := {Add, Sub, Incr, Decr, TestAndDecr, Nop}

  /** What an event adds to the total of a kind: the value of an addition or subtraction, one for a step up or down; a
    `test_and_decr` counts if it did not return zero. */
  function Amount(e: Event, cell: Request, kind: Kind): nat {
    if !e.Done? || !SameCell(e.req, cell) || e.req.kind != kind then 0
    else
      match kind
      case Add => e.req.value
      case Sub => e.req.value
      case Incr => 1
      case Decr => 1
      case TestAndDecr => if e.found != 0 then 1 else 0
      case _ => 0
  }

  function Sum(h: seq<Event>, cell: Request, kind: Kind): nat {
    if h == [] then 0 else Sum(h[..|h| - 1], cell, kind) + Amount(h[|h| - 1], cell, kind)
  }

  /** All that was added, less all that was subtracted. */
  function Balance(h: seq<Event>, cell: Request): int {
    Sum(h, cell, Add) + Sum(h, cell, Incr) - Sum(h, cell, Sub) - Sum(h, cell, Decr) - Sum(h, cell, TestAndDecr)
  }

  function Change(e: Event, cell: Request): int {
    Amount(e, cell, Add) + Amount(e, cell, Incr) - Amount(e, cell, Sub) - Amount(e, cell, Decr)
    - Amount(e, cell, TestAndDecr)
  }

  /** The cell holds what was in it at first and the balance, modulo its size. */
  ghost predicate Agrees(first: nat, balance: int, count: nat, wide: bool) {
    count == (first + balance) % if wide then TWO_64 else TWO_32
  }

  lemma EventChanges(mem: Memory, e: Event, cell: Request)
    requires LegalEvent(mem, e) && PoliteEvent(e, cell, ARITHMETIC)
    ensures Agrees(Count(mem, cell), Change(e, cell), Count(Effect(mem, e), cell), cell.wide)
  {
    var l := LineOf(cell.ea);
    EffectOnLine(mem, e, l);
    if e.Done? && LineOf(e.req.ea) == l && !Apart(e.req, cell) {
      CallChanges(LineAt(mem, l), e, cell);
    } else {
      if e.Done? && LineOf(e.req.ea) == l {
        AfterLeavesApart(LineAt(mem, l), e.req, cell);
        NotSame(e.req, cell);
      }
      NothingAdded(Count(mem, cell), cell.wide);
    }
  }

  lemma NotSame(r: Request, cell: Request)
    requires Apart(r, cell)
    ensures !SameCell(r, cell)
  {
  }

  lemma NothingAdded(count: nat, wide: bool)
    requires count < Modulus(wide)
    ensures Agrees(count, 0, count, wide)
  {
  }

  lemma CallChanges(line: Line, e: Event, cell: Request)
    requires e.Done? && SameCell(e.req, cell) && e.req.kind in ARITHMETIC && e.found == Cell(line, e.req)
    ensures Agrees(Cell(line, cell), Change(e, cell), Cell(After(line, e.req), cell), cell.wide)
  {
    var r := e.req;
    AfterObeys(line, r);
    SameCellReads(line, r, cell);
    SameCellReads(After(line, r), r, cell);
    NothingAdded(Cell(After(line, r), cell), cell.wide);
  }

  lemma RemainderAdds(a: int, b: int, m: int)
    requires m > 0
    ensures (a % m + b) % m == (a + b) % m
  {
    var q, p := a / m, (a % m + b) / m;
    assert a + b == (q + p) * m + (a % m + b) % m by {
      assert (q + p) * m == q * m + p * m;
    }
    DivModUnique(a + b, m, q + p, (a % m + b) % m);
  }

  /** A cell that sees no other operations holds what was in it at first, plus all that was added, minus all that was
    subtracted, modulo its size. */
  lemma {:induction false} CellCounts(mem: Memory, h: seq<Event>, cell: Request)
    requires Legal(mem, h) && forall i | 0 <= i < |h| :: PoliteEvent(h[i], cell, ARITHMETIC)
    ensures Agrees(Count(mem, cell), Balance(h, cell), Count(Replay(mem, h), cell), cell.wide)
  {
    if h == [] {
      NothingAdded(Count(mem, cell), cell.wide);
    } else {
      var n := |h| - 1;
      LegalPrefix(mem, h, n);
      CellCounts(mem, h[..n], cell);
      assert LegalEvent(Replay(mem, h[..n]), h[n]) && PoliteEvent(h[n], cell, ARITHMETIC);
      EventChanges(Replay(mem, h[..n]), h[n], cell);
      BalanceNext(h, cell);
      CountGoesOn(Count(mem, cell), Balance(h[..n], cell), Change(h[n], cell), Balance(h, cell),
                  Count(Replay(mem, h[..n]), cell), Count(Replay(mem, h), cell), cell.wide);
    }
  }

  lemma BalanceNext(h: seq<Event>, cell: Request)
    requires h != []
    ensures Balance(h, cell) == Balance(h[..|h| - 1], cell) + Change(h[|h| - 1], cell)
  {
  }

  lemma CountGoesOn(first: nat, balance: int, change: int, balance': int, count: nat, count': nat, wide: bool)
    requires Agrees(first, balance, count, wide) && balance' == balance + change
    requires Agrees(count, change, count', wide)
    ensures Agrees(first, balance', count', wide)
  {
    RemainderAdds(first + balance, change, Modulus(wide));
  }

  /** Over every run of the machine: additions of `v` add `v`, and so on. */
  lemma RunCounts(mem: Memory, spus: nat, actions: seq<Action>, cell: Request)
    requires forall i | 0 <= i < |actions| :: PoliteAction(actions[i], cell, ARITHMETIC)
    ensures var st := Run(Initial(mem, spus), actions); var h := st.history;
      Agrees(Count(mem, cell), Balance(h, cell), Count(st.mem, cell), cell.wide)
  {
    RunKeeps(mem, spus, actions);
    PoliteRun(mem, spus, actions, cell, ARITHMETIC);
    CellCounts(mem, Run(Initial(mem, spus), actions).history, cell);
  }
}
