/** A counting semaphore made of `incr` and `test_and_decr`. */
module SpuSemaphore {
  import opened AtomicCells
  import opened SpuAtomic
  import opened SpuAtomicRuns

  predicate SameCell(r: Request, sem: Request) {
    LineOf(r.ea) == LineOf(sem.ea) && WordOf(r) == WordOf(sem) && r.wide == sem.wide
  }

  const SEMAPHORE: set<Kind> := {Incr, TestAndDecr, Nop}

  /** The call uses the cell with operations of these kinds only, or stays away from it; other cells of the line are
    free. */
  predicate Polite(r: Request, sem: Request, kinds: set<Kind>) {
    LineOf(r.ea) != LineOf(sem.ea) || Apart(r, sem) || (SameCell(r, sem) && r.kind in kinds)
  }

  predicate PoliteEvent(e: Event, sem: Request, kinds: set<Kind>) {
    match e
    case Done(_, r, _) => Polite(r, sem, kinds)
    case Outside(l, _) => l != LineOf(sem.ea)
  }

  predicate Up(e: Event, sem: Request) {
    e.Done? && e.req.kind == Incr && SameCell(e.req, sem)
  }

  /** A `test_and_decr` that did not return zero. */
  predicate Down(e: Event, sem: Request) {
    e.Done? && e.req.kind == TestAndDecr && SameCell(e.req, sem) && Returned(e.req, e.found) != 0
  }

  function Ups(h: seq<Event>, sem: Request): nat {
    if h == [] then 0 else Ups(h[..|h| - 1], sem) + if Up(h[|h| - 1], sem) then 1 else 0
  }

  function Downs(h: seq<Event>, sem: Request): nat {
    if h == [] then 0 else Downs(h[..|h| - 1], sem) + if Down(h[|h| - 1], sem) then 1 else 0
  }

  function Count(mem: Memory, sem: Request): nat {
    Cell(LineAt(mem, LineOf(sem.ea)), sem)
  }

  lemma LegalPrefix(mem: Memory, h: seq<Event>, n: nat)
    requires Legal(mem, h) && n <= |h|
    ensures Legal(mem, h[..n])
  {
    assert forall i | 0 <= i < n :: h[..n][..i] == h[..i];
    assert forall i | 0 <= i < n :: LegalEvent(Replay(mem, h[..i]), h[i]);
  }

  lemma EffectOnLine(mem: Memory, e: Event, l: nat)
    ensures LineAt(Effect(mem, e), l) ==
      match e
      case Done(_, r, _) => if LineOf(r.ea) == l then After(LineAt(mem, l), r) else LineAt(mem, l)
      case Outside(k, contents) => if k == l then contents else LineAt(mem, l)
  {
  }

  lemma SemaphoreCall(line: Line, r: Request, sem: Request)
    requires SameCell(r, sem) && (r.kind == Incr || r.kind == TestAndDecr || r.kind == Nop)
    requires r.kind == Incr ==> Cell(line, sem) + 1 < Modulus(sem.wide)
    ensures Cell(After(line, r), sem) ==
      Cell(line, sem) + (if r.kind == Incr then 1 else if r.kind == TestAndDecr && Cell(line, sem) != 0 then -1 else 0)
  {
    AfterWords(line, r, 0);
    SameCellReads(line, r, sem);
    SameCellReads(After(line, r), r, sem);
    NextValue(r, Cell(line, r));
  }

  lemma SameCellReads(line: Line, r: Request, sem: Request)
    requires SameCell(r, sem)
    ensures Cell(line, r) == Cell(line, sem)
  {
  }

  lemma NextValue(r: Request, found: nat)
    requires found < Modulus(r.wide)
    ensures r.kind == Incr && found + 1 < Modulus(r.wide) ==> NewValue(r, found) == found + 1
    ensures r.kind == TestAndDecr && found > 0 ==> NewValue(r, found) == found - 1
  {
  }

  lemma EventCounts(mem: Memory, e: Event, sem: Request)
    requires LegalEvent(mem, e) && PoliteEvent(e, sem, SEMAPHORE)
    requires Up(e, sem) ==> Count(mem, sem) + 1 < Modulus(sem.wide)
    ensures Count(Effect(mem, e), sem) + (if Down(e, sem) then 1 else 0)
      == Count(mem, sem) + (if Up(e, sem) then 1 else 0)
  {
    var l := LineOf(sem.ea);
    EffectOnLine(mem, e, l);
    if e.Done? && LineOf(e.req.ea) == l {
      var line := LineAt(mem, l);
      if Apart(e.req, sem) {
        AfterLeavesApart(line, e.req, sem);
      } else {
        SemaphoreCall(line, e.req, sem);
        SameCellReads(line, e.req, sem);
      }
    }
  }

  /** No increment finds the largest value. */
  ghost predicate NoWrap(mem: Memory, h: seq<Event>, sem: Request) {
    forall i | 0 <= i < |h| && Up(h[i], sem) :: Count(Replay(mem, h[..i]), sem) + 1 < Modulus(sem.wide)
  }

  lemma NoWrapPrefix(mem: Memory, h: seq<Event>, n: nat, sem: Request)
    requires NoWrap(mem, h, sem) && n <= |h|
    ensures NoWrap(mem, h[..n], sem)
  {
    forall i | 0 <= i < n && Up(h[..n][i], sem) ensures Count(Replay(mem, h[..n][..i]), sem) + 1 < Modulus(sem.wide) {
      assert h[..n][..i] == h[..i] && h[..n][i] == h[i];
    }
  }

  /** The cell holds what was in it at first, plus the increments, minus the successful decrements: so there
    are never more of those than there were units to take. */
  lemma {:induction false} SemaphoreCounts(mem: Memory, h: seq<Event>, sem: Request)
    requires Legal(mem, h) && (forall i | 0 <= i < |h| :: PoliteEvent(h[i], sem, SEMAPHORE)) && NoWrap(mem, h, sem)
    ensures Count(Replay(mem, h), sem) + Downs(h, sem) == Count(mem, sem) + Ups(h, sem)
  {
    if h != [] {
      var n := |h| - 1;
      LegalPrefix(mem, h, n);
      NoWrapPrefix(mem, h, n, sem);
      SemaphoreCounts(mem, h[..n], sem);
      assert LegalEvent(Replay(mem, h[..n]), h[n]) && PoliteEvent(h[n], sem, SEMAPHORE);
      EventCounts(Replay(mem, h[..n]), h[n], sem);
    }
  }

  predicate PoliteAction(a: Action, sem: Request, kinds: set<Kind>) {
    match a
    case Begin(_, r) => Polite(r, sem, kinds)
    case Write(l, _) => l != LineOf(sem.ea)
    case _ => true
  }

  ghost predicate PoliteState(st: State, sem: Request, kinds: set<Kind>) {
    && (forall i | 0 <= i < |st.history| :: PoliteEvent(st.history[i], sem, kinds))
    && (forall s | 0 <= s < |st.spus| :: st.spus[s].pc != Idle ==> Polite(st.spus[s].req, sem, kinds))
  }

  lemma PoliteKept(st: State, a: Action, sem: Request, kinds: set<Kind>)
    requires PoliteState(st, sem, kinds) && PoliteAction(a, sem, kinds)
    ensures PoliteState(Step(st, a), sem, kinds)
  {
  }

  lemma {:induction false} PoliteRun(mem: Memory, spus: nat, actions: seq<Action>, sem: Request, kinds: set<Kind>)
    requires forall i | 0 <= i < |actions| :: PoliteAction(actions[i], sem, kinds)
    ensures PoliteState(Run(Initial(mem, spus), actions), sem, kinds)
  {
    if actions != [] {
      var n := |actions| - 1;
      PoliteRun(mem, spus, actions[..n], sem, kinds);
      PoliteKept(Run(Initial(mem, spus), actions[..n]), actions[n], sem, kinds);
    }
  }

  /** Over every run in which the cell is used as a semaphore only, and no increment wraps. */
  lemma SemaphoreSafe(mem: Memory, spus: nat, actions: seq<Action>, sem: Request)
    requires forall i | 0 <= i < |actions| :: PoliteAction(actions[i], sem, SEMAPHORE)
    requires NoWrap(mem, Run(Initial(mem, spus), actions).history, sem)
    ensures var st := Run(Initial(mem, spus), actions);
      Count(st.mem, sem) == Count(mem, sem) + Ups(st.history, sem) - Downs(st.history, sem)
  {
    RunKeeps(mem, spus, actions);
    PoliteRun(mem, spus, actions, sem, SEMAPHORE);
    SemaphoreCounts(mem, Run(Initial(mem, spus), actions).history, sem);
  }
}
