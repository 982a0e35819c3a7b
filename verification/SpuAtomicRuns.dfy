/** What holds of every run of the machine: each call takes effect in one step between its begin and its
  return, retries are paid for by other processors' stores, and semaphores count right. */
module SpuAtomicRuns {
  import opened AtomicCells
  import opened SpuAtomic

  // ----- calls and their events

  predicate RecordInv(h: seq<Event>, r: Record) {
    && r.start <= r.point < r.finish <= |h|
    && h[r.point].Done? && h[r.point].spu == r.spu && h[r.point].req == r.req
    && r.ret == Returned(r.req, h[r.point].found)
  }

  /** A record lies before the call that its SPU is in now. */
  predicate Before(r: Record, spus: seq<Spu>) {
    r.spu < |spus| && (spus[r.spu].pc != Idle ==> r.finish <= spus[r.spu].start)
  }

  ghost predicate RecordsInv(st: State) {
    && (forall k | 0 <= k < |st.records| :: RecordInv(st.history, st.records[k]) && Before(st.records[k], st.spus))
    && (forall j, k | 0 <= j < k < |st.records| && st.records[j].spu == st.records[k].spu ::
          st.records[j].finish <= st.records[k].start)
  }

  predicate Pending(u: Spu) {
    (u.pc == Computing && !Stores(u.req, Cell(u.ls, u.req))) || u.pc == Checking(true)
  }

  /** The event at `e` belongs to a call that has returned, or to one that is about to. */
  ghost predicate Owned(st: State, e: nat)
    requires e < |st.history| && st.history[e].Done?
  {
    var s := st.history[e].spu;
    || (s < |st.spus| && Pending(st.spus[s]) && st.spus[s].point == e)
    || (exists k :: 0 <= k < |st.records| && st.records[k].spu == s && st.records[k].point == e)
  }

  ghost predicate EventsInv(st: State) {
    forall e | 0 <= e < |st.history| && st.history[e].Done? :: Owned(st, e)
  }

  lemma RecordGrows(st: State, st': State, k: nat)
    requires |st.history| <= |st'.history| && st.history == st'.history[..|st.history|]
    requires k < |st.records| && RecordInv(st.history, st.records[k])
    ensures RecordInv(st'.history, st.records[k])
  {
  }

  /** The shape of a step, as the records see it: the history grows, and a record comes in only at a return. */
  ghost predicate Returns(st: State, st': State, s: nat) {
    && s < |st.spus| && st'.spus == st.spus[s := st.spus[s].(pc := Idle)] && st'.history == st.history
      && st'.mem == st.mem
    && Pending(st.spus[s]) && |st'.records| == |st.records| + 1 && st'.records[..|st.records|] == st.records
    && var r := st'.records[|st.records|]; var u := st.spus[s];
       r.spu == s && r.req == u.req && r.start == u.start && r.point == u.point && r.finish == |st.history|
         && r.fails == u.fails
  }

  ghost predicate NoReturn(st: State, st': State) {
    && st'.records == st.records && |st'.spus| == |st.spus|
    && |st.history| <= |st'.history| <= |st.history| + 1 && st.history == st'.history[..|st.history|]
    && (forall s | 0 <= s < |st.spus| && st'.spus[s].pc != Idle && st.spus[s].pc != Idle ::
            st'.spus[s].start == st.spus[s].start)
    && (forall s | 0 <= s < |st.spus| && st'.spus[s].pc != Idle && st.spus[s].pc == Idle ::
            st'.spus[s].start == |st.history|)
    && (forall s | 0 <= s < |st.spus| && Pending(st.spus[s]) ::
            Pending(st'.spus[s]) && st'.spus[s].point == st.spus[s].point)
    && (|st'.history| == |st.history| + 1 && st'.history[|st.history|].Done? ==>
          var s := st'.history[|st.history|].spu;
          s < |st.spus| && Pending(st'.spus[s]) && st'.spus[s].point == |st.history|)
  }

  lemma GetShape(st: State, s: nat)
    requires s < |st.spus| && st.spus[s].pc == Getting
    ensures NoReturn(st, GetStep(st, s))
  {
  }

  lemma PutShape(st: State, s: nat)
    requires s < |st.spus| && st.spus[s].pc == Putting
    ensures NoReturn(st, PutStep(st, s))
  {
  }

  lemma ComputeShape(st: State, s: nat)
    requires s < |st.spus| && st.spus[s].pc == Computing
    ensures Returns(st, ComputeStep(st, s), s) || NoReturn(st, ComputeStep(st, s))
  {
  }

  lemma CheckShape(st: State, s: nat)
    requires s < |st.spus| && st.spus[s].pc.Checking?
    ensures Returns(st, CheckStep(st, s), s) || NoReturn(st, CheckStep(st, s))
  {
  }

  lemma StepShape(st: State, a: Action)
    ensures (exists s :: Returns(st, Step(st, a), s)) || NoReturn(st, Step(st, a))
  {
    match a
    case GetLine(s) =>
      if s < |st.spus| && st.spus[s].pc == Getting {
        GetShape(st, s);
      }
    case PutLine(s) =>
      if s < |st.spus| && st.spus[s].pc == Putting {
        PutShape(st, s);
      }
    case Compute(s) =>
      if s < |st.spus| && st.spus[s].pc == Computing {
        ComputeShape(st, s);
      }
    case Check(s) =>
      if s < |st.spus| && st.spus[s].pc.Checking? {
        CheckShape(st, s);
      }
    case _ =>
  }

  /** What a return records is right: the event lies where it should, and the returned value is its value. */
  lemma ReturnedRecord(st: State, a: Action, s: nat)
    requires SpusInv(st) && Returns(st, Step(st, a), s)
    ensures RecordInv(st.history, Step(st, a).records[|st.records|])
  {
    var u := st.spus[s];
    assert SpuInv(st.mem, st.history, s, u);
  }

  lemma RecordsKept(st: State, a: Action)
    requires SpusInv(st) && RecordsInv(st)
    ensures RecordsInv(Step(st, a))
  {
    var st' := Step(st, a);
    StepShape(st, a);
    if s :| Returns(st, st', s) {
      ReturnedRecord(st, a, s);
      ReturnKeepsRecords(st, st', s);
    } else {
      NoReturnKeepsRecords(st, st');
    }
  }

  lemma ReturnKeepsRecords(st: State, st': State, s: nat)
    requires RecordsInv(st) && Returns(st, st', s) && RecordInv(st.history, st'.records[|st.records|])
    ensures RecordsInv(st')
  {
    forall k | 0 <= k < |st'.records| ensures RecordInv(st'.history, st'.records[k])
      && Before(st'.records[k], st'.spus) {
      if k < |st.records| {
        assert st'.records[k] == st.records[k];
      }
    }
    forall j, k | 0 <= j < k < |st'.records| && st'.records[j].spu == st'.records[k].spu
      ensures st'.records[j].finish <= st'.records[k].start
    {
      assert st'.records[j] == st.records[j];
      if k < |st.records| {
        assert st'.records[k] == st.records[k];
      } else {
        assert Before(st.records[j], st.spus);
      }
    }
  }

  lemma NoReturnKeepsRecords(st: State, st': State)
    requires RecordsInv(st) && NoReturn(st, st')
    ensures RecordsInv(st')
  {
    forall k | 0 <= k < |st.records| ensures RecordInv(st'.history, st.records[k]) && Before(st.records[k], st'.spus) {
      RecordGrows(st, st', k);
      assert Before(st.records[k], st.spus);
    }
  }

  lemma EventsKept(st: State, a: Action)
    requires EventsInv(st)
    ensures EventsInv(Step(st, a))
  {
    var st' := Step(st, a);
    StepShape(st, a);
    if s :| Returns(st, st', s) {
      ReturnKeepsEvents(st, st', s);
    } else {
      NoReturnKeepsEvents(st, st');
    }
  }

  lemma ReturnKeepsEvents(st: State, st': State, s: nat)
    requires EventsInv(st) && Returns(st, st', s)
    ensures EventsInv(st')
  {
    forall e | 0 <= e < |st'.history| && st'.history[e].Done? ensures Owned(st', e) {
      assert Owned(st, e);
      if k :| 0 <= k < |st.records| && st.records[k].spu == st.history[e].spu && st.records[k].point == e {
        assert st'.records[k] == st.records[k];
      } else if st.history[e].spu == s {
        assert st'.records[|st.records|].point == e;
      }
    }
  }

  lemma NoReturnKeepsEvents(st: State, st': State)
    requires EventsInv(st) && NoReturn(st, st')
    ensures EventsInv(st')
  {
    forall e | 0 <= e < |st'.history| && st'.history[e].Done? ensures Owned(st', e) {
      if e < |st.history| {
        assert Owned(st, e) && st'.history[e] == st.history[e];
      }
    }
  }

  // ----- linearizability

  /** The call `r` took effect in one step between its begin and its return: on the memory as the history
    up to that step left it, it changed the line as its specification says, and its cell as its kind says, and it
    returned the value of its cell just before the step, or just after for compare-and-swap. */
  ghost predicate Atomic(mem: Memory, h: seq<Event>, r: Record) {
    && r.start <= r.point < r.finish <= |h|
    && h[r.point].Done? && h[r.point].spu == r.spu && h[r.point].req == r.req
    && var l := LineOf(r.req.ea);
       var before, after := LineAt(Replay(mem, h[..r.point]), l), LineAt(Replay(mem, h[..r.point + 1]), l);
       && after == After(before, r.req)
       && r.ret == (if r.req.kind == CompareAndSwap then Cell(after, r.req) else Cell(before, r.req))
       && CallLaw(r.req, Cell(before, r.req), Cell(after, r.req), r.ret)
  }

  lemma RecordIsAtomic(mem: Memory, h: seq<Event>, r: Record)
    requires Legal(mem, h) && RecordInv(h, r)
    ensures Atomic(mem, h, r)
  {
    var e := h[r.point];
    assert LegalEvent(Replay(mem, h[..r.point]), e);
    assert h[..r.point + 1] == h[..r.point] + [e];
    Append(mem, h[..r.point], e);
    ReturnedBeforeOrAfter(LineAt(Replay(mem, h[..r.point]), LineOf(r.req.ea)), r.req);
    AfterObeys(LineAt(Replay(mem, h[..r.point]), LineOf(r.req.ea)), r.req);
  }

  ghost predicate Inv(mem: Memory, st: State) {
    MemInv(mem, st) && SpusInv(st) && RecordsInv(st) && EventsInv(st)
  }

  lemma {:induction false} RunKeeps(mem: Memory, spus: nat, actions: seq<Action>)
    ensures Inv(mem, Run(Initial(mem, spus), actions))
  {
    if actions != [] {
      var n := |actions| - 1;
      RunKeeps(mem, spus, actions[..n]);
      var st := Run(Initial(mem, spus), actions[..n]);
      MemKept(mem, st, actions[n]);
      SpusKept(st, actions[n]);
      RecordsKept(st, actions[n]);
      EventsKept(st, actions[n]);
    }
  }

  /** In every interleaving of any number of SPUs, with reservations lost at any time and other processors
    storing: the memory is what the history says, each completed call is atomic, no two share a step, steps
    respect the order of calls that do not overlap, and no step belongs to nobody. */
  lemma Linearizable(mem: Memory, spus: nat, actions: seq<Action>)
    ensures var st := Run(Initial(mem, spus), actions);
      && Legal(mem, st.history) && st.mem == Replay(mem, st.history)
      && (forall k | 0 <= k < |st.records| :: Atomic(mem, st.history, st.records[k]))
      && (forall j, k | 0 <= j < k < |st.records| :: st.records[j].point != st.records[k].point)
      && (forall j, k | 0 <= j < |st.records| && 0 <= k < |st.records| && st.records[j].finish <= st.records[k].start ::
            st.records[j].point < st.records[k].point)
      && (forall e | 0 <= e < |st.history| && st.history[e].Done? :: Owned(st, e))
  {
    RunKeeps(mem, spus, actions);
    var st := Run(Initial(mem, spus), actions);
    RecordsSpaced(mem, st);
  }

  lemma RecordsSpaced(mem: Memory, st: State)
    requires Legal(mem, st.history) && RecordsInv(st)
    ensures forall k | 0 <= k < |st.records| :: Atomic(mem, st.history, st.records[k])
    ensures forall j, k | 0 <= j < k < |st.records| :: st.records[j].point != st.records[k].point
    ensures forall j, k | 0 <= j < |st.records| && 0 <= k < |st.records|
      && st.records[j].finish <= st.records[k].start ::
              st.records[j].point < st.records[k].point
  {
    forall k | 0 <= k < |st.records| ensures RecordInv(st.history, st.records[k])
      && Atomic(mem, st.history, st.records[k]) {
      RecordIsAtomic(mem, st.history, st.records[k]);
    }
  }

  // ----- progress

  /** A store to the line by anybody but the SPU `s`. */
  predicate Rival(e: Event, s: nat, l: nat) {
    match e
    case Done(t, r, found) => t != s && LineOf(r.ea) == l && Stores(r, found)
    case Outside(line, _) => line == l
  }

  function Rivals(h: seq<Event>, from: nat, s: nat, l: nat): nat {
    if |h| <= from then 0
    else Rivals(h[..|h| - 1], from, s, l) + if Rival(h[|h| - 1], s, l) then 1 else 0
  }

  lemma RivalsGrow(h: seq<Event>, h': seq<Event>, from: nat, s: nat, l: nat)
    requires from <= |h| <= |h'| <= |h| + 1 && h == h'[..|h|]
    ensures Rivals(h', from, s, l) == Rivals(h, from, s, l) + (if |h'| > |h| && Rival(h'[|h|], s, l) then 1 else 0)
  {
    if |h'| > |h| {
      assert h'[..|h'| - 1] == h;
    } else {
      assert h' == h;
    }
  }

  /** The SPU is between `getllar` and `putllc` and has lost its reservation. */
  predicate Doomed(u: Spu) {
    && ((u.pc == Computing && Stores(u.req, Cell(u.ls, u.req))) || u.pc == Putting)
    && u.reservation != On(LineOf(u.req.ea))
  }

  predicate FailInv(h: seq<Event>, s: nat, u: Spu) {
    u.pc != Idle ==> u.fails + (if Doomed(u) then 1 else 0) <= Rivals(h, u.start, s, LineOf(u.req.ea))
  }

  ghost predicate FailsInv(st: State) {
    && (forall s | 0 <= s < |st.spus| :: FailInv(st.history, s, st.spus[s]))
    && (forall k | 0 <= k < |st.records| :: RecordPaid(st.history, st.records[k]))
  }

  predicate RecordPaid(h: seq<Event>, r: Record) {
    r.finish <= |h| && r.fails <= Rivals(h[..r.finish], r.start, r.spu, LineOf(r.req.ea))
  }

  /** An SPU loses its reservation in another processor's step only if that step stored to the line. */
  lemma LossHasRival(st: State, a: Action, s: nat)
    requires SpusInv(st) && s < |st.spus| && !Takes(a, s) && !a.Lose?
    ensures |Step(st, a).spus| == |st.spus| && Undisturbed(st, Step(st, a), s)
    ensures var st' := Step(st, a); var l := LineOf(st.spus[s].req.ea);
      st.spus[s].reservation == On(l) != st'.spus[s].reservation ==>
        |st'.history| > |st.history| && Rival(st'.history[|st.history|], s, l)
  {
    OthersUndisturbed(st, a, s);
    match a
    case PutLine(t) =>
      if t < |st.spus| {
        assert SpuInv(st.mem, st.history, t, st.spus[t]);
      }
    case _ =>
  }

  lemma OtherPays(st: State, a: Action, s: nat)
    requires SpusInv(st) && s < |st.spus| && !Takes(a, s) && !a.Lose? && FailInv(st.history, s, st.spus[s])
    ensures |Step(st, a).spus| == |st.spus| && FailInv(Step(st, a).history, s, Step(st, a).spus[s])
  {
    LossHasRival(st, a, s);
    assert SpuInv(st.mem, st.history, s, st.spus[s]);
    RivalsGrow(st.history, Step(st, a).history, st.spus[s].start, s, LineOf(st.spus[s].req.ea));
  }

  lemma TakerPays(st: State, a: Action, s: nat)
    requires SpusInv(st) && s < |st.spus| && Takes(a, s) && FailInv(st.history, s, st.spus[s])
    ensures |Step(st, a).spus| == |st.spus| && FailInv(Step(st, a).history, s, Step(st, a).spus[s])
  {
    assert SpuInv(st.mem, st.history, s, st.spus[s]);
    if Step(st, a).history != st.history {
      RivalsGrow(st.history, Step(st, a).history, st.spus[s].start, s, LineOf(st.spus[s].req.ea));
    }
  }

  lemma PaidRecordStays(st: State, st': State, r: Record)
    requires |st.history| <= |st'.history| && st.history == st'.history[..|st.history|]
    requires RecordPaid(st.history, r)
    ensures RecordPaid(st'.history, r)
  {
    assert st'.history[..r.finish] == st.history[..r.finish];
  }

  lemma ReturnedRecordPaid(st: State, st': State, s: nat)
    requires Returns(st, st', s) && FailInv(st.history, s, st.spus[s])
    ensures RecordPaid(st'.history, st'.records[|st.records|])
  {
    assert st.history[..|st.history|] == st.history;
  }

  lemma RecordsPaid(st: State, a: Action)
    requires FailsInv(st)
    ensures forall k | 0 <= k < |Step(st, a).records| :: RecordPaid(Step(st, a).history, Step(st, a).records[k])
  {
    var st' := Step(st, a);
    StepShape(st, a);
    if s: nat :| Returns(st, st', s) {
      ReturnedRecordPaid(st, st', s);
    }
    forall k | 0 <= k < |st.records| ensures st'.records[k] == st.records[k]
      && RecordPaid(st'.history, st'.records[k]) {
      assert st'.records[..|st.records|] == st.records;
      PaidRecordStays(st, st', st.records[k]);
    }
  }

  lemma FailsKept(st: State, a: Action)
    requires SpusInv(st) && RecordsInv(st) && FailsInv(st) && !a.Lose?
    ensures FailsInv(Step(st, a))
  {
    RecordsPaid(st, a);
    SpusKept(st, a);
    forall s | 0 <= s < |st.spus| ensures FailInv(Step(st, a).history, s, Step(st, a).spus[s]) {
      if Takes(a, s) {
        TakerPays(st, a, s);
      } else {
        OtherPays(st, a, s);
      }
    }
  }

  /** When reservations are lost to stores only, a call, whether it has returned or still turns its loop, has
    failed at most as often as others have stored to its line since it began. */
  lemma {:induction false} RetriesArePaidFor(mem: Memory, spus: nat, actions: seq<Action>)
    requires forall i | 0 <= i < |actions| :: !actions[i].Lose?
    ensures FailsInv(Run(Initial(mem, spus), actions))
  {
    if actions != [] {
      var n := |actions| - 1;
      RetriesArePaidFor(mem, spus, actions[..n]);
      RunKeeps(mem, spus, actions[..n]);
      FailsKept(Run(Initial(mem, spus), actions[..n]), actions[n]);
    }
  }
}
