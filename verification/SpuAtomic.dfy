/** The retry loops of spu/libspuatomic/spu_atomic.c as a machine: any number of SPUs, each with its own
  program counter, line buffer and reservation, taking steps in any order, next to losses of reservations and
  stores from outside. */
module SpuAtomic {
  import opened AtomicCells

  type Memory = map<nat, Line>

  function LineAt(mem: Memory, l: nat): Line {
    if l in mem then mem[l] else seq(32, _ => 0)
  }

  // ----- the specification: calls done one after the other

  /** `found` is what the call read in its one step. */
  datatype Event = Done(spu: nat, req: Request, found: nat) | Outside(line: nat, contents: Line)

  function Effect(mem: Memory, e: Event): Memory {
    match e
    case Done(_, r, _) =>
      var line := LineAt(mem, LineOf(r.ea));
      if Stores(r, Cell(line, r)) then mem[LineOf(r.ea) := After(line, r)] else mem
    case Outside(l, contents) => mem[l := contents]
  }

  function Replay(mem: Memory, h: seq<Event>): Memory {
    if h == [] then mem else Effect(Replay(mem, h[..|h| - 1]), h[|h| - 1])
  }

  predicate LegalEvent(mem: Memory, e: Event) {
    e.Done? ==> e.found == Cell(LineAt(mem, LineOf(e.req.ea)), e.req)
  }

  ghost predicate Legal(mem: Memory, h: seq<Event>) {
    forall i {:trigger h[i]} | 0 <= i < |h| :: LegalEvent(Replay(mem, h[..i]), h[i])
  }

  lemma Append(mem: Memory, h: seq<Event>, e: Event)
    ensures Replay(mem, h + [e]) == Effect(Replay(mem, h), e)
    ensures Legal(mem, h) && LegalEvent(Replay(mem, h), e) ==> Legal(mem, h + [e])
  {
    var h' := h + [e];
    assert h'[..|h|] == h;
    assert forall i | 0 <= i < |h| :: h'[..i] == h[..i];
  }

  // ----- the machine

  datatype Pc = Idle | Getting | Computing | Putting | Checking(stored: bool)

  /** `start`, `point` and `fails` are bookkeeping: the length of the history when the call began, the place
    of its own event, and how often `putllc` failed so far. */
  datatype Spu = Spu(pc: Pc, req: Request, ls: Line, found: nat, reservation: Reservation, start: nat, point: nat,
                     fails: nat)
  datatype Reservation = None | On(line: nat)

  /** A call that has returned. */
  datatype Record = Record(spu: nat, req: Request, ret: nat, start: nat, point: nat, finish: nat, fails: nat)

  datatype State = State(mem: Memory, spus: seq<Spu>, history: seq<Event>, records: seq<Record>)

  datatype Action =
    | Begin(spu: nat, req: Request)     // a call enters
    | GetLine(spu: nat)                 // mfc_getllar
    | Compute(spu: nat)                 // ls[i] is read, and rewritten or returned
    | PutLine(spu: nat)                 // mfc_putllc
    | Check(spu: nat)                   // the status decides between another turn and the return
    | Lose(spu: nat)                    // a reservation is lost for no reason the program can see
    | Write(line: nat, contents: Line)  // a store by another processor

  function Initial(mem: Memory, spus: nat): State {
    State(mem, seq(spus, _ => Spu(Idle, Operation(Nop, false, 0, 0, 0), seq(32, _ => 0), 0, None, 0, 0, 0)), [], [])
  }

  /** Every reservation on the line is gone. */
  function WithoutReservation(spus: seq<Spu>, l: nat): (r: seq<Spu>)
    ensures |r| == |spus|
    ensures forall s | 0 <= s < |r| :: r[s] == spus[s].(reservation := if spus[s].reservation == On(l) then None
                                                        else spus[s].reservation)
  {
    seq(|spus|, s requires 0 <= s < |spus| =>
      spus[s].(reservation := if spus[s].reservation == On(l) then None else spus[s].reservation))
  }

  function Return(st: State, s: nat, found: nat): State
    requires s < |st.spus|
  {
    var u := st.spus[s];
    st.(spus := st.spus[s := u.(pc := Idle)],
        records := st.records + [Record(s, u.req, Returned(u.req, found), u.start, u.point, |st.history|, u.fails)])
  }

  function GetStep(st: State, s: nat): State
    requires s < |st.spus|
  {
    var u := st.spus[s];
    var l := LineOf(u.req.ea);
    var line := LineAt(st.mem, l);
    var got := u.(pc := Computing, ls := line, reservation := On(l));
    var found := Cell(line, u.req);
    if Stores(u.req, found) then st.(spus := st.spus[s := got])
    else st.(spus := st.spus[s := got.(point := |st.history|)], history := st.history + [Done(s, u.req, found)])
  }

  function ComputeStep(st: State, s: nat): State
    requires s < |st.spus|
  {
    var u := st.spus[s];
    var found := Cell(u.ls, u.req);
    if !Stores(u.req, found) then Return(st, s, found)
    else st.(spus := st.spus[s := u.(pc := Putting, found := found,
                                     ls := WithCell(u.ls, u.req, NewValue(u.req, found)))])
  }

  function PutStep(st: State, s: nat): State
    requires s < |st.spus|
  {
    var u := st.spus[s];
    var l := LineOf(u.req.ea);
    if u.reservation == On(l) then
      State(st.mem[l := u.ls],
            WithoutReservation(st.spus, l)[s := u.(pc := Checking(true), reservation := None, point := |st.history|)],
            st.history + [Done(s, u.req, u.found)], st.records)
    else st.(spus := st.spus[s := u.(pc := Checking(false), reservation := None, fails := u.fails + 1)])
  }

  function CheckStep(st: State, s: nat): State
    requires s < |st.spus| && st.spus[s].pc.Checking?
  {
    var u := st.spus[s];
    if u.pc.stored then Return(st, s, u.found) else st.(spus := st.spus[s := u.(pc := Getting)])
  }

  /** A step that is not enabled changes nothing. */
  function Step(st: State, a: Action): State {
    match a
    case Write(l, contents) =>
      State(st.mem[l := contents], WithoutReservation(st.spus, l), st.history + [Outside(l, contents)], st.records)
    case Begin(s, r) =>
      if s < |st.spus| && st.spus[s].pc == Idle then
        st.(spus := st.spus[s := st.spus[s].(pc := Getting, req := r, start := |st.history|, fails := 0)])
      else st
    case GetLine(s) => if s < |st.spus| && st.spus[s].pc == Getting then GetStep(st, s) else st
    case Compute(s) => if s < |st.spus| && st.spus[s].pc == Computing then ComputeStep(st, s) else st
    case PutLine(s) => if s < |st.spus| && st.spus[s].pc == Putting then PutStep(st, s) else st
    case Check(s) => if s < |st.spus| && st.spus[s].pc.Checking? then CheckStep(st, s) else st
    case Lose(s) => if s < |st.spus| then st.(spus := st.spus[s := st.spus[s].(reservation := None)]) else st
  }

  function Run(st: State, actions: seq<Action>): State {
    if actions == [] then st else Step(Run(st, actions[..|actions| - 1]), actions[|actions| - 1])
  }

  // ----- what every step keeps

  /** The event of the call that `u` is in has happened, and is the one `point` says. */
  predicate Happened(h: seq<Event>, s: nat, u: Spu, found: nat) {
    u.start <= u.point < |h| && h[u.point] == Done(s, u.req, found)
  }

  /** As long as the reservation holds, the line buffer is the line, or the line after the call. */
  predicate SpuInv(mem: Memory, h: seq<Event>, s: nat, u: Spu) {
    var l := LineOf(u.req.ea);
    && u.start <= |h|
    && match u.pc
       case Idle => true
       case Getting => true
       case Computing =>
         if Stores(u.req, Cell(u.ls, u.req)) then u.reservation == On(l) ==> LineAt(mem, l) == u.ls
         else Happened(h, s, u, Cell(u.ls, u.req))
       case Putting =>
         && Stores(u.req, u.found)
         && (u.reservation == On(l) ==> Cell(LineAt(mem, l), u.req) == u.found && u.ls == After(LineAt(mem, l), u.req))
       case Checking(stored) => stored ==> Happened(h, s, u, u.found)
  }

  ghost predicate SpusInv(st: State) {
    forall s | 0 <= s < |st.spus| :: SpuInv(st.mem, st.history, s, st.spus[s])
  }

  ghost predicate MemInv(mem: Memory, st: State) {
    Legal(mem, st.history) && st.mem == Replay(mem, st.history)
  }

  lemma GetKeepsMem(mem: Memory, st: State, s: nat)
    requires MemInv(mem, st) && s < |st.spus|
    ensures MemInv(mem, GetStep(st, s))
  {
    var u := st.spus[s];
    Append(mem, st.history, Done(s, u.req, Cell(LineAt(st.mem, LineOf(u.req.ea)), u.req)));
  }

  lemma PutKeepsMem(mem: Memory, st: State, s: nat)
    requires MemInv(mem, st) && s < |st.spus| && st.spus[s].pc == Putting && SpuInv(st.mem, st.history, s, st.spus[s])
    ensures MemInv(mem, PutStep(st, s))
  {
    var u := st.spus[s];
    Append(mem, st.history, Done(s, u.req, u.found));
  }

  lemma MemKept(mem: Memory, st: State, a: Action)
    requires MemInv(mem, st) && SpusInv(st)
    ensures MemInv(mem, Step(st, a))
  {
    match a
    case GetLine(s) =>
      if s < |st.spus| && st.spus[s].pc == Getting {
        GetKeepsMem(mem, st, s);
      }
    case PutLine(s) =>
      if s < |st.spus| && st.spus[s].pc == Putting {
        PutKeepsMem(mem, st, s);
      }
    case Write(l, contents) =>
      Append(mem, st.history, Outside(l, contents));
    case _ =>
      OwnStepsKeepMem(mem, st, a);
  }

  /** The steps an SPU takes by itself. */
  lemma OwnStepsKeepMem(mem: Memory, st: State, a: Action)
    requires !a.Write? && !a.GetLine? && !a.PutLine?
    ensures Step(st, a).mem == st.mem && Step(st, a).history == st.history
  {
  }

  /** The history only grows, and an SPU that does not take the step itself keeps everything but its reservation. */
  predicate Undisturbed(st: State, st': State, s: nat)
    requires s < |st.spus| == |st'.spus|
  {
    && |st.history| <= |st'.history| <= |st.history| + 1 && st.history == st'.history[..|st.history|]
    && st'.spus[s] == st.spus[s].(reservation := st'.spus[s].reservation)
    && (st'.spus[s].reservation != None ==>
          st'.spus[s].reservation == st.spus[s].reservation
          && LineAt(st'.mem, st'.spus[s].reservation.line) == LineAt(st.mem, st'.spus[s].reservation.line))
  }

  predicate Takes(a: Action, s: nat) {
    !a.Write? && !a.Lose? && a.spu == s
  }

  lemma OthersUndisturbed(st: State, a: Action, s: nat)
    requires s < |st.spus| && !Takes(a, s)
    ensures |Step(st, a).spus| == |st.spus| && Undisturbed(st, Step(st, a), s)
  {
  }

  lemma UndisturbedKeeps(st: State, st': State, s: nat)
    requires s < |st.spus| == |st'.spus| && Undisturbed(st, st', s)
    requires SpuInv(st.mem, st.history, s, st.spus[s])
    ensures SpuInv(st'.mem, st'.history, s, st'.spus[s])
  {
  }

  lemma TakerKeeps(st: State, a: Action, s: nat)
    requires s < |st.spus| && Takes(a, s) && SpuInv(st.mem, st.history, s, st.spus[s])
    ensures |Step(st, a).spus| == |st.spus| && SpuInv(Step(st, a).mem, Step(st, a).history, s, Step(st, a).spus[s])
  {
  }

  lemma SpusKept(st: State, a: Action)
    requires SpusInv(st)
    ensures SpusInv(Step(st, a)) && |Step(st, a).spus| == |st.spus|
  {
    var st' := Step(st, a);
    forall s | 0 <= s < |st.spus| ensures |st'.spus| == |st.spus| && SpuInv(st'.mem, st'.history, s, st'.spus[s]) {
      if Takes(a, s) {
        TakerKeeps(st, a, s);
      } else {
        OthersUndisturbed(st, a, s);
        UndisturbedKeeps(st, st', s);
      }
    }
  }
}
