/** Whole runs: a client that takes, gives back and fills memory in any order it likes. */
module HeapRuns {
  import opened HeapLayout
  import opened HeapMoves
  import opened HeapMemory
  import opened HeapReleasing
  import opened HeapClients
  import opened HeapWords
  import opened Heap

  /** The client keeps its areas in numbered slots. Taking into a slot that is in use leaks what was there. */
  datatype Op =
    | Take(slot: nat, size: Word, alignment: Word)
    | Give(slot: nat)
    | Store(slot: nat, index: nat, value: Word)

  /** `words` is what the client has stored, by word number, since it took the area. */
  datatype Handle = Handle(ptr: Word, size: Word, words: map<nat, int>)

  /** The words of an area are numbered from the one its first byte lies in. */
  function WordAt(ptr: int, index: nat): int {
    AlignDown(ptr, PAGE_SIZE) + 8 * index
  }

  predicate Covers(handle: Handle, index: nat) {
    var a := WordAt(handle.ptr, index);
    handle.ptr < a + 8 && a < handle.ptr + handle.size
  }

  /** Every handle is live, no two are the same, and the memory holds what was stored through each. */
  ghost predicate Intact(live: map<int, int>, m: Mem, held: map<nat, Handle>) {
    && (forall s <- held :: held[s].ptr in live && live[held[s].ptr] == held[s].size)
    && (forall s, t | s in held && t in held && s != t :: held[s].ptr != held[t].ptr)
    && (forall s <- held :: Stored(m, held[s]))
  }

  ghost predicate Stored(m: Mem, handle: Handle) {
    forall i <- handle.words :: Covers(handle, i) && WordAt(handle.ptr, i) in m
                                && m[WordAt(handle.ptr, i)] == handle.words[i]
  }

  function WithWord(handle: Handle, index: nat, value: int): Handle { handle.(words := handle.words[index := value]) }

  /** A word belongs to one live area at most. */
  lemma OneOwner(first: int, last: int, bs: Blocks, live: map<int, int>, p: int, q: int, a: int)
    requires Tiling(first, last, bs) && Areas(last, bs, live) && p in live && q in live
    requires p < a + 8 && a < p + live[p] && q < a + 8 && a < q + live[q]
    ensures p == q
  {
    if p < q {
      LiveApart(first, last, bs, live, p, q);
    } else if q < p {
      LiveApart(first, last, bs, live, q, p);
    }
  }

  lemma WordMapped(first: int, last: int, anchor: int, bs: Blocks, live: map<int, int>, m: Mem, p: int, index: nat)
    requires Mapped(first, last, anchor, m) && Tiling(first, last, bs) && Areas(last, bs, live) && p in live
    requires p < WordAt(p, index) + 8 && WordAt(p, index) < p + live[p]
    ensures ClientWord(live, WordAt(p, index)) && WordAt(p, index) in m
  {
    ClientWordAvoids(first, last, bs, live, WordAt(p, index), first);
    AlignDownIsMultiple(p, PAGE_SIZE);
    WordAligned(AlignDown(p, PAGE_SIZE), index);
  }

  lemma WordAligned(base: int, index: nat)
    requires base % PAGE_SIZE == 0
    ensures (base + 8 * index) % PAGE_SIZE == 0
  {
  }

  lemma StoredStays(live: map<int, int>, m: Mem, m': Mem, handle: Handle)
    requires handle.ptr in live && live[handle.ptr] == handle.size
    requires Stored(m, handle) && SameClientWords(live, m, m')
    ensures Stored(m', handle)
  {
    forall i <- handle.words ensures ClientWord(live, WordAt(handle.ptr, i)) {
      assert Covers(handle, i);
    }
  }

  lemma IntactStays(live: map<int, int>, live': map<int, int>, m: Mem, m': Mem, held: map<nat, Handle>,
                    held': map<nat, Handle>)
    requires Intact(live, m, held) && SameClientWords(live', m, m')
    requires forall s <- held' :: s in held && held'[s] == held[s] && held[s].ptr in live'
                                  && live'[held[s].ptr] == held[s].size
    ensures Intact(live', m', held')
  {
    forall s <- held' ensures Stored(m', held'[s]) {
      StoredStays(live', m, m', held[s]);
    }
  }

  lemma StoreIntact(first: int, last: int, bs: Blocks, live: map<int, int>, m: Mem, m': Mem, held: map<nat, Handle>,
                    slot: nat, index: nat, value: int)
    requires Tiling(first, last, bs) && Areas(last, bs, live) && Intact(live, m, held)
    requires slot in held && Covers(held[slot], index) && m' == m[WordAt(held[slot].ptr, index) := value]
    ensures Intact(live, m', held[slot := WithWord(held[slot], index, value)])
  {
    var handle := held[slot];
    var a := WordAt(handle.ptr, index);
    var held' := held[slot := WithWord(handle, index, value)];
    forall s <- held' ensures Stored(m', held'[s]) {
      if s == slot {
        OwnStored(m, handle, index, value);
      } else {
        OtherStored(first, last, bs, live, m, handle, held[s], a, value);
      }
    }
  }

  lemma OwnStored(m: Mem, handle: Handle, index: nat, value: int)
    requires Stored(m, handle) && Covers(handle, index)
    ensures Stored(m[WordAt(handle.ptr, index) := value], WithWord(handle, index, value))
  {
  }

  /** A word stored through one handle is none of another's. */
  lemma OtherStored(first: int, last: int, bs: Blocks, live: map<int, int>, m: Mem, handle: Handle, other: Handle,
                    a: int, value: int)
    requires Tiling(first, last, bs) && Areas(last, bs, live) && handle.ptr in live && other.ptr in live
    requires live[handle.ptr] == handle.size && live[other.ptr] == other.size && handle.ptr != other.ptr
    requires handle.ptr < a + 8 && a < handle.ptr + handle.size && Stored(m, other)
    ensures Stored(m[a := value], other)
  {
    forall i <- other.words ensures WordAt(other.ptr, i) != a {
      assert Covers(other, i);
      if WordAt(other.ptr, i) == a {
        OneOwner(first, last, bs, live, other.ptr, handle.ptr, a);
      }
    }
  }

  // ----- what an operation does

  /** The heap and its client. `leaked` are the live areas that no slot holds. */
  datatype State = State(mem: Mem, blocks: Blocks, free: seq<int>, live: map<int, int>, held: map<nat, Handle>,
                         leaked: set<int>)

  /** What an operation is free to choose: the pointer given out, the place in the free list, and how the block is
    cut (or, for a release, where the merged block starts). */
  datatype Choice = Choice(ptr: Word, k: int, lead: int, taken: int)

  ghost function Held(held: map<nat, Handle>): set<int> { set s | s in held :: held[s].ptr }

  /** Every live area is held or leaked, and not both. */
  ghost predicate Accounted(live: map<int, int>, held: map<nat, Handle>, leaked: set<int>) {
    live.Keys == Held(held) + leaked && Held(held) !! leaked
  }

  /** What taking into a slot that is in use leaves behind. */
  function LeakedBy(held: map<nat, Handle>, slot: nat): set<int> { if slot in held then {held[slot].ptr} else {} }

  /** An allocation serves the first free block that fits, and fails only if there is none; what other areas hold
    stays. */
  ghost predicate Took(last: int, st: State, slot: nat, size: Word, alignment: Word, c: Choice, st': State) {
    && (c.ptr == 0 <==> forall i | 0 <= i < |st.free| :: !Fits(st.blocks, st.free[i], size, alignment))
    && (c.ptr == 0 ==> st' == st)
    && (c.ptr != 0 ==>
          && Served(last, st.blocks, st'.blocks, st.free, st'.free, st.live, st'.live, c.k, c.lead, c.taken, size,
                    alignment, c.ptr)
          && c.ptr !in st.live && SameClientWords(st.live, st.mem, st'.mem)
          && st'.held == st.held[slot := Handle(c.ptr, size, map[])]
          && st'.leaked == st.leaked + LeakedBy(st.held, slot))
  }

  /** A release empties the slot and gives its block back. */
  ghost predicate Given(last: int, st: State, slot: nat, c: Choice, st': State) {
    if slot in st.held then
      && Released(last, st.blocks, st'.blocks, st.free, st'.free, st.live, st'.live, Header64(st.held[slot].ptr),
                  c.lead, c.k)
      && Joined(last, st.blocks, st'.blocks, Header64(st.held[slot].ptr), c.lead)
      && ListJoined(last, st.blocks, st.free, st'.free, Header64(st.held[slot].ptr), c.k)
      && st'.live == st.live - {st.held[slot].ptr} && SameClientWords(st'.live, st.mem, st'.mem)
      && st'.held == st.held - {slot} && st'.leaked == st.leaked
    else st' == st
  }

  /** A store changes one word of the area, if the area has it. */
  ghost predicate Written(st: State, slot: nat, index: nat, value: Word, st': State) {
    if slot in st.held && Covers(st.held[slot], index) then
      && st'.mem == st.mem[WordAt(st.held[slot].ptr, index) := value]
      && st'.held == st.held[slot := WithWord(st.held[slot], index, value)]
      && st'.blocks == st.blocks && st'.free == st.free && st'.live == st.live && st'.leaked == st.leaked
    else st' == st
  }

  ghost predicate Stepped(last: int, st: State, op: Op, c: Choice, st': State) {
    match op
    case Take(slot, size, alignment) => Took(last, st, slot, size, alignment, c, st')
    case Give(slot) => Given(last, st, slot, c, st')
    case Store(slot, index, value) => Written(st, slot, index, value, st')
  }

  // ----- the client's steps

  ghost function Now(heap: HeapControl, held: map<nat, Handle>, leaked: set<int>): State
    reads heap
  {
    State(heap.mem, heap.blocks, heap.free, heap.live, held, leaked)
  }

  /** The heap and the client's view of it. */
  ghost predicate Sound(heap: HeapControl, held: map<nat, Handle>, leaked: set<int>)
    reads heap
  {
    heap.Valid() && Intact(heap.live, heap.mem, held) && Accounted(heap.live, held, leaked)
  }

  method TakeStep(heap: HeapControl, slot: nat, size: Word, alignment: Word, held: map<nat, Handle>,
                  ghost leaked: set<int>)
    returns (held': map<nat, Handle>, ghost leaked': set<int>, ghost c: Choice)
    requires Sound(heap, held, leaked)
    modifies heap`mem, heap`blocks, heap`free, heap`live
    ensures Sound(heap, held', leaked')
    ensures Took(heap.lastBlock, old(Now(heap, held, leaked)), slot, size, alignment, c, Now(heap, held', leaked'))
  {
    var area; ghost var k, lead, taken;
    area, k, lead, taken := heap.AllocateAligned(size, alignment);
    ghost var live := old(heap.live);
    IntactStays(live, live, old(heap.mem), heap.mem, held, held);
    c := Choice(area, k, lead, taken);
    if area == 0 {
      held', leaked' := held, leaked;
    } else {
      assert heap.live == live[area := size];
      IntactWith(live, heap.mem, held, area, size, slot);
      AccountedWith(live, held, leaked, area, size, slot);
      held', leaked' := held[slot := Handle(area, size, map[])], leaked + LeakedBy(held, slot);
    }
  }

  lemma IntactWith(live: map<int, int>, m: Mem, held: map<nat, Handle>, area: Word, size: Word, slot: nat)
    requires Intact(live, m, held) && area !in live
    ensures Intact(live[area := size], m, held[slot := Handle(area, size, map[])])
  {
  }

  lemma AccountedWith(live: map<int, int>, held: map<nat, Handle>, leaked: set<int>, area: Word, size: Word, slot: nat)
    requires Accounted(live, held, leaked) && area !in live
    requires forall s, t | s in held && t in held && s != t :: held[s].ptr != held[t].ptr
    ensures Accounted(live[area := size], held[slot := Handle(area, size, map[])], leaked + LeakedBy(held, slot))
  {
    var held' := held[slot := Handle(area, size, map[])];
    forall p | p in live[area := size] ensures p in Held(held') + (leaked + LeakedBy(held, slot)) {
      if p != area && p !in leaked {
        var s :| s in held && held[s].ptr == p;
        assert s == slot || held'[s].ptr == p;
      } else if p == area {
        assert held'[slot].ptr == area;
      }
    }
  }

  method GiveStep(heap: HeapControl, slot: nat, held: map<nat, Handle>, ghost leaked: set<int>)
    returns (held': map<nat, Handle>, ghost c: Choice)
    requires Sound(heap, held, leaked)
    modifies heap`mem, heap`blocks, heap`free, heap`live
    ensures Sound(heap, held', leaked)
    ensures Given(heap.lastBlock, old(Now(heap, held, leaked)), slot, c, Now(heap, held', leaked))
  {
    c := Choice(0, 0, 0, 0);
    if slot in held {
      var ptr := held[slot].ptr;
      LivePointer(heap.firstBlock, heap.lastBlock, heap.freeList, heap.mem, heap.blocks, heap.free, heap.live, ptr);
      var ok; ghost var start, k;
      ok, start, k := heap.Free(ptr);
      held' := held - {slot};
      IntactWithout(old(heap.live), old(heap.mem), heap.mem, held, slot);
      AccountedWithout(old(heap.live), held, leaked, slot);
      c := Choice(ptr, k, start, 0);
    } else {
      held' := held;
    }
  }

  lemma IntactWithout(live: map<int, int>, m: Mem, m': Mem, held: map<nat, Handle>, slot: nat)
    requires Intact(live, m, held) && slot in held && SameClientWords(live - {held[slot].ptr}, m, m')
    ensures Intact(live - {held[slot].ptr}, m', held - {slot})
  {
    IntactStays(live, live - {held[slot].ptr}, m, m', held, held - {slot});
  }

  lemma AccountedWithout(live: map<int, int>, held: map<nat, Handle>, leaked: set<int>, slot: nat)
    requires Accounted(live, held, leaked) && slot in held
    requires forall s, t | s in held && t in held && s != t :: held[s].ptr != held[t].ptr
    ensures Accounted(live - {held[slot].ptr}, held - {slot}, leaked)
  {
    var held' := held - {slot};
    forall p | p in live && p != held[slot].ptr && p !in leaked ensures p in Held(held') {
      var s :| s in held && held[s].ptr == p;
      assert s in held' && held'[s].ptr == p;
    }
  }

  method StoreStep(heap: HeapControl, slot: nat, index: nat, value: Word, held: map<nat, Handle>,
                   ghost leaked: set<int>)
    returns (held': map<nat, Handle>)
    requires Sound(heap, held, leaked)
    modifies heap`mem
    ensures Sound(heap, held', leaked)
    ensures Written(old(Now(heap, held, leaked)), slot, index, value, Now(heap, held', leaked))
  {
    held' := held;
    if slot in held && Covers(held[slot], index) {
      var a := WordAt(held[slot].ptr, index);
      held' := held[slot := WithWord(held[slot], index, value)];
      var stored := heap.mem[a := value];
      StoreKeepsHeap(heap.firstBlock, heap.lastBlock, heap.freeList, heap.mem, stored, heap.blocks, heap.free,
                     heap.live, held[slot], index, value);
      StoreIntact(heap.firstBlock, heap.lastBlock, heap.blocks, heap.live, heap.mem, stored, held, slot, index, value);
      HeldStays(heap.live, held, leaked, slot, index, value);
      heap.mem := stored;
    }
  }

  lemma StoreKeepsHeap(first: int, last: int, anchor: int, m: Mem, m': Mem, bs: Blocks, free: seq<int>,
                       live: map<int, int>,
                       handle: Handle, index: nat, value: int)
    requires Invariant(first, last, anchor, m, bs, free, live)
    requires handle.ptr in live && live[handle.ptr] == handle.size && Covers(handle, index)
    requires m' == m[WordAt(handle.ptr, index) := value]
    ensures Invariant(first, last, anchor, m', bs, free, live)
  {
    WordMapped(first, last, anchor, bs, live, m, handle.ptr, index);
    ClientStoreKeeps(first, last, anchor, m, bs, free, live, WordAt(handle.ptr, index), value);
  }

  lemma HeldStays(live: map<int, int>, held: map<nat, Handle>, leaked: set<int>, slot: nat, index: nat, value: int)
    requires Accounted(live, held, leaked) && slot in held
    ensures Accounted(live, held[slot := WithWord(held[slot], index, value)], leaked)
  {
    var held' := held[slot := WithWord(held[slot], index, value)];
    forall p | p in Held(held) ensures p in Held(held') {
      var s :| s in held && held[s].ptr == p;
      assert held'[s].ptr == p;
    }
  }

  method Perform(heap: HeapControl, op: Op, held: map<nat, Handle>, ghost leaked: set<int>)
    returns (held': map<nat, Handle>, ghost leaked': set<int>, ghost c: Choice)
    requires Sound(heap, held, leaked)
    modifies heap`mem, heap`blocks, heap`free, heap`live
    ensures Sound(heap, held', leaked')
    ensures Stepped(heap.lastBlock, old(Now(heap, held, leaked)), op, c, Now(heap, held', leaked'))
  {
    leaked', c := leaked, Choice(0, 0, 0, 0);
    match op
    case Take(slot, size, alignment) => held', leaked', c := TakeStep(heap, slot, size, alignment, held, leaked);
    case Give(slot) => held', c := GiveStep(heap, slot, held, leaked);
    case Store(slot, index, value) => held' := StoreStep(heap, slot, index, value, held, leaked);
  }

  // ----- what one operation leaves for the next

  /** After an unaligned allocation of `n` bytes, the next one that fits behind any whole number of pages that would
    have been enough for the first is served. */
  lemma NextServed(first: int, last: int, st: State, slot: nat, n: Word, c: Choice, st': State, slot': nat, n': Word,
                   c': Choice, st'': State, room: int)
    requires 0 <= first && WellFormed(first, last, st.blocks) && WellFormed(first, last, st'.blocks)
    requires ListsFree(last, st.blocks, st.free) && ListsFree(last, st'.blocks, st'.free)
    requires Took(last, st, slot, n, 0, c, st') && c.ptr != 0 && Took(last, st', slot', n', 0, c', st'')
    requires room % PAGE_SIZE == 0 && n + HEADER <= room && MIN_BLOCK <= room
    requires st.free[c.k] in st.blocks && room + MIN_BLOCK <= st.blocks[st.free[c.k]].size
    requires n' + HEADER - BONUS <= st.blocks[st.free[c.k]].size - room
    ensures c'.ptr != 0
  {
    var b := st.free[c.k];
    assert b in st.free && IsFree(last, st.blocks, b) && st.blocks[b].size % PAGE_SIZE == 0;
    UnalignedPlace(b, st.blocks[b].size, n, c.ptr);
    var rest := RestIsFree(last, st.blocks, st'.blocks, b, c.ptr, n, room);
    assert rest in st'.free;
    LargeEnoughFits(first, last, st'.blocks, rest, n');
  }

  lemma UnalignedPlace(b: int, size: int, n: int, area: int)
    requires b % PAGE_SIZE == 0 && area == Fit(b, size, n, 0) != 0
    ensures area == b + HEADER && area - area % PAGE_SIZE - HEADER == b
  {
  }

  lemma RestIsFree(last: int, bs: Blocks, bs': Blocks, b: int, area: int, n: int, room: int) returns (rest: int)
    requires CutUp(last, bs, bs', b, area, n) && area == b + HEADER && area - area % PAGE_SIZE - HEADER == b
    requires room % PAGE_SIZE == 0 && n + HEADER <= room && MIN_BLOCK <= room && room + MIN_BLOCK <= bs[b].size
    requires bs[b].size % PAGE_SIZE == 0
    ensures IsFree(last, bs', rest) && bs'[rest].size >= bs[b].size - room
  {
    LeastLeavesMost(bs[b].size, n, bs'[b].size, room);
    rest := b + bs'[b].size;
  }

  lemma LargeEnoughFits(first: int, last: int, bs: Blocks, b: int, n: int)
    requires 0 <= first && Tiling(first, last, bs) && b in bs && bs[b].size >= n + HEADER - BONUS
    ensures Fits(bs, b, n, 0) && Fit(b, bs[b].size, n, 0) == b + HEADER
  {
  }

  /** A block that is given back between two used ones serves the next unaligned allocation it is large enough for. */
  lemma GivenServesNext(first: int, last: int, st: State, slot: nat, c: Choice, st': State, slot': nat, n: Word,
                        c': Choice, st'': State)
    requires 0 <= first && WellFormed(first, last, st.blocks) && WellFormed(first, last, st'.blocks)
    requires slot in st.held && Given(last, st, slot, c, st') && Took(last, st', slot', n, 0, c', st'')
    requires var b := Header64(st.held[slot].ptr);
      && st.blocks[b].prevUsed && st.blocks[Next(st.blocks, b)].used
      && st.blocks[b].size >= n + HEADER - BONUS
    ensures c'.ptr == Header64(st.held[slot].ptr) + HEADER
  {
    var b := Header64(st.held[slot].ptr);
    assert st'.free == [b] + st.free && st'.free[0] == b;
    LargeEnoughFits(first, last, st'.blocks, b, n);
    assert c'.ptr != 0 && c'.k == 0;
  }

  // ----- runs

  /** Every operation has been done, in order. */
  ghost predicate IsRun(last: int, trace: seq<State>, ops: seq<Op>, choices: seq<Choice>) {
    && |trace| == |ops| + 1 == |choices| + 1
    && forall i | 0 <= i < |ops| :: Stepped(last, trace[i], ops[i], choices[i], trace[i + 1])
  }

  /** The slots that have been taken into and not been given back since. */
  function Open(ops: seq<Op>): set<nat> {
    if ops == [] then {}
    else
      var before, op := Open(ops[..|ops| - 1]), ops[|ops| - 1];
      match op
      case Take(slot, _, _) => before + {slot}
      case Give(slot) => before - {slot}
      case Store(_, _, _) => before
  }

  /** The client never takes into a slot it may still need. */
  predicate Tidy(ops: seq<Op>) {
    forall i | 0 <= i < |ops| && ops[i].Take? :: ops[i].slot !in Open(ops[..i])
  }

  /** A tidy client leaks nothing, and holds nothing but what is open. */
  lemma {:induction false} TidyLeaksNothing(last: int, trace: seq<State>, ops: seq<Op>, choices: seq<Choice>, n: nat)
    requires IsRun(last, trace, ops, choices) && Tidy(ops) && trace[0].held == map[] && n <= |ops|
    ensures trace[n].held.Keys <= Open(ops[..n]) && trace[n].leaked == trace[0].leaked
  {
    if n > 0 {
      TidyLeaksNothing(last, trace, ops, choices, n - 1);
      assert ops[..n][..n - 1] == ops[..n - 1];
      assert Stepped(last, trace[n - 1], ops[n - 1], choices[n - 1], trace[n]);
    }
  }

  /** Over every run: each operation does its step; the heap stays well formed; live areas stay apart, are all held
    or leaked, and keep what was stored in them; used and free bytes add up. A tidy client that has given back
    everything, on a heap that had nothing live, leaves one free block of the initial size. */
  method Run(heap: HeapControl, ops: seq<Op>)
    returns (held: map<nat, Handle>, ghost trace: seq<State>, ghost choices: seq<Choice>)
    requires heap.Valid()
    modifies heap`mem, heap`blocks, heap`free, heap`live
    ensures heap.Valid()
    ensures IsRun(heap.lastBlock, trace, ops, choices)
    ensures trace[0] == old(Now(heap, map[], heap.live.Keys))
    ensures trace[|ops|] == Now(heap, held, trace[|ops|].leaked) && Accounted(heap.live, held, trace[|ops|].leaked)
    ensures LiveDisjoint(heap.firstBlock, heap.lastBlock, heap.live) && Intact(heap.live, heap.mem, held)
    ensures Tiling(heap.firstBlock, heap.lastBlock, heap.blocks)
    ensures Bytes(heap.firstBlock, heap.lastBlock, heap.blocks, heap.firstBlock, true)
            + Bytes(heap.firstBlock, heap.lastBlock, heap.blocks, heap.firstBlock, false)
              == heap.lastBlock - heap.firstBlock
    ensures Tidy(ops) && Open(ops) == {} && old(heap.live) == map[] ==>
      && heap.blocks.Keys == {heap.firstBlock, heap.lastBlock} && heap.free == [heap.firstBlock]
      && heap.blocks[heap.firstBlock].size == heap.lastBlock - heap.firstBlock
  {
    held := map[];
    ghost var leaked := heap.live.Keys;
    trace, choices := [Now(heap, held, leaked)], [];
    for i := 0 to |ops|
      invariant Sound(heap, held, leaked) && |trace| == i + 1
      invariant trace[0] == old(Now(heap, map[], heap.live.Keys)) && trace[i] == Now(heap, held, leaked)
      invariant IsRun(heap.lastBlock, trace, ops[..i], choices)
    {
      ghost var c;
      held, leaked, c := Perform(heap, ops[i], held, leaked);
      RunGrows(heap.lastBlock, trace, ops, choices, c, Now(heap, held, leaked), i);
      trace, choices := trace + [Now(heap, held, leaked)], choices + [c];
    }
    assert ops[..|ops|] == ops;
    LiveAreasDisjoint(heap.firstBlock, heap.lastBlock, heap.blocks, heap.live);
    BytesAddUp(heap.firstBlock, heap.lastBlock, heap.blocks, heap.firstBlock);
    if Tidy(ops) && Open(ops) == {} && old(heap.live) == map[] {
      TidyEnds(heap.firstBlock, heap.lastBlock, trace, ops, choices, Now(heap, held, leaked));
    }
  }

  /** With every slot given back and nothing leaked, nothing is live. */
  lemma TidyEnds(first: int, last: int, trace: seq<State>, ops: seq<Op>, choices: seq<Choice>, end: State)
    requires IsRun(last, trace, ops, choices) && Tidy(ops) && Open(ops) == {} && trace[|ops|] == end
    requires trace[0].held == map[] && trace[0].leaked == {} && Accounted(end.live, end.held, end.leaked)
    requires WellFormed(first, last, end.blocks) && ListsFree(last, end.blocks, end.free)
      && Areas(last, end.blocks, end.live)
    ensures end.blocks.Keys == {first, last} && end.blocks[first].size == last - first && end.free == [first]
  {
    TidyLeaksNothing(last, trace, ops, choices, |ops|);
    assert ops[..|ops|] == ops;
    assert end.live.Keys == {};
    FullyCoalesced(first, last, end.blocks, end.free, end.live);
  }

  lemma RunGrows(last: int, trace: seq<State>, ops: seq<Op>, choices: seq<Choice>, c: Choice, st': State, i: nat)
    requires i < |ops| && IsRun(last, trace, ops[..i], choices) && Stepped(last, trace[i], ops[i], c, st')
    ensures IsRun(last, trace + [st'], ops[..i + 1], choices + [c])
  {
    var longer, more, did := trace + [st'], ops[..i + 1], choices + [c];
    forall j | 0 <= j < i + 1 ensures Stepped(last, longer[j], more[j], did[j], longer[j + 1]) {
      if j < i {
        assert ops[..i][j] == more[j];
        assert Stepped(last, trace[j], ops[..i][j], choices[j], trace[j + 1]);
      }
    }
  }
}
