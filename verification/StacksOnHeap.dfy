/** Threads and the heap together: thread_create takes the node and the stack of a thread from malloc,
    reap_zombies gives them back. That a new stack is apart from all others, which the machine's theorems
    assume, is what the heap guarantees as long as only the blocks of reaped threads are freed. */
module StacksOnHeap {
  import opened Basics
  import opened Scheduling
  import opened SchedulingRuns
  import opened Machine
  import opened MachineRuns
  import opened HeapLayout

  /** The size of a thread's node; it and the size of a stack are multiples of the alignment. */
  const NODE_SIZE: nat := 576

  /** The headers of a thread's two blocks. */
  datatype Blocks = Blocks(node: nat, stack: nat)

  datatype State = State(machine: System, base: nat, total: nat, chunks: seq<Chunk>, own: map<nat, Blocks>)

  // ---------- live blocks by address ----------

  ghost predicate HasBlock(cs: seq<Chunk>, a: nat, n: nat) {
    exists c :: c in Live(cs) && c.addr == a && c.size >= n
  }

  ghost function BlockAt(cs: seq<Chunk>, a: nat, n: nat): (c: Chunk)
    requires HasBlock(cs, a, n)
    ensures c in Live(cs) && c.addr == a && c.size >= n
  {
    var c :| c in Live(cs) && c.addr == a && c.size >= n;
    c
  }

  function StackOf(a: nat): Region { Region(a + HDR_SIZE, a + HDR_SIZE + STACK_SIZE) }

  lemma BlockInside(cs: seq<Chunk>, base: nat, total: nat, a: nat, n: nat)
    requires Good(cs, base, total) && HasBlock(cs, a, n)
    ensures base <= a && a + HDR_SIZE + n <= base + total
  {
    TilesUp(cs, base, base + total);
  }

  lemma BlocksApart(cs: seq<Chunk>, base: nat, total: nat, a: nat, m: nat, b: nat, n: nat)
    requires Good(cs, base, total) && HasBlock(cs, a, m) && HasBlock(cs, b, n) && a != b
    ensures a + HDR_SIZE + m <= b || b + HDR_SIZE + n <= a
  {
    hide Good, Live;
    PayloadsApart(cs, base, total, BlockAt(cs, a, m), BlockAt(cs, b, n));
  }

  /** malloc of a size that is already a multiple of the alignment. */
  function Carved(cs: seq<Chunk>, n: nat): Option<(seq<Chunk>, nat)> {
    var k := FirstFit(cs, n);
    if k == |cs| then None else Some((AllocAt(cs, k, n), cs[k].addr))
  }

  lemma CarvedKeeps(cs: seq<Chunk>, base: nat, total: nat, n: nat)
    requires Good(cs, base, total) && n % ALIGNMENT == 0 && Carved(cs, n).Some?
    ensures var (r, a) := Carved(cs, n).value;
      && Good(r, base, total) && HasBlock(r, a, n)
      && forall b, m :: HasBlock(cs, b, m) ==> b != a && HasBlock(r, b, m)
  {
    hide Good, Live, AllocAt, Carve;
    var k := FirstFit(cs, n);
    var r := AllocAt(cs, k, n);
    AllocGood(cs, base, total, k, n);
    assert r[k].addr == cs[k].addr && r[k].size >= n by { CarvedHead(cs[k], n); }
    forall b, m | HasBlock(cs, b, m)
      ensures b != cs[k].addr && HasBlock(r, b, m)
    {
      var c := BlockAt(cs, b, m);
      assert c in Live(r);
      PayloadsApart(r, base, total, c, r[k]);
    }
  }

  lemma CarvedHead(c: Chunk, n: nat)
    requires Fits(c, n)
    ensures Carve(c, n)[0].addr == c.addr && Carve(c, n)[0].size >= n
  {
  }

  /** Giving back at once what malloc returned leaves the heap as it was, block for block. */
  lemma CarvedThenFreed(cs: seq<Chunk>, base: nat, total: nat, n: nat)
    requires Good(cs, base, total) && n % ALIGNMENT == 0 && Carved(cs, n).Some?
    ensures var (r, a) := Carved(cs, n).value; HeapLayout.Free(r, a) == cs
  {
    hide Good, AllocAt, Carve, HeapLayout.Free;
    var (r, a) := Carved(cs, n).value;
    var k := FirstFit(cs, n);
    AllocGood(cs, base, total, k, n);
    FreeLive(r, base, total, a);
    CarvedHead(cs[k], n);
    forall c | c in Live(cs)
      ensures c.addr != a
    {
      PayloadsApart(r, base, total, c, r[k]);
    }
    assert Live(HeapLayout.Free(r, a)) == Live(cs);
    GoodMerged(cs, base, total);
    GoodMerged(HeapLayout.Free(r, a), base, total);
    LiveDetermines(HeapLayout.Free(r, a), cs, base, base + total);
  }

  lemma GoodMerged(cs: seq<Chunk>, base: nat, total: nat)
    requires Good(cs, base, total)
    ensures Tiles(cs, base, base + total) && Merged(cs)
  {
  }

  lemma FreedKeeps(cs: seq<Chunk>, base: nat, total: nat, gone: seq<nat>)
    requires Good(cs, base, total)
    ensures Good(FreeAll(cs, gone), base, total)
    ensures forall b, m :: HasBlock(FreeAll(cs, gone), b, m) <==> HasBlock(cs, b, m) && b !in gone
  {
    hide Good, Live;
    FreeAllLive(cs, base, total, gone);
  }

  // ---------- what holds of threads and heap ----------

  ghost predicate Placed(k: State, id: nat)
    requires id in k.own
  {
    && HasBlock(k.chunks, k.own[id].node, NODE_SIZE) && HasBlock(k.chunks, k.own[id].stack, STACK_SIZE)
    && id in k.machine.stacks && k.machine.stacks[id] == StackOf(k.own[id].stack)
  }

  ghost predicate Separate(own: map<nat, Blocks>) {
    && (forall i, j :: i in own && j in own ==> own[i].node != own[j].stack)
    && (forall i, j :: i in own && j in own && i != j ==> own[i].node != own[j].node && own[i].stack != own[j].stack)
  }

  /** The machine's invariant and the heap's; the threads on the ring, idle apart, are those that own
      blocks, and each owns two live ones, the larger being its stack. */
  ghost predicate StateInv(k: State) {
    && SystemInv(k.machine) && Good(k.chunks, k.base, k.total)
    && (forall id :: id in k.own <==> Has(k.machine.sched.ring, id) && id != 0)
    && (forall id :: id in k.own ==> Placed(k, id))
    && Separate(k.own)
    && (Has(k.machine.sched.ring, 0) ==>
          0 in k.machine.stacks && k.machine.stacks[0].Apart(Region(k.base, k.base + k.total)))
  }

  /** A stack that malloc returns is apart from the stack of every thread on the ring. */
  lemma NewStackIsFresh(k: State, cs: seq<Chunk>, a: nat)
    requires StateInv(k) && Good(cs, k.base, k.total) && HasBlock(cs, a, STACK_SIZE)
    requires forall id :: id in k.own ==> k.own[id].stack != a && HasBlock(cs, k.own[id].stack, STACK_SIZE)
    ensures FreshStack(k.machine, StackOf(a))
  {
    hide SystemInv, Good, HasBlock;
    var y := k.machine;
    forall t | t in y.sched.ring && t.id in y.stacks
      ensures StackOf(a).Apart(y.stacks[t.id])
    {
      HasMember(y.sched.ring, t);
      BlockInside(cs, k.base, k.total, a, STACK_SIZE);
      if t.id != 0 {
        assert Placed(k, t.id);
        BlocksApart(cs, k.base, k.total, a, STACK_SIZE, k.own[t.id].stack, STACK_SIZE);
      }
    }
  }

  // ---------- calls ----------

  /** What happens: a thread is created, the scheduler started, an interrupt entered, or the running thread's
      own code runs, which may use the heap for blocks of its own. */
  datatype Call =
    | ThreadCreate(trampoline: Word, fn: Word, arg: Word)
    | SchedStart(bootStack: Region)
    | Interrupt(a: Activity)
    | Code(mem: Memory, cpu: Registers, fpu: FpuImage, chunks: seq<Chunk>)

  ghost predicate Allowed(k: State, c: Call) {
    match c
    case ThreadCreate(_, _, _) => true
    case SchedStart(boot) =>
      !k.machine.sched.active && boot.Apart(Region(k.base, k.base + k.total)) && Carved(k.chunks, NODE_SIZE).Some?
    case Interrupt(a) => IsInterrupt(a) && Possible(k.machine, a)
    case Code(mem, cpu, fpu, chunks) =>
      && Possible(k.machine, Compute(mem, cpu, fpu)) && Good(chunks, k.base, k.total)
      && forall id :: id in k.own ==>
        HasBlock(chunks, k.own[id].node, NODE_SIZE) && HasBlock(chunks, k.own[id].stack, STACK_SIZE)
  }

  /** The blocks that reap_zombies frees when the ring shrinks: for each thread its stack, then its node. */
  ghost function Freed(ring: seq<Thread>, own: map<nat, Blocks>, left: seq<Thread>): seq<nat> {
    if ring == [] then []
    else
      var id := ring[0].id;
      (if id in own && !Has(left, id) then [own[id].stack, own[id].node] else []) + Freed(ring[1..], own, left)
  }

  /** What the machine does in a call: nothing in a thread_create that returns -1. */
  ghost function ActivityOf(k: State, c: Call): Option<Activity> {
    match c
    case ThreadCreate(trampoline, fn, arg) =>
      (match Carved(k.chunks, NODE_SIZE)
       case None => None
       case Some(first) =>
         match Carved(first.0, STACK_SIZE)
         case None => None
         case Some(second) => Some(Spawn(trampoline, fn, arg, second.1 + HDR_SIZE)))
    case SchedStart(boot) => Some(Boot(boot))
    case Interrupt(a) => Some(a)
    case Code(mem, cpu, fpu, _) => Some(Compute(mem, cpu, fpu))
  }

  /** Heap and owners after a call that leaves the machine in state z. */
  ghost function HeapAfter(k: State, c: Call, z: System): State {
    match c
    case ThreadCreate(_, _, _) =>
      (match Carved(k.chunks, NODE_SIZE)
       case None => k
       case Some(first) =>
         match Carved(first.0, STACK_SIZE)
         case None => k.(chunks := HeapLayout.Free(first.0, first.1))
         case Some(second) =>
           k.(machine := z, chunks := second.0,
              own := k.own[k.machine.sched.nextId + 1 := Blocks(first.1, second.1)]))
    case SchedStart(_) =>
      k.(machine := z, chunks := if Carved(k.chunks, NODE_SIZE).Some? then Carved(k.chunks, NODE_SIZE).value.0
                                 else k.chunks)
    case Interrupt(_) =>
      k.(machine := z, chunks := FreeAll(k.chunks, Freed(k.machine.sched.ring, k.own, z.sched.ring)),
         own := map id | id in k.own && Has(z.sched.ring, id) :: k.own[id])
    case Code(_, _, _, chunks) => k.(machine := z, chunks := chunks)
  }

  // ---------- every call is possible for the machine, and keeps the invariant ----------

  lemma CallPossible(k: State, c: Call)
    requires StateInv(k) && Allowed(k, c)
    ensures var a := ActivityOf(k, c); a.Some? ==> Possible(k.machine, a.value)
  {
    hide SystemInv, Good, HasBlock, Carved;
    match c
    case ThreadCreate(trampoline, fn, arg) =>
      if ActivityOf(k, c).Some? {
        CreatedBlocks(k);
        var (cs1, node) := Carved(k.chunks, NODE_SIZE).value;
        var (cs2, stack) := Carved(cs1, STACK_SIZE).value;
        NewStackIsFresh(k, cs2, stack);
      }
    case SchedStart(boot) => BootStackIsFresh(k, boot);
    case Interrupt(_) =>
    case Code(_, _, _, _) =>
  }

  /** The two blocks of a new thread: live, new, and no block of another thread is touched. */
  lemma CreatedBlocks(k: State)
    requires StateInv(k) && Carved(k.chunks, NODE_SIZE).Some?
    requires Carved(Carved(k.chunks, NODE_SIZE).value.0, STACK_SIZE).Some?
    ensures var (cs1, node) := Carved(k.chunks, NODE_SIZE).value;
      var (cs2, stack) := Carved(cs1, STACK_SIZE).value;
      && Good(cs2, k.base, k.total) && node != stack
      && HasBlock(cs2, node, NODE_SIZE) && HasBlock(cs2, stack, STACK_SIZE)
      && forall id :: id in k.own ==>
        && k.own[id].node != node && k.own[id].node != stack && k.own[id].stack != node && k.own[id].stack != stack
        && HasBlock(cs2, k.own[id].node, NODE_SIZE) && HasBlock(cs2, k.own[id].stack, STACK_SIZE)
  {
    hide SystemInv, Good, HasBlock, Carved;
    var (cs1, node) := Carved(k.chunks, NODE_SIZE).value;
    CarvedKeeps(k.chunks, k.base, k.total, NODE_SIZE);
    CarvedKeeps(cs1, k.base, k.total, STACK_SIZE);
    forall id | id in k.own
      ensures HasBlock(k.chunks, k.own[id].node, NODE_SIZE) && HasBlock(k.chunks, k.own[id].stack, STACK_SIZE)
    {
      assert Placed(k, id);
    }
  }

  lemma BootStackIsFresh(k: State, boot: Region)
    requires StateInv(k) && Allowed(k, SchedStart(boot))
    ensures FreshStack(k.machine, boot)
  {
    hide Good, HasBlock, Carved;
    var y := k.machine;
    forall t | t in y.sched.ring && t.id in y.stacks
      ensures boot.Apart(y.stacks[t.id])
    {
      HasMember(y.sched.ring, t);
      assert Placed(k, t.id);
      BlockInside(k.chunks, k.base, k.total, k.own[t.id].stack, STACK_SIZE);
    }
  }

  /** The state after a call. */
  ghost function Do(k: State, c: Call): (z: State)
    requires StateInv(k) && Allowed(k, c)
  {
    CallPossible(k, c);
    match ActivityOf(k, c)
    case None => HeapAfter(k, c, k.machine)
    case Some(a) => HeapAfter(k, c, Next(k.machine, a))
  }

  lemma SpawnAdds(y: System, a: Activity)
    requires SystemInv(y) && Possible(y, a) && a.Spawn?
    ensures var z, id := Next(y, a), y.sched.nextId + 1;
      && z.stacks == y.stacks[id := Region(a.stack, a.stack + STACK_SIZE)] && !Has(y.sched.ring, id)
      && forall i :: Has(z.sched.ring, i) <==> Has(y.sched.ring, i) || i == id
  {
    hide Inv, Has, Step, StoreFrame;
    PossibleFits(y, a);
    CreatedIds(y.sched, EventOf(y, a).context);
  }

  lemma CreatedIds(s: Sched, context: Context)
    requires Inv(s) && (s.active ==> Has(s.ring, s.current))
    ensures !Has(s.ring, s.nextId + 1)
    ensures forall i :: Has(Step(s, Create(context)).ring, i) <==> Has(s.ring, i) || i == s.nextId + 1
  {
    hide Inv, Has, Step;
    CreateFind(s, context, 0);
    forall i
      ensures Has(Step(s, Create(context)).ring, i) <==> Has(s.ring, i) || i == s.nextId + 1
    {
      CreateFind(s, context, i);
    }
  }

  lemma BootAdds(y: System, a: Activity)
    requires SystemInv(y) && Possible(y, a) && a.Boot?
    ensures var z := Next(y, a);
      && z.stacks == y.stacks[0 := a.bootStack]
      && forall i :: Has(z.sched.ring, i) <==> Has(y.sched.ring, i) || i == 0
  {
    hide Has, Insert;
    PossibleFits(y, a);
    var idle := Thread(0, Running, 0, Context(0, InitialFpu()));
    AddInv(y.sched, idle);
    var r := Insert(y.sched.ring, idle);
    forall i | Has(r, i) && i != 0
      ensures Has(y.sched.ring, i)
    {
      HasMember(y.sched.ring, Find(r, i));
    }
  }

  lemma InterruptLeaves(y: System, a: Activity)
    requires SystemInv(y) && Possible(y, a) && IsInterrupt(a)
    ensures var z := Next(y, a);
      z.stacks == y.stacks && forall i :: Has(z.sched.ring, i) ==> Has(y.sched.ring, i)
  {
    hide Inv, SystemInv, Has, StoreFrame, LoadFrame;
    PossibleFits(y, a);
    InterruptFits(y, a);
    InterruptIs(y, a);
    forall i | Has(Act(y, a).sched.ring, i)
      ensures Has(y.sched.ring, i)
    {
      StepContext(y.sched, EventOf(y, a), i);
    }
  }

  lemma InvParts(k: State)
    requires StateInv(k)
    ensures SystemInv(k.machine) && Good(k.chunks, k.base, k.total)
    ensures forall id :: id in k.own <==> Has(k.machine.sched.ring, id) && id != 0
    ensures forall id :: id in k.own ==> Placed(k, id)
  {
    hide SystemInv, Good, Placed, Separate;
  }

  lemma CreateInvariant(k: State, c: Call)
    requires StateInv(k) && c.ThreadCreate?
    ensures StateInv(Do(k, c)) && (ActivityOf(k, c) == None ==> Do(k, c) == k)
  {
    hide SystemInv, Good, HasBlock, Carved, Has, Next, HeapLayout.Free;
    CallPossible(k, c);
    if Carved(k.chunks, NODE_SIZE).Some? {
      CarvedKeeps(k.chunks, k.base, k.total, NODE_SIZE);
      CarvedThenFreed(k.chunks, k.base, k.total, NODE_SIZE);
      var (cs1, node) := Carved(k.chunks, NODE_SIZE).value;
      if Carved(cs1, STACK_SIZE).Some? {
        CreatedBlocks(k);
        SpawnAdds(k.machine, ActivityOf(k, c).value);
        CreatedInv(k, c, Do(k, c));
      }
    }
  }

  lemma CreatedInv(k: State, c: Call, z: State)
    requires StateInv(k) && c.ThreadCreate? && SystemInv(z.machine) && Good(z.chunks, k.base, k.total)
    requires var y, id := k.machine, k.machine.sched.nextId + 1;
      && z.base == k.base && z.total == k.total && z.own.Keys == k.own.Keys + {id} && id !in k.own
      && (forall i :: i in k.own ==> z.own[i] == k.own[i])
      && z.machine.stacks == y.stacks[id := StackOf(z.own[id].stack)] && !Has(y.sched.ring, id)
      && (forall i :: Has(z.machine.sched.ring, i) <==> Has(y.sched.ring, i) || i == id)
      && z.own[id].node != z.own[id].stack
      && HasBlock(z.chunks, z.own[id].node, NODE_SIZE) && HasBlock(z.chunks, z.own[id].stack, STACK_SIZE)
      && forall i :: i in k.own ==>
        && k.own[i].node != z.own[id].node && k.own[i].node != z.own[id].stack
        && k.own[i].stack != z.own[id].node && k.own[i].stack != z.own[id].stack
        && HasBlock(z.chunks, k.own[i].node, NODE_SIZE) && HasBlock(z.chunks, k.own[i].stack, STACK_SIZE)
    ensures StateInv(z)
  {
    hide SystemInv, Good, HasBlock, Has;
    forall i | i in z.own
      ensures Placed(z, i)
    {
      if i in k.own {
        assert Placed(k, i);
      }
    }
  }

  lemma StartInvariant(k: State, c: Call)
    requires StateInv(k) && Allowed(k, c) && c.SchedStart?
    ensures StateInv(Do(k, c))
  {
    hide SystemInv, Good, HasBlock, Carved, Has, Next;
    CallPossible(k, c);
    BootAdds(k.machine, Boot(c.bootStack));
    CarvedKeeps(k.chunks, k.base, k.total, NODE_SIZE);
    var z := Do(k, c);
    forall id | id in z.own
      ensures Placed(z, id)
    {
      assert Placed(k, id);
    }
  }

  lemma CodeInvariant(k: State, c: Call)
    requires StateInv(k) && Allowed(k, c) && c.Code?
    ensures StateInv(Do(k, c))
  {
    hide SystemInv, Good, HasBlock, Has;
    CallPossible(k, c);
    var z := Do(k, c);
    assert z.machine.sched == k.machine.sched && z.machine.stacks == k.machine.stacks;
    forall id | id in z.own
      ensures Placed(z, id)
    {
      assert Placed(k, id);
    }
  }

  // ---------- what reaping frees ----------

  /** Exactly the blocks of the threads that leave the ring. */
  lemma {:induction false} FreedIs(ring: seq<Thread>, own: map<nat, Blocks>, left: seq<Thread>, a: nat)
    ensures a in Freed(ring, own, left) <==>
      exists t :: t in ring && t.id in own && !Has(left, t.id) && (a == own[t.id].stack || a == own[t.id].node)
  {
    hide Has;
    if ring != [] {
      FreedIs(ring[1..], own, left, a);
      assert forall t :: t in ring <==> t == ring[0] || t in ring[1..];
      var id := ring[0].id;
      var here := if id in own && !Has(left, id) then [own[id].stack, own[id].node] else [];
      assert a in Freed(ring, own, left) <==> a in here || a in Freed(ring[1..], own, left);
    }
  }

  lemma GoneBlocks(k: State, left: seq<Thread>, id: nat)
    requires StateInv(k) && id in k.own
    ensures var gone := Freed(k.machine.sched.ring, k.own, left);
      && (k.own[id].stack in gone <==> !Has(left, id)) && (k.own[id].node in gone <==> !Has(left, id))
  {
    hide SystemInv, Good, HasBlock, Placed;
    var ring := k.machine.sched.ring;
    FreedIs(ring, k.own, left, k.own[id].stack);
    FreedIs(ring, k.own, left, k.own[id].node);
    assert Find(ring, id) in ring;
  }

  lemma InterruptInvariant(k: State, c: Call)
    requires StateInv(k) && Allowed(k, c) && c.Interrupt?
    ensures StateInv(Do(k, c))
  {
    hide SystemInv, Good, HasBlock, Has, Next, Freed, FreeAll;
    CallPossible(k, c);
    InterruptLeaves(k.machine, c.a);
    var z := Do(k, c);
    var gone := Freed(k.machine.sched.ring, k.own, z.machine.sched.ring);
    FreedKeeps(k.chunks, k.base, k.total, gone);
    forall id | id in z.own
      ensures Placed(z, id)
    {
      assert Placed(k, id);
      GoneBlocks(k, z.machine.sched.ring, id);
    }
  }

  /** After an interrupt, a block of a thread is live if and only if the thread is still on the ring. */
  lemma ReapedBlocks(k: State, c: Call, id: nat)
    requires StateInv(k) && Allowed(k, c) && c.Interrupt? && id in k.own
    ensures var z := Do(k, c);
      && (HasBlock(z.chunks, k.own[id].stack, STACK_SIZE) <==> Has(z.machine.sched.ring, id))
      && (HasBlock(z.chunks, k.own[id].node, NODE_SIZE) <==> Has(z.machine.sched.ring, id))
  {
    hide SystemInv, Good, HasBlock, Has, Next, Freed, FreeAll;
    CallPossible(k, c);
    var z := Do(k, c);
    FreedKeeps(k.chunks, k.base, k.total, Freed(k.machine.sched.ring, k.own, z.machine.sched.ring));
    assert Placed(k, id);
    GoneBlocks(k, z.machine.sched.ring, id);
  }

  /** Every call keeps threads and heap in step, and is an activity that the machine can perform; a
      thread_create for which there is no memory changes nothing at all. */
  lemma DoInv(k: State, c: Call)
    requires StateInv(k) && Allowed(k, c)
    ensures StateInv(Do(k, c)) && SystemInv(k.machine)
    ensures match ActivityOf(k, c)
            case None => Do(k, c) == k
            case Some(a) => Possible(k.machine, a) && Do(k, c).machine == Next(k.machine, a)
  {
    hide StateInv, Next, Carved, Possible;
    InvParts(k);
    CallPossible(k, c);
    match c
    case ThreadCreate(_, _, _) => CreateInvariant(k, c);
    case SchedStart(_) => StartInvariant(k, c);
    case Interrupt(_) => InterruptInvariant(k, c);
    case Code(_, _, _, _) => CodeInvariant(k, c);
  }

  // ---------- runs ----------

  /** Power on: no thread yet, and whatever heap heap_init has left. */
  lemma PowerOnInv(mem: Memory, cpu: Registers, fpu: FpuImage, base: nat, total: nat, chunks: seq<Chunk>)
    requires Good(chunks, base, total)
    ensures StateInv(State(System(BOOT, mem, cpu, fpu, map[]), base, total, chunks, map[]))
  {
    hide Good;
  }

  /** A run of calls, each allowed where it happens. */
  ghost predicate Calls(k: State, cs: seq<Call>)
    requires StateInv(k)
    decreases cs
  {
    cs == [] || (Allowed(k, cs[0]) && (DoInv(k, cs[0]); Calls(Do(k, cs[0]), cs[1..])))
  }

  ghost function RunCalls(k: State, cs: seq<Call>): (z: State)
    requires StateInv(k) && Calls(k, cs)
    ensures StateInv(z)
    decreases cs
  {
    if cs == [] then k
    else
      DoInv(k, cs[0]);
      RunCalls(Do(k, cs[0]), cs[1..])
  }

  /** Over every run from power on: the stacks of the threads on the ring lie in live blocks of the heap that
      are apart from one another, and nothing of a thread that has left the ring is kept. */
  lemma StacksApart(k: State, cs: seq<Call>, i: nat, j: nat)
    requires StateInv(k) && Calls(k, cs) && i != j
    ensures var z := RunCalls(k, cs); z.own.Keys == set t | t in z.machine.sched.ring && t.id != 0 :: t.id
    ensures var z := RunCalls(k, cs);
      i in z.own && j in z.own ==>
        && HasBlock(z.chunks, z.own[i].stack, STACK_SIZE) && HasBlock(z.chunks, z.own[j].stack, STACK_SIZE)
        && z.machine.stacks[i].Apart(z.machine.stacks[j])
  {
    hide SystemInv, Good, HasBlock;
    var z := RunCalls(k, cs);
    var ring := z.machine.sched.ring;
    forall id
      ensures id in z.own <==> id in set t | t in ring && t.id != 0 :: t.id
    {
      if Has(ring, id) { assert Find(ring, id) in ring; }
    }
    if i in z.own && j in z.own {
      assert Placed(z, i) && Placed(z, j);
      BlocksApart(z.chunks, z.base, z.total, z.own[i].stack, STACK_SIZE, z.own[j].stack, STACK_SIZE);
    }
  }

  /** The activities of the machine during a run of calls. */
  ghost function Activities(k: State, cs: seq<Call>): seq<Activity>
    requires StateInv(k) && Calls(k, cs)
    decreases cs
  {
    if cs == [] then []
    else
      DoInv(k, cs[0]);
      (if ActivityOf(k, cs[0]).Some? then [ActivityOf(k, cs[0]).value] else [])
      + Activities(Do(k, cs[0]), cs[1..])
  }

  /** Thread `id` never gets the processor. */
  ghost predicate CallsWithout(k: State, cs: seq<Call>, id: nat)
    requires StateInv(k) && Calls(k, cs)
    decreases cs
  {
    cs == [] ||
    (DoInv(k, cs[0]); !OnCpu(Do(k, cs[0]).machine, id) && CallsWithout(Do(k, cs[0]), cs[1..], id))
  }

  /** A run of calls is a run of the machine. */
  lemma {:induction false} CallsAreRun(k: State, cs: seq<Call>, id: nat)
    requires StateInv(k) && Calls(k, cs) && CallsWithout(k, cs, id) && !OnCpu(k.machine, id)
    ensures SystemInv(k.machine) && RunsWithout(k.machine, Activities(k, cs), id)
    ensures RunMachine(k.machine, Activities(k, cs), id) == RunCalls(k, cs).machine
    ensures !OnCpu(RunCalls(k, cs).machine, id)
    decreases cs
  {
    hide StateInv, Do, Next, ActivityOf, Allowed, Possible, OnCpu;
    InvParts(k);
    if cs != [] {
      DoInv(k, cs[0]);
      var rest := Activities(Do(k, cs[0]), cs[1..]);
      CallsAreRun(Do(k, cs[0]), cs[1..], id);
      match ActivityOf(k, cs[0])
      case None => assert [] + rest == rest;
      case Some(a) => assert ([a] + rest)[0] == a && ([a] + rest)[1..] == rest;
    }
  }

  /** Context switches are invisible without any assumption about new stacks: whatever threads are created and
      reaped while a thread is off the processor, it comes back to the registers and the FPU image it had. */
  lemma SurvivesOnHeap(k: State, out: Activity, cs: seq<Call>, back: Call)
    requires StateInv(k) && Allowed(k, Interrupt(out)) && !out.ExitCall?
    requires StateInv(Do(k, Interrupt(out))) && !OnCpu(Do(k, Interrupt(out)).machine, k.machine.sched.current)
    requires Calls(Do(k, Interrupt(out)), cs)
    requires CallsWithout(Do(k, Interrupt(out)), cs, k.machine.sched.current)
    requires Allowed(RunCalls(Do(k, Interrupt(out)), cs), back)
    requires OnCpu(Do(RunCalls(Do(k, Interrupt(out)), cs), back).machine, k.machine.sched.current)
    ensures var z := Do(RunCalls(Do(k, Interrupt(out)), cs), back).machine;
      z.fpu == k.machine.fpu && z.cpu == k.machine.cpu
  {
    hide StateInv, Do, Next, Possible, OnCpu, RunCalls, Calls, CallsWithout, RunMachine, RunsWithout, SystemInv, Inv,
      HeapAfter, Activities, Placed, Good, HasBlock;
    InvParts(k);
    DoInv(k, Interrupt(out));
    var id, first := k.machine.sched.current, Do(k, Interrupt(out));
    CallsAreRun(first, cs, id);
    DoInv(RunCalls(first, cs), back);
    ResumesExactly(k.machine, out, Activities(first, cs), ActivityOf(RunCalls(first, cs), back).value);
  }
}
