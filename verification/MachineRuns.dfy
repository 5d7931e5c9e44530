/** Context preservation over whole runs of the machine. */
module MachineRuns {
  import opened Scheduling
  import opened SchedulingRuns
  import opened Machine

  lemma PossibleFits(y: System, a: Activity)
    requires SystemInv(y) && Possible(y, a)
    ensures Inv(y.sched)
    ensures y.sched.active ==> Has(y.sched.ring, y.sched.current)
    ensures IsInterrupt(a) ==> Align16(y.cpu.rsp) >= FRAME_BYTES
    ensures !a.Compute? ==> Enabled(y.sched, EventOf(y, a))
  {
  }

  /** What thread `id` gets back when it is next dispatched. */
  function Saved(y: System, id: nat): (Registers, FpuImage)
    requires Has(y.sched.ring, id)
  {
    var context := Find(y.sched.ring, id).context;
    (LoadFrame(y.mem, context.rsp), context.fpu)
  }

  /** Storing a frame on one stack leaves every word of another stack alone. */
  lemma StoreApart(mem: Memory, top: nat, r: Registers, own: Region, other: Region, sp: nat)
    requires own.lo + FRAME_BYTES <= top <= own.hi && own.Apart(other)
    requires other.lo <= sp && sp + FRAME_BYTES <= other.hi
    ensures LoadFrame(StoreFrame(mem, top, r), sp) == LoadFrame(mem, sp)
  {
    var mem' := StoreFrame(mem, top, r);
    forall i | 0 <= i < 20
      ensures Load(mem, sp + 8 * i) == Load(mem', sp + 8 * i)
    {
      PushAllOutside(mem, top, FrameWords(r), sp + 8 * i);
    }
    FrameStable(mem, mem', sp);
  }

  // ---------- the scheduler's part of one activity ----------

  /** Whether thread `id` is on the ring, alive and not running. */
  ghost predicate Parked(s: Sched, id: nat) {
    Has(s.ring, id) && !Find(s.ring, id).state.Zombie? && (s.active ==> id != s.current)
  }

  /** Entering the scheduler while `id` is parked: it stays parked with the same context, or its
      context is the one that is resumed. */
  lemma ParkedStep(s: Sched, e: Event, id: nat)
    requires Inv(s) && Enabled(s, e) && Parked(s, id)
    ensures var (r, resumed) := StepResume(s, e);
      && Has(r.ring, id)
      && (r.active && r.current == id ==> Preempts(s, e) && resumed == Find(s.ring, id).context)
      && (!(r.active && r.current == id) ==>
            Parked(r, id) && Find(r.ring, id).context == Find(s.ring, id).context)
  {
    hide Inv, Entered;
    InvHas(s);
    if Preempts(s, e) {
      EntryInv(s, e);
      EntryFind(s, e, id);
      ParkedPreempt(Entry(s, e), e.context, id);
    } else if Entering(e) {
      if s.active { EntryFind(s, e, id); }
    } else if e.Create? {
      CreateFind(s, e.context, id);
    } else {
      StartFind(s, id);
    }
  }

  lemma StartFind(s: Sched, id: nat)
    requires Inv(s) && !s.active && Has(s.ring, id)
    ensures var r := Step(s, Start);
      && r.active && r.current == 0 && id != 0
      && Has(r.ring, id) && Find(r.ring, id) == Find(s.ring, id)
  {
    assert Find(s.ring, id) in s.ring;
    AddInv(s, Thread(0, Running, 0, Context(0, InitialFpu())));
  }

  lemma ParkedPreempt(s: Sched, context: Context, id: nat)
    requires Entered(s) && Parked(s, id)
    ensures var (r, resumed) := Preempt(s, context);
      && Has(r.ring, id) && r.active
      && (r.current == id ==> resumed == Find(s.ring, id).context)
      && (r.current != id ==>
            Parked(r, id) && Find(r.ring, id).context == Find(s.ring, id).context)
  {
    hide Inv, Entered;
    InvEnteredHas(s);
    PreemptThread(s, context, id);
    PreemptResumes(s, context);
  }

  /** The running thread across an interrupt: its context is stored, or it goes straight on. */
  lemma CurrentStep(s: Sched, e: Event)
    requires Inv(s) && s.active && Enabled(s, e) && Entering(e)
    ensures var (r, resumed) := StepResume(s, e);
      && r.active && Has(r.ring, s.current)
      && (r.current == s.current ==> resumed == e.context)
      && (r.current != s.current ==> Find(r.ring, s.current).context == e.context)
      && (r.current != s.current && !e.Exit? ==> Parked(r, s.current))
  {
    hide Inv, Entered;
    InvHas(s);
    EntryInv(s, e);
    EntryFind(s, e, s.current);
    InvCurrent(s);
    if Preempts(s, e) { CurrentPreempt(Entry(s, e), e.context); }
  }

  lemma CurrentPreempt(s: Sched, context: Context)
    requires Entered(s)
    ensures var (r, resumed) := Preempt(s, context);
      && r.active && Has(r.ring, s.current)
      && (r.current == s.current ==> resumed == context)
      && (r.current != s.current ==>
            && Find(r.ring, s.current).context == context
            && (Find(r.ring, s.current).state.Zombie? <==> Find(s.ring, s.current).state.Zombie?))
  {
    hide Inv, Entered;
    InvEnteredHas(s);
    PreemptThread(s, context, s.current);
    PreemptResumes(s, context);
  }

  lemma InvCurrent(s: Sched)
    requires Inv(s) && s.active
    ensures Find(s.ring, s.current).Runnable()
  {
  }

  // ---------- one activity of the machine ----------

  /** While thread `id` is parked, nothing the machine does changes what it will get back; and
      when it is dispatched it gets exactly that. */
  lemma ParkedAct(y: System, a: Activity, id: nat)
    requires SystemInv(y) && Possible(y, a) && Parked(y.sched, id)
    requires SystemInv(Act(y, a))
    ensures var y' := Act(y, a);
      && Has(y'.sched.ring, id)
      && (y'.sched.active && y'.sched.current == id ==> (y'.cpu, y'.fpu) == Saved(y, id))
      && (!(y'.sched.active && y'.sched.current == id) ==>
            Parked(y'.sched, id) && Saved(y', id) == Saved(y, id))
  {
    hide Inv, SystemInv, Possible, Parked;
    PossibleFits(y, a);
    ParkedPlace(y, id);
    var sp := Find(y.sched.ring, id).context.rsp;
    match a
    case Compute(mem, _, _) =>
      ComputeApart(y, a, id);
    case Spawn(trampoline, fn, arg, stack) =>
      ParkedStep(y.sched, EventOf(y, a), id);
      SpawnApart(y, a, id);
      var top := StackTop(stack);
      StoreApart(y.mem, top, FirstRegisters(trampoline, fn, arg, top),
                 Region(stack, stack + STACK_SIZE), y.stacks[id], sp);
    case Boot(_) =>
      ParkedStep(y.sched, EventOf(y, a), id);
    case _ =>
      InterruptFits(y, a);
      ParkedStep(y.sched, EventOf(y, a), id);
      StoreApart(y.mem, Align16(y.cpu.rsp), y.cpu, y.stacks[y.sched.current], y.stacks[id], sp);
  }

  lemma ParkedPlace(y: System, id: nat)
    requires SystemInv(y) && Parked(y.sched, id)
    ensures Inv(y.sched) && id in y.stacks
    ensures y.stacks[id].lo <= Find(y.sched.ring, id).context.rsp
    ensures Find(y.sched.ring, id).context.rsp + FRAME_BYTES <= y.stacks[id].hi
    ensures y.sched.active ==>
      && Has(y.sched.ring, y.sched.current) && y.sched.current in y.stacks
      && y.stacks[y.sched.current].Apart(y.stacks[id])
  {
    assert Find(y.sched.ring, id) in y.sched.ring;
    if y.sched.active { assert Find(y.sched.ring, y.sched.current) in y.sched.ring; }
  }

  lemma ComputeApart(y: System, a: Activity, id: nat)
    requires SystemInv(y) && Possible(y, a) && a.Compute? && Parked(y.sched, id)
    ensures LoadFrame(a.mem, Find(y.sched.ring, id).context.rsp)
         == LoadFrame(y.mem, Find(y.sched.ring, id).context.rsp)
  {
    ParkedPlace(y, id);
    var t := Find(y.sched.ring, id);
    assert t in y.sched.ring && t.id != y.sched.current;
    assert forall i :: 0 <= i < 20 ==> OnStack(y, id, t.context.rsp + 8 * i);
    FrameStable(y.mem, a.mem, t.context.rsp);
  }

  lemma SpawnApart(y: System, a: Activity, id: nat)
    requires SystemInv(y) && Possible(y, a) && a.Spawn? && Parked(y.sched, id)
    ensures id in y.stacks && Region(a.stack, a.stack + STACK_SIZE).Apart(y.stacks[id])
    ensures id != y.sched.nextId + 1
  {
    assert Find(y.sched.ring, id) in y.sched.ring;
  }

  lemma InterruptFits(y: System, a: Activity)
    requires SystemInv(y) && Possible(y, a) && IsInterrupt(a)
    ensures y.sched.active && HasRoom(y) && Enabled(y.sched, EventOf(y, a))
  {
  }

  lemma InterruptIs(y: System, a: Activity)
    requires y.sched.active ==> Has(y.sched.ring, y.sched.current)
    requires IsInterrupt(a) && Align16(y.cpu.rsp) >= FRAME_BYTES
    requires Enabled(y.sched, EventOf(y, a))
    ensures var z, mem := Act(y, a), StoreFrame(y.mem, Align16(y.cpu.rsp), y.cpu);
      var (sched, resumed) := StepResume(y.sched, EventOf(y, a));
      && z == y.(sched := sched, mem := mem, cpu := LoadFrame(mem, resumed.rsp), fpu := resumed.fpu)
      && EventOf(y, a).context == Interrupted(y) && Entering(EventOf(y, a))
      && (EventOf(y, a).Exit? <==> a.ExitCall?)
  {
    hide StepResume, StoreFrame, LoadFrame;
  }

  /** The running thread across an interrupt: its registers and FPU image are what it will get
      back, or it goes straight on with them. */
  lemma CurrentAct(y: System, a: Activity)
    requires SystemInv(y) && Possible(y, a) && IsInterrupt(a)
    ensures var y', id := Act(y, a), y.sched.current;
      && y'.sched.active && Has(y'.sched.ring, id)
      && (y'.sched.current == id ==> (y'.cpu, y'.fpu) == (y.cpu, y.fpu))
      && (y'.sched.current != id ==> Saved(y', id) == (y.cpu, y.fpu))
      && (y'.sched.current != id && !a.ExitCall? ==> Parked(y'.sched, id))
  {
    hide Inv, SystemInv, Possible, Parked, StoreFrame, LoadFrame, StepResume, Act;
    PossibleFits(y, a);
    InterruptFits(y, a);
    InterruptIs(y, a);
    CurrentStep(y.sched, EventOf(y, a));
    FrameRoundTrip(y.mem, Align16(y.cpu.rsp), y.cpu);
  }

  /** An interrupt writes the twenty words below the aligned stack pointer of the running thread and no others. */
  lemma InterruptWrites(y: System, a: Activity, w: nat)
    requires SystemInv(y) && Possible(y, a) && IsInterrupt(a)
    ensures var top := y.cpu.rsp - y.cpu.rsp % 16;
      w >= top || w + 160 < top ==> Load(Act(y, a).mem, w) == Load(y.mem, w)
  {
    hide Inv, SystemInv, Possible, StoreFrame, LoadFrame, StepResume, Act;
    PossibleFits(y, a);
    InterruptFits(y, a);
    InterruptIs(y, a);
    FrameLayout(y.mem, Align16(y.cpu.rsp), y.cpu);
  }

  // ---------- the machine's invariant ----------

  lemma StepContext(s: Sched, e: Event, id: nat)
    requires Inv(s) && s.active && Enabled(s, e) && Entering(e)
    ensures var r := Step(s, e);
      && r.active
      && (Has(r.ring, id) ==> Has(s.ring, id))
      && (Has(r.ring, id) && id != s.current ==>
            Find(r.ring, id).context == Find(s.ring, id).context)
  {
    hide Inv, Entered;
    InvHas(s);
    EntryInv(s, e);
    EntryFind(s, e, id);
    if Preempts(s, e) { PreemptContext(Entry(s, e), e.context, id); }
  }

  lemma PreemptContext(s: Sched, context: Context, id: nat)
    requires Entered(s)
    ensures var r := Preempt(s, context).0;
      && r.active
      && (Has(r.ring, id) ==> Has(s.ring, id))
      && (Has(r.ring, id) && id != s.current ==>
            Find(r.ring, id).context == Find(s.ring, id).context)
  {
    hide Inv, Entered;
    InvEnteredHas(s);
    PreemptThread(s, context, id);
  }

  /** Where the frame of a thread that is not running lies. */
  predicate InPlace(t: Thread, r: Region) {
    r.lo <= t.context.rsp && t.context.rsp + FRAME_BYTES <= r.hi
  }

  lemma StacksKeep(y: System, z: System)
    requires SystemInv(y) && Inv(z.sched)
    requires forall id :: Has(z.sched.ring, id) ==>
      id in z.stacks && Has(y.sched.ring, id) && z.stacks[id] == y.stacks[id]
    requires forall id :: Has(z.sched.ring, id) && (!z.sched.active || id != z.sched.current) ==>
      InPlace(Find(z.sched.ring, id), z.stacks[id])
    ensures SystemInv(z)
  {
    forall t | t in z.sched.ring
      ensures Has(z.sched.ring, t.id) && Find(z.sched.ring, t.id) == t
      ensures Find(y.sched.ring, t.id) in y.sched.ring
    {
      HasMember(z.sched.ring, t);
    }
  }

  lemma InterruptInv(y: System, a: Activity)
    requires SystemInv(y) && Possible(y, a) && IsInterrupt(a)
    ensures SystemInv(Act(y, a))
  {
    PossibleFits(y, a);
    InterruptFits(y, a);
    var e, z := EventOf(y, a), Act(y, a);
    StepInv(y.sched, e);
    forall id | Has(z.sched.ring, id)
      ensures id in z.stacks && Has(y.sched.ring, id) && z.stacks[id] == y.stacks[id]
      ensures !z.sched.active || id != z.sched.current ==>
        InPlace(Find(z.sched.ring, id), z.stacks[id])
    {
      InterruptPlaces(y, a, id);
    }
    StacksKeep(y, z);
  }

  lemma InterruptPlaces(y: System, a: Activity, id: nat)
    requires SystemInv(y) && Possible(y, a) && IsInterrupt(a)
    requires y.sched.active && Has(y.sched.ring, y.sched.current)
    requires Enabled(y.sched, EventOf(y, a)) && Align16(y.cpu.rsp) >= FRAME_BYTES
    requires Has(Act(y, a).sched.ring, id)
    ensures var z := Act(y, a);
      && Has(y.sched.ring, id) && id in y.stacks && z.stacks == y.stacks
      && (!z.sched.active || id != z.sched.current ==>
            InPlace(Find(z.sched.ring, id), z.stacks[id]))
  {
    StepContext(y.sched, EventOf(y, a), id);
    CurrentStep(y.sched, EventOf(y, a));
    assert Find(y.sched.ring, id) in y.sched.ring;
  }

  /** A thread added with a stack of its own keeps the invariant. */
  lemma AddedPlaces(y: System, z: System, t: Thread)
    requires SystemInv(y) && Inv(z.sched)
    requires forall u :: u in z.sched.ring <==> u == t || u in y.sched.ring
    requires forall u :: u in y.sched.ring ==> u.id != t.id
    requires t.id in z.stacks && FreshStack(y, z.stacks[t.id])
    requires (z.sched.active && z.sched.current == t.id) || InPlace(t, z.stacks[t.id])
    requires y.sched.active ==> z.sched.active && z.sched.current == y.sched.current
    requires z.stacks == y.stacks[t.id := z.stacks[t.id]]
    ensures SystemInv(z)
  {
    hide Inv;
  }

  lemma AddMembers(s: Sched, t: Thread)
    requires Inv(s)
    requires (t.id == s.nextId + 1 && t.state.Ready?) || (t.id == 0 && !s.active)
    ensures forall u :: u in Insert(s.ring, t) <==> u == t || u in s.ring
    ensures forall u :: u in s.ring ==> u.id != t.id
  {
    AddInv(s, t);
  }

  lemma SpawnInv(y: System, a: Activity)
    requires SystemInv(y) && Possible(y, a) && a.Spawn?
    ensures SystemInv(Act(y, a))
  {
    hide Inv, SystemInv, StoreFrame;
    PossibleFits(y, a);
    var e := EventOf(y, a);
    StepInv(y.sched, e);
    var t := Thread(y.sched.nextId + 1, Ready, 0, e.context);
    AddMembers(y.sched, t);
    AddedPlaces(y, Act(y, a), t);
  }

  lemma BootInv(y: System, a: Activity)
    requires SystemInv(y) && Possible(y, a) && a.Boot?
    ensures SystemInv(Act(y, a))
  {
    hide Inv, SystemInv;
    PossibleFits(y, a);
    StepInv(y.sched, Start);
    var t := Thread(0, Running, 0, Context(0, InitialFpu()));
    AddMembers(y.sched, t);
    AddedPlaces(y, Act(y, a), t);
  }

  /** Every activity keeps the machine's invariant: stacks of threads on the ring do not overlap,
      and the frame of every thread that is not running lies on its own stack. */
  lemma ActInv(y: System, a: Activity)
    requires SystemInv(y) && Possible(y, a)
    ensures SystemInv(Act(y, a))
  {
    hide Inv, Possible, StoreFrame, LoadFrame;
    PossibleFits(y, a);
    match a
    case Compute(_, _, _) =>
    case Spawn(_, _, _, _) => SpawnInv(y, a);
    case Boot(_) => BootInv(y, a);
    case _ => InterruptInv(y, a);
  }

  // ---------- runs of the machine ----------

  /** The machine after an activity that is possible. */
  ghost function Next(y: System, a: Activity): (z: System)
    requires SystemInv(y) && Possible(y, a)
    ensures SystemInv(z)
  {
    PossibleFits(y, a);
    ActInv(y, a);
    Act(y, a)
  }

  predicate OnCpu(y: System, id: nat) { y.sched.active && y.sched.current == id }

  /** Every activity of the run is possible where it happens, and thread `id` never runs. */
  ghost predicate RunsWithout(y: System, acts: seq<Activity>, id: nat)
    requires SystemInv(y)
    decreases acts
  {
    acts == [] ||
    (Possible(y, acts[0]) && !OnCpu(Next(y, acts[0]), id)
     && RunsWithout(Next(y, acts[0]), acts[1..], id))
  }

  ghost function RunMachine(y: System, acts: seq<Activity>, id: nat): (z: System)
    requires SystemInv(y) && RunsWithout(y, acts, id)
    ensures SystemInv(z)
    decreases acts
  {
    if acts == [] then y else RunMachine(Next(y, acts[0]), acts[1..], id)
  }

  lemma ParkedNext(y: System, a: Activity, id: nat)
    requires SystemInv(y) && Possible(y, a) && Parked(y.sched, id)
    ensures var z := Next(y, a);
      && Has(z.sched.ring, id)
      && (OnCpu(z, id) ==> (z.cpu, z.fpu) == Saved(y, id))
      && (!OnCpu(z, id) ==> Parked(z.sched, id) && Saved(z, id) == Saved(y, id))
  {
    hide Inv, SystemInv, Possible, Parked, Act, Saved;
    PossibleFits(y, a);
    ActInv(y, a);
    ParkedHas(y.sched, id);
    ParkedAct(y, a, id);
  }

  lemma ParkedHas(s: Sched, id: nat)
    requires Parked(s, id)
    ensures Has(s.ring, id)
  {
  }

  lemma {:induction false} ParkedRun(y: System, acts: seq<Activity>, id: nat)
    requires SystemInv(y) && Parked(y.sched, id) && RunsWithout(y, acts, id)
    ensures var z := RunMachine(y, acts, id);
      Parked(z.sched, id) && Saved(z, id) == Saved(y, id)
    decreases acts
  {
    hide Inv, SystemInv, Possible, Parked, Saved, Next;
    ParkedHas(y.sched, id);
    if acts != [] {
      ParkedNext(y, acts[0], id);
      ParkedRun(Next(y, acts[0]), acts[1..], id);
    }
  }

  /** A parked thread that is dispatched after a run gets what was saved for it at the start. */
  lemma ParkedDispatch(y: System, acts: seq<Activity>, back: Activity, id: nat)
    requires SystemInv(y) && Parked(y.sched, id) && RunsWithout(y, acts, id)
    requires Possible(RunMachine(y, acts, id), back)
    requires OnCpu(Next(RunMachine(y, acts, id), back), id)
    ensures Has(y.sched.ring, id)
    ensures var z := Next(RunMachine(y, acts, id), back); (z.cpu, z.fpu) == Saved(y, id)
  {
    hide Inv, SystemInv, Possible, Parked, Saved, Next, RunMachine, RunsWithout;
    ParkedHas(y.sched, id);
    ParkedRun(y, acts, id);
    ParkedNext(RunMachine(y, acts, id), back, id);
  }

  /** The context switch is invisible to the threads: when a thread that was switched out is next
      dispatched, after any run of the machine whatever, all twenty registers and the FPU image
      are exactly what they were when it was interrupted. */
  lemma ResumesExactly(y: System, out: Activity, acts: seq<Activity>, back: Activity)
    requires SystemInv(y) && Possible(y, out) && IsInterrupt(out) && !out.ExitCall?
    requires !OnCpu(Next(y, out), y.sched.current)
    requires RunsWithout(Next(y, out), acts, y.sched.current)
    requires Possible(RunMachine(Next(y, out), acts, y.sched.current), back)
    requires OnCpu(Next(RunMachine(Next(y, out), acts, y.sched.current), back), y.sched.current)
    ensures var z := Next(RunMachine(Next(y, out), acts, y.sched.current), back);
      (z.cpu, z.fpu) == (y.cpu, y.fpu)
  {
    hide Inv, SystemInv, Possible, Parked, Saved, RunMachine, RunsWithout, Act;
    PossibleFits(y, out);
    CurrentAct(y, out);
    ParkedDispatch(Next(y, out), acts, back, y.sched.current);
  }

  /** A new thread starts where thread_create said: its first dispatch, whenever it comes, loads
      RIP with the trampoline and RDI and RSI with the function and its argument, with a stack
      pointer 8 below a multiple of 16 and the initial FPU image. */
  lemma StartsInTrampoline(y: System, spawn: Activity, acts: seq<Activity>, back: Activity)
    requires SystemInv(y) && Possible(y, spawn) && spawn.Spawn?
    requires RunsWithout(Next(y, spawn), acts, y.sched.nextId + 1)
    requires Possible(RunMachine(Next(y, spawn), acts, y.sched.nextId + 1), back)
    requires OnCpu(Next(RunMachine(Next(y, spawn), acts, y.sched.nextId + 1), back),
                     y.sched.nextId + 1)
    ensures var z := Next(RunMachine(Next(y, spawn), acts, y.sched.nextId + 1), back);
      && z.cpu.rip == spawn.trampoline && z.cpu.rdi == spawn.fn && z.cpu.rsi == spawn.arg
      && z.cpu.rsp % 16 == 8 && z.cpu.rflags == 0x202
      && z.cpu.cs == 0x28 && z.cpu.ss == 0x30
      && spawn.stack + 65536 - 15 <= z.cpu.rsp + 8 <= spawn.stack + 65536
      && z.cpu.rax == z.cpu.rbx == z.cpu.rcx == z.cpu.rdx == z.cpu.rbp == 0
      && z.cpu.r8 == z.cpu.r9 == z.cpu.r10 == z.cpu.r11 == z.cpu.r12 == z.cpu.r13 == z.cpu.r14 == z.cpu.r15 == 0
      && z.fpu == InitialFpu()
  {
    hide Inv, SystemInv, Possible, Parked, Saved, RunMachine, RunsWithout, Act;
    SpawnParks(y, spawn);
    ParkedDispatch(Next(y, spawn), acts, back, y.sched.nextId + 1);
  }

  lemma SpawnParks(y: System, a: Activity)
    requires SystemInv(y) && Possible(y, a) && a.Spawn?
    ensures var z, id, top := Next(y, a), y.sched.nextId + 1, StackTop(a.stack);
      && Parked(z.sched, id) && top % 16 == 0
      && Saved(z, id) == (FirstRegisters(a.trampoline, a.fn, a.arg, top), InitialFpu())
  {
    hide Inv, SystemInv, Possible, StoreFrame, LoadFrame;
    var top := StackTop(a.stack);
    PossibleFits(y, a);
    NextIdNew(y.sched);
    CreateFind(y.sched, EventOf(y, a).context, y.sched.nextId + 1);
    FrameRoundTrip(y.mem, top, FirstRegisters(a.trampoline, a.fn, a.arg, top));
  }

  lemma NextIdNew(s: Sched)
    requires Inv(s)
    ensures s.active ==> s.current != s.nextId + 1
  {
    if s.active { assert Find(s.ring, s.current) in s.ring; }
  }
}
