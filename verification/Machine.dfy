/** The processor side of a context switch (kernel/src/isr.asm, kernel/src/macros.asm and the frame
    that thread_create builds): a thread's registers live in a frame on its own stack. The
    scheduler only ever sees the frame's address; the theorems here say that this is enough. */
module Machine {
  import opened Scheduling
  import opened SchedulingRuns

  type Word = nat

  datatype Registers = Registers(
    rax: Word, rbx: Word, rcx: Word, rdx: Word, rbp: Word, rdi: Word, rsi: Word,
    r8: Word, r9: Word, r10: Word, r11: Word, r12: Word, r13: Word, r14: Word, r15: Word,
    rip: Word, cs: Word, rflags: Word, rsp: Word, ss: Word)

  /** Memory in 8-byte words, by address. */
  type Memory = map<nat, Word>

  function Load(mem: Memory, a: nat): Word { if a in mem then mem[a] else 0 }

  const FRAME_BYTES: nat := 160
  const STACK_SIZE: nat := 65536
  const GDT_KERNEL_CS: Word := 0x28
  const GDT_KERNEL_SS: Word := 0x30

  // ---------- pushing and popping ----------

  function PushAll(mem: Memory, sp: nat, vs: seq<Word>): Memory
    requires sp >= 8 * |vs|
    decreases vs
  {
    if vs == [] then mem else PushAll(mem[sp - 8 := vs[0]], sp - 8, vs[1..])
  }

  function PopAll(mem: Memory, sp: nat, n: nat): (ws: seq<Word>)
    ensures |ws| == n && forall i :: 0 <= i < n ==> ws[i] == Load(mem, sp + 8 * i)
  {
    seq(n, i requires 0 <= i < n => Load(mem, sp + 8 * i))
  }

  lemma {:induction false} PushAllOutside(mem: Memory, sp: nat, vs: seq<Word>, a: nat)
    requires sp >= 8 * |vs| && (a >= sp || a < sp - 8 * |vs|)
    ensures Load(PushAll(mem, sp, vs), a) == Load(mem, a)
    decreases vs
  {
    if vs != [] { PushAllOutside(mem[sp - 8 := vs[0]], sp - 8, vs[1..], a); }
  }

  lemma {:induction false} PushAllInside(mem: Memory, sp: nat, vs: seq<Word>, i: nat)
    requires sp >= 8 * |vs| && i < |vs|
    ensures Load(PushAll(mem, sp, vs), sp - 8 * (i + 1)) == vs[i]
    decreases vs
  {
    var mem', rest := mem[sp - 8 := vs[0]], vs[1..];
    if i == 0 {
      PushAllOutside(mem', sp - 8, rest, sp - 8);
    } else {
      PushAllInside(mem', sp - 8, rest, i - 1);
    }
  }

  lemma {:induction false} PushAllSnoc(mem: Memory, sp: nat, vs: seq<Word>, v: Word)
    requires sp >= 8 * (|vs| + 1)
    ensures PushAll(mem, sp, vs + [v]) == PushAll(mem, sp, vs)[sp - 8 * (|vs| + 1) := v]
    decreases vs
  {
    if vs == [] {
      assert vs + [v] == [v];
      assert PushAll(mem, sp, [v]) == PushAll(mem[sp - 8 := v], sp - 8, []);
    } else {
      PushAllSnoc(mem[sp - 8 := vs[0]], sp - 8, vs[1..], v);
      assert (vs + [v])[1..] == vs[1..] + [v];
    }
  }

  /** The general registers in the order pushaq stores them. */
  function PushaqOrder(r: Registers): (vs: seq<Word>)
    ensures |vs| == 15
  {
    [r.rax, r.rbx, r.rcx, r.rdx, r.rbp, r.rdi, r.rsi,
     r.r8, r.r9, r.r10, r.r11, r.r12, r.r13, r.r14, r.r15]
  }

  /** What the processor stores on an interrupt, first word first. */
  function IretOrder(r: Registers): (vs: seq<Word>)
    ensures |vs| == 5
  {
    [r.ss, r.rsp, r.rflags, r.cs, r.rip]
  }

  /** The registers that popaq and iretq read back, from the words in ascending order. */
  function Popped(w: seq<Word>): Registers
    requires |w| == 20
  {
    Registers(w[14], w[13], w[12], w[11], w[10], w[9], w[8],
              w[7], w[6], w[5], w[4], w[3], w[2], w[1], w[0],
              w[15], w[16], w[17], w[18], w[19])
  }

  function FrameWords(r: Registers): (vs: seq<Word>)
    ensures |vs| == 20
  {
    IretOrder(r) + PushaqOrder(r)
  }

  function StoreFrame(mem: Memory, top: nat, r: Registers): Memory
    requires top >= FRAME_BYTES
  {
    PushAll(mem, top, FrameWords(r))
  }

  function LoadFrame(mem: Memory, sp: nat): Registers {
    Popped(PopAll(mem, sp, 20))
  }

  /** The frame is an exact image: popping what was pushed gives every register back. */
  lemma FrameRoundTrip(mem: Memory, top: nat, r: Registers)
    requires top >= FRAME_BYTES
    ensures LoadFrame(StoreFrame(mem, top, r), top - FRAME_BYTES) == r
  {
    var mem', sp := StoreFrame(mem, top, r), top - FRAME_BYTES;
    var w, vs := PopAll(mem', sp, 20), FrameWords(r);
    forall i | 0 <= i < 20
      ensures w[i] == vs[19 - i]
    {
      PushAllInside(mem, top, vs, 19 - i);
      assert sp + 8 * i == top - 8 * (19 - i + 1);
    }
  }

  /** The i-th word below `top`. */
  function At(mem: Memory, top: nat, i: nat): Word
    requires top >= 8 * (i + 1)
  {
    Load(mem, top - 8 * (i + 1))
  }

  /** Where each register lies: what the processor stores comes first, from the top down, then what pushaq
      pushes. */
  lemma FrameLayout(mem: Memory, top: nat, r: Registers)
    requires top >= 160
    ensures var m := StoreFrame(mem, top, r);
      && Load(m, top - 8) == r.ss && Load(m, top - 16) == r.rsp && Load(m, top - 24) == r.rflags
      && Load(m, top - 32) == r.cs && Load(m, top - 40) == r.rip
      && Load(m, top - 48) == r.rax && Load(m, top - 56) == r.rbx && Load(m, top - 64) == r.rcx
      && Load(m, top - 72) == r.rdx && Load(m, top - 80) == r.rbp && Load(m, top - 88) == r.rdi
      && Load(m, top - 96) == r.rsi && Load(m, top - 104) == r.r8 && Load(m, top - 112) == r.r9
      && Load(m, top - 120) == r.r10 && Load(m, top - 128) == r.r11 && Load(m, top - 136) == r.r12
      && Load(m, top - 144) == r.r13 && Load(m, top - 152) == r.r14 && Load(m, top - 160) == r.r15
    ensures forall a: nat :: a >= top || a < top - 160 ==> Load(StoreFrame(mem, top, r), a) == Load(mem, a)
  {
    hide PushAll, Load;
    var vs := FrameWords(r);
    forall i | 0 <= i < 20
      ensures At(StoreFrame(mem, top, r), top, i) == vs[i]
    {
      PushAllInside(mem, top, vs, i);
    }
    var m := StoreFrame(mem, top, r);
    assert forall i :: 0 <= i < 20 ==> At(m, top, i) == vs[i];
    assert At(m, top, 0) == r.ss && At(m, top, 1) == r.rsp && At(m, top, 2) == r.rflags;
    assert At(m, top, 3) == r.cs && At(m, top, 4) == r.rip;
    assert At(m, top, 5) == r.rax && At(m, top, 6) == r.rbx && At(m, top, 7) == r.rcx;
    assert At(m, top, 8) == r.rdx && At(m, top, 9) == r.rbp;
    assert At(m, top, 10) == r.rdi && At(m, top, 11) == r.rsi && At(m, top, 12) == r.r8;
    assert At(m, top, 13) == r.r9 && At(m, top, 14) == r.r10;
    assert At(m, top, 15) == r.r11 && At(m, top, 16) == r.r12 && At(m, top, 17) == r.r13;
    assert At(m, top, 18) == r.r14 && At(m, top, 19) == r.r15;
    forall a: nat | a >= top || a < top - 160
      ensures Load(StoreFrame(mem, top, r), a) == Load(mem, a)
    {
      PushAllOutside(mem, top, vs, a);
    }
  }

  /** A frame stays readable as long as its twenty words do. */
  lemma FrameStable(mem: Memory, mem': Memory, sp: nat)
    requires forall i :: 0 <= i < 20 ==> Load(mem, sp + 8 * i) == Load(mem', sp + 8 * i)
    ensures LoadFrame(mem, sp) == LoadFrame(mem', sp)
  {
    assert PopAll(mem, sp, 20) == PopAll(mem', sp, 20);
  }

  /** The registers thread_create arranges for the first dispatch. */
  function FirstRegisters(trampoline: Word, fn: Word, arg: Word, top: nat): Registers
    requires top >= 8
  {
    Registers(0, 0, 0, 0, 0, fn, arg, 0, 0, 0, 0, 0, 0, 0, 0,
              trampoline, GDT_KERNEL_CS, 0x202, top - 8, GDT_KERNEL_SS)
  }

  // ---------- the whole machine ----------

  /** The stack of a thread: words at lo <= address < hi. */
  datatype Region = Region(lo: nat, hi: nat) {
    predicate Contains(a: nat) { lo <= a < hi }
    predicate Apart(other: Region) { hi <= other.lo || other.hi <= lo }
  }

  datatype System = System(sched: Sched, mem: Memory, cpu: Registers, fpu: FpuImage,
                           stacks: map<nat, Region>)

  /** What happens to the machine. Compute is any stretch of the running thread's own code. An
      interrupt is a timer tick, a yield, or one of the two blocking calls, which set the thread's
      state and raise the yield interrupt with nothing in between. */
  datatype Activity =
    | Compute(mem: Memory, cpu: Registers, fpu: FpuImage)
    | Timer
    | YieldCall
    | ExitCall
    | SleepCall(ms: nat)
    | Spawn(trampoline: Word, fn: Word, arg: Word, stack: nat)
    | Boot(bootStack: Region)

  function Align16(a: nat): nat { a - a % 16 }

  /** The context the interrupted thread leaves: its frame's address and the live FPU image. */
  function Interrupted(y: System): Context
    requires Align16(y.cpu.rsp) >= FRAME_BYTES
  {
    Context(Align16(y.cpu.rsp) - FRAME_BYTES, y.fpu)
  }

  function StackTop(stack: nat): nat { Align16(stack + STACK_SIZE) }

  predicate IsInterrupt(a: Activity) { a.Timer? || a.YieldCall? || a.ExitCall? || a.SleepCall? }

  /** The scheduler entry that an activity amounts to. */
  function EventOf(y: System, a: Activity): Event
    requires IsInterrupt(a) ==> Align16(y.cpu.rsp) >= FRAME_BYTES
    requires !a.Compute?
  {
    match a
    case Timer => Tick(Interrupted(y))
    case YieldCall => Yield(Interrupted(y))
    case ExitCall => Exit(Interrupted(y))
    case SleepCall(ms) => Sleep(ms, Interrupted(y))
    case Spawn(_, _, _, stack) => Create(Context(StackTop(stack) - FRAME_BYTES, InitialFpu()))
    case Boot(_) => Start
  }

  /** The running thread has room for one more frame on its own stack. */
  predicate HasRoom(y: System) {
    y.sched.current in y.stacks
    && y.stacks[y.sched.current].lo + FRAME_BYTES <= Align16(y.cpu.rsp)
    && y.cpu.rsp <= y.stacks[y.sched.current].hi
  }

  predicate OnStack(y: System, id: nat, a: nat) {
    id in y.stacks && y.stacks[id].Contains(a)
  }

  /** A fresh stack: apart from the stack of every thread on the ring. */
  predicate FreshStack(y: System, r: Region) {
    forall t :: t in y.sched.ring && t.id in y.stacks ==> r.Apart(y.stacks[t.id])
  }

  ghost predicate Possible(y: System, a: Activity) {
    match a
    case Compute(mem, _, _) =>
      // a thread writes no other thread's stack
      forall t, w :: t in y.sched.ring && t.id != y.sched.current && OnStack(y, t.id, w) ==>
        Load(mem, w) == Load(y.mem, w)
    case Spawn(_, _, _, stack) => FreshStack(y, Region(stack, stack + STACK_SIZE))
    case Boot(stack) => !y.sched.active && FreshStack(y, stack)
    case _ => y.sched.active && HasRoom(y) && Enabled(y.sched, EventOf(y, a))
  }

  ghost predicate SystemInv(y: System) {
    && Inv(y.sched)
    && (forall t :: t in y.sched.ring ==> t.id in y.stacks)
    && (forall t, u :: t in y.sched.ring && u in y.sched.ring && t.id != u.id ==>
          y.stacks[t.id].Apart(y.stacks[u.id]))
    && (forall t :: t in y.sched.ring && (!y.sched.active || t.id != y.sched.current) ==>
          y.stacks[t.id].lo <= t.context.rsp && t.context.rsp + FRAME_BYTES <= y.stacks[t.id].hi)
  }

  /** One activity. An interrupt stores the frame of the running thread below its stack pointer,
      hands the frame's address to the scheduler and reloads every register from the address that
      comes back. */
  function Act(y: System, a: Activity): System
    requires y.sched.active ==> Has(y.sched.ring, y.sched.current)
    requires IsInterrupt(a) ==> Align16(y.cpu.rsp) >= FRAME_BYTES
    requires !a.Compute? ==> Enabled(y.sched, EventOf(y, a))
  {
    match a
    case Compute(mem, cpu, fpu) => y.(mem := mem, cpu := cpu, fpu := fpu)
    case Spawn(trampoline, fn, arg, stack) =>
      var top := StackTop(stack);
      y.(sched := Step(y.sched, EventOf(y, a)),
         mem := StoreFrame(y.mem, top, FirstRegisters(trampoline, fn, arg, top)),
         stacks := y.stacks[y.sched.nextId + 1 := Region(stack, stack + STACK_SIZE)])
    case Boot(stack) =>
      y.(sched := Step(y.sched, Start), stacks := y.stacks[0 := stack])
    case _ =>
      var mem := StoreFrame(y.mem, Align16(y.cpu.rsp), y.cpu);
      var (sched, resumed) := StepResume(y.sched, EventOf(y, a));
      y.(sched := sched, mem := mem, cpu := LoadFrame(mem, resumed.rsp), fpu := resumed.fpu)
  }
}
