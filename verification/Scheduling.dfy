/** The scheduler of kernel/src/sched.c as functions on values: one circular ring of threads,
    written as the sequence that starts at the node `ring` and follows the `next` links.
    The class `Kernel` in Kernel.dfy updates linked threads in place and is proved to compute
    these functions; the properties of whole runs are proved here and in SchedulingRuns.dfy. */
module Scheduling {

  const QUANTUM_TICKS: nat := 5
  const WORD_LIMIT: nat := 0x1_0000_0000_0000_0000

  datatype RunState = Ready | Running | Sleeping | Zombie

  type FpuImage = seq<bv8>

  /** What the context switch keeps of a thread: its stack pointer and its fxsave area. */
  datatype Context = Context(rsp: nat, fpu: FpuImage)

  datatype Thread = Thread(id: nat, state: RunState, wakeTick: nat, context: Context) {
    predicate Runnable() { state.Ready? || state.Running? }
    predicate Idle() { id == 0 }
  }

  /** `current` is the id of the running thread; it is 0 until `active` is set. */
  datatype Sched = Sched(active: bool, ring: seq<Thread>, current: nat,
                         nextId: nat, sliceStart: nat, ticks: nat)

  // ---------- positions on the ring ----------

  predicate Distinct(ts: seq<Thread>) {
    forall i, j :: 0 <= i < j < |ts| ==> ts[i].id != ts[j].id
  }

  predicate Has(ts: seq<Thread>, id: nat) {
    exists i :: 0 <= i < |ts| && ts[i].id == id
  }

  function Index(ts: seq<Thread>, id: nat): (i: nat)
    requires Has(ts, id)
    ensures i < |ts| && ts[i].id == id
    ensures forall j :: 0 <= j < i ==> ts[j].id != id
  {
    if ts[0].id == id then 0
    else
      assert Has(ts[1..], id) by {
        var i :| 0 <= i < |ts| && ts[i].id == id;
        assert ts[1..][i - 1].id == id;
      }
      1 + Index(ts[1..], id)
  }

  function Find(ts: seq<Thread>, id: nat): (t: Thread)
    requires Has(ts, id)
    ensures t.id == id && t in ts
  {
    ts[Index(ts, id)]
  }

  /** The ring as it is met by following `next` from thread `id`: that thread comes last. */
  function After(ts: seq<Thread>, id: nat): (order: seq<Thread>)
    requires Has(ts, id)
    ensures |order| == |ts| && order[|order| - 1].id == id
  {
    var c := Index(ts, id);
    ts[c + 1..] + ts[..c + 1]
  }

  // ---------- the three parts of sched_preempt ----------

  function WakeOne(t: Thread, now: nat): Thread {
    if t.state.Sleeping? && now >= t.wakeTick then t.(state := Ready) else t
  }

  function WakeAll(ts: seq<Thread>, now: nat): (r: seq<Thread>)
    ensures |r| == |ts|
    ensures forall i :: 0 <= i < |ts| ==> r[i] == WakeOne(ts[i], now)
  {
    seq(|ts|, i requires 0 <= i < |ts| => WakeOne(ts[i], now))
  }

  predicate Reapable(t: Thread, current: nat, head: nat) {
    t.state.Zombie? && t.id != current && t.id != head
  }

  /** The threads one pass of reap_zombies unlinks. The pass stops as soon as `p == ring`, which
      is still so after it has unlinked the node right behind `ring`: then it unlinks only that. */
  function ReapSet(ring: seq<Thread>, current: nat): set<nat> {
    if |ring| > 1 && Reapable(ring[1], current, ring[0].id) then {ring[1].id}
    else set i | 0 <= i < |ring| && Reapable(ring[i], current, ring[0].id) :: ring[i].id
  }

  function Drop(ts: seq<Thread>, gone: set<nat>): (r: seq<Thread>) {
    if ts == [] then []
    else if ts[0].id in gone then Drop(ts[1..], gone)
    else [ts[0]] + Drop(ts[1..], gone)
  }

  function Reap(ring: seq<Thread>, current: nat): seq<Thread> {
    Drop(ring, ReapSet(ring, current))
  }

  predicate Pickable(t: Thread, idleToo: bool) {
    t.Runnable() && (idleToo || !t.Idle())
  }

  function First(order: seq<Thread>, idleToo: bool): (k: nat)
    ensures k <= |order|
    ensures k < |order| ==> Pickable(order[k], idleToo)
    ensures forall j :: 0 <= j < k ==> !Pickable(order[j], idleToo)
  {
    if order == [] || Pickable(order[0], idleToo) then 0 else 1 + First(order[1..], idleToo)
  }

  /** The position of the next thread: any runnable one but idle, else any runnable one. */
  function Pick(order: seq<Thread>): (k: nat)
    ensures k <= |order|
  {
    var k := First(order, false);
    if k < |order| then k else First(order, true)
  }

  function SwitchOne(t: Thread, from: nat, to: nat, context: Context): Thread {
    if t.id == from then
      t.(context := context, state := if t.state.Running? then Ready else t.state)
    else if t.id == to then t.(state := Running)
    else t
  }

  function Switch(ts: seq<Thread>, from: nat, to: nat, context: Context): (r: seq<Thread>)
    ensures |r| == |ts|
    ensures forall i :: 0 <= i < |ts| ==> r[i] == SwitchOne(ts[i], from, to, context)
  {
    seq(|ts|, i requires 0 <= i < |ts| => SwitchOne(ts[i], from, to, context))
  }

  lemma {:induction false} DropMembers(ts: seq<Thread>, gone: set<nat>)
    ensures forall t :: t in Drop(ts, gone) <==> t in ts && t.id !in gone
  {
    if ts != [] { DropMembers(ts[1..], gone); }
  }

  lemma DropHas(ts: seq<Thread>, gone: set<nat>, id: nat)
    ensures Has(Drop(ts, gone), id) <==> Has(ts, id) && id !in gone
  {
    var r := Drop(ts, gone);
    DropMembers(ts, gone);
    if Has(r, id) {
      var i :| 0 <= i < |r| && r[i].id == id;
      assert r[i] in ts;
    }
    if Has(ts, id) && id !in gone {
      var i :| 0 <= i < |ts| && ts[i].id == id;
      assert ts[i] in r;
    }
  }

  /** The ring on which sched_preempt chooses: sleepers woken, zombies reaped. */
  function Swept(s: Sched): (ring: seq<Thread>)
    ensures Has(s.ring, s.current) ==> Has(ring, s.current)
  {
    var woken := WakeAll(s.ring, s.ticks);
    DropHas(woken, ReapSet(woken, s.current), s.current);
    assert forall i :: 0 <= i < |s.ring| ==> woken[i].id == s.ring[i].id;
    Reap(woken, s.current)
  }

  /** sched_preempt: the new state and the context that is resumed. */
  function Preempt(s: Sched, context: Context): (Sched, Context)
    requires s.active ==> Has(s.ring, s.current)
  {
    if !s.active then (s, context)
    else
      var ring := Swept(s);
      var order := After(ring, s.current);
      var k := Pick(order);
      if k >= |order| - 1 then (s.(ring := ring), context)
      else
        var next := order[k];
        (s.(ring := Switch(ring, s.current, next.id, context), current := next.id,
            sliceStart := s.ticks),
         next.context)
  }

  // ---------- the steps of a run ----------

  /** One entry into the scheduler. Each carries the context of the interrupted thread, except
      that Create carries the one made for the new thread and Start needs none. */
  datatype Event =
    | Tick(context: Context)
    | Yield(context: Context)
    | Exit(context: Context)
    | Sleep(ms: nat, context: Context)
    | Create(context: Context)
    | Start

  function Insert(ring: seq<Thread>, t: Thread): seq<Thread> {
    if ring == [] then [t] else [ring[0], t] + ring[1..]
  }

  function SetCurrent(s: Sched, state: RunState, wakeTick: nat): (r: Sched)
    ensures |r.ring| == |s.ring| && r == s.(ring := r.ring)
    ensures forall i :: 0 <= i < |s.ring| ==>
      r.ring[i] == if s.ring[i].id == s.current
                   then s.ring[i].(state := state, wakeTick := wakeTick) else s.ring[i]
  {
    s.(ring := seq(|s.ring|, i requires 0 <= i < |s.ring| =>
      if s.ring[i].id == s.current then s.ring[i].(state := state, wakeTick := wakeTick)
      else s.ring[i]))
  }

  predicate SliceOver(s: Sched)
    requires Has(s.ring, s.current)
  {
    s.ticks - s.sliceStart >= QUANTUM_TICKS || !Find(s.ring, s.current).state.Running?
  }

  function WakeTime(ticks: nat, ms: nat): nat { (ticks + ms) % WORD_LIMIT }

  function InitialFpu(): FpuImage {
    seq(512, i => if i == 0 then 0x7F else if i == 1 then 0x03
                  else if i == 24 then 0x80 else if i == 25 then 0x1F else 0)
  }

  predicate Enabled(s: Sched, e: Event) {
    match e
    case Exit(_) => s.active && s.current != 0
    case Sleep(_, _) => s.active && s.current != 0
    case Yield(_) => true
    case Tick(_) => true
    case Create(_) => true
    case Start => !s.active
  }

  ghost predicate Inv(s: Sched) {
    && Distinct(s.ring)
    && (forall t :: t in s.ring ==> t.id <= s.nextId)
    && s.sliceStart <= s.ticks
    && (s.active ==>
      && Has(s.ring, 0) && Find(s.ring, 0).Runnable()
      && Has(s.ring, s.current) && Find(s.ring, s.current).Runnable()
      && (forall t :: t in s.ring && t.state.Running? ==> t.id == s.current))
    && (!s.active ==>
      && s.current == 0 && s.sliceStart == 0
      && forall t :: t in s.ring ==> t.id != 0 && t.state.Ready?)
  }

  predicate Entering(e: Event) { e.Tick? || e.Yield? || e.Exit? || e.Sleep? }

  /** The state at the call of sched_preempt or sched_tick. */
  function Entry(s: Sched, e: Event): (z: Sched)
    requires s.active ==> Has(s.ring, s.current)
    requires Enabled(s, e) && Entering(e)
    ensures z.active ==> Has(z.ring, z.current)
  {
    match e
    case Tick(_) => s.(ticks := s.ticks + 1)
    case Yield(_) => s
    case Exit(_) =>
      var wake := Find(s.ring, s.current).wakeTick;
      SetCurrentHas(s, Zombie, wake, s.current);
      SetCurrent(s, Zombie, wake)
    case Sleep(ms, _) =>
      SetCurrentHas(s, Sleeping, WakeTime(s.ticks, ms), s.current);
      SetCurrent(s, Sleeping, WakeTime(s.ticks, ms))
  }

  /** Whether the entry reaches the body of sched_preempt: a timer tick does so only when the
      time slice is over or the current thread is not marked Running. */
  predicate Preempts(s: Sched, e: Event)
    requires s.active ==> Has(s.ring, s.current)
    requires Enabled(s, e)
  {
    s.active && Entering(e) && (e.Tick? ==> SliceOver(Entry(s, e)))
  }

  /** The state after one entry, and the context the processor resumes with. */
  function StepResume(s: Sched, e: Event): (Sched, Context)
    requires s.active ==> Has(s.ring, s.current)
    requires Enabled(s, e)
  {
    if Preempts(s, e) then Preempt(Entry(s, e), e.context)
    else if Entering(e) then (Entry(s, e), e.context)
    else if e.Create? then
      (s.(ring := Insert(s.ring, Thread(s.nextId + 1, Ready, 0, e.context)),
          nextId := s.nextId + 1), e.context)
    else
      var idle := Thread(0, Running, 0, Context(0, InitialFpu()));
      (s.(ring := Insert(s.ring, idle), current := 0, sliceStart := s.ticks, active := true),
       idle.context)
  }

  function Step(s: Sched, e: Event): Sched
    requires s.active ==> Has(s.ring, s.current)
    requires Enabled(s, e)
  {
    StepResume(s, e).0
  }

  lemma SetCurrentHas(s: Sched, state: RunState, wakeTick: nat, id: nat)
    ensures Has(SetCurrent(s, state, wakeTick).ring, id) <==> Has(s.ring, id)
  {
    var r := SetCurrent(s, state, wakeTick).ring;
    assert forall i :: 0 <= i < |s.ring| ==> r[i].id == s.ring[i].id;
  }
}
