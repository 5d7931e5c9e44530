/** What one entry into the scheduler does, said of the states before and after alone: by ids, places on the
    ring, states and tick counts. Nothing here mentions how a step is computed. */
module SchedulingSteps {
  import opened Scheduling
  import opened SchedulingRuns
  import opened SchedulingWaiting

  // ---------- ticks ----------

  /** A running thread keeps the processor for its quantum of five ticks: until then a tick is counted and
      nothing else changes. */
  lemma QuantumKept(s: Sched, context: Context)
    requires Inv(s) && s.active && Find(s.ring, s.current).state == Running && s.ticks + 1 - s.sliceStart < 5
    ensures StepResume(s, Tick(context)) == (s.(ticks := s.ticks + 1), context)
  {
  }

  /** When the quantum is over, or the current thread does not run, a tick wakes every sleeper that is due,
      whether or not another thread gets the processor. */
  lemma QuantumOver(s: Sched, context: Context, id: nat)
    requires Inv(s) && s.active && Enabled(s, Tick(context))
    requires Find(s.ring, s.current).state != Running || s.ticks + 1 - s.sliceStart >= 5
    requires Has(s.ring, id) && Find(s.ring, id).state == Sleeping && Find(s.ring, id).wakeTick <= s.ticks + 1
    ensures var r := Step(s, Tick(context));
      Has(r.ring, id) && (Find(r.ring, id).state == Ready || (Find(r.ring, id).state == Running && r.current == id))
  {
    var z := Entry(s, Tick(context));
    assert Preempts(s, Tick(context));
    hide Inv, Entered, Preempt;
    EntryInv(s, Tick(context));
    PreemptThread(z, context, id);
  }

  /** There, a non-idle thread that is ready takes over from the current one. */
  lemma QuantumOverSwitches(s: Sched, context: Context, id: nat)
    requires Inv(s) && s.active && Enabled(s, Tick(context))
    requires Find(s.ring, s.current).state != Running || s.ticks + 1 - s.sliceStart >= 5
    requires Has(s.ring, id) && id != 0 && id != s.current && Find(s.ring, id).state == Ready
    ensures var r := Step(s, Tick(context)); r.current != s.current && r.sliceStart == s.ticks + 1
  {
    var z := Entry(s, Tick(context));
    assert Preempts(s, Tick(context));
    hide Inv, Entered, Preempt;
    EntryInv(s, Tick(context));
    ReadyTakesOver(z, context, id);
  }

  lemma ReadyTakesOver(s: Sched, context: Context, id: nat)
    requires Entered(s) && Has(s.ring, id) && id != 0 && id != s.current && Find(s.ring, id).state == Ready
    ensures var r := Preempt(s, context).0; r.current != s.current && r.sliceStart == s.ticks
  {
    hide Inv, Entered;
    InvEnteredHas(s);
    SweptKeepsWaiting(s, id);
    PreemptIs(s, context);
    SweptEntered(s);
    InvEnteredHas(s.(ring := Swept(s)));
    PickBefore(Swept(s), s.current, id);
    Chosen(s);
  }

  /** Ticks are counted by ticks alone. */
  lemma OnlyTicksCount(s: Sched, e: Event)
    requires Inv(s) && Enabled(s, e)
    ensures s.active ==> Has(s.ring, s.current)
    ensures Step(s, e).ticks == s.ticks + if e.Tick? then 1 else 0
  {
    hide Swept, Pick, After;
  }

  // ---------- who is next ----------

  /** How many `next` links lead from place i to place j, once around for i itself. */
  function Links(n: nat, i: nat, j: nat): nat
    requires i < n && j < n
  {
    if j > i then j - i else n - i + j
  }

  /** sched_preempt settles on the first thread behind the entering one, itself last, that is ready or running
      and not idle; on idle only if no other thread is ready or running. */
  lemma PreemptChoice(s: Sched, context: Context, i: nat, j: nat, k: nat)
    requires Entered(s)
    requires var r := Preempt(s, context).0;
      && i < |r.ring| && r.ring[i].id == s.current
      && j < |r.ring| && r.ring[j].id == r.current && k < |r.ring|
    ensures var r := Preempt(s, context).0;
      && (r.ring[j].state == Ready || r.ring[j].state == Running)
      && (r.current != 0 && Links(|r.ring|, i, k) < Links(|r.ring|, i, j) ==>
            r.ring[k].id == 0 || r.ring[k].state == Sleeping || r.ring[k].state == Zombie)
      && (r.current == 0 ==>
            r.ring[k].id == 0 || r.ring[k].state == Sleeping || r.ring[k].state == Zombie)
  {
    hide Inv, Entered, Swept, Pick, After, Switch, Has, Find;
    InvEnteredHas(s);
    SweptEntered(s);
    var ring := Swept(s);
    InvEnteredHas(s.(ring := ring));
    PreemptIs(s, context);
    Chosen(s);
    var order, r := After(ring, s.current), Preempt(s, context).0;
    SameRunnable(s, context, i);
    SameRunnable(s, context, j);
    SameRunnable(s, context, k);
    IndexIs(ring, i);
    OrderAt(ring, i, j);
    OrderAt(ring, i, k);
    AfterDistinct(ring, s.current);
    PickIs(order);
    SameId(order, Pick(order), Links(|ring|, i, j) - 1);
  }

  lemma SameId(ts: seq<Thread>, i: nat, j: nat)
    requires Distinct(ts) && i < |ts| && j < |ts| && ts[i].id == ts[j].id
    ensures i == j
  {
  }

  lemma PickIs(order: seq<Thread>)
    requires Pick(order) < |order|
    ensures var p := Pick(order);
      && (order[p].id != 0 ==> forall m :: 0 <= m < p ==> order[m].id == 0 || !order[m].Runnable())
      && (order[p].id == 0 ==> forall m :: 0 <= m < |order| ==> order[m].id == 0 || !order[m].Runnable())
  {
    assert forall m :: 0 <= m < |order| ==>
      (Pickable(order[m], false) <==> order[m].Runnable() && order[m].id != 0);
  }

  /** A switch leaves every thread at its place, and as runnable as it was. */
  lemma SameRunnable(s: Sched, context: Context, i: nat)
    requires Entered(s) && i < |Preempt(s, context).0.ring|
    ensures Has(s.ring, s.current) && |Preempt(s, context).0.ring| == |Swept(s)|
    ensures var t, u := Preempt(s, context).0.ring[i], Swept(s)[i];
      t.id == u.id && (t.state == Ready || t.state == Running <==> u.Runnable())
  {
    hide Inv, Entered, Swept, Pick, After;
    InvEnteredHas(s);
    PreemptIs(s, context);
    var ring, to := Swept(s), Choice(s);
    if ring[i].id == to {
      SweptEntered(s);
      InvEnteredHas(s.(ring := ring));
      IndexIs(ring, i);
    }
  }

  lemma OrderAt(ring: seq<Thread>, i: nat, j: nat)
    requires i < |ring| && j < |ring| && Has(ring, ring[i].id) && Index(ring, ring[i].id) == i
    ensures After(ring, ring[i].id)[Links(|ring|, i, j) - 1] == ring[j]
  {
  }

  // ---------- what becomes of each thread ----------

  /** One call of sched_preempt, thread by thread: a due sleeper is ready; the thread that gets the processor
      runs; the one that loses it keeps the given context, and is ready if it ran; nothing else changes. */
  lemma PreemptStates(s: Sched, context: Context, id: nat)
    requires Entered(s) && Has(s.ring, id) && Has(Preempt(s, context).0.ring, id)
    ensures var r := Preempt(s, context).0;
      var t, u, moved := Find(s.ring, id), Find(r.ring, id), r.current != s.current;
      && u.wakeTick == t.wakeTick
      && u.context == (if moved && id == s.current then context else t.context)
      && u.state == (if moved && id == r.current then Running
                     else if moved && id == s.current && t.state == Running then Ready
                     else if t.state == Sleeping && t.wakeTick <= s.ticks then Ready
                     else t.state)
      && r.sliceStart == (if moved then s.ticks else s.sliceStart)
      && r.ticks == s.ticks && r.nextId == s.nextId && r.active
  {
    hide Inv, Entered;
    InvEnteredHas(s);
    PreemptThread(s, context, id);
    PreemptIs(s, context);
  }

  /** The context that is resumed: the given one, or the one that the new current thread had saved. */
  lemma PreemptContext(s: Sched, context: Context)
    requires Entered(s)
    ensures var (r, resumed) := Preempt(s, context);
      && Has(s.ring, r.current)
      && resumed == if r.current == s.current then context else Find(s.ring, r.current).context
  {
    PreemptResumes(s, context);
  }

  // ---------- the other events ----------

  /** A new thread gets the next id and goes right behind the one at `ring`, ready, asleep for nothing. */
  lemma CreateStates(s: Sched, context: Context)
    requires s.active ==> Has(s.ring, s.current)
    ensures var r, t := Step(s, Create(context)), Thread(s.nextId + 1, Ready, 0, context);
      && r == s.(ring := r.ring, nextId := s.nextId + 1)
      && r.ring == (if s.ring == [] then [t] else [s.ring[0], t] + s.ring[1..])
  {
  }

  /** Starting puts idle right behind the one at `ring`, running, with the boot context unsaved. */
  lemma StartStates(s: Sched)
    requires !s.active
    ensures var r := Step(s, Start);
      && r == s.(ring := r.ring, active := true, current := 0, sliceStart := s.ticks)
      && |r.ring| == |s.ring| + 1
      && var at := if s.ring == [] then 0 else 1;
         && r.ring[at].id == 0 && r.ring[at].state == Running && r.ring[at].wakeTick == 0
         && r.ring[..at] + r.ring[at + 1..] == s.ring
  {
  }

  /** Exit and sleep: at the call of sched_preempt only the caller's state has changed. */
  lemma CallerBlocks(s: Sched, e: Event, i: nat)
    requires Inv(s) && Enabled(s, e) && (e.Exit? || e.Sleep?) && i < |s.ring|
    ensures Has(s.ring, s.current)
    ensures var z := Entry(s, e);
      && z == s.(ring := z.ring) && |z.ring| == |s.ring|
      && z.ring[i] ==
        if s.ring[i].id != s.current then s.ring[i]
        else if e.Exit? then s.ring[i].(state := Zombie)
        else s.ring[i].(state := Sleeping, wakeTick := (s.ticks + e.ms) % 0x1_0000_0000_0000_0000)
    ensures Preempts(s, e)
  {
    IndexIs(s.ring, i);
  }

  /** A yield enters sched_preempt at once, with nothing changed. */
  lemma YieldEnters(s: Sched, context: Context)
    requires Inv(s) && s.active
    ensures Has(s.ring, s.current) && StepResume(s, Yield(context)) == Preempt(s, context)
  {
  }

  /** Before the scheduler is started, an interrupt changes nothing but the tick count. */
  lemma InactiveWaits(s: Sched, e: Event)
    requires !s.active && (e.Tick? || e.Yield?)
    ensures StepResume(s, e) == (s.(ticks := s.ticks + if e.Tick? then 1 else 0), e.context)
  {
  }

  /** The FPU image of a new thread: control word 0x037F, MXCSR 0x1F80, zero elsewhere. */
  lemma FreshFpu(i: nat)
    requires i < 512
    ensures |InitialFpu()| == 512
    ensures InitialFpu()[0] as int + 256 * InitialFpu()[1] as int == 0x037F
    ensures InitialFpu()[24] as int + 256 * InitialFpu()[25] as int == 0x1F80
    ensures i !in {0, 1, 24, 25} ==> InitialFpu()[i] == 0
  {
  }
}
