/** What reap_zombies achieves over whole runs: a dead thread is unlinked by the next call of
    sched_preempt, unless it is the one that `ring` points at, which never moves. */
module SchedulingReaping {
  import opened Scheduling
  import opened SchedulingRuns

  /** The thread that `ring` points at. */
  function Head(s: Sched): nat
    requires s.ring != []
  {
    s.ring[0].id
  }

  /** A zombie on the ring that neither runs nor is the thread at `ring`. */
  ghost predicate Stray(s: Sched, t: Thread) {
    t in s.ring && s.ring != [] && Reapable(t, s.current, Head(s))
  }

  ghost predicate AtMostOneStray(s: Sched) {
    forall t, u :: Stray(s, t) && Stray(s, u) ==> t.id == u.id
  }

  // ---------- `ring` never moves ----------

  lemma SweptHead(s: Sched)
    requires s.ring != []
    ensures Swept(s) != [] && Swept(s)[0].id == Head(s)
  {
    var woken := WakeAll(s.ring, s.ticks);
    assert woken[0] == WakeOne(s.ring[0], s.ticks);
    var gone := ReapSet(woken, s.current);
    assert woken[0].id !in gone;
  }

  lemma StepHead(s: Sched, e: Event)
    requires Inv(s) && Enabled(s, e)
    ensures s.ring != [] ==> Step(s, e).ring != [] && Head(Step(s, e)) == Head(s)
  {
    hide Inv, Entered, Swept;
    InvHas(s);
    if s.ring == [] {
    } else if Preempts(s, e) {
      EntryHead(s, e);
      EntryInv(s, e);
      PreemptHead(Entry(s, e), e.context);
    } else if Entering(e) {
      EntryHead(s, e);
    }
  }

  lemma EntryHead(s: Sched, e: Event)
    requires s.active ==> Has(s.ring, s.current)
    requires Enabled(s, e) && Entering(e) && s.ring != []
    ensures Entry(s, e).ring != [] && Head(Entry(s, e)) == Head(s)
  {
  }

  lemma PreemptHead(s: Sched, context: Context)
    requires s.active && Has(s.ring, s.current) && s.ring != []
    ensures var r := Preempt(s, context).0; r.ring != [] && Head(r) == Head(s)
  {
    hide Swept, Pick, After;
    SweptHead(s);
  }

  /** Once a thread is at `ring`, it stays there over every run, even after it has exited. */
  lemma {:induction false} HeadStays(s: Sched, es: seq<Event>)
    requires Inv(s) && Feasible(s, es) && s.ring != []
    ensures var r := Run(s, es); r.ring != [] && Head(r) == Head(s)
    decreases es
  {
    hide Inv;
    if es == [] {
    } else {
      InvHas(s);
      StepInv(s, es[0]);
      StepHead(s, es[0]);
      HeadStays(Step(s, es[0]), es[1..]);
    }
  }

  /** The thread at `ring` is never reaped: after it exits it is a zombie on the ring for ever. */
  lemma HeadNeverReaped(s: Sched, context: Context, es: seq<Event>)
    requires Inv(s) && Enabled(s, Exit(context)) && s.current == Head(s)
    requires Inv(Step(s, Exit(context))) && Feasible(Step(s, Exit(context)), es)
    ensures var r := Run(Step(s, Exit(context)), es);
      Has(r.ring, s.current) && Find(r.ring, s.current).state.Zombie?
  {
    hide Inv, Entered, Step;
    InvHas(s);
    var z := Step(s, Exit(context));
    ExitDies(s, context);
    DeadStaysDead(z, es, s.current);
    StepHead(s, Exit(context));
    HeadStays(z, es);
    var r := Run(z, es);
    assert r.ring[0].id == s.current;
  }

  // ---------- no second zombie ----------

  lemma StrayAt(s: Sched, i: nat)
    requires i < |s.ring|
    ensures Reapable(WakeAll(s.ring, s.ticks)[i], s.current, Head(s)) <==> Stray(s, s.ring[i])
  {
    assert s.ring[i] in s.ring;
  }

  /** A sweep that finds at most one stray zombie unlinks every one. */
  lemma SweptClean(s: Sched)
    requires Distinct(s.ring) && s.ring != [] && AtMostOneStray(s)
    ensures forall t :: t in Swept(s) && t.state.Zombie? ==> t.id == s.current || t.id == Head(s)
  {
    hide Reap;
    var woken := WakeAll(s.ring, s.ticks);
    SameIds(s.ring, woken);
    ReapPass(woken, s.current);
    forall i | 1 <= i < |woken|
      ensures Reapable(woken[i], s.current, woken[0].id) <==> Stray(s, s.ring[i])
    {
      StrayAt(s, i);
    }
    forall i | 1 < i < |woken|
      ensures !(Reapable(woken[1], s.current, woken[0].id) && Reapable(woken[i], s.current, woken[0].id))
    {
      assert s.ring[1].id != s.ring[i].id;
    }
    forall t | t in Swept(s) && t.state.Zombie?
      ensures t.id == s.current || t.id == Head(s)
    {
      assert t in Reap(woken, s.current);
    }
  }

  /** After sched_preempt the only zombies are the thread that entered and the one at `ring`. */
  lemma PreemptClean(s: Sched, context: Context)
    requires Entered(s) && s.ring != [] && AtMostOneStray(s)
    ensures var r := Preempt(s, context).0;
      forall t :: t in r.ring && t.state.Zombie? ==> t.id == s.current || t.id == Head(s)
  {
    hide Inv, Entered, Swept, AtMostOneStray;
    InvEnteredHas(s);
    PreemptIs(s, context);
    SweptClean(s);
    var z, to := s.(ring := Swept(s)), Choice(s);
    if to != s.current {
      SwitchZombies(z.ring, s.current, to, context);
    }
  }

  lemma SwitchZombies(ring: seq<Thread>, from: nat, to: nat, context: Context)
    ensures forall t :: t in Switch(ring, from, to, context) && t.state.Zombie? ==>
      exists u :: u in ring && u.id == t.id && u.state.Zombie?
  {
    var r := Switch(ring, from, to, context);
    forall t | t in r && t.state.Zombie?
      ensures exists u :: u in ring && u.id == t.id && u.state.Zombie?
    {
      var i :| 0 <= i < |r| && r[i] == t;
      assert r[i] == SwitchOne(ring[i], from, to, context);
      assert ring[i] in ring;
    }
  }

  /** The thread that enters is not a stray one, so entering adds none. */
  lemma EntryStray(s: Sched, e: Event)
    requires Inv(s) && Enabled(s, e) && Entering(e) && AtMostOneStray(s)
    ensures AtMostOneStray(Entry(s, e))
  {
    var z := Entry(s, e);
    InvHas(s);
    forall t | Stray(z, t)
      ensures Stray(s, t)
    {
      var i :| 0 <= i < |z.ring| && z.ring[i] == t;
      assert s.ring[i] in s.ring;
    }
  }

  lemma StepStray(s: Sched, e: Event)
    requires Inv(s) && Enabled(s, e) && AtMostOneStray(s)
    ensures AtMostOneStray(Step(s, e))
  {
    hide Inv, Entered, AtMostOneStray;
    InvHas(s);
    StepHead(s, e);
    if Preempts(s, e) {
      EntryInv(s, e);
      EntryStray(s, e);
      EntryRing(s, e);
      EntryHead(s, e);
      PreemptClean(Entry(s, e), e.context);
      PreemptHead(Entry(s, e), e.context);
      OnlyOne(Step(s, e), s.current);
    } else if Entering(e) {
      EntryStray(s, e);
    } else {
      AddedStray(s, e);
    }
  }

  lemma EntryRing(s: Sched, e: Event)
    requires Inv(s) && s.active && Enabled(s, e) && Entering(e)
    ensures s.ring != [] && Entry(s, e).ring != [] && Entry(s, e).current == s.current
  {
  }

  lemma OnlyOne(s: Sched, id: nat)
    requires s.ring != []
    requires forall t :: t in s.ring && t.state.Zombie? ==> t.id == id || t.id == Head(s)
    ensures AtMostOneStray(s)
  {
  }

  /** A new thread is no zombie. */
  lemma AddedStray(s: Sched, e: Event)
    requires Inv(s) && Enabled(s, e) && AtMostOneStray(s) && (e.Create? || e.Start?)
    ensures AtMostOneStray(Step(s, e))
  {
    InvHas(s);
    var z := Step(s, e);
    var t := if e.Create? then Thread(s.nextId + 1, Ready, 0, e.context)
             else Thread(0, Running, 0, Context(0, InitialFpu()));
    AddInv(s, t);
    if e.Start? {
      NoZombieYet(s);
    }
    forall u | Stray(z, u)
      ensures Stray(s, u)
    {
      assert u in s.ring;
    }
  }

  lemma NoZombieYet(s: Sched)
    requires Inv(s) && !s.active
    ensures forall t :: t in s.ring ==> !t.state.Zombie?
  {
  }

  lemma {:induction false} RunStray(s: Sched, es: seq<Event>)
    requires Inv(s) && Feasible(s, es) && AtMostOneStray(s)
    ensures AtMostOneStray(Run(s, es))
    decreases es
  {
    hide Inv, AtMostOneStray;
    if es == [] {
    } else {
      InvHas(s);
      StepInv(s, es[0]);
      StepStray(s, es[0]);
      RunStray(Step(s, es[0]), es[1..]);
    }
  }

  /** Over every run from boot, each pass of reap_zombies unlinks every zombie but the one that is
      just entering and the one at `ring`: no dead thread outlives the next call. */
  lemma EveryZombieReaped(es: seq<Event>, e: Event)
    requires Feasible(BOOT, es)
    requires var s := Run(BOOT, es); Enabled(s, e) && Preempts(s, e)
    ensures var s := Run(BOOT, es);
      && s.ring != []
      && forall t :: t in Swept(Entry(s, e)) && t.state.Zombie? ==> t.id == s.current || t.id == Head(s)
  {
    hide Inv, Entered, Swept, AtMostOneStray, Run;
    BootStateInv();
    BootStray();
    RunStray(BOOT, es);
    var s := Run(BOOT, es);
    EntryInv(s, e);
    EntryStray(s, e);
    EntryRing(s, e);
    EntryHead(s, e);
    InvEnteredHas(Entry(s, e));
    SweptClean(Entry(s, e));
  }

  /** Of the zombies that are not entering, a pass leaves exactly the one at `ring`. */
  lemma OnlyHeadSurvives(es: seq<Event>, e: Event, id: nat)
    requires Feasible(BOOT, es)
    requires var s := Run(BOOT, es); Enabled(s, e) && Preempts(s, e) && id != s.current
    requires var s := Run(BOOT, es); Has(s.ring, id) && Find(s.ring, id).state.Zombie?
    ensures var s := Run(BOOT, es); s.ring != [] && (Has(Swept(Entry(s, e)), id) <==> id == Head(s))
  {
    hide Inv, Entered, Swept, Run;
    BootStateInv();
    EveryZombieReaped(es, e);
    var s := Run(BOOT, es);
    InvHas(s);
    EntryInv(s, e);
    var z := Entry(s, e);
    InvEnteredHas(z);
    EntryFind(s, e, id);
    SweptFind(z, id);
    EntryHead(s, e);
    SweptHead(z);
    if id == Head(s) {
      assert Swept(z)[0].id == id;
    }
  }

  // ---------- a run in which the thread at `ring` exits ----------

  /** A thread is created before the scheduler is started, and gets the processor. */
  function FirstRuns(first: Context, idle: Context): seq<Event> {
    [Create(first), Start, Yield(idle)]
  }

  function FirstRunning(first: Context, idle: Context): Sched {
    Sched(true, [Thread(1, Running, 0, first), Thread(0, Ready, 0, idle)], 1, 1, 0, 0)
  }

  lemma RunCons(s: Sched, e: Event, es: seq<Event>)
    requires Inv(s) && Enabled(s, e) && Inv(Step(s, e)) && Feasible(Step(s, e), es)
    ensures Feasible(s, [e] + es) && Run(s, [e] + es) == Run(Step(s, e), es)
  {
    hide Inv, Step;
    assert ([e] + es)[1..] == es;
  }

  /** It is what the scheduler comes to. */
  lemma FirstRunsTo(first: Context, idle: Context)
    ensures Feasible(BOOT, FirstRuns(first, idle))
    ensures Run(BOOT, FirstRuns(first, idle)) == FirstRunning(first, idle)
  {
    hide Feasible, Run, Inv;
    var s1 := Sched(false, [Thread(1, Ready, 0, first)], 0, 1, 0, 0);
    var s2 := Sched(true, [Thread(1, Ready, 0, first), Thread(0, Running, 0, Context(0, InitialFpu()))], 0, 1, 0, 0);
    BootStateInv();
    StepInv(BOOT, Create(first));
    assert Step(BOOT, Create(first)) == s1;
    StepInv(s1, Start);
    assert Step(s1, Start) == s2;
    InvHas(s2);
    StepInv(s2, Yield(idle));
    YieldsToFirst(first, idle);
    NoRun(FirstRunning(first, idle));
    RunCons(s2, Yield(idle), []);
    assert [Yield(idle)] + [] == [Yield(idle)];
    RunCons(s1, Start, [Yield(idle)]);
    assert [Start] + [Yield(idle)] == [Start, Yield(idle)];
    RunCons(BOOT, Create(first), [Start, Yield(idle)]);
    assert [Create(first)] + [Start, Yield(idle)] == FirstRuns(first, idle);
  }

  lemma NoRun(s: Sched)
    requires Inv(s)
    ensures Feasible(s, []) && Run(s, []) == s
  {
  }

  lemma YieldsToFirst(first: Context, idle: Context)
    ensures var ring := [Thread(1, Ready, 0, first), Thread(0, Running, 0, Context(0, InitialFpu()))];
      && Has(ring, 0) && Step(Sched(true, ring, 0, 1, 0, 0), Yield(idle)) == FirstRunning(first, idle)
  {
    var ring := [Thread(1, Ready, 0, first), Thread(0, Running, 0, Context(0, InitialFpu()))];
    var s := Sched(true, ring, 0, 1, 0, 0);
    assert ring[1].id == 0;
    assert WakeAll(ring, 0) == ring;
    assert ReapSet(ring, 0) == {};
    NothingDropped(ring);
    assert Swept(s) == ring;
    assert After(ring, 0) == ring;
    assert Pick(ring) == 0;
    assert Switch(ring, 0, 1, idle) == FirstRunning(first, idle).ring;
  }

  lemma {:induction false} NothingDropped(ts: seq<Thread>)
    ensures Drop(ts, {}) == ts
  {
    if ts != [] {
      NothingDropped(ts[1..]);
    }
  }

  lemma FirstInv(first: Context, idle: Context)
    ensures var s := FirstRunning(first, idle); Inv(s) && Has(s.ring, 1)
  {
    var ring := FirstRunning(first, idle).ring;
    IndexIs(ring, 0);
    IndexIs(ring, 1);
  }

  /** That thread exits. */
  ghost function FirstExited(first: Context, idle: Context, last: Context): (s: Sched)
    ensures Inv(s)
  {
    FirstInv(first, idle);
    StepInv(FirstRunning(first, idle), Exit(last));
    Step(FirstRunning(first, idle), Exit(last))
  }

  /** The thread is the one at `ring`; after it exits it stays there as a zombie, whatever follows. */
  lemma FirstNeverReaped(first: Context, idle: Context, last: Context, es: seq<Event>)
    requires Feasible(FirstExited(first, idle, last), es)
    ensures Feasible(BOOT, FirstRuns(first, idle))
    ensures var s := Run(BOOT, FirstRuns(first, idle)); s.active && s.current == 1 && s.ring != [] && Head(s) == 1
    ensures var r := Run(FirstExited(first, idle, last), es); Has(r.ring, 1) && Find(r.ring, 1).state.Zombie?
  {
    FirstRunsTo(first, idle);
    FirstInv(first, idle);
    hide Inv, Step, Run, Feasible;
    HeadNeverReaped(FirstRunning(first, idle), last, es);
  }

  lemma BootStray()
    ensures AtMostOneStray(BOOT)
  {
  }
}
