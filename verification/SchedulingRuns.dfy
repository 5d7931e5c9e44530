/** What every step of the scheduler keeps, and what holds over whole runs of it. */
module SchedulingRuns {
  import opened Scheduling

  // ---------- facts about rings ----------

  lemma IndexIs(ts: seq<Thread>, i: nat)
    requires Distinct(ts) && i < |ts|
    ensures Has(ts, ts[i].id) && Index(ts, ts[i].id) == i && Find(ts, ts[i].id) == ts[i]
  {
    var j := Index(ts, ts[i].id);
    assert ts[j].id == ts[i].id;
  }

  lemma SameIds(ts: seq<Thread>, us: seq<Thread>)
    requires |ts| == |us| && forall i :: 0 <= i < |ts| ==> ts[i].id == us[i].id
    ensures Distinct(ts) ==> Distinct(us)
    ensures forall id :: Has(ts, id) ==> Has(us, id)
    ensures forall id {:trigger Has(ts, id)} :: Has(ts, id) ==> Index(ts, id) == Index(us, id)
  {
    if Distinct(ts) {
      assert forall i, j :: 0 <= i < j < |us| ==> ts[i].id != ts[j].id;
    }
    forall id | Has(ts, id)
      ensures Has(us, id) && Index(ts, id) == Index(us, id)
    {
      var i := Index(ts, id);
      assert us[i].id == id;
      var j := Index(us, id);
      assert ts[j].id == id && us[j].id == id;
      assert !(i < j) && !(j < i);
    }
  }

  lemma {:induction false} DropDistinct(ts: seq<Thread>, gone: set<nat>)
    requires Distinct(ts)
    ensures Distinct(Drop(ts, gone))
  {
    if ts != [] {
      DropDistinct(ts[1..], gone);
      DropMembers(ts[1..], gone);
      assert Distinct(ts[1..]);
      var r := Drop(ts[1..], gone);
      assert forall t :: t in r ==> t in ts[1..] && t.id != ts[0].id;
    }
  }

  lemma AfterMembers(ts: seq<Thread>, id: nat)
    requires Has(ts, id)
    ensures forall t :: t in After(ts, id) <==> t in ts
  {
    var c := Index(ts, id);
    assert ts == ts[..c + 1] + ts[c + 1..];
  }

  lemma AfterDistinct(ts: seq<Thread>, id: nat)
    requires Has(ts, id) && Distinct(ts)
    ensures Distinct(After(ts, id))
  {
  }

  lemma HasMember(ts: seq<Thread>, t: Thread)
    requires t in ts
    ensures Has(ts, t.id)
    ensures Distinct(ts) ==> Find(ts, t.id) == t
  {
    var i :| 0 <= i < |ts| && ts[i] == t;
    if Distinct(ts) { IndexIs(ts, i); }
  }

  // ---------- the invariant ----------

  /** What holds on entry to sched_preempt: the current thread may just have given up the
      processor, everything else is as between steps. */
  ghost predicate Entered(s: Sched) {
    && s.active
    && Distinct(s.ring)
    && (forall t :: t in s.ring ==> t.id <= s.nextId)
    && s.sliceStart <= s.ticks
    && Has(s.ring, 0) && Find(s.ring, 0).Runnable()
    && Has(s.ring, s.current)
    && (forall t :: t in s.ring && t.state.Running? ==> t.id == s.current)
  }

  lemma SweptKeeps(s: Sched)
    requires Entered(s)
    ensures var ring := Swept(s);
      && Distinct(ring) && Has(ring, 0) && Find(ring, 0).Runnable()
      && Has(ring, s.current)
      && (forall t :: t in ring ==> t.id <= s.nextId && (t.state.Running? ==> t.id == s.current))
  {
    hide Drop, ReapSet, Distinct;
    var woken := WakeAll(s.ring, s.ticks);
    SameIds(s.ring, woken);
    var gone := ReapSet(woken, s.current);
    DropDistinct(woken, gone);
    DropMembers(woken, gone);
    var ring := Drop(woken, gone);
    forall t | t in ring
      ensures t.id <= s.nextId && (t.state.Running? ==> t.id == s.current)
    {
      var i :| 0 <= i < |woken| && woken[i] == t;
      assert s.ring[i] in s.ring;
    }
    IdleKept(s, ring);
  }

  lemma IdleKept(s: Sched, ring: seq<Thread>)
    requires Entered(s) && ring == Drop(WakeAll(s.ring, s.ticks), ReapSet(WakeAll(s.ring, s.ticks), s.current))
    requires Distinct(ring)
    ensures Has(ring, 0) && Find(ring, 0).Runnable()
  {
    hide Drop, ReapSet, Distinct;
    var woken := WakeAll(s.ring, s.ticks);
    SameIds(s.ring, woken);
    DropMembers(woken, ReapSet(woken, s.current));
    var i := Index(s.ring, 0);
    assert woken[i] == WakeOne(Find(s.ring, 0), s.ticks);
    EnteredDistinct(s);
    NotGone(woken, s.current, i);
    assert woken[i] in ring;
    HasMember(ring, woken[i]);
  }

  lemma EnteredDistinct(s: Sched)
    requires Entered(s)
    ensures Distinct(s.ring)
  {
  }

  lemma NotGone(ring: seq<Thread>, current: nat, i: nat)
    requires Distinct(ring) && i < |ring|
    requires !Reapable(ring[i], current, ring[0].id)
    ensures ring[i].id !in ReapSet(ring, current)
  {
  }

  lemma PickRunnable(order: seq<Thread>, t: Thread)
    requires t in order && t.Runnable()
    ensures Pick(order) < |order| && order[Pick(order)].Runnable()
    ensures !t.Idle() ==> !order[Pick(order)].Idle()
  {
    assert Pickable(t, true) && (!t.Idle() ==> Pickable(t, false));
  }

  /** Switching to a runnable thread leaves it the only Running one. */
  lemma SwitchKeeps(ring: seq<Thread>, from: nat, to: nat, context: Context)
    requires Distinct(ring) && Has(ring, from) && Has(ring, to) && from != to
    requires forall t :: t in ring && t.state.Running? ==> t.id == from
    ensures var r := Switch(ring, from, to, context);
      && Distinct(r) && Has(r, from) && Has(r, to)
      && Find(r, to) == Find(ring, to).(state := Running)
      && (forall id :: Has(ring, id) ==>
            Has(r, id) && Find(r, id) == SwitchOne(Find(ring, id), from, to, context))
      && (forall t :: t in r ==>
            (t.state.Running? ==> t.id == to) && exists u :: u in ring && u.id == t.id)
  {
    hide Distinct, Has, Find;
    var r := Switch(ring, from, to, context);
    SameIds(ring, r);
    forall id | Has(ring, id)
      ensures Has(r, id) && Find(r, id) == SwitchOne(Find(ring, id), from, to, context)
    {
      SwitchHas(ring, from, to, context, id);
    }
    forall t | t in r
      ensures (t.state.Running? ==> t.id == to) && exists u :: u in ring && u.id == t.id
    {
      var i :| 0 <= i < |r| && r[i] == t;
      assert ring[i] in ring;
    }
  }

  /** The choice sched_preempt makes: some runnable thread of the swept ring. */
  lemma Chosen(s: Sched)
    requires Entered(s)
    ensures var order := After(Swept(s), s.current);
      var k := Pick(order);
      && k < |order| && order[k].Runnable() && Has(Swept(s), order[k].id)
      && Find(Swept(s), order[k].id) == order[k]
      && (k < |order| - 1 <==> order[k].id != s.current)
  {
    SweptKeeps(s);
    var ring := Swept(s);
    var order := After(ring, s.current);
    AfterMembers(ring, s.current);
    AfterDistinct(ring, s.current);
    PickRunnable(order, Find(ring, 0));
    HasMember(ring, order[Pick(order)]);
  }

  /** The state left by a call that stays with the current thread. */
  lemma StayInv(s: Sched, ring: seq<Thread>)
    requires Entered(s.(ring := ring)) && Find(ring, s.current).Runnable()
    ensures Inv(s.(ring := ring))
  {
  }

  function Moved(s: Sched, to: nat, context: Context): Sched
  {
    s.(ring := Switch(s.ring, s.current, to, context), current := to, sliceStart := s.ticks)
  }

  /** The state left by a switch. */
  lemma MoveInv(s: Sched, to: nat, context: Context)
    requires Entered(s) && Has(s.ring, to) && to != s.current
    ensures Inv(Moved(s, to, context))
  {
    SwitchKeeps(s.ring, s.current, to, context);
  }

  lemma SweptEntered(s: Sched)
    requires Entered(s)
    ensures Entered(s.(ring := Swept(s)))
  {
    SweptKeeps(s);
  }

  /** The thread sched_preempt settles on. */
  function Choice(s: Sched): nat
    requires Has(s.ring, s.current)
  {
    var order := After(Swept(s), s.current);
    var k := Pick(order);
    if k < |order| then order[k].id else s.current
  }

  /** One call of sched_preempt, said without positions: it stays with the current thread, or
      moves to another runnable one. */
  lemma PreemptIs(s: Sched, context: Context)
    requires Entered(s)
    ensures var z, to := s.(ring := Swept(s)), Choice(s);
      && Entered(z) && Has(z.ring, to) && Find(z.ring, to).Runnable()
      && Preempt(s, context) ==
           if to == s.current then (z, context)
           else (Moved(z, to, context), Find(z.ring, to).context)
  {
    hide Inv, Entered;
    SweptEntered(s);
    InvEnteredHas(s);
    Chosen(s);
  }

  lemma InvEnteredHas(s: Sched)
    requires Entered(s)
    ensures s.active && Has(s.ring, s.current) && Distinct(s.ring)
    ensures forall t :: t in s.ring && t.state.Running? ==> t.id == s.current
  {
  }

  lemma PreemptInv(s: Sched, context: Context)
    requires Entered(s)
    ensures Inv(Preempt(s, context).0)
  {
    hide Inv, Entered;
    PreemptIs(s, context);
    InvEnteredHas(s);
    var z := s.(ring := Swept(s));
    if Choice(s) == s.current {
      StayInv(s, z.ring);
    } else {
      MoveInv(z, Choice(s), context);
    }
  }

  lemma InsertInv(ring: seq<Thread>, t: Thread)
    requires Distinct(ring) && forall u :: u in ring ==> u.id != t.id
    ensures Distinct(Insert(ring, t))
    ensures forall u :: u in Insert(ring, t) <==> u == t || u in ring
  {
    if ring != [] {
      assert ring == [ring[0]] + ring[1..];
      var r := Insert(ring, t);
      forall i, j | 0 <= i < j < |r|
        ensures r[i].id != r[j].id
      {
        if i != 1 && j != 1 {
          assert r[i] == ring[if i == 0 then 0 else i - 1];
          assert r[j] == ring[j - 1];
        }
      }
    }
  }

  /** Every entry keeps the invariant: one current thread, which is runnable; no other thread is
      Running; idle stays on the ring and runnable; ids stay distinct. */
  lemma StepInv(s: Sched, e: Event)
    requires Inv(s) && Enabled(s, e)
    ensures Inv(Step(s, e))
  {
    hide Inv, Entered;
    InvHas(s);
    if Entering(e) {
      EntryInv(s, e);
      if Preempts(s, e) { PreemptInv(Entry(s, e), e.context); }
    } else if e.Create? {
      CreateInv(s, e.context);
    } else {
      StartInv(s);
    }
  }

  /** A thread enters the scheduler in a good state, which is even an invariant one if the entry
      is a tick that does not end the slice. */
  lemma EntryInv(s: Sched, e: Event)
    requires Inv(s) && Enabled(s, e) && Entering(e)
    ensures s.active ==> Entered(Entry(s, e))
    ensures !Preempts(s, e) ==> Inv(Entry(s, e))
  {
    match e
    case Tick(_) => TickInv(s);
    case Yield(_) => if s.active { InvEntered(s); }
    case Exit(_) => BlockEntered(s, Zombie, Find(s.ring, s.current).wakeTick);
    case Sleep(ms, _) => BlockEntered(s, Sleeping, WakeTime(s.ticks, ms));
  }

  lemma InvHas(s: Sched)
    requires Inv(s)
    ensures s.active ==> Has(s.ring, s.current)
  {
  }

  lemma TickInv(s: Sched)
    requires Inv(s)
    ensures Inv(s.(ticks := s.ticks + 1))
  {
  }

  lemma InvEntered(s: Sched)
    requires Inv(s) && s.active
    ensures Entered(s)
  {
  }

  lemma BlockEntered(s: Sched, state: RunState, wakeTick: nat)
    requires Inv(s) && s.active && s.current != 0 && (state.Sleeping? || state.Zombie?)
    ensures Entered(SetCurrent(s, state, wakeTick))
  {
    var r := SetCurrent(s, state, wakeTick).ring;
    SameIds(s.ring, r);
    forall t | t in r
      ensures t.id <= s.nextId && (t.state.Running? ==> t.id == s.current)
    {
      var i :| 0 <= i < |r| && r[i] == t;
      assert s.ring[i] in s.ring;
    }
    assert Find(r, 0) == Find(s.ring, 0);
  }

  lemma AddInv(s: Sched, t: Thread)
    requires Inv(s)
    requires (t.id == s.nextId + 1 && t.state.Ready?) || (t.id == 0 && !s.active)
    ensures var r := Insert(s.ring, t);
      && Distinct(r) && Has(r, t.id) && Find(r, t.id) == t
      && (forall u :: u in r <==> u == t || u in s.ring)
      && (forall id :: Has(s.ring, id) ==> Has(r, id) && Find(r, id) == Find(s.ring, id))
  {
    InsertInv(s.ring, t);
    var r := Insert(s.ring, t);
    HasMember(r, t);
    forall id | Has(s.ring, id)
      ensures Has(r, id) && Find(r, id) == Find(s.ring, id)
    {
      HasMember(r, Find(s.ring, id));
    }
  }

  lemma CreateInv(s: Sched, context: Context)
    requires Inv(s)
    ensures Inv(Step(s, Create(context)))
  {
    AddInv(s, Thread(s.nextId + 1, Ready, 0, context));
  }

  lemma StartInv(s: Sched)
    requires Inv(s) && !s.active
    ensures Inv(Step(s, Start))
  {
    AddInv(s, Thread(0, Running, 0, Context(0, InitialFpu())));
  }

  // ---------- runs ----------

  /** Every entry of the run is one that can happen in the state it finds. */
  ghost predicate Feasible(s: Sched, es: seq<Event>)
    requires Inv(s)
    decreases es
  {
    es == [] ||
    (Enabled(s, es[0]) && (StepInv(s, es[0]); Feasible(Step(s, es[0]), es[1..])))
  }

  ghost function Run(s: Sched, es: seq<Event>): (r: Sched)
    requires Inv(s) && Feasible(s, es)
    ensures Inv(r)
    decreases es
  {
    if es == [] then s else
      StepInv(s, es[0]);
      Run(Step(s, es[0]), es[1..])
  }

  /** The state sched_init leaves: nothing on the ring, nothing running. */
  const BOOT := Sched(false, [], 0, 0, 0, 0)

  lemma BootStateInv()
    ensures Inv(BOOT)
  {
  }

  /** What the threads promise at every moment of every run from boot: ids are distinct, idle and
      `current` are on the ring and runnable, and nothing but `current` is Running. */
  lemma RunFromBoot(es: seq<Event>)
    requires Feasible(BOOT, es)
    ensures var r := Run(BOOT, es);
      r.active ==>
        && Distinct(r.ring) && Has(r.ring, 0) && Find(r.ring, 0).Runnable()
        && Has(r.ring, r.current) && Find(r.ring, r.current).Runnable()
        && forall t :: t in r.ring && t.state.Running? ==> t.id == r.current
  {
  }

  // ---------- reaping ----------

  /** One pass of reap_zombies, on any ring: it unlinks only zombies that are neither current nor `ring`,
      keeps the order of the rest, and unlinks at least one whenever there is one. It leaves
      another one behind exactly when it stopped early, at the node right behind `ring`. */
  lemma ReapPass(ring: seq<Thread>, current: nat)
    requires Distinct(ring)
    ensures forall t :: t in ring && t !in Reap(ring, current) ==>
      Reapable(t, current, ring[0].id)
    ensures forall t :: t in Reap(ring, current) ==> t in ring
    ensures (exists t :: t in ring && Reapable(t, current, ring[0].id)) ==>
      |Reap(ring, current)| < |ring|
    ensures (exists t :: t in Reap(ring, current) && Reapable(t, current, ring[0].id)) <==>
      (|ring| > 1 && Reapable(ring[1], current, ring[0].id)
       && exists i :: 1 < i < |ring| && Reapable(ring[i], current, ring[0].id))
  {
    var gone := ReapSet(ring, current);
    DropMembers(ring, gone);
    DropShorter(ring, gone);
    forall t | t in ring && t.id in gone
      ensures Reapable(t, current, ring[0].id)
    {
      HasMember(ring, t);
      var i :| 0 <= i < |ring| && ring[i].id == t.id && Reapable(ring[i], current, ring[0].id);
      HasMember(ring, ring[i]);
    }
    forall t | t in ring && Reapable(t, current, ring[0].id)
      ensures gone != {} && ((|ring| > 1 && Reapable(ring[1], current, ring[0].id)) || t.id in gone)
    {
      var i :| 0 <= i < |ring| && ring[i] == t;
      assert |ring| > 1 && Reapable(ring[1], current, ring[0].id) ==> ring[1].id in gone;
    }
    if t :| t in Reap(ring, current) && Reapable(t, current, ring[0].id) {
      var i :| 0 <= i < |ring| && ring[i] == t;
      assert i > 1;
    }
    if |ring| > 1 && Reapable(ring[1], current, ring[0].id)
       && exists i :: 1 < i < |ring| && Reapable(ring[i], current, ring[0].id) {
      var i :| 1 < i < |ring| && Reapable(ring[i], current, ring[0].id);
      assert ring[i].id !in gone;
      assert ring[i] in Reap(ring, current);
    }
  }

  lemma {:induction false} DropShorter(ts: seq<Thread>, gone: set<nat>)
    ensures |Drop(ts, gone)| <= |ts|
    ensures (exists t :: t in ts && t.id in gone) ==> |Drop(ts, gone)| < |ts|
  {
    if ts != [] {
      DropShorter(ts[1..], gone);
      if t :| t in ts && t.id in gone {
        if ts[0].id !in gone { assert t in ts[1..]; }
      }
    }
  }

  // ---------- what one call does to one thread ----------

  lemma SweptFind(s: Sched, id: nat)
    requires Entered(s)
    ensures Has(Swept(s), id) ==>
      Has(s.ring, id) && Find(Swept(s), id) == WakeOne(Find(s.ring, id), s.ticks)
    ensures Has(s.ring, id) && (!Find(s.ring, id).state.Zombie? || id == s.current) ==>
      Has(Swept(s), id)
  {
    hide Drop, ReapSet, Distinct;
    var woken := WakeAll(s.ring, s.ticks);
    SameIds(s.ring, woken);
    SameIds(woken, s.ring);
    var gone := ReapSet(woken, s.current);
    DropMembers(woken, gone);
    DropDistinct(woken, gone);
    DropHas(woken, gone, id);
    if Has(s.ring, id) {
      var i := Index(s.ring, id);
      assert woken[i] == WakeOne(s.ring[i], s.ticks) && woken[i] == Find(woken, id);
      if id !in gone { HasMember(Drop(woken, gone), woken[i]); }
      if !Find(s.ring, id).state.Zombie? || id == s.current { NotGone(woken, s.current, i); }
    }
  }

  /** What one call of sched_preempt does to thread `id`. */
  lemma PreemptThread(s: Sched, context: Context, id: nat)
    requires Entered(s)
    ensures var r := Preempt(s, context).0;
      && r == s.(ring := r.ring, current := r.current, sliceStart := r.sliceStart)
      && (Has(r.ring, id) ==> Has(s.ring, id))
      && (Has(r.ring, id) ==>
            var t := WakeOne(Find(s.ring, id), s.ticks);
            Find(r.ring, id) ==
              if r.current == s.current then t else SwitchOne(t, s.current, r.current, context))
      && (Has(s.ring, id) && (!Find(s.ring, id).state.Zombie? || id == s.current) ==> Has(r.ring, id))
  {
    hide Inv, Entered, Swept, Has, Find, Switch, Distinct, Choice, Preempt;
    SweptFind(s, id);
    PreemptIs(s, context);
    InvEnteredHas(s);
    var z, to := s.(ring := Swept(s)), Choice(s);
    if to != s.current {
      SwitchHas(z.ring, s.current, to, context, id);
    }
  }

  /** A switch replaces one thread at a time, in place. */
  lemma SwitchHas(ring: seq<Thread>, from: nat, to: nat, context: Context, id: nat)
    ensures var r := Switch(ring, from, to, context);
      && (Has(r, id) <==> Has(ring, id))
      && (Has(ring, id) ==> Find(r, id) == SwitchOne(Find(ring, id), from, to, context))
  {
    hide Has;
    var r := Switch(ring, from, to, context);
    SameIds(ring, r);
    SameIds(r, ring);
  }

  /** What context one call of sched_preempt resumes: the saved one of the thread it moves to,
      which is no zombie; or the one it was called with. */
  lemma PreemptResumes(s: Sched, context: Context)
    requires Entered(s)
    ensures var (r, resumed) := Preempt(s, context);
      && Has(s.ring, r.current) && WakeOne(Find(s.ring, r.current), s.ticks).Runnable()
      && resumed == if r.current == s.current then context else Find(s.ring, r.current).context
  {
    hide Inv, Entered;
    PreemptIs(s, context);
    InvEnteredHas(s);
    SweptFind(s, Choice(s));
  }

  /** A thread that has exited is never run again: whatever happens later, it is not current. */
  lemma {:induction false} DeadStaysDead(s: Sched, es: seq<Event>, id: nat)
    requires Inv(s) && s.active && Feasible(s, es) && Dead(s, id)
    ensures Dead(Run(s, es), id) && Run(s, es).current != id
    decreases es
  {
    if es != [] {
      StepInv(s, es[0]);
      StepDead(s, es[0], id);
      DeadStaysDead(Step(s, es[0]), es[1..], id);
    }
  }

  lemma StepDead(s: Sched, e: Event, id: nat)
    requires Inv(s) && Enabled(s, e) && Dead(s, id)
    ensures Dead(Step(s, e), id)
  {
    hide Inv, Entered;
    InvHas(s);
    if Preempts(s, e) {
      EntryInv(s, e);
      EntryFind(s, e, id);
      DeadPreempt(Entry(s, e), e.context, id);
    } else if e.Create? {
      CreateFind(s, e.context, id);
    }
  }

  lemma DeadPreempt(s: Sched, context: Context, id: nat)
    requires Entered(s) && id <= s.nextId
    requires Has(s.ring, id) ==> Find(s.ring, id).state.Zombie?
    ensures Dead(Preempt(s, context).0, id)
  {
    hide Inv, Entered;
    InvEnteredHas(s);
    PreemptThread(s, context, id);
    PreemptResumes(s, context);
  }

  /** Creating a thread adds it and changes nothing else. */
  lemma CreateFind(s: Sched, context: Context, id: nat)
    requires Inv(s)
    ensures var r := Step(s, Create(context));
      && (s.active ==> Has(r.ring, s.current))
      && Has(r.ring, s.nextId + 1) && !Has(s.ring, s.nextId + 1)
      && Find(r.ring, s.nextId + 1) == Thread(s.nextId + 1, Ready, 0, context)
      && (id != s.nextId + 1 ==> (Has(r.ring, id) <==> Has(s.ring, id)))
      && (Has(s.ring, id) ==> Find(r.ring, id) == Find(s.ring, id))
  {
    var t := Thread(s.nextId + 1, Ready, 0, context);
    AddInv(s, t);
    var r := Insert(s.ring, t);
    NotYet(s);
    hide Has, Insert;
    if Has(r, id) {
      assert Find(r, id) in r;
      if id != t.id { HasMember(s.ring, Find(r, id)); }
    }
  }

  lemma NotYet(s: Sched)
    requires Inv(s)
    ensures !Has(s.ring, s.nextId + 1) && (s.active ==> Has(s.ring, s.current))
  {
    assert forall i :: 0 <= i < |s.ring| ==> s.ring[i] in s.ring;
  }

  /** Entering changes the current thread at most. */
  lemma EntryFind(s: Sched, e: Event, id: nat)
    requires s.active && Has(s.ring, s.current) && Enabled(s, e) && Entering(e)
    ensures var z := Entry(s, e);
      && z.active && z.current == s.current && z.nextId == s.nextId
      && (Has(z.ring, id) <==> Has(s.ring, id))
      && (Has(s.ring, id) && id != s.current ==> Find(z.ring, id) == Find(s.ring, id))
      && (e.Exit? ==> Find(z.ring, s.current) == Find(s.ring, s.current).(state := Zombie))
      && (e.Sleep? ==>
            Find(z.ring, s.current) ==
              Find(s.ring, s.current).(state := Sleeping, wakeTick := WakeTime(s.ticks, e.ms)))
  {
    SameIds(s.ring, Entry(s, e).ring);
    SameIds(Entry(s, e).ring, s.ring);
  }

  ghost predicate Dead(s: Sched, id: nat) {
    s.active && id <= s.nextId && id != s.current
    && (Has(s.ring, id) ==> Find(s.ring, id).state.Zombie?)
  }

  /** thread_exit by the current thread makes it dead at once. */
  lemma ExitDies(s: Sched, context: Context)
    requires Inv(s) && Enabled(s, Exit(context))
    ensures Dead(Step(s, Exit(context)), s.current)
  {
    var e := Exit(context);
    assert Find(s.ring, s.current) in s.ring;
    hide Inv, Entered;
    EntryInv(s, e);
    EntryFind(s, e, s.current);
    DeadPreempt(Entry(s, e), context, s.current);
  }
}
