/** Bounded waiting: how long a ready thread can be passed over. */
module SchedulingWaiting {
  import opened Scheduling
  import opened SchedulingRuns

  // ---------- rotating and thinning a ring ----------

  lemma {:induction false} DropAppend(a: seq<Thread>, b: seq<Thread>, gone: set<nat>)
    ensures Drop(a + b, gone) == Drop(a, gone) + Drop(b, gone)
  {
    if a == [] {
      assert a + b == b;
    } else {
      DropAppend(a[1..], b, gone);
      assert (a + b)[0] == a[0] && (a + b)[1..] == a[1..] + b;
    }
  }

  lemma DropSingle(t: Thread, gone: set<nat>)
    ensures Drop([t], gone) == if t.id in gone then [] else [t]
  {
  }

  lemma IndexUnique(ts: seq<Thread>, i: nat, id: nat)
    requires i < |ts| && ts[i].id == id
    requires forall j :: 0 <= j < i ==> ts[j].id != id
    ensures Has(ts, id) && Index(ts, id) == i
  {
    var k := Index(ts, id);
    assert !(i < k) && !(k < i);
  }

  /** Reaping and walking the ring commute: the survivors keep their order. */
  lemma DropAfter(ts: seq<Thread>, gone: set<nat>, id: nat)
    requires Has(ts, id) && id !in gone
    ensures Has(Drop(ts, gone), id)
    ensures After(Drop(ts, gone), id) == Drop(After(ts, id), gone)
  {
    hide Drop, Has;
    DropHas(ts, gone, id);
    var c := Index(ts, id);
    DropSingle(ts[c], gone);
    var front, rest := ts[..c], ts[c + 1..];
    assert ts == front + ([ts[c]] + rest);
    DropAppend(front, [ts[c]] + rest, gone);
    DropAppend([ts[c]], rest, gone);
    var r := Drop(ts, gone);
    assert r == Drop(front, gone) + ([ts[c]] + Drop(rest, gone));
    var n := |Drop(front, gone)|;
    assert forall j :: 0 <= j < n ==> r[j] == Drop(front, gone)[j] && r[j].id != id by {
      DropMembers(front, gone);
      forall t | t in front
        ensures t.id != id
      {
        var j :| 0 <= j < c && ts[j] == t;
      }
    }
    assert r[n] == ts[c];
    IndexUnique(r, n, id);
    assert ts[..c + 1] == front + [ts[c]];
    DropAppend(rest, front + [ts[c]], gone);
    DropAppend(front, [ts[c]], gone);
    assert r[n + 1..] == Drop(rest, gone);
    assert r[..n + 1] == Drop(front, gone) + [ts[c]];
  }

  lemma {:induction false} DropIndex(ts: seq<Thread>, gone: set<nat>, id: nat)
    requires Has(ts, id) && id !in gone
    ensures Has(Drop(ts, gone), id) && Index(Drop(ts, gone), id) <= Index(ts, id)
  {
    DropHas(ts, gone, id);
    if ts[0].id != id {
      var i := Index(ts, id);
      assert ts[1..][i - 1].id == id;
      DropIndex(ts[1..], gone, id);
      var r := Drop(ts[1..], gone);
      if ts[0].id !in gone {
        assert Drop(ts, gone) == [ts[0]] + r;
        assert Drop(ts, gone)[1..] == r;
      } else {
        assert Drop(ts, gone) == r;
      }
    }
  }

  lemma Rotate(ts: seq<Thread>, id: nat, k: nat)
    requires Distinct(ts) && Has(ts, id) && k < |ts|
    ensures var order := After(ts, id);
      Has(ts, order[k].id) && After(ts, order[k].id) == order[k + 1..] + order[..k + 1]
  {
    var c := Index(ts, id);
    var order := After(ts, id);
    var i := if c + 1 + k < |ts| then c + 1 + k else c + 1 + k - |ts|;
    assert order[k] == ts[i];
    IndexIs(ts, i);
    RotateTwice(ts, c, k, i);
  }

  lemma RotateTwice<T>(ts: seq<T>, c: nat, k: nat, i: nat)
    requires c < |ts| && k < |ts| && i == (if c + 1 + k < |ts| then c + 1 + k else c + 1 + k - |ts|)
    ensures var order := ts[c + 1..] + ts[..c + 1];
      ts[i + 1..] + ts[..i + 1] == order[k + 1..] + order[..k + 1]
  {
    var order, n := ts[c + 1..] + ts[..c + 1], |ts|;
    var l, r := ts[i + 1..] + ts[..i + 1], order[k + 1..] + order[..k + 1];
    forall j | 0 <= j < n
      ensures l[j] == r[j]
    {
      var a := if i + 1 + j < n then i + 1 + j else i + 1 + j - n;
      var b := if k + 1 + j < n then k + 1 + j else k + 1 + j - n;
      assert l[j] == ts[a] && r[j] == order[b];
      assert order[b] == ts[if c + 1 + b < n then c + 1 + b else c + 1 + b - n];
    }
  }

  lemma SameAfter(ts: seq<Thread>, us: seq<Thread>, from: nat, id: nat)
    requires |ts| == |us| && forall i :: 0 <= i < |ts| ==> ts[i].id == us[i].id
    requires Has(ts, from) && Has(ts, id)
    ensures Has(us, from) && Has(us, id)
    ensures Has(After(ts, from), id) && Has(After(us, from), id)
    ensures Index(After(ts, from), id) == Index(After(us, from), id)
  {
    SameIds(ts, us);
    AfterHas(ts, from, id);
    var a, b := After(ts, from), After(us, from);
    assert forall i :: 0 <= i < |a| ==> a[i].id == b[i].id;
    SameIds(a, b);
  }

  lemma AfterHas(ts: seq<Thread>, from: nat, id: nat)
    requires Has(ts, from) && Has(ts, id)
    ensures Has(After(ts, from), id)
  {
    AfterMembers(ts, from);
    HasMember(After(ts, from), Find(ts, id));
  }

  // ---------- distance from the current thread ----------

  /** How many `next` links lead from the current thread to thread `id`. */
  function Distance(s: Sched, id: nat): (d: nat)
    requires Has(s.ring, s.current) && Has(s.ring, id)
    ensures 1 <= d <= |s.ring|
  {
    AfterHas(s.ring, s.current, id);
    Index(After(s.ring, s.current), id) + 1
  }

  /** Thread `id` is ready and waiting, and is not the idle thread. */
  ghost predicate Waiting(s: Sched, id: nat) {
    s.active && id != 0 && id != s.current && Has(s.ring, id) && Find(s.ring, id).state.Ready?
  }

  lemma SweptKeepsWaiting(s: Sched, id: nat)
    requires Entered(s) && Waiting(s, id)
    ensures Has(Swept(s), id) && Find(Swept(s), id) == Find(s.ring, id)
    ensures Has(After(Swept(s), s.current), id)
    ensures Index(After(Swept(s), s.current), id) < Distance(s, id)
  {
    var woken := WakeAll(s.ring, s.ticks);
    SameIds(s.ring, woken);
    var t := Find(woken, id);
    assert t == WakeOne(Find(s.ring, id), s.ticks);
    var gone := ReapSet(woken, s.current);
    NotGone(woken, s.current, Index(woken, id));
    NotGone(woken, s.current, Index(woken, s.current));
    SameAfter(s.ring, woken, s.current, id);
    DropAfter(woken, gone, s.current);
    DropIndex(After(woken, s.current), gone, id);
    DropDistinct(woken, gone);
    DropMembers(woken, gone);
    HasMember(Drop(woken, gone), t);
  }

  /** One call of sched_preempt while thread `id` waits: either it is dispatched, or it still
      waits and has come at least one link closer. */
  lemma PreemptCloser(s: Sched, context: Context, id: nat)
    requires Entered(s) && Waiting(s, id)
    ensures var r := Preempt(s, context).0;
      && r.sliceStart == s.ticks && r.ticks == s.ticks
      && (r.current == id || (Inv(r) && Waiting(r, id) && Distance(r, id) < Distance(s, id)))
  {
    hide Inv, Entered;
    PreemptInv(s, context);
    SweptEntered(s);
    SweptKeepsWaiting(s, id);
    Chosen(s);
    var ring := Swept(s);
    var order := After(ring, s.current);
    CloserOn(s, ring, order, context, id);
  }

  lemma CloserOn(s: Sched, ring: seq<Thread>, order: seq<Thread>, context: Context, id: nat)
    requires Has(ring, s.current) && order == After(ring, s.current)
    requires Distinct(ring) && Has(ring, id) && id != 0 && id != s.current
    requires Find(ring, id).state.Ready? && Has(order, id)
    ensures Pick(order) <= Index(order, id) < |order| - 1
    ensures var k := Pick(order);
      var r := s.(ring := Switch(ring, s.current, order[k].id, context),
                     current := order[k].id, sliceStart := s.ticks);
      && (order[k].id != id ==>
           && Has(r.ring, id) && Has(r.ring, r.current) && Find(r.ring, id).state.Ready?
           && Distance(r, id) == Index(order, id) - k)
  {
    PickBefore(ring, s.current, id);
    var k := Pick(order);
    var to := order[k].id;
    if to != id {
      RotateIndex(ring, s.current, k, id);
      var r := Switch(ring, s.current, to, context);
      SameAfter(ring, r, to, id);
      SameIds(ring, r);
      assert Find(r, id) == SwitchOne(Find(ring, id), s.current, to, context);
    }
  }

  lemma PickBefore(ring: seq<Thread>, current: nat, id: nat)
    requires Distinct(ring) && Has(ring, current) && Has(ring, id) && id != 0 && id != current
    requires Find(ring, id).state.Ready? && Has(After(ring, current), id)
    ensures var order := After(ring, current);
      Pick(order) <= Index(order, id) < |order| - 1
  {
    var order := After(ring, current);
    var i := Index(order, id);
    AfterMembers(ring, current);
    HasMember(ring, order[i]);
    assert order[i].id != order[|order| - 1].id;
    assert Pickable(order[i], false);
  }

  lemma RotateIndex(ring: seq<Thread>, current: nat, k: nat, id: nat)
    requires Distinct(ring) && Has(ring, current) && Has(After(ring, current), id)
    requires k < Index(After(ring, current), id)
    ensures var to := After(ring, current)[k].id;
      && Has(ring, to) && Has(After(ring, to), id)
      && Index(After(ring, to), id) == Index(After(ring, current), id) - k - 1
  {
    var order := After(ring, current);
    var i := Index(order, id);
    Rotate(ring, current, k);
    var rotated := After(ring, order[k].id);
    assert rotated[i - k - 1] == order[i];
    assert forall j :: 0 <= j < i - k - 1 ==> rotated[j] == order[k + 1 + j];
    IndexUnique(rotated, i - k - 1, id);
  }

  lemma CreateDistance(s: Sched, t: Thread, id: nat)
    requires Distinct(s.ring) && Has(s.ring, s.current) && Waiting(s, id)
    requires forall u :: u in s.ring ==> u.id != t.id
    ensures var r := s.(ring := Insert(s.ring, t));
      && Has(r.ring, s.current) && Waiting(r, id)
      && Distance(r, id) <= Distance(s, id) + 1
  {
    var ring := Insert(s.ring, t);
    InsertInv(s.ring, t);
    HasMember(ring, Find(s.ring, id));
    HasMember(ring, Find(s.ring, s.current));
    var gone := {t.id};
    DropInsert(s.ring, t);
    var order := After(ring, s.current);
    assert s.current != t.id by { assert Find(s.ring, s.current) in s.ring; }
    assert id != t.id by { assert Find(s.ring, id) in s.ring; }
    DropAfter(ring, gone, s.current);
    AfterHas(ring, s.current, id);
    AfterDistinct(ring, s.current);
    DropOne(order, t.id, id);
  }

  lemma DropNone(ts: seq<Thread>, gone: set<nat>)
    requires forall u :: u in ts ==> u.id !in gone
    ensures Drop(ts, gone) == ts
  {
    if ts != [] {
      assert forall u :: u in ts[1..] ==> u in ts;
      DropNone(ts[1..], gone);
    }
  }

  lemma DropInsert(ring: seq<Thread>, t: Thread)
    requires forall u :: u in ring ==> u.id != t.id
    ensures Drop(Insert(ring, t), {t.id}) == ring
  {
    if ring != [] {
      assert Insert(ring, t) == [ring[0]] + ([t] + ring[1..]);
      DropAppend([ring[0]], [t] + ring[1..], {t.id});
      DropAppend([t], ring[1..], {t.id});
      DropNone(ring[1..], {t.id});
      assert ring[0] in ring;
    }
  }

  lemma {:induction false} DropOne(ts: seq<Thread>, gone: nat, id: nat)
    requires Has(ts, id) && id != gone && Distinct(ts)
    ensures Has(Drop(ts, {gone}), id) && Index(ts, id) <= Index(Drop(ts, {gone}), id) + 1
  {
    DropHas(ts, {gone}, id);
    if ts[0].id != id {
      var i := Index(ts, id);
      assert ts[1..][i - 1].id == id;
      if ts[0].id == gone {
        assert forall u :: u in ts[1..] ==> u.id != gone;
        DropNone(ts[1..], {gone});
      } else {
        assert Distinct(ts[1..]);
        DropOne(ts[1..], gone, id);
        assert Drop(ts, {gone}) == [ts[0]] + Drop(ts[1..], {gone});
        assert Drop(ts, {gone})[1..] == Drop(ts[1..], {gone});
      }
    }
  }

  // ---------- bounded waiting ----------

  lemma EntryWaiting(s: Sched, e: Event, id: nat)
    requires Inv(s) && Enabled(s, e) && Entering(e) && Waiting(s, id)
    ensures var z := Entry(s, e);
      && Waiting(z, id) && Has(z.ring, z.current) && Distance(z, id) == Distance(s, id)
  {
    hide Inv, Entered, After;
    InvHas(s);
    EntryFind(s, e, id);
    EntryIds(s, e);
    SameAfter(s.ring, Entry(s, e).ring, s.current, id);
  }

  lemma EntryIds(s: Sched, e: Event)
    requires s.active ==> Has(s.ring, s.current)
    requires Enabled(s, e) && Entering(e)
    ensures var r := Entry(s, e).ring;
      |r| == |s.ring| && forall i :: 0 <= i < |r| ==> r[i].id == s.ring[i].id
  {
  }

  /** One entry while thread `id` waits: it is dispatched, or it goes on waiting, one link closer
      if sched_preempt ran and one link further off at most if a thread was created. */
  lemma StepCloser(s: Sched, e: Event, id: nat)
    requires Inv(s) && Enabled(s, e) && Waiting(s, id)
    ensures var r := Step(s, e);
      && Inv(r)
      && (Preempts(s, e) ==> r.sliceStart == r.ticks)
      && (!Preempts(s, e) ==> r.sliceStart == s.sliceStart)
      && (!Preempts(s, e) && e.Tick? ==> r.ticks - r.sliceStart < QUANTUM_TICKS)
      && r.ticks == s.ticks + (if e.Tick? then 1 else 0)
      && (r.current == id ||
          (Waiting(r, id) && Has(r.ring, r.current)
           && Distance(r, id) + (if Preempts(s, e) then 1 else 0)
              <= Distance(s, id) + (if e.Create? then 1 else 0)))
  {
    hide Inv, Entered;
    InvHas(s);
    StepInv(s, e);
    InvHas(Step(s, e));
    if Entering(e) {
      EntryInv(s, e);
      EntryWaiting(s, e, id);
      if Preempts(s, e) { PreemptCloser(Entry(s, e), e.context, id); }
    } else {
      CreateFind(s, e.context, id);
      CreateCloser(s, e.context, id);
    }
  }

  lemma CreateIs(s: Sched, context: Context)
    requires s.active ==> Has(s.ring, s.current)
    ensures Step(s, Create(context)) ==
      s.(ring := Insert(s.ring, Thread(s.nextId + 1, Ready, 0, context)), nextId := s.nextId + 1)
  {
  }

  lemma CreateCloser(s: Sched, context: Context, id: nat)
    requires Inv(s) && Waiting(s, id)
    ensures var r := Step(s, Create(context));
      Waiting(r, id) && Has(r.ring, r.current) && Distance(r, id) <= Distance(s, id) + 1
  {
    var t := Thread(s.nextId + 1, Ready, 0, context);
    CreateIs(s, context);
    hide Step;
    CreateDistance(s, t, id);
  }

  /** How often the run enters the body of sched_preempt. */
  ghost function Preemptions(s: Sched, es: seq<Event>): nat
    requires Inv(s) && Feasible(s, es)
    decreases es
  {
    if es == [] then 0
    else
      StepInv(s, es[0]);
      (if Preempts(s, es[0]) then 1 else 0) + Preemptions(Step(s, es[0]), es[1..])
  }

  function Ticks(es: seq<Event>): nat {
    if es == [] then 0 else (if es[0].Tick? then 1 else 0) + Ticks(es[1..])
  }

  function Creations(es: seq<Event>): nat {
    if es == [] then 0 else (if es[0].Create? then 1 else 0) + Creations(es[1..])
  }

  /** Thread `id` is the current one right after some entry of the run. */
  ghost predicate Dispatched(s: Sched, es: seq<Event>, id: nat)
    requires Inv(s) && Feasible(s, es)
    decreases es
  {
    es != [] && (StepInv(s, es[0]);
      Step(s, es[0]).current == id || Dispatched(Step(s, es[0]), es[1..], id))
  }

  /** Ticks since the last switch, as far as they can be held against the current thread. */
  function Lag(s: Sched): nat
    requires s.sliceStart <= s.ticks
  {
    var age := s.ticks - s.sliceStart;
    if age < QUANTUM_TICKS then age else QUANTUM_TICKS - 1
  }

  lemma WaitingHas(s: Sched, id: nat)
    requires Inv(s) && Waiting(s, id)
    ensures Has(s.ring, s.current) && Has(s.ring, id) && s.sliceStart <= s.ticks
  {
  }

  lemma {:induction false} WaitingRun(s: Sched, es: seq<Event>, id: nat)
    requires Inv(s) && Feasible(s, es) && Waiting(s, id) && !Dispatched(s, es, id)
    ensures Preemptions(s, es) < Distance(s, id) + Creations(es)
    ensures Ticks(es) + Lag(s) < QUANTUM_TICKS * (Distance(s, id) + Creations(es))
    decreases es
  {
    hide Inv, Waiting, Step, Distance, Preempts;
    WaitingHas(s, id);
    if es != [] {
      StepInv(s, es[0]);
      StepCloser(s, es[0], id);
      WaitingRun(Step(s, es[0]), es[1..], id);
    }
  }

  /** Bounded waiting: a ready thread other than idle is dispatched within as many calls of
      sched_preempt as its distance from the current thread, plus one for every thread created
      meanwhile; and within five times as many timer ticks. */
  lemma BoundedWaiting(s: Sched, es: seq<Event>, id: nat)
    requires Inv(s) && Feasible(s, es) && Waiting(s, id)
    requires Preemptions(s, es) >= Distance(s, id) + Creations(es)
          || Ticks(es) >= QUANTUM_TICKS * (Distance(s, id) + Creations(es))
    ensures Dispatched(s, es, id)
  {
    if !Dispatched(s, es, id) { WaitingRun(s, es, id); }
  }

  /** After a timer tick that leaves another ready thread waiting, the slice of the current
      thread is under five ticks old. */
  lemma SliceStaysYoung(s: Sched, context: Context, id: nat)
    requires Inv(s) && Waiting(Step(s, Tick(context)), id)
    ensures var r := Step(s, Tick(context)); r.ticks - r.sliceStart < QUANTUM_TICKS
  {
    hide Inv, Entered;
    var e := Tick(context);
    InvHas(s);
    EntryInv(s, e);
    if Preempts(s, e) {
      var z := Entry(s, e);
      InvEnteredHas(z);
      PreemptIs(z, context);
      if Choice(z) == z.current {
        var ring := Swept(z);
        InvEnteredHas(z.(ring := ring));
        AfterHas(ring, z.current, id);
        PickBefore(ring, z.current, id);
        AfterDistinct(ring, z.current);
        assert false;
      }
    }
  }

  // ---------- sleeping ----------

  ghost predicate Asleep(s: Sched, id: nat, wakeTick: nat) {
    s.active && Has(s.ring, id) && Find(s.ring, id).state.Sleeping?
    && Find(s.ring, id).wakeTick == wakeTick
  }

  lemma AsleepNotCurrent(s: Sched, id: nat, wakeTick: nat)
    requires Inv(s) && Asleep(s, id, wakeTick)
    ensures s.current != id
  {
  }

  lemma StepAsleep(s: Sched, e: Event, id: nat, wakeTick: nat)
    requires Inv(s) && Enabled(s, e) && Asleep(s, id, wakeTick)
    ensures Asleep(Step(s, e), id, wakeTick) || Step(s, e).ticks >= wakeTick
  {
    hide Inv, Entered;
    InvHas(s);
    AsleepNotCurrent(s, id, wakeTick);
    if Entering(e) {
      EntryInv(s, e);
      EntryFind(s, e, id);
      if Preempts(s, e) { PreemptAsleep(Entry(s, e), e.context, id, wakeTick); }
    } else {
      CreateFind(s, e.context, id);
    }
  }

  lemma PreemptAsleep(s: Sched, context: Context, id: nat, wakeTick: nat)
    requires Entered(s) && Asleep(s, id, wakeTick)
    ensures Asleep(Preempt(s, context).0, id, wakeTick) || s.ticks >= wakeTick
  {
    hide Inv, Entered;
    InvEnteredHas(s);
    PreemptThread(s, context, id);
    PreemptResumes(s, context);
  }

  lemma {:induction false} RunAsleep(s: Sched, es: seq<Event>, id: nat, wakeTick: nat)
    requires Inv(s) && Feasible(s, es)
    requires Asleep(s, id, wakeTick) || s.ticks >= wakeTick
    ensures Asleep(Run(s, es), id, wakeTick) || Run(s, es).ticks >= wakeTick
    decreases es
  {
    if es != [] {
      StepInv(s, es[0]);
      if s.ticks < wakeTick { StepAsleep(s, es[0], id, wakeTick); } else { TicksGrow(s, es[0]); }
      RunAsleep(Step(s, es[0]), es[1..], id, wakeTick);
    }
  }

  lemma TicksGrow(s: Sched, e: Event)
    requires Inv(s) && Enabled(s, e)
    ensures Step(s, e).ticks >= s.ticks
  {
  }

  /** No sleeper is dispatched before its wake tick: whenever the thread that called
      thread_sleep_ms is current again, the tick counter has reached the wake tick. That is
      `ms` ticks after the call if and only if the sum did not wrap; if it wrapped, the sleeper
      is not even asleep after the call. */
  lemma NoEarlyDispatch(s: Sched, ms: nat, context: Context, es: seq<Event>)
    requires Inv(s) && Enabled(s, Sleep(ms, context))
    requires Inv(Step(s, Sleep(ms, context))) && Feasible(Step(s, Sleep(ms, context)), es)
    requires Run(Step(s, Sleep(ms, context)), es).current == s.current
    ensures Run(Step(s, Sleep(ms, context)), es).ticks >= WakeTime(s.ticks, ms)
    ensures s.ticks + ms < WORD_LIMIT ==> WakeTime(s.ticks, ms) == s.ticks + ms
  {
    var e, id, wake := Sleep(ms, context), s.current, WakeTime(s.ticks, ms);
    WakeTimeIs(s.ticks, ms);
    hide Inv, Entered, WakeTime;
    SleepFalls(s, ms, context);
    RunAsleep(Step(s, e), es, id, wake);
    var r := Run(Step(s, e), es);
    if Asleep(r, id, wake) { AsleepNotCurrent(r, id, wake); }
  }

  lemma WakeTimeIs(ticks: nat, ms: nat)
    ensures ticks + ms < WORD_LIMIT ==> WakeTime(ticks, ms) == ticks + ms
    ensures ticks < WORD_LIMIT && WORD_LIMIT <= ticks + ms < WORD_LIMIT + WORD_LIMIT ==>
      WakeTime(ticks, ms) == ticks + ms - WORD_LIMIT
  {
  }

  lemma SleepFalls(s: Sched, ms: nat, context: Context)
    requires Inv(s) && Enabled(s, Sleep(ms, context))
    ensures var r, wake := Step(s, Sleep(ms, context)), WakeTime(s.ticks, ms);
      if wake <= s.ticks then Has(r.ring, s.current) && Find(r.ring, s.current).Runnable()
      else Asleep(r, s.current, wake)
  {
    hide Inv, Entered, Preempt;
    var e := Sleep(ms, context);
    InvHas(s);
    EntryInv(s, e);
    EntryFind(s, e, s.current);
    var z := Entry(s, e);
    PreemptThread(z, context, s.current);
    PreemptResumes(z, context);
  }

  /** The wrap-around case of thread_sleep_ms: the thread stays runnable. */
  lemma WrappedSleepReturns(s: Sched, ms: nat, context: Context)
    requires Inv(s) && Enabled(s, Sleep(ms, context))
    requires s.ticks < WORD_LIMIT && ms < WORD_LIMIT && s.ticks + ms >= WORD_LIMIT
    ensures var r := Step(s, Sleep(ms, context));
      Has(r.ring, s.current) && Find(r.ring, s.current).Runnable()
  {
    WakeTimeIs(s.ticks, ms);
    hide Inv, Entered, WakeTime;
    SleepFalls(s, ms, context);
  }

  /** Idle and one running thread, one tick after boot. */
  function TwoThreads(): Sched {
    Sched(true, [Thread(1, Running, 0, Context(0, InitialFpu())), Thread(0, Ready, 0, Context(0, InitialFpu()))],
          1, 1, 0, 1)
  }

  /** There, a sleep of 2^64 - 1 ticks does not put the thread to sleep. */
  lemma LongestSleepReturns(context: Context)
    ensures var s := TwoThreads();
      && Inv(s) && Enabled(s, Sleep(WORD_LIMIT - 1, context)) && WakeTime(s.ticks, WORD_LIMIT - 1) == 0
      && var r := Step(s, Sleep(WORD_LIMIT - 1, context));
      && Has(r.ring, 1) && Find(r.ring, 1).Runnable()
  {
    var s := TwoThreads();
    TwoThreadsInv();
    WakeTimeIs(1, WORD_LIMIT - 1);
    hide Inv, WakeTime;
    WrappedSleepReturns(s, WORD_LIMIT - 1, context);
  }

  lemma TwoThreadsInv()
    ensures Inv(TwoThreads())
  {
    var ring := TwoThreads().ring;
    IndexIs(ring, 0);
    IndexIs(ring, 1);
  }
}
