/** kernel/src/sched.c and the interrupt stubs as they work: linked thread nodes and processor
    state updated in place. Every method is proved to compute the functions of Scheduling.dfy and
    Machine.dfy, to which the theorems about whole runs apply. */
module Kernel {
  import opened Scheduling
  import opened SchedulingRuns
  import opened SchedulingWaiting
  import opened Machine
  import opened MachineRuns

  /** The machine goes from `y` to `z` by activity `a`. */
  ghost predicate Performs(y: System, a: Activity, z: System) {
    && (y.sched.active ==> Has(y.sched.ring, y.sched.current))
    && (IsInterrupt(a) ==> Align16(y.cpu.rsp) >= FRAME_BYTES)
    && (!a.Compute? ==> Enabled(y.sched, EventOf(y, a)))
    && z == Act(y, a)
  }

  class Node {
    var id: nat
    var state: RunState
    var wakeTick: nat
    var rsp: nat
    var fpu: FpuImage
    var next: Node?

    constructor (id: nat, state: RunState, rsp: nat)
      ensures this.id == id && this.state == state && wakeTick == 0 && this.rsp == rsp
      ensures fpu == InitialFpu()
    {
      this.id, this.state, wakeTick, this.rsp := id, state, 0, rsp;
      fpu, next := InitialFpu(), null;
    }

    function View(): Thread
      reads `id, `state, `wakeTick, `rsp, `fpu
    {
      Thread(id, state, wakeTick, Context(rsp, fpu))
    }
  }

  function Views(ns: seq<Node>): (ts: seq<Thread>)
    reads ns`id, ns`state, ns`wakeTick, ns`rsp, ns`fpu
    ensures |ts| == |ns| && forall i :: 0 <= i < |ns| ==> ts[i] == ns[i].View()
  {
    if ns == [] then [] else [ns[0].View()] + Views(ns[1..])
  }

  ghost predicate Unique(ns: seq<Node>) {
    forall i, j :: 0 <= i < j < |ns| ==> ns[i] != ns[j]
  }

  /** Following `next` from each node leads to the one after it, and from the last to the first. */
  ghost predicate Cycle(ns: seq<Node>)
    reads ns`next
  {
    && Unique(ns)
    && forall i :: 0 <= i < |ns| ==> ns[i].next == ns[if i + 1 < |ns| then i + 1 else 0]
  }

  lemma RotateCycle(ns: seq<Node>, c: nat)
    requires Cycle(ns) && c <= |ns|
    ensures Cycle(ns[c..] + ns[..c])
  {
    var r, n := ns[c..] + ns[..c], |ns|;
    forall i | 0 <= i < n
      ensures r[i].next == r[if i + 1 < n then i + 1 else 0]
    {
      var a := if c + i < n then c + i else c + i - n;
      assert r[i] == ns[a];
    }
  }

  /** The first loop of sched_preempt, once around the ring from `start`. */
  method WakeSleepers(start: Node, ghost order: seq<Node>, now: nat)
    requires Cycle(order) && order != [] && start == order[0]
    modifies order`state
    ensures Views(order) == WakeAll(old(Views(order)), now)
  {
    hide Views, WakeAll;
    var t := start;
    ghost var k := 0;
    while true
      invariant k < |order| && t == order[k]
      invariant forall i :: 0 <= i < k ==> order[i].View() == WakeOne(old(order[i].View()), now)
      invariant forall i :: k <= i < |order| ==> order[i].View() == old(order[i].View())
      decreases |order| - k
    {
      if t.state.Sleeping? && now >= t.wakeTick {
        t.state := Ready;
      }
      t := t.next;
      k := k + 1;
      assert k < |order| ==> t == order[k] && order[0] != order[k];
      if t == start { break; }
    }
  }

  lemma CycleEnds(order: seq<Node>)
    requires Cycle(order) && order != []
    ensures order[|order| - 1].next == order[0]
  {
  }

  /** `for (t = current->next;; t = t->next)`: up to and including the last node. */
  method FindPickable(start: Node, last: Node, ghost order: seq<Node>, idleToo: bool)
    returns (next: Node?, ghost k: nat)
    requires Cycle(order) && order != [] && start == order[0] && last == order[|order| - 1]
    ensures k == First(Views(order), idleToo)
    ensures next == null <==> k == |order|
    ensures next != null ==> next == order[k]
  {
    hide Views, First;
    k := 0;
    var t := start;
    next := null;
    while true
      invariant k < |order| && t == order[k] && next == null
      invariant forall i :: 0 <= i < k ==> !Pickable(order[i].View(), idleToo)
      decreases |order| - k
    {
      if (t.state.Ready? || t.state.Running?) && (idleToo || t.id != 0) {
        next := t;
        break;
      }
      if t == last {
        assert k == |order| - 1;
        k := |order|;
        break;
      }
      t := t.next;
      k := k + 1;
    }
    FirstIs(Views(order), k, idleToo);
  }

  lemma ViewsRotate(ns: seq<Node>, c: nat)
    requires c <= |ns|
    ensures Views(ns[c..] + ns[..c]) == Views(ns)[c..] + Views(ns)[..c]
  {
    hide Views;
    var ts, us := Views(ns), Views(ns[c..] + ns[..c]);
    forall i | 0 <= i < |ns|
      ensures us[i] == (ts[c..] + ts[..c])[i]
    {
      var a := if c + i < |ns| then c + i else c + i - |ns|;
      assert (ns[c..] + ns[..c])[i] == ns[a] && (ts[c..] + ts[..c])[i] == ts[a];
    }
  }

  /** What holds once around from `current` holds from `ring`. */
  lemma Unrotate(ts: seq<Thread>, us: seq<Thread>, c: nat, now: nat)
    requires c <= |ts| == |us|
    requires us[c..] + us[..c] == WakeAll(ts[c..] + ts[..c], now)
    ensures us == WakeAll(ts, now)
  {
    forall i | 0 <= i < |ts|
      ensures us[i] == WakeOne(ts[i], now)
    {
      var k := if i >= c then i - c else |ts| - c + i;
      assert us[i] == (us[c..] + us[..c])[k] && ts[i] == (ts[c..] + ts[..c])[k];
    }
  }

  /** The list without the node after position i. */
  lemma ViewsCut(ns: seq<Node>, i: nat)
    requires i + 1 < |ns|
    ensures Views(ns[..i + 1] + ns[i + 2..]) == Views(ns)[..i + 1] + Views(ns)[i + 2..]
  {
    hide Views, Node.View;
    var cut := ns[..i + 1] + ns[i + 2..];
    var l, ts := Views(cut), Views(ns);
    var r := ts[..i + 1] + ts[i + 2..];
    assert |l| == |cut| == |r|;
    forall k | 0 <= k < |cut|
      ensures l[k] == r[k]
    {
      var m := if k <= i then k else k + 1;
      assert cut[k] == ns[m];
      assert l[k] == ns[m].View() == ts[m];
      assert r[k] == ts[m];
    }
  }

  /** The nodes without the one after position i. */
  function CutAt(ns: seq<Node>, i: nat): (r: seq<Node>)
    requires i + 1 < |ns|
    ensures |r| == |ns| - 1 && r == ns[..i + 1] + ns[i + 2..]
  {
    ns[..i + 1] + ns[i + 2..]
  }

  lemma CutNodes(ns: seq<Node>, i: nat)
    requires i + 1 < |ns| && Unique(ns)
    ensures var r := CutAt(ns, i);
      && (forall k :: 0 <= k < |r| ==> r[k] == ns[if k <= i then k else k + 1])
      && Unique(r) && forall t :: t in r <==> t in ns && t != ns[i + 1]
  {
    var r := CutAt(ns, i);
    forall t | t in ns && t != ns[i + 1]
      ensures t in r
    {
      var c :| 0 <= c < |ns| && ns[c] == t;
      assert r[if c <= i then c else c - 1] == t;
    }
  }

  class Scheduler {
    var ring: Node?
    var current: Node?
    var active: bool
    var nextId: nat
    var sliceStart: nat
    var ticks: nat
    var mem: Memory
    var cpu: Registers
    var fpu: FpuImage

    /** The nodes in `next` order, starting at `ring`. */
    ghost var nodes: seq<Node>

    ghost predicate Linked()
      reads `nodes, `ring, `active, `current, nodes`next
    {
      && Cycle(nodes)
      && ring == (if nodes == [] then null else nodes[0])
      && (active <==> current != null)
      && (current != null ==> current in nodes)
    }

    /** Linked, and the ids tell the nodes apart. */
    ghost predicate Valid()
      reads this, nodes
    {
      Linked() && Distinct(Views(nodes))
    }

    /** The abstract scheduler state. */
    ghost function Abs(): Sched
      reads this, nodes, current
    {
      Sched(active, Views(nodes), if current == null then 0 else current.id, nextId, sliceStart, ticks)
    }

    /** The abstract machine state, given who owns which stack. */
    ghost function Whole(stacks: map<nat, Region>): System
      reads this, nodes, current
    {
      System(Abs(), mem, cpu, fpu, stacks)
    }

    /** sched_init, on a processor whose state is given: nothing on the ring, nothing running. */
    constructor (mem: Memory, cpu: Registers, fpu: FpuImage)
      ensures Linked() && Valid() && Abs() == BOOT && Whole(map[]) == System(BOOT, mem, cpu, fpu, map[])
      ensures SystemInv(Whole(map[]))
    {
      this.mem, this.cpu, this.fpu := mem, cpu, fpu;
      ring, current, active := null, null, false;
      nextId, sliceStart, ticks := 0, 0, 0;
      nodes := [];
      new;
      BootStateInv();
    }

    lemma NodeIndex(t: Node)
      requires Valid() && t in nodes
      ensures Has(Views(nodes), t.id)
      ensures nodes[Index(Views(nodes), t.id)] == t
    {
      var i :| 0 <= i < |nodes| && nodes[i] == t;
      IndexIs(Views(nodes), i);
    }

    // ---------- sched_preempt ----------

    method WakeAllSleepers(now: nat)
      requires Valid() && current != null
      modifies nodes`state
      ensures Linked()
      ensures Views(nodes) == WakeAll(old(Views(nodes)), now)
    {
      NodeIndex(current);
      ghost var ts := Views(nodes);
      ghost var c := Index(ts, current.id);
      RotateCycle(nodes, c);
      ghost var order := nodes[c..] + nodes[..c];
      ViewsRotate(nodes, c);
      WakeSleepers(current, order, now);
      ViewsRotate(nodes, c);
      Unrotate(ts, Views(nodes), c, now);
    }

    /** `p->next = n->next`, where p is the node at position i and n the one after it. */
    method Unlink(p: Node, ghost i: nat)
      requires Linked() && i + 1 < |nodes| && nodes[i] == p && nodes[i + 1] != current
      modifies `nodes, p`next
      ensures Linked() && nodes == old(nodes)[..i + 1] + old(nodes)[i + 2..]
      ensures forall t :: t in nodes ==> t in old(nodes)
    {
      ghost var was := nodes;
      assert p.next == nodes[i + 1];
      var n: Node := p.next;
      CutNodes(was, i);
      assert n.next == was[if i + 2 < |was| then i + 2 else 0];
      p.next := n.next;
      nodes := CutAt(was, i);
      hide CutAt;
      assert forall k :: 0 <= k < |nodes| && k != i ==> nodes[k].next == was[if k < i then k else k + 1].next;
    }

    /** reap_zombies: unlinks in place while following `next` once around. */
    method ReapZombies()
      requires Valid() && current != null
      modifies `nodes, nodes`next
      ensures Linked() && forall t :: t in nodes ==> t in old(nodes)
      ensures Views(nodes) == Reap(old(Views(nodes)), current.id)
    {
      hide Sweep, Linked, Valid, Views, Reap;
      RingHead();
      ghost var was, ts := nodes, Views(nodes);
      var p: Node := ring;
      ghost var i: nat, j: nat := 0, 1;
      SweepStarts(ts, current.id);
      while true
        invariant i < |nodes| && nodes[i] == p && Linked() && nodes[0] == ring == was[0]
        invariant forall t :: t in nodes ==> t in was
        invariant Sweep(ts, current.id, Views(nodes), i, j)
        decreases |ts| - j
      {
        var done: bool;
        assert p in nodes && p in was;
        p, done, i, j := ReapStep(p, was, i, j);
        if done { break; }
      }
    }

    /** The body of the loop in reap_zombies; `done` is its exit condition. */
    method ReapStep(p: Node, ghost was: seq<Node>, ghost i: nat, ghost j: nat)
      returns (q: Node, done: bool, ghost i': nat, ghost j': nat)
      requires i < |nodes| && nodes[i] == p && Linked() && current != null && was != []
      requires nodes[0] == ring == was[0] && Distinct(Views(was))
      requires forall t :: t in nodes ==> t in was
      requires Sweep(Views(was), current.id, Views(nodes), i, j)
      modifies `nodes, p`next
      ensures Linked() && forall t :: t in nodes ==> t in was
      ensures done ==> Views(nodes) == Reap(Views(was), current.id)
      ensures !done ==>
        && i' < |nodes| && nodes[i'] == q && nodes[0] == ring && j < j' <= |was|
        && Sweep(Views(was), current.id, Views(nodes), i', j')
    {
      hide Sweep, Linked, Views, Reap;
      ghost var ts, vs := Views(was), Views(nodes);
      NextNode(i);
      var n: Node := p.next;
      i', j' := i, j;
      if i + 1 < |nodes| { SweepStep(ts, current.id, vs, i, j); }
      if n.state.Zombie? && n != current && n != ring {
        NotCurrent(n, was);
        ViewsCut(nodes, i);
        Unlink(p, i);
        assert Views(nodes) == vs[..i + 1] + vs[i + 2..];
        j' := j + 1;
        q := p;
      } else {
        IsCurrent(n);
        q := p.next;
        if i + 1 < |nodes| { i', j' := i + 1, j + 1; }
        else { SweepDone(ts, current.id, vs, i, j); i' := 0; }
      }
      HeadOnly(i');
      done := q == ring;
    }

    lemma RingHead()
      requires Valid() && current != null
      ensures Linked() && nodes != [] && ring == nodes[0] && Distinct(Views(nodes))
    {
    }

    lemma NextNode(i: nat)
      requires Linked() && i < |nodes|
      ensures nodes[i].next == nodes[if i + 1 < |nodes| then i + 1 else 0]
    {
    }

    lemma HeadOnly(i: nat)
      requires Linked() && i < |nodes|
      ensures nodes[i] == ring <==> i == 0
    {
    }

    lemma IsCurrent(n: Node)
      requires Linked() && n in nodes && current != null
      ensures n == current ==> n.id == current.id
    {
    }

    lemma NotCurrent(n: Node, was: seq<Node>)
      requires Linked() && Distinct(Views(was)) && (forall t :: t in nodes ==> t in was)
      requires n in nodes && current != null && n != current && n != ring
      ensures n.id != current.id && n.id != ring.id
    {
      var a :| 0 <= a < |was| && was[a] == n;
      var b :| 0 <= b < |was| && was[b] == current;
      assert nodes[0] in nodes;
      var c :| 0 <= c < |was| && was[c] == ring;
      IndexIs(Views(was), a);
      IndexIs(Views(was), b);
      IndexIs(Views(was), c);
    }

    /** The ring as it is met behind `current`, as nodes and as views. */
    lemma OrderBehind(c: nat)
      requires Valid() && current != null && c < |nodes| && nodes[c] == current
      ensures Has(Views(nodes), current.id)
      ensures var order := nodes[c + 1..] + nodes[..c + 1];
        && Cycle(order) && order[|order| - 1] == current
        && Views(order) == After(Views(nodes), current.id)
    {
      hide Views, Cycle;
      NodeIndex(current);
      IndexIs(Views(nodes), c);
      ViewsRotate(nodes, c + 1);
      assert Cycle(nodes) by { LinkedCycle(); }
      RotateCycle(nodes, c + 1);
    }

    lemma LinkedCycle()
      requires Linked()
      ensures Cycle(nodes)
    {
    }

    /** Either of the two loops that look for the next thread. */
    method Scan(idleToo: bool) returns (next: Node?)
      requires Valid() && current != null
      ensures Has(Views(nodes), current.id)
      ensures var order := After(Views(nodes), current.id);
        var k := First(order, idleToo);
        && (next == null <==> k == |order|)
        && (next != null ==> next in nodes && next.View() == order[k])
    {
      hide Views, Valid, First, Has, Linked, Cycle, After;
      ghost var c := CurrentAt();
      OrderBehind(c);
      ghost var order := nodes[c + 1..] + nodes[..c + 1];
      CycleEnds(order);
      ghost var k;
      next, k := FindPickable(current.next, current, order, idleToo);
    }

    ghost method CurrentAt() returns (c: nat)
      requires Valid() && current != null
      ensures c < |nodes| && nodes[c] == current
    {
      c :| 0 <= c < |nodes| && nodes[c] == current;
    }

    /** The context switch at the end of sched_preempt. */
    method SwitchTo(next: Node, rsp: nat, now: nat)
      requires Valid() && current != null && next in nodes && next != current
      modifies `current, `sliceStart, `fpu, current`rsp, current`state, current`fpu, next`state
      ensures Linked() && current == next
      ensures Views(nodes)
           == Switch(old(Views(nodes)), old(current.id), next.id, Context(rsp, old(fpu)))
      ensures old(current.id) != next.id
      ensures next.id == old(next.id) && fpu == old(next.fpu) && sliceStart == now
      ensures current.rsp == old(next.rsp)
    {
      hide Views, Linked, Valid, Cycle;
      NotSame(next);
      LinkedParts();
      ghost var ts, from, to, saved := Views(nodes), current.id, next.id, Context(rsp, fpu);
      current.rsp := rsp;
      current.state := if current.state.Running? then Ready else current.state;
      current.fpu := fpu;
      current := next;
      current.state := Running;
      fpu := current.fpu;
      sliceStart := now;
      LinkedIf();
      assert Views(nodes) == Switch(ts, from, to, saved) by {
        forall i | 0 <= i < |nodes|
          ensures nodes[i].View() == SwitchOne(ts[i], from, to, saved)
        {
        }
      }
    }

    /** The first half of sched_preempt: wake sleepers, reap zombies. */
    method WakeAndReap()
      requires Linked() && active && Entered(Abs())
      modifies `nodes, nodes`state, nodes`next
      ensures Valid() && forall t :: t in nodes ==> t in old(nodes)
      ensures Has(old(Abs()).ring, old(Abs()).current)
      ensures Abs() == old(Abs()).(ring := Swept(old(Abs())))
    {
      ghost var s := Abs();
      hide Inv, Entered, Views, Linked, Valid, Reap, WakeAll;
      ActiveHasCurrent();
      EnteredValid();
      WakeAllSleepers(ticks);
      WokenValid(s);
      ReapZombies();
      assert Views(nodes) == Swept(s);
      SweptValid(s);
    }

    lemma WokenValid(s: Sched)
      requires Linked() && Entered(s) && Views(nodes) == WakeAll(s.ring, s.ticks)
      ensures Valid()
    {
      hide Entered, Views, Linked;
      InvEnteredHas(s);
      SameIds(s.ring, Views(nodes));
    }

    lemma SweptValid(s: Sched)
      requires Linked() && Entered(s) && Views(nodes) == Swept(s)
      ensures Valid()
    {
      hide Entered, Views, Linked, Swept;
      SweptEntered(s);
      InvEnteredHas(s.(ring := Swept(s)));
    }

    /** The second half: the next thread to run. */
    method Choose() returns (next: Node?)
      requires Valid() && current != null
      ensures Has(Views(nodes), current.id)
      ensures var order := After(Views(nodes), current.id);
        var k := Pick(order);
        && (next == null <==> k == |order|)
        && (next != null ==> next in nodes && next.View() == order[k])
    {
      hide Valid, Linked, Views, After, First, Has;
      next := Scan(false);
      if next == null {
        next := Scan(true);
      }
    }

    /** sched_preempt: returns the stack pointer to resume with; the FPU registers hold the image
        to resume with. */
    method SchedPreempt(rsp: nat) returns (r: nat)
      requires Linked() && (active ==> Entered(Abs()))
      modifies `nodes, `current, `sliceStart, `fpu
      modifies nodes`rsp, nodes`state, nodes`fpu, nodes`next
      ensures Linked()
      ensures old(active ==> Has(Views(nodes), current.id))
      ensures (Abs(), Context(r, fpu)) == Preempt(old(Abs()), Context(rsp, old(fpu)))
    {
      hide Inv, Entered, Views, Linked, Valid, After, Swept, Pick, Switch, Has;
      ActiveHasCurrent();
      if !active || current == null {
        return rsp;
      }
      ghost var s, ns := Abs(), nodes;
      WakeAndReap();
      var next := Choose();
      ghost var ring := Views(nodes);
      ChosenIsCurrent(Abs(), next);
      if next == null || next == current {
        return rsp;
      }
      assert next in ns && current in ns;
      SwitchTo(next, rsp, ticks);
      r := current.rsp;
    }

    /** The position of the choice tells whether it is the current thread. */
    lemma ChosenIsCurrent(s: Sched, next: Node?)
      requires Valid() && current != null && Abs() == s && Has(s.ring, s.current)
      requires var order := After(s.ring, s.current);
        var k := Pick(order);
        && (next == null <==> k == |order|)
        && (next != null ==> next in nodes && next.View() == order[k])
      ensures next == null || next == current <==>
        Pick(After(s.ring, s.current)) >= |After(s.ring, s.current)| - 1
      ensures current in nodes && Linked()
    {
      var order := After(s.ring, s.current);
      var k := Pick(order);
      AfterDistinct(s.ring, s.current);
      NodeIndex(current);
      if next != null { NodeIndex(next); }
    }

    lemma ActiveHasCurrent()
      requires Linked()
      ensures active <==> current != null
    {
    }

    lemma EnteredValid()
      requires Linked() && active && Entered(Abs())
      ensures Valid() && Has(Views(nodes), current.id)
    {
    }

    lemma LinkedParts()
      requires Valid()
      ensures Cycle(nodes) && ring == (if nodes == [] then null else nodes[0])
      ensures active <==> current != null
    {
    }

    lemma LinkedIf()
      requires Cycle(nodes) && ring == (if nodes == [] then null else nodes[0])
      requires active && current != null && current in nodes
      ensures Linked()
    {
    }

    lemma NotSame(next: Node)
      requires Valid() && current != null && next in nodes && next != current
      ensures forall i :: 0 <= i < |nodes| ==>
        && (nodes[i].id == current.id ==> nodes[i] == current)
        && (nodes[i].id == next.id ==> nodes[i] == next)
    {
      NodeIndex(next);
      NodeIndex(current);
      forall i | 0 <= i < |nodes|
        ensures nodes[i].id == current.id ==> nodes[i] == current
        ensures nodes[i].id == next.id ==> nodes[i] == next
      {
        NodeIndex(nodes[i]);
      }
    }

    // ---------- creating threads ----------

    /** ring_insert: behind the node `ring`, which stays where it is. */
    method RingInsert(t: Node)
      requires Linked() && t !in nodes
      modifies `ring, `nodes, t`next, nodes`next
      ensures Linked()
      ensures nodes == if old(nodes) == [] then [t] else [old(nodes)[0], t] + old(nodes)[1..]
    {
      ghost var was := nodes;
      if ring == null {
        ring := t;
        t.next := t;
        nodes := [t];
      } else {
        assert ring.next == was[if |was| > 1 then 1 else 0];
        t.next := ring.next;
        ring.next := t;
        nodes := [was[0], t] + was[1..];
        assert forall k :: 0 <= k < |nodes| ==>
          nodes[k] == if k == 0 then was[0] else if k == 1 then t else was[k - 1];
        if current != null {
          ghost var c :| 0 <= c < |was| && was[c] == current;
          assert nodes[if c == 0 then 0 else c + 1] == current;
        }
      }
    }

    lemma InsertViews(was: seq<Node>, t: Node)
      ensures Views(if was == [] then [t] else [was[0], t] + was[1..]) == Insert(Views(was), t.View())
    {
      hide Views;
      if was != [] {
        assert Views([was[0], t] + was[1..]) == [was[0].View(), t.View()] + Views(was)[1..];
      } else {
        assert Views([t]) == [t.View()] && Views(was) == [];
      }
    }

    /** `*--sp = v` */
    method Push(sp: nat, v: Word, ghost base: Memory, ghost top: nat, ghost vs: seq<Word>)
      returns (sp': nat, ghost vs': seq<Word>)
      requires top >= 8 * (|vs| + 1) && sp == top - 8 * |vs| && mem == PushAll(base, top, vs)
      modifies `mem
      ensures sp' == sp - 8 && vs' == vs + [v] && mem == PushAll(base, top, vs')
    {
      sp' := sp - 8;
      mem := mem[sp' := v];
      vs' := vs + [v];
      PushAllSnoc(base, top, vs, v);
    }

    method PushFive(sp: nat, a: Word, b: Word, c: Word, d: Word, e: Word,
                    ghost base: Memory, ghost top: nat, ghost vs: seq<Word>)
      returns (sp': nat, ghost vs': seq<Word>)
      requires top >= 8 * (|vs| + 5) && sp == top - 8 * |vs| && mem == PushAll(base, top, vs)
      modifies `mem
      ensures sp' == sp - 40 && vs' == vs + [a, b, c, d, e] && mem == PushAll(base, top, vs')
    {
      hide PushAll;
      sp', vs' := Push(sp, a, base, top, vs);
      sp', vs' := Push(sp', b, base, top, vs');
      sp', vs' := Push(sp', c, base, top, vs');
      sp', vs' := Push(sp', d, base, top, vs');
      sp', vs' := Push(sp', e, base, top, vs');
    }

    /** The frame thread_create builds at the top of a new stack. */
    method BuildFrame(top: nat, trampoline: Word, fn: Word, arg: Word) returns (sp: nat)
      requires top >= FRAME_BYTES
      modifies `mem
      ensures sp == top - FRAME_BYTES
      ensures mem == StoreFrame(old(mem), top, FirstRegisters(trampoline, fn, arg, top))
    {
      hide PushAll;
      ghost var base, vs := mem, [];
      sp := top;
      PushNone(mem, top);
      sp, vs := PushFive(sp, GDT_KERNEL_SS, top - 8, 0x202, GDT_KERNEL_CS, trampoline, base, top, vs);
      sp, vs := PushFive(sp, 0, 0, 0, 0, 0, base, top, vs);
      sp, vs := Push(sp, fn, base, top, vs);
      sp, vs := Push(sp, arg, base, top, vs);
      ghost var front := vs;
      for i := 0 to 8
        invariant |front| == 12 && |vs| == 12 + i && sp == top - 8 * |vs| && vs[..12] == front
        invariant mem == PushAll(base, top, vs)
        invariant forall k :: 12 <= k < |vs| ==> vs[k] == 0
      {
        sp, vs := Push(sp, 0, base, top, vs);
      }
      assert vs == FrameWords(FirstRegisters(trampoline, fn, arg, top));
    }

    lemma PushNone(m: Memory, top: nat)
      ensures PushAll(m, top, []) == m
    {
    }

    /** thread_create. `node` says whether the allocation of the Thread succeeds, `stack` is the
        result of allocating its stack, if that succeeds. */
    method ThreadCreate(trampoline: Word, fn: Word, arg: Word, node: bool, stack: nat, stackOk: bool,
                        ghost stacks: map<nat, Region>)
      returns (id: int)
      requires Linked() && Inv(Abs())
      modifies `ring, `nodes, `nextId, `mem, nodes`next
      ensures Linked()
      ensures id == if node && stackOk then nextId else -1
      ensures !(node && stackOk) ==> Abs() == old(Abs()) && mem == old(mem)
      ensures old(Abs().active ==> Has(Abs().ring, Abs().current))
      ensures node && stackOk ==>
        Performs(old(Whole(stacks)), Spawn(trampoline, fn, arg, stack),
                 Whole(stacks[nextId := Region(stack, stack + STACK_SIZE)]))
    {
      hide Inv, Views, Linked, Has, StoreFrame, Step;
      ActiveHasCurrentNow();
      if !node {
        return -1;
      }
      if !stackOk {
        return -1;
      }
      FirstFrame(trampoline, fn, arg, stack);
      return nextId;
    }

    /** The part of thread_create that cannot fail. */
    method FirstFrame(trampoline: Word, fn: Word, arg: Word, stack: nat)
      requires Linked() && Inv(Abs())
      modifies `ring, `nodes, `nextId, `mem, nodes`next
      ensures Linked() && nextId == old(nextId) + 1
      ensures old(Abs().active ==> Has(Abs().ring, Abs().current))
      ensures var top := StackTop(stack);
        && Abs() == Step(old(Abs()), Create(Context(top - FRAME_BYTES, InitialFpu())))
        && mem == StoreFrame(old(mem), top, FirstRegisters(trampoline, fn, arg, top))
    {
      hide Inv, Views, Linked, Has, StoreFrame, Insert, Step, Entry;
      ghost var s := Abs();
      PossibleCreate(s);
      CreateIs(s, Context(StackTop(stack) - FRAME_BYTES, InitialFpu()));
      nextId := nextId + 1;
      var sp := BuildFrame(StackTop(stack), trampoline, fn, arg);
      var _ := AddNode(nextId, Ready, sp);
    }

    /** A new node, linked in. */
    method AddNode(id: nat, state: RunState, sp: nat) returns (t: Node)
      requires Linked()
      modifies `ring, `nodes, nodes`next
      ensures Linked() && t in nodes && t.id == id
      ensures Views(nodes) ==
        Insert(old(Views(nodes)), Thread(id, state, 0, Context(sp, InitialFpu())))
    {
      hide Views, Linked, Insert;
      t := new Node(id, state, sp);
      ghost var was := nodes;
      RingInsert(t);
      InsertViews(was, t);
    }

    /** sched_start, up to the halt loop: the boot context becomes the idle thread. Its
        allocation is taken to succeed, as the code does. */
    method SchedStart(ghost stacks: map<nat, Region>, ghost bootStack: Region)
      requires Linked() && Inv(Abs()) && !active
      modifies `ring, `nodes, `current, `sliceStart, `active, nodes`next
      ensures Linked() && Performs(old(Whole(stacks)), Boot(bootStack), Whole(stacks[0 := bootStack]))
    {
      hide Inv, Views, Linked, Insert, Step, Cycle;
      StartIs(Abs());
      var idle := AddNode(0, Running, 0);
      AddedParts();
      current := idle;
      sliceStart := ticks;
      active := true;
      LinkedIf();
    }

    lemma AddedParts()
      requires Linked()
      ensures Cycle(nodes) && ring == (if nodes == [] then null else nodes[0])
    {
    }

    // ---------- entering and leaving through an interrupt ----------

    /** sched_tick, called after the tick counter has been advanced. */
    method SchedTick(rsp: nat) returns (r: nat)
      requires Linked() && (active ==> Entered(Abs()))
      modifies `nodes, `current, `sliceStart, `fpu
      modifies nodes`rsp, nodes`state, nodes`fpu, nodes`next
      ensures Linked()
      ensures old(active ==> Has(Views(nodes), current.id))
      ensures !old(active) ==> nodes == old(nodes)
      ensures old(active && current != null && current.state == Running && ticks - sliceStart < 5) ==>
        r == rsp && Abs() == old(Abs()) && fpu == old(fpu)
      ensures (Abs(), Context(r, fpu)) ==
        if old(active && SliceOver(Abs())) then Preempt(old(Abs()), Context(rsp, old(fpu)))
        else (old(Abs()), Context(rsp, old(fpu)))
    {
      hide Inv, Entered, Views, Linked, Valid, Preempt, Has;
      ActiveHasCurrent();
      if !active {
        return rsp;
      }
      CurrentFound();
      if ticks - sliceStart < QUANTUM_TICKS && current != null && current.state.Running? {
        return rsp;
      }
      r := SchedPreempt(rsp);
    }

    lemma CurrentFound()
      requires Linked() && active && Entered(Abs())
      ensures Has(Views(nodes), current.id) && Find(Views(nodes), current.id) == current.View()
    {
      EnteredValid();
      NodeIndex(current);
    }

    /** What an interrupt does before the handler runs: the processor aligns the stack pointer and
        stores five words, pushaq stores fifteen. */
    method StoreRegisters() returns (sp: nat)
      requires Align16(cpu.rsp) >= FRAME_BYTES
      modifies `mem
      ensures sp == Align16(cpu.rsp) - FRAME_BYTES
      ensures mem == StoreFrame(old(mem), Align16(cpu.rsp), cpu)
    {
      hide PushAll;
      var top := Align16(cpu.rsp);
      ghost var base, vs := mem, [];
      sp := top;
      PushNone(mem, top);
      sp, vs := PushFive(sp, cpu.ss, cpu.rsp, cpu.rflags, cpu.cs, cpu.rip, base, top, vs);
      sp, vs := PushFive(sp, cpu.rax, cpu.rbx, cpu.rcx, cpu.rdx, cpu.rbp, base, top, vs);
      sp, vs := PushFive(sp, cpu.rdi, cpu.rsi, cpu.r8, cpu.r9, cpu.r10, base, top, vs);
      sp, vs := PushFive(sp, cpu.r11, cpu.r12, cpu.r13, cpu.r14, cpu.r15, base, top, vs);
      assert vs == FrameWords(cpu);
    }

    /** popaq and iretq, with the stack pointer that the handler returned. */
    method LoadRegisters(sp: nat)
      modifies `cpu
      ensures cpu == LoadFrame(mem, sp)
    {
      cpu := cpu.(r15 := Load(mem, sp), r14 := Load(mem, sp + 8), r13 := Load(mem, sp + 16),
                  r12 := Load(mem, sp + 24), r11 := Load(mem, sp + 32), r10 := Load(mem, sp + 40),
                  r9 := Load(mem, sp + 48), r8 := Load(mem, sp + 56));
      cpu := cpu.(rsi := Load(mem, sp + 64), rdi := Load(mem, sp + 72), rbp := Load(mem, sp + 80),
                  rdx := Load(mem, sp + 88), rcx := Load(mem, sp + 96), rbx := Load(mem, sp + 104),
                  rax := Load(mem, sp + 112));
      cpu := cpu.(rip := Load(mem, sp + 120), cs := Load(mem, sp + 128),
                  rflags := Load(mem, sp + 136), rsp := Load(mem, sp + 144),
                  ss := Load(mem, sp + 152));
    }

    /** The timer interrupt, from the interrupted instruction to the resumed one: the Timer activity of
        the machine. */
    method IsrTimer(ghost stacks: map<nat, Region>)
      requires Linked() && Inv(Abs()) && Align16(cpu.rsp) >= FRAME_BYTES
      modifies `nodes, `current, `sliceStart, `fpu, `mem, `cpu, `ticks
      modifies nodes`rsp, nodes`state, nodes`fpu, nodes`next
      ensures Linked() && old(Abs().active ==> Has(Abs().ring, Abs().current))
      ensures Performs(old(Whole(stacks)), Timer, Whole(stacks))
      ensures !old(active) ==> nodes == old(nodes)
    {
      hide Inv, Views, Linked, Has, StoreFrame, LoadFrame, StepResume, Align16, Act, Performs;
      ghost var y := Whole(stacks);
      ActiveHasCurrentNow();
      HandleTimer();
      ActFrom(y, Timer, Whole(stacks));
    }

    method HandleTimer()
      requires Linked() && Inv(Abs()) && Align16(cpu.rsp) >= FRAME_BYTES
      modifies `nodes, `current, `sliceStart, `fpu, `mem, `cpu, `ticks
      modifies nodes`rsp, nodes`state, nodes`fpu, nodes`next
      ensures Linked() && old(Abs().active ==> Has(Abs().ring, Abs().current))
      ensures var top := Align16(old(cpu.rsp));
        var (s, resumed) := StepResume(old(Abs()), Tick(Context(top - FRAME_BYTES, old(fpu))));
        && Abs() == s && fpu == resumed.fpu
        && mem == StoreFrame(old(mem), top, old(cpu)) && cpu == LoadFrame(mem, resumed.rsp)
      ensures !old(active) ==> nodes == old(nodes)
    {
      hide Inv, Entered, Views, Linked, Valid, Preempt, Has, StoreFrame, LoadFrame, StepResume, SliceOver, Align16;
      ActiveHasCurrentNow();
      var sp := StoreRegisters();
      var r := TimerHandler(sp);
      LoadRegisters(r);
    }

    /** The handler that the stub calls: the tick is counted, then the scheduler asked. */
    method TimerHandler(rsp: nat) returns (r: nat)
      requires Linked() && Inv(Abs())
      modifies `nodes, `current, `sliceStart, `fpu, `ticks
      modifies nodes`rsp, nodes`state, nodes`fpu, nodes`next
      ensures Linked() && old(Abs().active ==> Has(Abs().ring, Abs().current))
      ensures (Abs(), Context(r, fpu)) == StepResume(old(Abs()), Tick(Context(rsp, old(fpu))))
      ensures !old(active) ==> nodes == old(nodes)
    {
      hide Inv, Entered, Views, Linked, Valid, Preempt, Has, StepResume, SliceOver;
      ghost var s := Abs();
      TickEnters(s, Context(rsp, fpu));
      ticks := ticks + 1;
      assert Abs() == s.(ticks := s.ticks + 1);
      r := SchedTick(rsp);
    }

    /** `int $0x30`, with the current thread's state already set by the caller. */
    method IsrYield()
      requires Linked() && active && Entered(Abs()) && Align16(cpu.rsp) >= FRAME_BYTES
      modifies `nodes, `current, `sliceStart, `fpu, `mem, `cpu
      modifies nodes`rsp, nodes`state, nodes`fpu, nodes`next
      ensures Linked()
      ensures old(Has(Views(nodes), current.id))
      ensures var top := Align16(old(cpu.rsp));
        var (s, resumed) := Preempt(old(Abs()), Context(top - FRAME_BYTES, old(fpu)));
        && Abs() == s && fpu == resumed.fpu
        && mem == StoreFrame(old(mem), top, old(cpu)) && cpu == LoadFrame(mem, resumed.rsp)
    {
      hide Inv, Entered, Views, Linked, Valid, Preempt, Has, StoreFrame, LoadFrame;
      CurrentFound();
      var sp := StoreRegisters();
      var r := SchedPreempt(sp);
      LoadRegisters(r);
    }

    /** sched_yield */
    method SchedYield(ghost stacks: map<nat, Region>)
      requires Linked() && Inv(Abs()) && Align16(cpu.rsp) >= FRAME_BYTES
      modifies `nodes, `current, `sliceStart, `fpu, `mem, `cpu
      modifies nodes`rsp, nodes`state, nodes`fpu, nodes`next
      ensures Linked() && old(Abs().active ==> Has(Abs().ring, Abs().current))
      ensures !old(active) ==> Abs() == old(Abs()) && cpu == old(cpu) && mem == old(mem) && fpu == old(fpu)
      ensures old(active) ==> Performs(old(Whole(stacks)), YieldCall, Whole(stacks))
    {
      hide Inv, Entered, Views, Linked, Valid, Preempt, Has, StoreFrame, LoadFrame, StepResume, Align16, Act, Performs;
      ghost var y := Whole(stacks);
      CallEnters(Abs(), Yield(Context(Align16(cpu.rsp) - FRAME_BYTES, fpu)));
      if !active {
        return;
      }
      IsrYield();
      ActFrom(y, YieldCall, Whole(stacks));
    }

    /** Giving the current thread another state, as thread_exit and thread_sleep_ms do. */
    method Block(state: RunState, wakeTick: nat)
      requires Valid() && current != null
      modifies current`state, current`wakeTick
      ensures Linked() && Abs() == SetCurrent(old(Abs()), state, wakeTick)
    {
      hide Views, Linked, Valid;
      ghost var s := Abs();
      Alone();
      current.state := state;
      current.wakeTick := wakeTick;
      assert Views(nodes) == SetCurrent(s, state, wakeTick).ring;
    }

    lemma Alone()
      requires Valid() && current != null
      ensures Linked()
      ensures forall i :: 0 <= i < |nodes| && nodes[i].id == current.id ==> nodes[i] == current
    {
      NodeIndex(current);
      forall i | 0 <= i < |nodes| && nodes[i].id == current.id
        ensures nodes[i] == current
      {
        NodeIndex(nodes[i]);
      }
    }

    /** A blocking call: the new state of the current thread, then the yield interrupt. */
    method GiveUp(state: RunState, wakeTick: nat, ghost e: Event)
      requires Linked() && Inv(Abs()) && active && Align16(cpu.rsp) >= FRAME_BYTES
      requires (e.Exit? || e.Sleep?) && Enabled(Abs(), e) && Has(Abs().ring, Abs().current)
      requires e.context == Context(Align16(cpu.rsp) - FRAME_BYTES, fpu)
      requires Entry(Abs(), e) == SetCurrent(Abs(), state, wakeTick)
      modifies `nodes, `current, `sliceStart, `fpu, `mem, `cpu
      modifies nodes`rsp, nodes`state, nodes`fpu, nodes`next, nodes`wakeTick
      ensures Linked() && old(Has(Abs().ring, Abs().current))
      ensures var (s, resumed) := StepResume(old(Abs()), e);
        && Abs() == s && fpu == resumed.fpu
        && mem == StoreFrame(old(mem), Align16(old(cpu.rsp)), old(cpu)) && cpu == LoadFrame(mem, resumed.rsp)
    {
      hide Inv, Entered, Views, Linked, Valid, Preempt, Has, StoreFrame, LoadFrame, StepResume,
        SetCurrent, Align16, Entry;
      CallEnters(Abs(), e);
      InvValid();
      Block(state, wakeTick);
      IsrYield();
    }

    /** thread_exit, up to the moment another thread runs. */
    method ThreadExit(ghost stacks: map<nat, Region>)
      requires Linked() && Inv(Abs()) && active && current.id != 0
      requires Align16(cpu.rsp) >= FRAME_BYTES
      modifies `nodes, `current, `sliceStart, `fpu, `mem, `cpu
      modifies nodes`rsp, nodes`state, nodes`fpu, nodes`next, nodes`wakeTick
      ensures Linked() && old(Has(Abs().ring, Abs().current))
      ensures Performs(old(Whole(stacks)), ExitCall, Whole(stacks))
    {
      hide Inv, Views, Linked, Valid, Has, StoreFrame, LoadFrame, StepResume, SetCurrent, Align16, Act, Performs,
        Entry;
      ghost var y := Whole(stacks);
      ActiveHasCurrentNow();
      InvValid();
      EntryExit(y.sched, Interrupted(y));
      GiveUp(Zombie, current.wakeTick, Exit(Interrupted(y)));
      ActFrom(y, ExitCall, Whole(stacks));
    }

    /** thread_sleep_ms, up to the moment some thread runs. Before the scheduler is active it waits for
        the tick counter in place. */
    method ThreadSleep(ms: nat, ghost stacks: map<nat, Region>)
      requires Linked() && Inv(Abs()) && (active ==> current.id != 0)
      requires Align16(cpu.rsp) >= FRAME_BYTES
      modifies `nodes, `current, `sliceStart, `fpu, `mem, `cpu, `ticks
      modifies nodes`rsp, nodes`state, nodes`fpu, nodes`next, nodes`wakeTick
      ensures Linked() && old(active ==> Has(Abs().ring, Abs().current))
      ensures old(active) ==> Performs(old(Whole(stacks)), SleepCall(ms), Whole(stacks))
      ensures !old(active) ==>
        var until := WakeTime(old(ticks), ms);
        && Abs() == old(Abs()).(ticks := if old(ticks) < until then until else old(ticks))
        && cpu == old(cpu) && fpu == old(fpu)
    {
      hide Inv, Views, Linked, Has, WakeTime, Align16, Act, Performs;
      ActiveHasCurrentNow();
      if active {
        SleepActive(ms, stacks);
      } else {
        WaitInPlace(WakeTime(ticks, ms), stacks);
      }
    }

    method SleepActive(ms: nat, ghost stacks: map<nat, Region>)
      requires Linked() && Inv(Abs()) && active && current.id != 0
      requires Align16(cpu.rsp) >= FRAME_BYTES
      modifies `nodes, `current, `sliceStart, `fpu, `mem, `cpu
      modifies nodes`rsp, nodes`state, nodes`fpu, nodes`next, nodes`wakeTick
      ensures Linked() && old(Has(Abs().ring, Abs().current))
      ensures Performs(old(Whole(stacks)), SleepCall(ms), Whole(stacks))
    {
      hide Inv, Views, Linked, Valid, Has, StoreFrame, LoadFrame, StepResume, SetCurrent, Align16, Act, Performs,
        Entry, WakeTime;
      ghost var y := Whole(stacks);
      ActiveHasCurrentNow();
      EntrySleep(y.sched, ms, Interrupted(y));
      GiveUp(Sleeping, WakeTime(ticks, ms), Sleep(ms, Interrupted(y)));
      ActFrom(y, SleepCall(ms), Whole(stacks));
    }

    lemma ActiveHasCurrentNow()
      requires Linked() && Inv(Abs())
      ensures active ==> current != null && Has(Abs().ring, Abs().current)
    {
      hide Entered;
      InvHas(Abs());
    }

    /** The halting loop of sleep_ms: each round ends with a timer interrupt. */
    method WaitInPlace(until: nat, ghost stacks: map<nat, Region>)
      requires Linked() && Inv(Abs()) && !active && Align16(cpu.rsp) >= FRAME_BYTES
      modifies `nodes, `current, `sliceStart, `fpu, `mem, `cpu, `ticks
      modifies nodes`rsp, nodes`state, nodes`fpu, nodes`next
      ensures Linked() && cpu == old(cpu) && fpu == old(fpu)
      ensures Abs() == old(Abs()).(ticks := if old(ticks) < until then until else old(ticks))
    {
      hide Inv, Views, Linked, Act, Align16;
      while ticks < until
        invariant Linked() && Inv(Abs()) && !active && ticks >= old(ticks)
        invariant cpu == old(cpu) && fpu == old(fpu) && Abs() == old(Abs()).(ticks := ticks)
        invariant ticks <= until || ticks == old(ticks)
        invariant nodes == old(nodes)
        decreases until - ticks
      {
        ghost var y := Whole(stacks);
        IdleTick(y);
        IsrTimer(stacks);
        PerformsIs(y, Timer, Whole(stacks));
      }
    }

    lemma InvValid()
      requires Linked() && Inv(Abs()) && active
      ensures Valid() && Has(Views(nodes), current.id) && current in nodes
      ensures Find(Views(nodes), current.id) == current.View()
    {
      InvEntered(Abs());
      CurrentFound();
      EnteredValid();
    }
  }

  /** Frame stored, scheduler entered, registers loaded: that is the activity. */
  lemma ActFrom(y: System, a: Activity, z: System)
    requires y.sched.active ==> Has(y.sched.ring, y.sched.current)
    requires IsInterrupt(a) && Align16(y.cpu.rsp) >= FRAME_BYTES
    requires Enabled(y.sched, EventOf(y, a)) && z.stacks == y.stacks
    requires (z.sched, z.fpu) == (StepResume(y.sched, EventOf(y, a)).0, StepResume(y.sched, EventOf(y, a)).1.fpu)
    requires z.mem == StoreFrame(y.mem, Align16(y.cpu.rsp), y.cpu)
    requires z.cpu == LoadFrame(z.mem, StepResume(y.sched, EventOf(y, a)).1.rsp)
    ensures Performs(y, a, z)
  {
    hide StepResume, StoreFrame, LoadFrame, Act, Align16;
    InterruptIs(y, a);
  }

  lemma PerformsIs(y: System, a: Activity, z: System)
    requires Performs(y, a, z)
    ensures y.sched.active ==> Has(y.sched.ring, y.sched.current)
    ensures IsInterrupt(a) ==> Align16(y.cpu.rsp) >= FRAME_BYTES
    ensures !a.Compute? ==> Enabled(y.sched, EventOf(y, a))
    ensures z == Act(y, a)
  {
  }

  /** A timer interrupt before the scheduler is active counts the tick and goes on. */
  lemma IdleTick(y: System)
    requires Inv(y.sched) && !y.sched.active && Align16(y.cpu.rsp) >= FRAME_BYTES
    ensures Performs(y, Timer, Act(y, Timer))
    ensures var z := Act(y, Timer);
      && z.sched == y.sched.(ticks := y.sched.ticks + 1) && Inv(z.sched)
      && z.cpu == y.cpu && z.fpu == y.fpu
  {
    hide Inv, StoreFrame, LoadFrame;
    TickInv(y.sched);
    FrameRoundTrip(y.mem, Align16(y.cpu.rsp), y.cpu);
  }

  lemma StartIs(s: Sched)
    requires !s.active
    ensures Step(s, Start) ==
      s.(ring := Insert(s.ring, Thread(0, Running, 0, Context(0, InitialFpu()))), current := 0,
         sliceStart := s.ticks, active := true)
  {
  }

  lemma TickEnters(s: Sched, context: Context)
    requires Inv(s)
    ensures s.active ==> Entered(s.(ticks := s.ticks + 1))
    ensures s.active ==> Has(s.ring, s.current)
    ensures StepResume(s, Tick(context)) ==
      if s.active && SliceOver(s.(ticks := s.ticks + 1)) then Preempt(s.(ticks := s.ticks + 1), context)
      else (s.(ticks := s.ticks + 1), context)
  {
    hide Preempt;
    EntryInv(s, Tick(context));
  }

  /** A voluntary entry always reaches sched_preempt, in a good state. */
  lemma CallEnters(s: Sched, e: Event)
    requires Inv(s) && (e.Yield? || e.Exit? || e.Sleep?) && Enabled(s, e)
    ensures s.active ==> Has(s.ring, s.current)
    ensures s.active ==> Entered(Entry(s, e)) && Has(Entry(s, e).ring, Entry(s, e).current)
    ensures s.active ==> StepResume(s, e) == Preempt(Entry(s, e), e.context)
  {
    hide Preempt;
    EntryInv(s, e);
  }

  lemma EntryExit(s: Sched, context: Context)
    requires Has(s.ring, s.current) && Enabled(s, Exit(context))
    ensures Entry(s, Exit(context)) == SetCurrent(s, Zombie, Find(s.ring, s.current).wakeTick)
  {
  }

  lemma EntrySleep(s: Sched, ms: nat, context: Context)
    requires Has(s.ring, s.current) && Enabled(s, Sleep(ms, context))
    ensures Entry(s, Sleep(ms, context)) == SetCurrent(s, Sleeping, WakeTime(s.ticks, ms))
  {
  }

  lemma PossibleCreate(s: Sched)
    requires Inv(s)
    ensures s.active ==> Has(s.ring, s.current)
  {
  }

  lemma FirstIs(order: seq<Thread>, k: nat, idleToo: bool)
    requires k <= |order| && forall j :: 0 <= j < k ==> !Pickable(order[j], idleToo)
    requires k < |order| ==> Pickable(order[k], idleToo)
    ensures First(order, idleToo) == k
  {
    var f := First(order, idleToo);
    assert !(f < k) && !(k < f);
  }

  /** One more thread seen by the sweep. */
  lemma DropStep(ts: seq<Thread>, j: nat, gone: set<nat>)
    requires j < |ts|
    ensures Drop(ts[..j + 1], gone) == Drop(ts[..j], gone) + if ts[j].id in gone then [] else [ts[j]]
  {
    assert ts[..j + 1] == ts[..j] + [ts[j]];
    DropAppend(ts[..j], [ts[j]], gone);
  }

  predicate StopsEarly(ts: seq<Thread>, current: nat) {
    |ts| > 1 && Reapable(ts[1], current, ts[0].id)
  }

  /** Where the sweep of reap_zombies stands: of the ring `ts` it started with it has seen the
      first j threads, and i + 1 of those are left in what is now the ring `vs`. */
  predicate Sweep(ts: seq<Thread>, current: nat, vs: seq<Thread>, i: nat, j: nat) {
    var gone := ReapSet(ts, current);
    && 1 <= j <= |ts|
    && vs == Drop(ts[..j], gone) + ts[j..] && |Drop(ts[..j], gone)| == i + 1
    && (StopsEarly(ts, current) ==> j == 1)
    && (i == 0 ==> j == 1)
  }

  lemma SweepStarts(ts: seq<Thread>, current: nat)
    requires ts != [] && Distinct(ts)
    ensures Sweep(ts, current, ts, 0, 1)
  {
    assert ts == ts[..1] + ts[1..] && ts[..1] == [ts[0]];
    assert ts[0].id !in ReapSet(ts, current);
  }

  lemma SweepStep(ts: seq<Thread>, current: nat, vs: seq<Thread>, i: nat, j: nat)
    requires Distinct(ts) && Sweep(ts, current, vs, i, j) && i + 1 < |vs|
    ensures j < |ts| && vs[i + 1] == ts[j] && vs[0] == ts[0]
    ensures Reapable(ts[j], current, ts[0].id) ==>
      if i == 0 then vs[..i + 1] + vs[i + 2..] == Reap(ts, current)
      else Sweep(ts, current, vs[..i + 1] + vs[i + 2..], i, j + 1)
    ensures !Reapable(ts[j], current, ts[0].id) ==> Sweep(ts, current, vs, i + 1, j + 1)
  {
    var gone := ReapSet(ts, current);
    var kept := Drop(ts[..j], gone);
    assert j < |ts| && vs[i + 1] == ts[j..][0];
    KeepsHead(ts, j, current);
    DropStep(ts, j, gone);
    assert ts[j..] == [ts[j]] + ts[j + 1..];
    if Reapable(ts[j], current, ts[0].id) {
      assert ts[j].id in gone;
      assert vs[..i + 1] + vs[i + 2..] == kept + ts[j + 1..];
      if i == 0 { EarlyStop(ts, current); }
    } else {
      NotGone(ts, current, j);
      assert vs == kept + [ts[j]] + ts[j + 1..];
    }
  }

  lemma KeepsHead(ts: seq<Thread>, j: nat, current: nat)
    requires 1 <= j <= |ts| && Distinct(ts)
    ensures var kept := Drop(ts[..j], ReapSet(ts, current)); kept != [] && kept[0] == ts[0]
  {
    NotGone(ts, current, 0);
    assert ts[..j][0] == ts[0];
  }

  /** The early stop: the sweep has unlinked the node behind `ring` and leaves the rest. */
  lemma EarlyStop(ts: seq<Thread>, current: nat)
    requires Distinct(ts) && StopsEarly(ts, current)
    ensures Drop(ts[..1], ReapSet(ts, current)) + ts[2..] == Reap(ts, current)
  {
    var gone := ReapSet(ts, current);
    assert ts == ts[..1] + ([ts[1]] + ts[2..]);
    DropAppend(ts[..1], [ts[1]] + ts[2..], gone);
    DropAppend([ts[1]], ts[2..], gone);
    DropNone(ts[2..], gone);
  }

  lemma SweepDone(ts: seq<Thread>, current: nat, vs: seq<Thread>, i: nat, j: nat)
    requires Sweep(ts, current, vs, i, j) && i + 1 == |vs|
    ensures vs == Reap(ts, current)
  {
    assert ts[..j] == ts;
  }
}
