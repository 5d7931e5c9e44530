/** The receive ring shared by the driver of kernel/src/e1000.c and the network card. The card follows
    section 3.2.6 of the Intel 8254x Software Developer's Manual: it owns the descriptors from its head
    register up to, but not including, its tail register, and drops a frame when it owns none. */
module NicRing {
  import opened Basics

  type Frame = seq<Byte>

  const COUNT: nat := 32
  const BUFFER: nat := 2048

  datatype Desc = Desc(length: nat, status: bv8)

  /** The index `k` places after `t` on the ring. */
  function Slot(t: nat, k: nat): (i: nat)
    requires t < COUNT && k < COUNT
    ensures i == (t + k) % COUNT
  {
    if t + k < COUNT then t + k else t + k - COUNT
  }

  lemma SlotInjective(t: nat, j: nat, k: nat)
    requires t < COUNT && j < COUNT && k < COUNT && j != k
    ensures Slot(t, j) != Slot(t, k)
  {
  }

  lemma SlotNext(t: nat, k: nat)
    requires t < COUNT && k + 1 < COUNT
    ensures Slot(Slot(t, 1), k) == Slot(t, k + 1)
    ensures Slot(Slot(t, 1), COUNT - 1) == t
  {
  }

  /** How far `i` lies ahead of `h` on the ring. */
  function Ahead(h: nat, i: nat): (d: nat)
    requires h < COUNT && i < COUNT
    ensures d == (i + COUNT - h) % COUNT
  {
    if i >= h then i - h else i + COUNT - h
  }

  /** Seen from `n` places after `t`, the place `k` after `t` comes before the one just behind `t`
      exactly when it is neither that one nor among the first `n`. */
  lemma Between(t: nat, n: nat, k: nat)
    requires t < COUNT && n < COUNT && k < COUNT
    ensures Ahead(Slot(t, n), Slot(t, k)) < Ahead(Slot(t, n), Slot(t, COUNT - 1)) <==> n <= k < COUNT - 1
  {
  }

  // ---------- the ring as a bounded queue ----------

  datatype Event = Arrive(frame: Frame) | Poll(cap: nat)

  function Clip(f: Frame, cap: nat): Frame { if |f| > cap then f[..cap] else f }

  /** The card takes a frame unless 31 are already waiting. */
  predicate Takes(q: seq<Frame>) { |q| < COUNT - 1 }

  function After(q: seq<Frame>, e: Event): seq<Frame> {
    match e
    case Arrive(f) => if Takes(q) then q + [f] else q
    case Poll(_) => if q == [] then q else q[1..]
  }

  function Waiting(q: seq<Frame>, es: seq<Event>): seq<Frame>
    decreases |es|
  {
    if es == [] then q else Waiting(After(q, es[0]), es[1..])
  }

  /** The frames the card accepted during `es`. */
  function Accepted(q: seq<Frame>, es: seq<Event>): seq<Frame>
    decreases |es|
  {
    if es == [] then []
    else
      (if es[0].Arrive? && Takes(q) then [es[0].frame] else []) + Accepted(After(q, es[0]), es[1..])
  }

  /** The frames taken off the ring during `es`, before they are cut to the caller's buffer. */
  function Delivered(q: seq<Frame>, es: seq<Event>): seq<Frame>
    decreases |es|
  {
    if es == [] then []
    else (if es[0].Poll? && q != [] then [q[0]] else []) + Delivered(After(q, es[0]), es[1..])
  }

  /** The buffer contents that the calls return, one entry for each call that returned a frame. */
  function Received(q: seq<Frame>, es: seq<Event>): seq<Frame>
    decreases |es|
  {
    if es == [] then []
    else
      (if es[0].Poll? && q != [] then [Clip(q[0], es[0].cap)] else []) + Received(After(q, es[0]), es[1..])
  }

  /** Nothing accepted is lost, repeated or reordered. */
  lemma {:induction false} Conservation(q: seq<Frame>, es: seq<Event>)
    ensures q + Accepted(q, es) == Delivered(q, es) + Waiting(q, es)
    decreases |es|
  {
    hide After;
    if es == [] {
      assert q + [] == q == [] + q;
    } else {
      var e, next := es[0], After(q, es[0]);
      Conservation(next, es[1..]);
      OneEvent(q, e);
      Regroup(q, next, if e.Arrive? && Takes(q) then [e.frame] else [], if e.Poll? && q != [] then [q[0]] else [],
              Accepted(next, es[1..]), Delivered(next, es[1..]), Waiting(next, es[1..]));
    }
  }

  lemma OneEvent(q: seq<Frame>, e: Event)
    ensures q + (if e.Arrive? && Takes(q) then [e.frame] else [])
         == (if e.Poll? && q != [] then [q[0]] else []) + After(q, e)
  {
  }

  lemma Regroup(q: seq<Frame>, next: seq<Frame>, a: seq<Frame>, d: seq<Frame>, accepted: seq<Frame>,
                delivered: seq<Frame>, waiting: seq<Frame>)
    requires q + a == d + next && next + accepted == delivered + waiting
    ensures q + (a + accepted) == (d + delivered) + waiting
  {
    assert q + (a + accepted) == (q + a) + accepted == (d + next) + accepted == d + (next + accepted);
    assert d + (delivered + waiting) == (d + delivered) + waiting;
  }

  /** A caller whose buffer always holds the frame sees every delivered frame whole. */
  lemma {:induction false} NothingClipped(q: seq<Frame>, es: seq<Event>, most: nat)
    requires forall f | f in q :: |f| <= most
    requires forall e | e in es :: if e.Arrive? then |e.frame| <= most else e.cap >= most
    ensures Received(q, es) == Delivered(q, es)
    decreases |es|
  {
    if es != [] {
      assert es[0] in es;
      forall e | e in es[1..] ensures e in es { }
      NothingClipped(After(q, es[0]), es[1..], most);
    }
  }

  /** Never more than 31 frames wait. */
  lemma {:induction false} WaitingBound(q: seq<Frame>, es: seq<Event>)
    requires |q| < COUNT
    ensures |Waiting(q, es)| < COUNT
    decreases |es|
  {
    if es != [] {
      WaitingBound(After(q, es[0]), es[1..]);
    }
  }

  // ---------- driver and card ----------

  class RxRing {
    const ring: array<Desc>
    const bufs: array<Frame>
    var head: nat      // RDH, moved by the card
    var tail: nat      // RDT, written by the driver
    var rxTail: nat    // the next descriptor the driver looks at
    ghost var queue: seq<Frame>

    /** The card may write descriptor `i`: it lies between its two registers. */
    ghost predicate CardOwns(i: nat)
      reads this
      requires head < COUNT && tail < COUNT && i < COUNT
    {
      Ahead(head, i) < Ahead(head, tail)
    }

    /** Descriptor `i` is done and holds `f`. */
    ghost predicate Holds(i: nat, f: Frame)
      reads ring, bufs
      requires i < ring.Length && i < bufs.Length
    {
      && ring[i].status & 1 == 1
      && ring[i].length == |f| <= |bufs[i]|
      && bufs[i][..|f|] == f
    }

    ghost predicate Valid()
      reads this, ring, bufs
    {
      && ring.Length == bufs.Length == COUNT
      && rxTail < COUNT && |queue| < COUNT
      && head == Slot(rxTail, |queue|)
      && tail == Slot(rxTail, COUNT - 1)
      && (forall i | 0 <= i < COUNT :: |bufs[i]| == BUFFER)
      && (forall k | 0 <= k < |queue| :: Holds(Slot(rxTail, k), queue[k]))
      && (forall k | |queue| <= k < COUNT :: ring[Slot(rxTail, k)].status & 1 == 0)
    }

    /** The receive part of e1000_init. The pages behind the buffers start with arbitrary contents. */
    constructor (pages: seq<Frame>)
      requires |pages| == COUNT && forall i | 0 <= i < COUNT :: |pages[i]| == BUFFER
      ensures Valid() && fresh(ring) && fresh(bufs)
      ensures queue == [] && rxTail == head == 0 && tail == 31
    {
      ring := new Desc[COUNT](i => Desc(0, 0));
      bufs := new Frame[COUNT](i requires 0 <= i < COUNT => pages[i]);
      head, tail, rxTail := 0, COUNT - 1, 0;
      queue := [];
    }

    /** The card owns exactly the descriptors that hold no waiting frame, apart from the spare one just
        behind rxTail; so a done descriptor at rxTail is not the card's. */
    lemma Ownership(k: nat)
      requires Valid() && k < COUNT
      ensures CardOwns(Slot(rxTail, k)) <==> |queue| <= k < COUNT - 1
      ensures ring[rxTail].status & 1 == 1 <==> queue != []
      ensures ring[rxTail].status & 1 == 1 ==> !CardOwns(rxTail)
    {
      hide Holds;
      Between(rxTail, |queue|, k);
      Between(rxTail, |queue|, 0);
      assert Slot(rxTail, 0) == rxTail;
      if queue != [] {
        assert Holds(Slot(rxTail, 0), queue[0]);
        HoldsDone(rxTail, queue[0]);
      }
    }

    lemma HoldsDone(i: nat, f: Frame)
      requires i < ring.Length && i < bufs.Length && Holds(i, f)
      ensures ring[i].status & 1 == 1
    {
    }

    /** A frame arrives from the wire. Frames longer than a buffer never reach the ring: the card is
        not told to receive long packets. */
    method CardReceive(f: Frame)
      requires Valid() && |f| <= BUFFER
      modifies this`head, this`queue, ring, bufs
      ensures Valid() && queue == After(old(queue), Arrive(f))
      ensures queue == if |old(queue)| < 31 then old(queue) + [f] else old(queue)
      ensures |old(queue)| < 31 <==> old(CardOwns(head))
      ensures forall i | 0 <= i < COUNT && !old(CardOwns(i)) :: ring[i] == old(ring[i]) && bufs[i] == old(bufs[i])
    {
      if head == tail {
        return;
      }
      ghost var n := |queue|;
      Ownership(n);
      bufs[head] := f + bufs[head][|f|..];
      ring[head] := Desc(|f|, 3);
      assert Holds(head, f) by { assert bufs[head][..|f|] == f; }
      forall k | 0 <= k < COUNT && k != n ensures Slot(rxTail, k) != head {
        SlotInjective(rxTail, k, n);
      }
      head := (head + 1) % COUNT;
      queue := queue + [f];
    }

    /** e1000_recv on a card that is up. The returned length is zero both for no frame and for a caller
        that offers no room. */
    method Recv(buf: array<Byte>, cap: nat) returns (len: nat)
      requires Valid() && cap <= buf.Length
      modifies this`tail, this`rxTail, this`queue, ring, buf
      ensures Valid() && queue == After(old(queue), Poll(cap)) && len <= cap
      ensures old(queue) == [] ==> len == 0 && buf[..] == old(buf[..]) && rxTail == old(rxTail)
      ensures old(queue) != [] ==>
        && queue == old(queue)[1..]
        && len == (if |old(queue)[0]| > cap then cap else |old(queue)[0]|)
        && buf[..len] == old(queue)[0][..len] && buf[len..] == old(buf[len..])
        && tail == old(rxTail) == Slot(rxTail, COUNT - 1)
      ensures forall i | 0 <= i < COUNT && old(CardOwns(i)) :: ring[i] == old(ring[i])
    {
      Ownership(0);
      var d := ring[rxTail];
      if d.status & 1 == 0 {
        return 0;
      }
      ghost var f := queue[0];
      assert Holds(Slot(rxTail, 0), f);
      len := d.length;
      if len > cap {
        len := cap;
      }
      var data := bufs[rxTail];
      forall i | 0 <= i < len { buf[i] := data[i]; }
      assert buf[..len] == data[..len] == Clip(f, cap);
      ring[rxTail] := d.(status := 0);
      tail := rxTail;
      Advance();
    }

    /** The end of e1000_recv, once the descriptor's status is cleared and the tail register written. */
    method Advance()
      requires ring.Length == bufs.Length == COUNT && rxTail < COUNT && 0 < |queue| < COUNT
      requires head == Slot(rxTail, |queue|) && tail == rxTail
      requires forall i | 0 <= i < COUNT :: |bufs[i]| == BUFFER
      requires forall k | 1 <= k < |queue| :: Holds(Slot(rxTail, k), queue[k])
      requires forall k | |queue| <= k < COUNT :: ring[Slot(rxTail, k)].status & 1 == 0
      requires ring[rxTail].status & 1 == 0
      modifies this`rxTail, this`queue
      ensures Valid() && queue == old(queue)[1..] && rxTail == Slot(old(rxTail), 1)
    {
      hide Holds;
      ghost var t, q := rxTail, queue;
      rxTail := (rxTail + 1) % COUNT;
      queue := queue[1..];
      forall k | 0 <= k < COUNT - 1 ensures Slot(rxTail, k) == Slot(t, k + 1) {
        SlotNext(t, k);
      }
      SlotNext(t, 0);
      forall k | 0 <= k < |queue| ensures Holds(Slot(rxTail, k), queue[k]) {
        assert Holds(Slot(t, k + 1), q[k + 1]);
      }
      forall k | |queue| <= k < COUNT ensures ring[Slot(rxTail, k)].status & 1 == 0 {
        if k < COUNT - 1 {
          assert ring[Slot(t, k + 1)].status & 1 == 0;
        }
      }
    }

    /** One event, with the buffer contents it hands to the caller, if any. */
    method Perform(e: Event, buf: array<Byte>) returns (ghost got: seq<Frame>)
      requires Valid()
      requires if e.Arrive? then |e.frame| <= BUFFER else e.cap <= buf.Length
      modifies this`head, this`tail, this`rxTail, this`queue, ring, bufs, buf
      ensures Valid() && queue == After(old(queue), e)
      ensures got == if e.Poll? && old(queue) != [] then [Clip(old(queue)[0], e.cap)] else []
    {
      hide Valid;
      got := [];
      match e {
        case Arrive(f) =>
          CardReceive(f);
        case Poll(cap) =>
          ghost var q := queue;
          var len := Recv(buf, cap);
          assert q != [] ==> q[0][..|q[0]|] == q[0];
          got := if q != [] then [buf[..len]] else [];
      }
    }

    /** Any interleaving of arrivals and polls. */
    method Drive(es: seq<Event>, buf: array<Byte>) returns (ghost got: seq<Frame>)
      requires Valid()
      requires forall e | e in es :: if e.Arrive? then |e.frame| <= BUFFER else e.cap <= buf.Length
      modifies this`head, this`tail, this`rxTail, this`queue, ring, bufs, buf
      ensures Valid() && queue == Waiting(old(queue), es)
      ensures got == Received(old(queue), es)
    {
      hide Valid, After;
      got := [];
      var n := 0;
      while n < |es|
        invariant 0 <= n <= |es| && Valid()
        invariant Waiting(queue, es[n..]) == Waiting(old(queue), es)
        invariant got + Received(queue, es[n..]) == Received(old(queue), es)
      {
        assert es[n] in es && es[n..][0] == es[n] && es[n..][1..] == es[n + 1..];
        ghost var some := Perform(es[n], buf);
        got := got + some;
        n := n + 1;
      }
    }
  }
}
