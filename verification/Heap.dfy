/** kernel/src/heap.c as it works: block headers in memory, linked by address and rewritten in
    place. Memory is a map from addresses; headers that a merge has swallowed stay in it as
    garbage, as they do in the kernel. */
module Heap {
  import opened HeapLayout

  const PAGE_SIZE: nat := 4096
  const HEAP_MAX: nat := 768 * 1024 * 1024
  const HEAP_MIN: nat := 16 * 1024 * 1024

  /** A block header. Addresses stand for pointers and 0 for NULL. */
  datatype Block = Block(size: nat, free: bool, next: nat, prev: nat)

  type Headers = map<nat, Block>

  /** The header that belongs at position i of the block list. */
  ghost function HeaderOf(cs: seq<Chunk>, i: nat): Block
    requires i < |cs|
  {
    Block(cs[i].size, cs[i].free,
          if i + 1 < |cs| then cs[i + 1].addr else 0,
          if i > 0 then cs[i - 1].addr else 0)
  }

  ghost predicate Links(h: Headers, cs: seq<Chunk>) {
    forall i :: 0 <= i < |cs| ==> cs[i].addr in h && h[cs[i].addr] == HeaderOf(cs, i)
  }

  /** Every block lies after the one before it, and none at address 0. */
  ghost predicate Ascending(cs: seq<Chunk>) {
    && (forall i :: 0 <= i < |cs| ==> cs[i].addr > 0)
    && (forall i, j :: 0 <= i < j < |cs| ==> cs[i].End() <= cs[j].addr)
  }

  lemma TilesAscend(cs: seq<Chunk>, lo: nat, hi: nat)
    requires Tiles(cs, lo, hi) && lo > 0
    ensures Ascending(cs)
  {
    TilesUp(cs, lo, hi);
    forall i | 0 <= i < |cs|
      ensures cs[i].addr > 0
    {
      assert cs[i] in cs;
    }
    forall i, j | 0 <= i < j < |cs|
      ensures cs[i].End() <= cs[j].addr
    {
      TilesApart(cs, lo, hi, i, j);
    }
  }

  // ---------- what the pointer writes do to the list ----------

  /** The header writes of malloc when it splits the block at b. */
  function SplitWrites(h: Headers, b: nat, n: nat): Headers
    requires b in h && h[b].size >= n + HDR_SIZE
    requires h[b].next != 0 ==> h[b].next in h
  {
    var split := b + HDR_SIZE + n;
    var h1 := h[split := Block(h[b].size - n - HDR_SIZE, true, h[b].next, b)];
    var h2 := if h[b].next != 0 then h1[h[b].next := h1[h[b].next].(prev := split)] else h1;
    h2[b := Block(n, false, split, h[b].prev)]
  }

  lemma SplitLinks(h: Headers, cs: seq<Chunk>, k: nat, n: nat)
    requires Links(h, cs) && Ascending(cs) && k < |cs| && Fits(cs[k], n)
    requires cs[k].size >= n + HDR_SIZE + ALIGNMENT
    ensures h[cs[k].addr].next != 0 ==> h[cs[k].addr].next in h
    ensures Links(SplitWrites(h, cs[k].addr, n), AllocAt(cs, k, n))
  {
    var r := AllocAt(cs, k, n);
    if k + 1 < |cs| { LinkIs(h, cs, k + 1); }
    var h' := SplitWrites(h, cs[k].addr, n);
    forall i | 0 <= i < |r|
      ensures r[i].addr in h' && h'[r[i].addr] == HeaderOf(r, i)
    {
      SplitHeader(h, cs, k, n, i);
    }
  }

  lemma SplitIndex(cs: seq<Chunk>, k: nat, n: nat, i: int)
    requires k < |cs| && Fits(cs[k], n) && cs[k].size >= n + HDR_SIZE + ALIGNMENT
    ensures var r := AllocAt(cs, k, n);
      && |r| == |cs| + 1
      && r[k] == Chunk(cs[k].addr, n, false)
      && r[k + 1] == Chunk(cs[k].addr + HDR_SIZE + n, cs[k].size - n - HDR_SIZE, true)
      && (0 <= i < k ==> r[i] == cs[i])
      && (k + 1 < i < |r| ==> r[i] == cs[i - 1])
  {
  }

  lemma CoalesceIndex(cs: seq<Chunk>, k: nat, i: int)
    requires k + 1 < |cs| && cs[k].free && cs[k + 1].free
    ensures var r := Coalesce(cs, k);
      && |r| == |cs| - 1
      && r[k] == cs[k].(size := cs[k].size + HDR_SIZE + cs[k + 1].size)
      && (0 <= i < k ==> r[i] == cs[i])
      && (k < i < |r| ==> r[i] == cs[i + 1])
  {
  }

  /** The header at position i after a split. */
  lemma SplitHeader(h: Headers, cs: seq<Chunk>, k: nat, n: nat, i: nat)
    requires Links(h, cs) && Ascending(cs) && k < |cs| && Fits(cs[k], n)
    requires cs[k].size >= n + HDR_SIZE + ALIGNMENT
    requires h[cs[k].addr].next != 0 ==> h[cs[k].addr].next in h
    requires i < |AllocAt(cs, k, n)|
    ensures var h', r := SplitWrites(h, cs[k].addr, n), AllocAt(cs, k, n);
      r[i].addr in h' && h'[r[i].addr] == HeaderOf(r, i)
  {
    hide Links, Ascending, AllocAt, Carve;
    SplitIndex(cs, k, n, i - 1);
    SplitIndex(cs, k, n, i);
    SplitIndex(cs, k, n, i + 1);
    if k + 1 < |cs| { Apart(cs, k, k + 1); }
    LinkIs(h, cs, k);
    if i < k {
      LinkIs(h, cs, i);
      Apart(cs, i, k);
      if k + 1 < |cs| { Apart(cs, i, k + 1); }
    } else if i > k + 1 {
      LinkIs(h, cs, i - 1);
      Apart(cs, k, i - 1);
      if i > k + 2 { Apart(cs, k + 1, i - 1); }
    }
  }

  lemma LinkIs(h: Headers, cs: seq<Chunk>, i: nat)
    requires Links(h, cs) && i < |cs|
    ensures cs[i].addr in h && h[cs[i].addr] == HeaderOf(cs, i)
  {
  }

  lemma Apart(cs: seq<Chunk>, i: nat, j: nat)
    requires Ascending(cs) && i < j < |cs|
    ensures 0 < cs[i].addr && cs[i].End() <= cs[j].addr
  {
  }

  /** Changing only the free mark of one block. */
  lemma MarkLinks(h: Headers, cs: seq<Chunk>, k: nat, free: bool)
    requires Links(h, cs) && Ascending(cs) && k < |cs|
    ensures var b := cs[k].addr;
      Links(h[b := h[b].(free := free)], cs[k := cs[k].(free := free)])
  {
    var b := cs[k].addr;
    var h', r := h[b := h[b].(free := free)], cs[k := cs[k].(free := free)];
    forall i | 0 <= i < |r|
      ensures r[i].addr in h' && h'[r[i].addr] == HeaderOf(r, i)
    {
      hide HeaderOf, Ascending;
      MarkHeader(cs, k, free, i);
      OtherHeader(cs, k, i);
    }
  }

  lemma MarkHeader(cs: seq<Chunk>, k: nat, free: bool, i: nat)
    requires k < |cs| && i < |cs|
    ensures var r := cs[k := cs[k].(free := free)];
      r[i].addr == cs[i].addr
      && HeaderOf(r, i) == if i == k then HeaderOf(cs, i).(free := free) else HeaderOf(cs, i)
  {
  }

  lemma OtherHeader(cs: seq<Chunk>, k: nat, i: nat)
    requires Ascending(cs) && k < |cs| && i < |cs|
    ensures cs[i].addr == cs[k].addr <==> i == k
  {
    if i < k { assert cs[i].End() <= cs[k].addr; }
    if k < i { assert cs[k].End() <= cs[i].addr; }
  }

  /** The header writes of coalesce_with_next. */
  function MergeWrites(h: Headers, b: nat): Headers
    requires b in h && h[b].next in h && (h[h[b].next].next != 0 ==> h[h[b].next].next in h)
  {
    var n := h[h[b].next];
    var h1 := h[b := h[b].(size := h[b].size + HDR_SIZE + n.size, next := n.next)];
    if n.next != 0 then h1[n.next := h1[n.next].(prev := b)] else h1
  }

  lemma MergeLinks(h: Headers, cs: seq<Chunk>, k: nat)
    requires Links(h, cs) && Ascending(cs) && k + 1 < |cs| && cs[k].free && cs[k + 1].free
    ensures var b := cs[k].addr;
      && h[b].next == cs[k + 1].addr && h[b].next in h
      && (h[h[b].next].next != 0 ==> h[h[b].next].next in h)
      && Links(MergeWrites(h, b), Coalesce(cs, k))
  {
    var r := Coalesce(cs, k);
    LinkIs(h, cs, k);
    LinkIs(h, cs, k + 1);
    if k + 2 < |cs| { LinkIs(h, cs, k + 2); }
    var h' := MergeWrites(h, cs[k].addr);
    forall i | 0 <= i < |r|
      ensures r[i].addr in h' && h'[r[i].addr] == HeaderOf(r, i)
    {
      MergeHeader(h, cs, k, i);
    }
  }

  /** The header at position i after a merge. */
  lemma MergeHeader(h: Headers, cs: seq<Chunk>, k: nat, i: nat)
    requires Links(h, cs) && Ascending(cs) && k + 1 < |cs| && cs[k].free && cs[k + 1].free
    requires i < |Coalesce(cs, k)|
    requires cs[k].addr in h && h[cs[k].addr].next in h
    requires h[h[cs[k].addr].next].next != 0 ==> h[h[cs[k].addr].next].next in h
    ensures var h', r := MergeWrites(h, cs[k].addr), Coalesce(cs, k);
      r[i].addr in h' && h'[r[i].addr] == HeaderOf(r, i)
  {
    hide Links, Ascending, Coalesce;
    CoalesceIndex(cs, k, i - 1);
    CoalesceIndex(cs, k, i);
    CoalesceIndex(cs, k, i + 1);
    Apart(cs, k, k + 1);
    if k + 2 < |cs| {
      Apart(cs, k, k + 2);
      LinkIs(h, cs, k + 2);
    }
    LinkIs(h, cs, k);
    LinkIs(h, cs, k + 1);
    if i < k {
      LinkIs(h, cs, i);
      Apart(cs, i, k);
      if k + 2 < |cs| { Apart(cs, i, k + 2); }
    } else if i > k {
      LinkIs(h, cs, i + 1);
      Apart(cs, k, i + 1);
      if i > k + 1 { Apart(cs, k + 2, i + 1); }
    }
  }

  // ---------- payload bytes ----------

  type Bytes = int -> nat

  /** memset(p, 0, n) */
  function Zeroed(m: Bytes, p: nat, n: nat): Bytes {
    a => if p <= a < p + n then 0 else m(a)
  }

  /** memcpy(dst, src, n) between ranges that do not overlap */
  function Copied(m: Bytes, dst: nat, src: nat, n: nat): Bytes {
    a => if dst <= a < dst + n then m(src + (a - dst)) else m(a)
  }

  /** The first n bytes at `from` are now at `to`, and no byte outside that target has changed. */
  ghost predicate Moved(before: Bytes, after: Bytes, to: nat, from: nat, n: nat) {
    forall a :: after(a) == if to <= a < to + n then before(from + (a - to)) else before(a)
  }

  lemma CopiedMoves(bytes: Bytes, to: nat, from: nat, n: nat)
    ensures Moved(bytes, Copied(bytes, to, from, n), to, from, n)
  {
  }

  const MIB: nat := 1024 * 1024

  /** The sizes heap_init asks for, one after the other: halved while at least HEAP_MIN. */
  const WISHES: seq<nat> := [768 * MIB, 384 * MIB, 192 * MIB, 96 * MIB, 48 * MIB, 24 * MIB]

  ghost predicate FirstGrant(grant: nat -> nat, i: nat)
    requires i < 6
  {
    grant(WishPages(i)) != 0 && forall j :: 0 <= j < i ==> grant(WishPages(j)) == 0
  }

  /** What is asked for: 768 MiB, then half of it, down to 24 MiB, in pages; half of that is below the smallest
      heap. */
  lemma WishesAre()
    ensures WishPages(0) == 196608 && WishPages(5) * 4096 == 24 * 1024 * 1024
    ensures forall i :: 0 <= i < 5 ==> WishPages(i) == 2 * WishPages(i + 1)
    ensures 16 * 1024 * 1024 <= WishPages(5) * 4096 < 2 * (16 * 1024 * 1024)
  {
  }

  function WishPages(i: nat): nat
    requires i < 6
  {
    WISHES[i] / PAGE_SIZE
  }

  class KernelHeap {
    var head: nat
    var totalSize: nat
    var usedSize: nat
    var headers: Headers
    var bytes: Bytes

    /** The block list in address order. */
    ghost var chunks: seq<Chunk>

    ghost predicate Valid()
      reads `head, `totalSize, `usedSize, `headers, `chunks
    {
      && (head == 0 <==> chunks == [])
      && (head != 0 ==> Good(chunks, head, totalSize) && Links(headers, chunks))
      && usedSize == UsedSize(chunks)
    }

    constructor ()
      ensures Valid() && chunks == []
    {
      head, totalSize, usedSize, headers, bytes, chunks := 0, 0, 0, map[], _ => 0, [];
    }

    lemma ValidAscends()
      requires Valid()
      ensures Ascending(chunks) && (chunks != [] ==> chunks[0].addr == head && Good(chunks, head, totalSize))
      ensures Links(headers, chunks)
    {
      if chunks != [] { TilesAscend(chunks, head, head + totalSize); }
    }

    /** malloc. It returns NULL exactly for size 0, before heap_init, or when no free block has
        the rounded size; otherwise the first such block is carved. */
    method Malloc(size: nat) returns (p: nat)
      requires Valid() && size < SIZE_LIMIT
      modifies `headers, `chunks, `usedSize
      ensures Valid()
      ensures p == 0 <==> size == 0 || FirstFit(old(chunks), Rounded(size)) == |old(chunks)|
      ensures p == 0 ==> chunks == old(chunks)
      ensures p != 0 ==>
        var k := FirstFit(old(chunks), Rounded(size));
        && chunks == AllocAt(old(chunks), k, Rounded(size))
        && k < |chunks| && p == chunks[k].Payload() && !chunks[k].free
        && p == old(chunks)[k].Payload()
    {
      hide Good, Links, Ascending, AllocAt, Rounded, Valid, FirstFit;
      NoHeap(Rounded(size));
      if size == 0 || head == 0 {
        return 0;
      }
      var n := Rounded(size);
      ValidAscends();
      RoundedIs(size);
      var b := head;
      ghost var k := 0;
      while b != 0
        invariant Links(headers, chunks) && chunks == old(chunks) && Valid() && Ascending(chunks)
        invariant k <= |chunks| && b == if k < |chunks| then chunks[k].addr else 0
        invariant forall i :: 0 <= i < k ==> !Fits(chunks[i], n)
        decreases |chunks| - k
      {
        LinkAt(k);
        if headers[b].free && headers[b].size >= n {
          FirstFitIs(chunks, n, k);
          CarvedExactly(chunks, k, n);
          Take(b, k, n);
          return b + HDR_SIZE;
        }
        b := headers[b].next;
        k := k + 1;
      }
      FirstFitIs(chunks, n, k);
      return 0;
    }

    lemma NoHeap(n: nat)
      requires Valid()
      ensures head == 0 ==> chunks == [] && FirstFit(chunks, n) == |chunks|
      ensures head != 0 ==> chunks != [] && chunks[0].addr == head
    {
    }

    /** Marking a free block used, split if it is big enough. */
    method Take(b: nat, ghost k: nat, n: nat)
      requires Valid() && k < |chunks| && chunks[k].addr == b && Fits(chunks[k], n) && n % ALIGNMENT == 0
      modifies `headers, `chunks, `usedSize
      ensures Valid() && chunks == AllocAt(old(chunks), k, n)
    {
      hide Good, Links, Ascending;
      ValidAscends();
      LinkAt(k);
      AllocGood(chunks, head, totalSize, k, n);
      UsedAfterAlloc(chunks, k, n);
      if headers[b].size >= n + HDR_SIZE + ALIGNMENT {
        SplitLinks(headers, chunks, k, n);
        headers := SplitWrites(headers, b, n);
      } else {
        MarkLinks(headers, chunks, k, false);
        headers := headers[b := headers[b].(free := false)];
        assert chunks[k := chunks[k].(free := false)] == AllocAt(chunks, k, n);
      }
      chunks := AllocAt(chunks, k, n);
      assert headers[b].size == Carve(old(chunks)[k], n)[0].size;
      usedSize := usedSize + headers[b].size + HDR_SIZE;
    }

    lemma LinkAt(k: nat)
      requires Links(headers, chunks) && Ascending(chunks) && k < |chunks|
      ensures chunks[k].addr in headers && headers[chunks[k].addr] == HeaderOf(chunks, k)
      ensures chunks[k].addr > 0 && (k + 1 < |chunks| ==> chunks[k + 1].addr > 0)
    {
    }

    // ---------- free ----------

    /** coalesce_with_next(b), where b is the block at position k. */
    method CoalesceWithNext(b: nat, ghost k: nat)
      requires Links(headers, chunks) && Ascending(chunks) && k < |chunks| && chunks[k].addr == b
      modifies `headers, `chunks
      ensures Links(headers, chunks) && chunks == Coalesce(old(chunks), k)
    {
      hide Links, Ascending;
      LinkAt(k);
      if k + 1 < |chunks| { LinkAt(k + 1); }
      var n := headers[b].next;
      if n != 0 && headers[n].free && headers[b].free {
        MergeLinks(headers, chunks, k);
        headers := MergeWrites(headers, b);
      }
      chunks := Coalesce(chunks, k);
    }

    ghost predicate Owns(p: nat)
      reads `chunks
    {
      exists k :: 0 <= k < |chunks| && p == chunks[k].Payload()
    }

    /** free. The pointer is NULL or the payload of a block of the list; a block that is already
        free is reported and left alone. */
    method Free(p: nat)
      requires Valid() && (p == 0 || Owns(p))
      modifies `headers, `chunks, `usedSize
      ensures Valid()
      ensures chunks == if p < HDR_SIZE then old(chunks) else HeapLayout.Free(old(chunks), p - HDR_SIZE)
    {
      hide Good, Links, Ascending, Valid, Owns, HeapLayout.Free, FreeAt;
      if p == 0 {
        return;
      }
      ghost var k := OwnerOf(p);
      var b := p - HDR_SIZE;
      ValidAscends();
      LinkAt(k);
      FreeIs(chunks, k);
      if headers[b].free {
        return;
      }
      Release(b, k);
    }

    lemma OwnerOf(p: nat) returns (k: nat)
      requires Owns(p)
      ensures k < |chunks| && p == chunks[k].Payload()
    {
      k :| k < |chunks| && p == chunks[k].Payload();
    }

    /** The part of free that changes the list. */
    method Release(b: nat, ghost k: nat)
      requires Valid() && k < |chunks| && chunks[k].addr == b && !chunks[k].free
      modifies `headers, `chunks, `usedSize
      ensures Valid() && chunks == FreeAt(old(chunks), k)
    {
      hide Good, Links, Ascending, Valid;
      ghost var cs := chunks;
      ValidParts();
      ValidAscends();
      FreeGood(chunks, head, totalSize, k);
      UsedAfterFree(chunks, k);
      LinkAt(k);
      MarkLinks(headers, chunks, k, true);
      MarkAscends(chunks, k, true);
      headers := headers[b := headers[b].(free := true)];
      chunks := chunks[k := chunks[k].(free := true)];
      usedSize := usedSize - (headers[b].size + HDR_SIZE);
      CoalesceAscends(chunks, k);
      CoalesceWithNext(b, k);
      LinkAt(k);
      if k > 0 { LinkAt(k - 1); }
      var prev := headers[b].prev;
      if prev != 0 && headers[prev].free {
        CoalesceWithNext(prev, k - 1);
      }
      MakeValid();
    }

    lemma ValidParts()
      requires Valid()
      ensures usedSize == UsedSize(chunks)
      ensures chunks != [] ==> head != 0 && Good(chunks, head, totalSize)
    {
    }

    lemma MakeValid()
      requires head != 0 && Good(chunks, head, totalSize) && Links(headers, chunks)
      requires usedSize == UsedSize(chunks)
      ensures Valid()
    {
    }

    // ---------- heap_init, calloc, realloc ----------

    /** heap_init: halves the wish until the page allocator grants it. `grant` says what the page
        allocator answers to a request for that many pages, `hhdm` is the offset of the direct map. */
    method HeapInit(grant: nat -> nat, hhdm: nat)
      requires Valid() && head == 0 && hhdm > 0 && hhdm % PAGE_SIZE == 0
      requires forall n :: grant(n) % PAGE_SIZE == 0
      modifies this
      ensures Valid()
      ensures chunks == [] <==> forall i :: 0 <= i < 6 ==> grant(WishPages(i)) == 0
      ensures forall i :: 0 <= i < 6 && FirstGrant(grant, i) ==>
        && totalSize == WishPages(i) * PAGE_SIZE
        && chunks == [Chunk(grant(WishPages(i)) + hhdm, totalSize - HDR_SIZE, true)]
    {
      var want := HEAP_MAX;
      var phys := 0;
      ghost var i := 0;
      while want >= HEAP_MIN
        invariant i <= 6 && want == (if i < 6 then WISHES[i] else 12 * MIB) && phys == 0
        invariant forall j :: 0 <= j < i ==> grant(WishPages(j)) == 0
        decreases want
      {
        phys := grant(want / PAGE_SIZE);
        if phys != 0 {
          break;
        }
        want := want / 2;
        i := i + 1;
      }
      if phys == 0 {
        return;
      }
      RegionAligned(phys, hhdm, want, i);
      head := phys + hhdm;
      headers := headers[head := Block(want - HDR_SIZE, true, 0, 0)];
      totalSize := want;
      usedSize := 0;
      chunks := [Chunk(head, want - HDR_SIZE, true)];
      OneTiles(chunks[0]);
      assert UsedSize(chunks) == 0 && Aligned(chunks) && Merged(chunks);
    }

    /** calloc: refuses products that do not fit in 64 bits, and clears what malloc returns. */
    method Calloc(num: nat, size: nat) returns (p: nat)
      requires Valid() && num < SIZE_LIMIT && size < SIZE_LIMIT
      modifies `headers, `chunks, `usedSize, `bytes
      ensures Valid()
      ensures p == 0 <==>
        num * size >= SIZE_LIMIT || num * size == 0
        || FirstFit(old(chunks), Rounded(num * size)) == |old(chunks)|
      ensures p == 0 ==> chunks == old(chunks) && bytes == old(bytes)
      ensures p != 0 ==>
        var k := FirstFit(old(chunks), Rounded(num * size));
        && chunks == AllocAt(old(chunks), k, Rounded(num * size))
        && k < |chunks| && p == chunks[k].Payload()
        && forall a :: bytes(a) == if p <= a < p + num * size then 0 else old(bytes)(a)
    {
      hide Valid, AllocAt, Rounded, FirstFit;
      ProductFits(num, size);
      if num != 0 && size > (SIZE_LIMIT - 1) / num {
        return 0;
      }
      var total := num * size;
      p := Malloc(total);
      if p != 0 {
        bytes := Zeroed(bytes, p, total);
      }
    }

    /** realloc of NULL, or of a live block, for a size that rounds without wrapping. A block that
        is big enough is returned as it is; otherwise the contents move to a new block, or, if
        there is none, everything stays as it was. */
    method Realloc(p: nat, size: nat, ghost k: nat) returns (np: nat)
      requires Valid() && size <= SIZE_LIMIT - ALIGNMENT
      requires p != 0 ==> k < |chunks| && p == chunks[k].Payload() && !chunks[k].free
      modifies `headers, `chunks, `usedSize, `bytes
      ensures Valid()
      ensures p != 0 && size == 0 ==>
        np == 0 && chunks == HeapLayout.Free(old(chunks), p - HDR_SIZE) && bytes == old(bytes)
      ensures p != 0 && 0 < size <= old(chunks)[k].size ==>
        np == p && chunks == old(chunks) && bytes == old(bytes)
      ensures p != 0 && size > old(chunks)[k].size ==>
        var j := FirstFit(old(chunks), Rounded(size));
        if j == |old(chunks)| then np == 0 && chunks == old(chunks) && bytes == old(bytes)
        else
          && np == old(chunks)[j].Payload()
          && chunks == HeapLayout.Free(AllocAt(old(chunks), j, Rounded(size)), p - HDR_SIZE)
          && Moved(old(bytes), bytes, np, p, old(chunks)[k].size)
      ensures p == 0 ==>
        && bytes == old(bytes)
        && (np == 0 <==> size == 0 || FirstFit(old(chunks), Rounded(size)) == |old(chunks)|)
        && (np == 0 ==> chunks == old(chunks))
      ensures p == 0 && np != 0 ==>
        var j := FirstFit(old(chunks), Rounded(size));
        chunks == AllocAt(old(chunks), j, Rounded(size)) && np == old(chunks)[j].Payload()
    {
      hide Good, Links, Ascending, Valid, Owns, AllocAt, Rounded, HeapLayout.Free, FirstFit, Moved, Copied;
      if p == 0 {
        np := Malloc(size);
        return;
      }
      ValidAscends();
      assert Owns(p) by { OwnsAt(k); }
      if size == 0 {
        Free(p);
        return 0;
      }
      var b := p - HDR_SIZE;
      LinkAt(k);
      if headers[b].size >= size {
        return p;
      }
      var oldSize := headers[b].size;
      ghost var cs := chunks;
      np := Malloc(size);
      if np != 0 {
        CopiedMoves(bytes, np, p, oldSize);
        bytes := Copied(bytes, np, p, oldSize);
        ghost var i := StillListed(cs, FirstFit(cs, Rounded(size)), Rounded(size), k);
        OwnsAt(i);
        Free(p);
      }
    }

    lemma OwnsAt(k: nat)
      requires k < |chunks|
      ensures Owns(chunks[k].Payload())
    {
    }
  }

  /** A live block is still in the list after another one has been carved. */
  lemma StillListed(cs: seq<Chunk>, j: nat, n: nat, k: nat) returns (i: nat)
    requires j < |cs| && Fits(cs[j], n) && k < |cs| && !cs[k].free
    ensures i < |AllocAt(cs, j, n)| && AllocAt(cs, j, n)[i] == cs[k]
  {
    i := if k < j then k else k + |Carve(cs[j], n)| - 1;
  }

  lemma RegionAligned(phys: nat, hhdm: nat, want: nat, i: nat)
    requires phys % PAGE_SIZE == 0 && hhdm % PAGE_SIZE == 0 && i < 6 && want == WISHES[i]
    ensures (phys + hhdm) % ALIGNMENT == 0 && (want - HDR_SIZE) % ALIGNMENT == 0
    ensures want == WishPages(i) * PAGE_SIZE
  {
    var a, b := phys / PAGE_SIZE, hhdm / PAGE_SIZE;
    assert phys + hhdm == ALIGNMENT * (256 * (a + b));
  }

  /** The overflow test of calloc is exact. */
  lemma ProductFits(num: nat, size: nat)
    ensures num * size >= SIZE_LIMIT <==> num != 0 && size > (SIZE_LIMIT - 1) / num
  {
    if num != 0 {
      var q := (SIZE_LIMIT - 1) / num;
      assert num * q <= SIZE_LIMIT - 1 < num * q + num;
      if size > q { MulGrows(num, q + 1, size); } else { MulGrows(num, size, q); }
      assert num * (q + 1) == num * q + num;
    }
  }

  lemma MulGrows(c: nat, a: nat, b: nat)
    requires a <= b
    ensures c * a <= c * b
  {
  }

  lemma LiveAtIs(cs: seq<Chunk>, k: nat)
    requires Ascending(cs) && k < |cs| && !cs[k].free
    ensures LiveAt(cs, cs[k].addr) == k
  {
    var l := LiveAt(cs, cs[k].addr);
    if l < k { Apart(cs, l, k); }
  }

  lemma LiveAtFree(cs: seq<Chunk>, k: nat)
    requires Ascending(cs) && k < |cs| && cs[k].free
    ensures LiveAt(cs, cs[k].addr) == |cs|
  {
    var l := LiveAt(cs, cs[k].addr);
    if l < |cs| {
      if l < k { Apart(cs, l, k); }
      if k < l { Apart(cs, k, l); }
    }
  }

  /** free of a listed block: released if it is live, left alone if not. */
  lemma FreeIs(cs: seq<Chunk>, k: nat)
    requires Ascending(cs) && k < |cs|
    ensures HeapLayout.Free(cs, cs[k].addr) == if cs[k].free then cs else FreeAt(cs, k)
  {
    hide Ascending, FreeAt;
    if cs[k].free {
      LiveAtFree(cs, k);
    } else {
      LiveAtIs(cs, k);
    }
  }

  lemma MarkAscends(cs: seq<Chunk>, k: nat, free: bool)
    requires Ascending(cs) && k < |cs|
    ensures Ascending(cs[k := cs[k].(free := free)])
  {
  }

  lemma CoalesceAscends(cs: seq<Chunk>, k: nat)
    requires Ascending(cs) && k < |cs|
    ensures Ascending(Coalesce(cs, k)) && k < |Coalesce(cs, k)|
    ensures Coalesce(cs, k)[k].addr == cs[k].addr
    ensures k > 0 ==> Coalesce(cs, k)[k - 1] == cs[k - 1]
  {
    hide Coalesce;
    var r := Coalesce(cs, k);
    CoalescedAt(cs, k, k);
    if k > 0 { CoalescedAt(cs, k, k - 1); }
    forall i | 0 <= i < |r|
      ensures r[i].addr > 0
    {
      CoalescedAt(cs, k, i);
    }
    forall i, j | 0 <= i < j < |r|
      ensures r[i].End() <= r[j].addr
    {
      CoalescedAt(cs, k, i);
      CoalescedAt(cs, k, j);
    }
  }

  /** A block after a merge starts where one did before and ends no later than one did. */
  lemma CoalescedAt(cs: seq<Chunk>, k: nat, i: nat)
    requires Ascending(cs) && k < |cs| && i < |cs|
    ensures var r := Coalesce(cs, k);
      && k < |r| <= |cs| && |cs| <= |r| + 1
      && (i < k ==> r[i] == cs[i])
      && (i == k ==> r[i].addr == cs[i].addr && r[i].End() <= cs[i + |cs| - |r|].End())
      && (k < i < |r| ==> r[i] == cs[i + |cs| - |r|])
  {
  }

  lemma FirstFitIs(cs: seq<Chunk>, n: nat, k: nat)
    requires k <= |cs| && (forall i :: 0 <= i < k ==> !Fits(cs[i], n)) && (k < |cs| ==> Fits(cs[k], n))
    ensures FirstFit(cs, n) == k
  {
    var f := FirstFit(cs, n);
    assert !(f < k) && !(k < f);
  }
}
