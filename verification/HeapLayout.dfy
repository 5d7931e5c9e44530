/** The block list of kernel/src/heap.c as a value: the blocks in address order. A heap without
    adjacent free blocks is determined by its live blocks alone, and from that the behaviour of
    malloc and free over any sequence of calls follows. */
module HeapLayout {

  const HDR_SIZE: nat := 32
  const ALIGNMENT: nat := 16
  const SIZE_LIMIT: nat := 0x1_0000_0000_0000_0000

  /** A block: the address of its header, the size of its payload, and whether it is free. */
  datatype Chunk = Chunk(addr: nat, size: nat, free: bool) {
    function Payload(): nat { addr + HDR_SIZE }
    function End(): nat { addr + HDR_SIZE + size }
  }

  // ---------- what a good heap is ----------

  /** The chunks follow one another without gap or overlap from `lo` to `hi`. */
  ghost predicate Tiles(cs: seq<Chunk>, lo: nat, hi: nat) {
    if cs == [] then lo == hi
    else cs[0].addr == lo && Tiles(cs[1..], cs[0].End(), hi)
  }

  ghost predicate Aligned(cs: seq<Chunk>) {
    forall c :: c in cs ==> c.addr % ALIGNMENT == 0 && c.size % ALIGNMENT == 0
  }

  /** No two neighbours are both free. */
  ghost predicate Merged(cs: seq<Chunk>) {
    forall i :: 0 <= i < |cs| - 1 ==> !(cs[i].free && cs[i + 1].free)
  }

  ghost predicate Good(cs: seq<Chunk>, base: nat, total: nat) {
    cs != [] && Tiles(cs, base, base + total) && Aligned(cs) && Merged(cs)
  }

  ghost function Live(cs: seq<Chunk>): set<Chunk> {
    set c | c in cs && !c.free
  }

  function UsedSize(cs: seq<Chunk>): nat {
    if cs == [] then 0
    else (if cs[0].free then 0 else cs[0].size + HDR_SIZE) + UsedSize(cs[1..])
  }

  function TotalSize(cs: seq<Chunk>): nat {
    if cs == [] then 0 else cs[0].size + HDR_SIZE + TotalSize(cs[1..])
  }

  // ---------- tiling ----------

  lemma {:induction false} TilesAppend(a: seq<Chunk>, b: seq<Chunk>, lo: nat, mid: nat, hi: nat)
    requires Tiles(a, lo, mid) && Tiles(b, mid, hi)
    ensures Tiles(a + b, lo, hi)
  {
    if a == [] {
      assert a + b == b;
    } else {
      TilesAppend(a[1..], b, a[0].End(), mid, hi);
      assert (a + b)[1..] == a[1..] + b;
    }
  }

  lemma {:induction false} TilesSplit(cs: seq<Chunk>, lo: nat, hi: nat, k: nat) returns (mid: nat)
    requires Tiles(cs, lo, hi) && k <= |cs|
    ensures lo <= mid <= hi && Tiles(cs[..k], lo, mid) && Tiles(cs[k..], mid, hi)
    ensures k < |cs| ==> mid == cs[k].addr
    decreases k
  {
    if k == 0 {
      assert cs[0..] == cs && cs[..0] == [];
      mid := lo;
      TilesUp(cs, lo, hi);
    } else {
      mid := TilesSplit(cs[1..], cs[0].End(), hi, k - 1);
      assert cs[1..][..k - 1] == cs[..k][1..] && cs[1..][k - 1..] == cs[k..];
    }
  }

  lemma {:induction false} TilesUp(cs: seq<Chunk>, lo: nat, hi: nat)
    requires Tiles(cs, lo, hi)
    ensures lo <= hi && (cs != [] ==> lo + HDR_SIZE <= hi)
    ensures forall c :: c in cs ==> lo <= c.addr && c.End() <= hi
  {
    if cs != [] {
      TilesUp(cs[1..], cs[0].End(), hi);
      assert forall c :: c in cs ==> c == cs[0] || c in cs[1..];
    }
  }

  /** Chunks at different positions do not overlap, headers included. */
  lemma TilesApart(cs: seq<Chunk>, lo: nat, hi: nat, i: nat, j: nat)
    requires Tiles(cs, lo, hi) && i < j < |cs|
    ensures cs[i].End() <= cs[j].addr
  {
    var mid := TilesSplit(cs, lo, hi, j);
    TilesUp(cs[..j], lo, mid);
    assert cs[i] in cs[..j];
  }

  lemma TilesNext(cs: seq<Chunk>, lo: nat, hi: nat, i: nat)
    requires Tiles(cs, lo, hi) && i < |cs|
    ensures cs[i].End() == if i + 1 < |cs| then cs[i + 1].addr else hi
  {
    var mid := TilesSplit(cs, lo, hi, i);
    var mid' := TilesSplit(cs, lo, hi, i + 1);
    assert cs[i..][0] == cs[i] && cs[i..][1..] == cs[i + 1..];
    if i + 1 == |cs| {
      assert cs[i + 1..] == [];
    } else {
      assert cs[i + 1..][0] == cs[i + 1];
    }
  }

  // ---------- the live blocks determine the heap ----------

  /** Two tilings of the same region without adjacent free chunks and with the same live chunks
      are the same. */
  lemma {:induction false} LiveDetermines(cs: seq<Chunk>, ds: seq<Chunk>, lo: nat, hi: nat)
    requires Tiles(cs, lo, hi) && Merged(cs)
    requires Tiles(ds, lo, hi) && Merged(ds)
    requires Live(cs) == Live(ds)
    ensures cs == ds
  {
    TilesUp(cs, lo, hi);
    TilesUp(ds, lo, hi);
    if cs != [] && ds != [] {
      SameHead(cs, ds, lo, hi);
      assert Merged(cs[1..]) && Merged(ds[1..]);
      LiveTail(cs, lo, hi);
      LiveTail(ds, lo, hi);
      LiveDetermines(cs[1..], ds[1..], cs[0].End(), hi);
    }
  }

  lemma LiveTail(cs: seq<Chunk>, lo: nat, hi: nat)
    requires Tiles(cs, lo, hi) && cs != []
    ensures Live(cs[1..]) == Live(cs) - {cs[0]}
  {
    TilesUp(cs[1..], cs[0].End(), hi);
    assert forall c :: c in cs <==> c == cs[0] || c in cs[1..];
  }

  lemma SameHead(cs: seq<Chunk>, ds: seq<Chunk>, lo: nat, hi: nat)
    requires Tiles(cs, lo, hi) && Merged(cs) && cs != []
    requires Tiles(ds, lo, hi) && Merged(ds) && ds != []
    requires Live(cs) == Live(ds)
    ensures cs[0] == ds[0]
  {
    TilesUp(cs[1..], cs[0].End(), hi);
    TilesUp(ds[1..], ds[0].End(), hi);
    if !cs[0].free {
      assert cs[0] in Live(ds);
    } else if !ds[0].free {
      assert ds[0] in Live(cs);
    } else {
      FreeHeadEnds(cs, ds, lo, hi);
      FreeHeadEnds(ds, cs, lo, hi);
    }
  }

  /** A free first chunk reaches up to the first live one, or to the end. */
  lemma FreeHeadEnds(cs: seq<Chunk>, ds: seq<Chunk>, lo: nat, hi: nat)
    requires Tiles(cs, lo, hi) && Merged(cs) && cs != [] && cs[0].free
    requires Tiles(ds, lo, hi) && ds != [] && ds[0].free
    requires Live(cs) == Live(ds)
    ensures ds[0].End() <= cs[0].End()
  {
    TilesUp(ds, lo, hi);
    TilesUp(ds[1..], ds[0].End(), hi);
    if |cs| > 1 {
      assert !cs[1].free && cs[1] in cs;
      assert cs[1] in Live(ds) && cs[1] in ds[1..];
      assert cs[1..][0] == cs[1];
    }
  }

  /** With nothing live, the heap is one free block. */
  lemma NothingLive(cs: seq<Chunk>, base: nat, total: nat)
    requires Good(cs, base, total) && Live(cs) == {}
    ensures total >= HDR_SIZE && cs == [Chunk(base, total - HDR_SIZE, true)]
  {
    TilesUp(cs, base, base + total);
    var one := [Chunk(base, total - HDR_SIZE, true)];
    assert Tiles(one[1..], base + total, base + total);
    assert Live(one) == {};
    LiveDetermines(cs, one, base, base + total);
  }

  // ---------- malloc ----------

  /** The size malloc works with: 64-bit arithmetic, rounded up to the alignment. */
  function Rounded(size: nat): nat {
    (size + ALIGNMENT - 1) % SIZE_LIMIT / ALIGNMENT * ALIGNMENT
  }

  lemma RoundedIs(size: nat)
    requires size < SIZE_LIMIT
    ensures Rounded(size) % ALIGNMENT == 0
    ensures Rounded(size) >= size <==> size <= SIZE_LIMIT - ALIGNMENT
    ensures size <= SIZE_LIMIT - ALIGNMENT ==> Rounded(size) < size + ALIGNMENT
  {
  }

  predicate Fits(c: Chunk, n: nat) { c.free && c.size >= n }

  function FirstFit(cs: seq<Chunk>, n: nat): (k: nat)
    ensures k <= |cs| && (k < |cs| ==> Fits(cs[k], n))
    ensures forall i :: 0 <= i < k ==> !Fits(cs[i], n)
  {
    if cs == [] || Fits(cs[0], n) then 0 else 1 + FirstFit(cs[1..], n)
  }

  /** The blocks that take the place of a free one: it is split if the rest can hold a header and
      a minimal payload. */
  function Carve(c: Chunk, n: nat): (r: seq<Chunk>)
    requires Fits(c, n)
    ensures r != [] && r[0].addr == c.addr && !r[0].free && r[0].size >= n
  {
    if c.size >= n + HDR_SIZE + ALIGNMENT then
      [Chunk(c.addr, n, false), Chunk(c.addr + HDR_SIZE + n, c.size - n - HDR_SIZE, true)]
    else [c.(free := false)]
  }

  function AllocAt(cs: seq<Chunk>, k: nat, n: nat): seq<Chunk>
    requires k < |cs| && Fits(cs[k], n)
  {
    cs[..k] + Carve(cs[k], n) + cs[k + 1..]
  }

  /** What malloc hands out is no larger than asked for when what is left can hold a header and sixteen bytes;
      then the rest stays behind as one free block. Otherwise the whole block goes. */
  lemma CarvedExactly(cs: seq<Chunk>, k: nat, n: nat)
    requires k < |cs| && Fits(cs[k], n)
    ensures var r, c := AllocAt(cs, k, n), cs[k];
      && r[..k] == cs[..k] && r[k].addr == c.addr && !r[k].free
      && (c.size >= n + 48 ==>
            && |r| == |cs| + 1 && r[k].size == n && r[k + 2..] == cs[k + 1..]
            && r[k + 1] == Chunk(c.addr + 32 + n, c.size - n - 32, true))
      && (c.size < n + 48 ==> |r| == |cs| && r[k].size == c.size && r[k + 1..] == cs[k + 1..])
  {
  }

  /** malloc(100) on an untouched heap of 16 MiB: 112 bytes behind a header of 32. */
  lemma FirstMalloc(base: nat)
    ensures var cs := [Chunk(base, 16777184, true)];
      && Rounded(100) == 112 && FirstFit(cs, 112) == 0
      && AllocAt(cs, 0, 112) == [Chunk(base, 112, false), Chunk(base + 144, 16777040, true)]
      && cs[0].Payload() == base + 32
  {
  }

  lemma AlignedAppend(a: seq<Chunk>, b: seq<Chunk>)
    ensures Aligned(a + b) <==> Aligned(a) && Aligned(b)
  {
    forall c
      ensures c in a + b <==> c in a || c in b
    {
    }
  }

  lemma LiveAppend(a: seq<Chunk>, b: seq<Chunk>)
    ensures Live(a + b) == Live(a) + Live(b)
  {
  }

  lemma AllocAligned(cs: seq<Chunk>, k: nat, n: nat)
    requires Aligned(cs) && k < |cs| && Fits(cs[k], n) && n % ALIGNMENT == 0
    ensures Aligned(AllocAt(cs, k, n))
  {
    hide Aligned;
    assert cs == cs[..k] + [cs[k]] + cs[k + 1..];
    AlignedAppend(cs[..k] + [cs[k]], cs[k + 1..]);
    AlignedAppend(cs[..k], [cs[k]]);
    AlignedAppend(cs[..k] + Carve(cs[k], n), cs[k + 1..]);
    AlignedAppend(cs[..k], Carve(cs[k], n));
    CarveAligned(cs[k], n);
  }

  lemma CarveAligned(c: Chunk, n: nat)
    requires Aligned([c]) && Fits(c, n) && n % ALIGNMENT == 0
    ensures Aligned(Carve(c, n))
  {
    assert c in [c];
  }

  lemma AllocGood(cs: seq<Chunk>, base: nat, total: nat, k: nat, n: nat)
    requires Good(cs, base, total) && k < |cs| && Fits(cs[k], n) && n % ALIGNMENT == 0
    ensures var r := AllocAt(cs, k, n);
      && Good(r, base, total) && k < |r| && r[k] == Carve(cs[k], n)[0]
      && Live(r) == Live(cs) + {r[k]} && r[k] !in Live(cs)
  {
    hide Tiles, Aligned, Merged, Live, Carve;
    AllocTiles(cs, base, base + total, k, n);
    AllocMerged(cs, k, n);
    AllocAligned(cs, k, n);
    AllocLive(cs, base, total, k, n);
  }

  lemma AllocTiles(cs: seq<Chunk>, lo: nat, hi: nat, k: nat, n: nat)
    requires Tiles(cs, lo, hi) && k < |cs| && Fits(cs[k], n)
    ensures Tiles(AllocAt(cs, k, n), lo, hi)
  {
    hide Tiles, Carve;
    var carved := Carve(cs[k], n);
    var mid := TilesSplit(cs, lo, hi, k);
    var top := TilesSplit(cs, lo, hi, k + 1);
    TilesNext(cs, lo, hi, k);
    CarveTiles(cs[k], n);
    TilesSplitEnd(cs, lo, hi, k, top);
    TilesAppend(cs[..k], carved, lo, mid, top);
    TilesAppend(cs[..k] + carved, cs[k + 1..], lo, top, hi);
  }

  lemma TilesSplitEnd(cs: seq<Chunk>, lo: nat, hi: nat, k: nat, top: nat)
    requires Tiles(cs, lo, hi) && k < |cs| && Tiles(cs[k + 1..], top, hi) && Tiles(cs[..k + 1], lo, top)
    ensures top == cs[k].End()
  {
    var mid := TilesSplit(cs[..k + 1], lo, top, k);
    assert cs[..k + 1][k..] == [cs[k]];
    assert Tiles([cs[k]], mid, top) && [cs[k]][1..] == [];
  }

  lemma CarveTiles(c: Chunk, n: nat)
    requires Fits(c, n)
    ensures Tiles(Carve(c, n), c.addr, c.End())
  {
    var r := Carve(c, n);
    if |r| == 2 {
      assert Tiles(r[1..][1..], c.End(), c.End());
    } else {
      assert Tiles(r[1..], c.End(), c.End());
    }
  }

  lemma AllocMerged(cs: seq<Chunk>, k: nat, n: nat)
    requires Merged(cs) && k < |cs| && Fits(cs[k], n)
    ensures Merged(AllocAt(cs, k, n))
  {
    var r, carved := AllocAt(cs, k, n), Carve(cs[k], n);
    var d := |carved|;
    forall i | 0 <= i < |r| - 1
      ensures !(r[i].free && r[i + 1].free)
    {
      if i + 1 < k {
        assert r[i] == cs[i] && r[i + 1] == cs[i + 1];
      } else if i >= k + d {
        assert r[i] == cs[i - d + 1] && r[i + 1] == cs[i - d + 2];
      } else if i == k + d - 1 {
        assert r[i + 1] == cs[k + 1];
      }
    }
  }

  lemma AllocLive(cs: seq<Chunk>, base: nat, total: nat, k: nat, n: nat)
    requires Tiles(cs, base, base + total) && k < |cs| && Fits(cs[k], n)
    ensures var r := AllocAt(cs, k, n);
      Live(r) == Live(cs) + {r[k]} && r[k] !in Live(cs)
  {
    var r, carved := AllocAt(cs, k, n), Carve(cs[k], n);
    assert r[k] == carved[0];
    assert cs == cs[..k] + [cs[k]] + cs[k + 1..];
    assert forall c :: c in r <==> c in cs[..k] || c in carved || c in cs[k + 1..];
    assert forall c :: c in carved && c != carved[0] ==> c.free;
    forall i | 0 <= i < |cs| && cs[i] == r[k]
      ensures false
    {
      if i < k { TilesApart(cs, base, base + total, i, k); }
      if k < i { TilesApart(cs, base, base + total, k, i); }
    }
  }

  // ---------- free ----------

  /** coalesce_with_next */
  function Coalesce(cs: seq<Chunk>, k: nat): seq<Chunk>
    requires k < |cs|
  {
    if k + 1 < |cs| && cs[k].free && cs[k + 1].free then
      cs[..k] + [cs[k].(size := cs[k].size + HDR_SIZE + cs[k + 1].size)] + cs[k + 2..]
    else cs
  }

  /** free of the live block at position k: marked, then merged with the next block and then with
      the previous one. */
  function FreeAt(cs: seq<Chunk>, k: nat): seq<Chunk>
    requires k < |cs|
  {
    var marked := cs[k := cs[k].(free := true)];
    var merged := Coalesce(marked, k);
    if k > 0 && merged[k - 1].free then Coalesce(merged, k - 1) else merged
  }

  lemma CoalesceTiles(cs: seq<Chunk>, lo: nat, hi: nat, k: nat)
    requires Tiles(cs, lo, hi) && k < |cs|
    ensures Tiles(Coalesce(cs, k), lo, hi)
  {
    if k + 1 < |cs| && cs[k].free && cs[k + 1].free {
      var one := cs[k].(size := cs[k].size + HDR_SIZE + cs[k + 1].size);
      var mid := TilesSplit(cs, lo, hi, k);
      var top := TilesSplit(cs, lo, hi, k + 2);
      TilesSplitEnd(cs, lo, hi, k + 1, top);
      TilesNext(cs, lo, hi, k);
      assert Tiles([one][1..], top, top);
      hide Tiles;
      assert Tiles([one], mid, top) by { OneTiles(one); }
      TilesAppend(cs[..k], [one], lo, mid, top);
      TilesAppend(cs[..k] + [one], cs[k + 2..], lo, top, hi);
    }
  }

  lemma OneTiles(c: Chunk)
    ensures Tiles([c], c.addr, c.End())
  {
    assert Tiles([c][1..], c.End(), c.End());
  }

  lemma CoalesceKeeps(cs: seq<Chunk>, lo: nat, hi: nat, k: nat)
    requires Tiles(cs, lo, hi) && Aligned(cs) && k < |cs|
    ensures var r := Coalesce(cs, k);
      && Tiles(r, lo, hi) && Aligned(r) && Live(r) == Live(cs)
      && k < |r| && r[k].free == cs[k].free && r[..k] == cs[..k]
  {
    hide Tiles, Aligned, Live;
    CoalesceTiles(cs, lo, hi, k);
    if k + 1 < |cs| && cs[k].free && cs[k + 1].free {
      var one := cs[k].(size := cs[k].size + HDR_SIZE + cs[k + 1].size);
      var front, back := cs[..k], cs[k + 2..];
      assert cs == front + [cs[k], cs[k + 1]] + back;
      MergeMembers(front, cs[k], cs[k + 1], one, back);
    }
  }

  /** Two free blocks replaced by one: the live blocks and the alignment stay. */
  lemma MergeMembers(front: seq<Chunk>, a: Chunk, b: Chunk, one: Chunk, back: seq<Chunk>)
    requires a.free && b.free && one == a.(size := a.size + HDR_SIZE + b.size)
    requires Aligned(front + [a, b] + back)
    ensures Aligned(front + [one] + back) && Live(front + [one] + back) == Live(front + [a, b] + back)
  {
    hide Aligned, Live;
    AlignedAppend(front + [a, b], back);
    AlignedAppend(front, [a, b]);
    AlignedAppend(front + [one], back);
    AlignedAppend(front, [one]);
    AlignedFree(a, b, one);
    LiveAppend(front + [a, b], back);
    LiveAppend(front, [a, b]);
    LiveAppend(front + [one], back);
    LiveAppend(front, [one]);
  }

  lemma AlignedFree(a: Chunk, b: Chunk, one: Chunk)
    requires a.free && b.free && one == a.(size := a.size + HDR_SIZE + b.size)
    ensures Aligned([a, b]) ==> Aligned([one])
    ensures Live([a, b]) == {} && Live([one]) == {}
  {
    if Aligned([a, b]) {
      assert a in [a, b] && b in [a, b];
      AlignedSum(a.size, b.size);
    }
  }

  lemma AlignedSum(m: nat, n: nat)
    requires m % ALIGNMENT == 0 && n % ALIGNMENT == 0
    ensures (m + HDR_SIZE + n) % ALIGNMENT == 0
  {
  }

  lemma FreeGood(cs: seq<Chunk>, base: nat, total: nat, k: nat)
    requires Good(cs, base, total) && k < |cs| && !cs[k].free
    ensures Good(FreeAt(cs, k), base, total)
    ensures Live(FreeAt(cs, k)) == Live(cs) - {cs[k]}
  {
    var hi := base + total;
    var marked := cs[k := cs[k].(free := true)];
    MarkKeeps(cs, base, hi, k);
    CoalesceKeeps(marked, base, hi, k);
    var merged := Coalesce(marked, k);
    if k > 0 { CoalesceKeeps(merged, base, hi, k - 1); }
    FreeMerged(cs, k);
  }

  lemma MarkKeeps(cs: seq<Chunk>, lo: nat, hi: nat, k: nat)
    requires Tiles(cs, lo, hi) && Aligned(cs) && k < |cs| && !cs[k].free
    ensures var r := cs[k := cs[k].(free := true)];
      Tiles(r, lo, hi) && Aligned(r) && Live(r) == Live(cs) - {cs[k]}
  {
    var c := cs[k].(free := true);
    var r := cs[k := c];
    var mid := TilesSplit(cs, lo, hi, k);
    var top := TilesSplit(cs, lo, hi, k + 1);
    TilesSplitEnd(cs, lo, hi, k, top);
    assert Tiles([c][1..], top, top);
    TilesAppend(cs[..k], [c], lo, mid, top);
    TilesAppend(cs[..k] + [c], cs[k + 1..], lo, top, hi);
    assert r == cs[..k] + [c] + cs[k + 1..];
    assert cs[k] in cs;
    forall d | d in r
      ensures d == c || (d in cs && d != cs[k])
    {
      var i :| 0 <= i < |r| && r[i] == d;
      if i < k { TilesApart(cs, lo, hi, i, k); }
      if k < i { TilesApart(cs, lo, hi, k, i); }
    }
    forall d | d in cs && d != cs[k]
      ensures d in r
    {
      var i :| 0 <= i < |cs| && cs[i] == d;
      assert r[i] == d;
    }
  }

  lemma FreeMerged(cs: seq<Chunk>, k: nat)
    requires Merged(cs) && k < |cs|
    ensures Merged(FreeAt(cs, k))
  {
    var marked := cs[k := cs[k].(free := true)];
    var merged := Coalesce(marked, k);
    var r := FreeAt(cs, k);
    var a := if k + 1 < |cs| && cs[k + 1].free then 1 else 0;
    assert forall i :: k < i < |merged| ==> merged[i] == cs[i + a];
    var b := if k > 0 && cs[k - 1].free then 1 else 0;
    forall i | 0 <= i < |r| - 1
      ensures !(r[i].free && r[i + 1].free)
    {
      if i + 1 < k - b {
        assert r[i] == cs[i] && r[i + 1] == cs[i + 1];
      } else if i + 1 == k - b {
        assert r[i] == cs[i];
      } else if i == k - b {
        assert r[i + 1] == cs[k + 1 + a];
      } else {
        assert r[i] == cs[i + a + b] && r[i + 1] == cs[i + 1 + a + b];
      }
    }
  }

  // ---------- sequences of calls ----------

  /** The position of the live block whose header is at address a, or the length of the list. */
  function LiveAt(cs: seq<Chunk>, a: nat): (k: nat)
    ensures k <= |cs| && (k < |cs| ==> cs[k].addr == a && !cs[k].free)
    ensures forall i :: 0 <= i < k ==> cs[i].addr != a || cs[i].free
  {
    if cs == [] || (cs[0].addr == a && !cs[0].free) then 0 else 1 + LiveAt(cs[1..], a)
  }

  /** free of the block at address a; a block that is not live is left alone. */
  function Free(cs: seq<Chunk>, a: nat): seq<Chunk> {
    var k := LiveAt(cs, a);
    if k < |cs| then FreeAt(cs, k) else cs
  }

  function FreeAll(cs: seq<Chunk>, addrs: seq<nat>): seq<Chunk>
    decreases addrs
  {
    if addrs == [] then cs else FreeAll(Free(cs, addrs[0]), addrs[1..])
  }

  lemma FreeLive(cs: seq<Chunk>, base: nat, total: nat, a: nat)
    requires Good(cs, base, total)
    ensures Good(Free(cs, a), base, total)
    ensures Live(Free(cs, a)) == set c | c in Live(cs) && c.addr != a
  {
    hide Good, FreeAt, Live, Tiles;
    var k := LiveAt(cs, a);
    GoodTiles(cs, base, total);
    if k < |cs| {
      FreeGood(cs, base, total, k);
      OtherAddress(cs, base, base + total, k);
    } else {
      NoneAt(cs, a);
    }
  }

  lemma NoneAt(cs: seq<Chunk>, a: nat)
    requires LiveAt(cs, a) == |cs|
    ensures forall c :: c in Live(cs) ==> c.addr != a
  {
  }

  lemma GoodTiles(cs: seq<Chunk>, base: nat, total: nat)
    requires Good(cs, base, total)
    ensures Tiles(cs, base, base + total)
  {
  }

  lemma OtherAddress(cs: seq<Chunk>, lo: nat, hi: nat, k: nat)
    requires Tiles(cs, lo, hi) && k < |cs|
    ensures forall c :: c in Live(cs) ==> (c != cs[k] <==> c.addr != cs[k].addr)
  {
    forall c | c in Live(cs) && c != cs[k]
      ensures c.addr != cs[k].addr
    {
      var i :| 0 <= i < |cs| && cs[i] == c;
      if i < k { TilesApart(cs, lo, hi, i, k); }
      if k < i { TilesApart(cs, lo, hi, k, i); }
    }
  }

  lemma {:induction false} FreeAllLive(cs: seq<Chunk>, base: nat, total: nat, addrs: seq<nat>)
    requires Good(cs, base, total)
    ensures Good(FreeAll(cs, addrs), base, total)
    ensures Live(FreeAll(cs, addrs)) == set c | c in Live(cs) && c.addr !in addrs
    decreases addrs
  {
    if addrs != [] {
      FreeLive(cs, base, total, addrs[0]);
      FreeAllLive(Free(cs, addrs[0]), base, total, addrs[1..]);
    }
  }

  /** Freeing the same blocks in another order leaves the same heap, block for block. */
  lemma FreeInAnyOrder(cs: seq<Chunk>, base: nat, total: nat, addrs: seq<nat>, others: seq<nat>)
    requires Good(cs, base, total)
    requires forall a :: a in addrs <==> a in others
    ensures FreeAll(cs, addrs) == FreeAll(cs, others)
  {
    FreeAllLive(cs, base, total, addrs);
    FreeAllLive(cs, base, total, others);
    LiveDetermines(FreeAll(cs, addrs), FreeAll(cs, others), base, base + total);
  }

  /** Freeing every live block, in whatever order, gives the one block of heap_init back. */
  lemma FreeEverything(cs: seq<Chunk>, base: nat, total: nat, addrs: seq<nat>)
    requires Good(cs, base, total)
    requires forall c :: c in Live(cs) ==> c.addr in addrs
    ensures total >= HDR_SIZE && FreeAll(cs, addrs) == [Chunk(base, total - HDR_SIZE, true)]
  {
    FreeAllLive(cs, base, total, addrs);
    NothingLive(FreeAll(cs, addrs), base, total);
  }

  /** malloc followed at once by free of what it returned restores the block list exactly. */
  lemma MallocThenFree(cs: seq<Chunk>, base: nat, total: nat, n: nat)
    requires Good(cs, base, total) && n % ALIGNMENT == 0 && FirstFit(cs, n) < |cs|
    ensures var k := FirstFit(cs, n);
      k < |AllocAt(cs, k, n)| && FreeAt(AllocAt(cs, k, n), k) == cs
  {
    var k := FirstFit(cs, n);
    var r := AllocAt(cs, k, n);
    AllocGood(cs, base, total, k, n);
    FreeGood(r, base, total, k);
    LiveDetermines(FreeAt(r, k), cs, base, base + total);
  }

  /** A place between the live blocks where a header and n bytes of payload would fit. */
  ghost predicate Gap(cs: seq<Chunk>, base: nat, total: nat, a: nat, n: nat) {
    base <= a && a + HDR_SIZE + n <= base + total
    && forall c :: c in Live(cs) ==> c.End() <= a || a + HDR_SIZE + n <= c.addr
  }

  /** malloc finds a block if and only if there is room between the live blocks: the free list
      never hides memory by fragmenting it. */
  lemma FitsIffGap(cs: seq<Chunk>, base: nat, total: nat, n: nat)
    requires Good(cs, base, total)
    ensures FirstFit(cs, n) < |cs| <==> exists a :: Gap(cs, base, total, a, n)
  {
    var k := FirstFit(cs, n);
    var hi := base + total;
    if k < |cs| {
      TilesUp(cs, base, hi);
      assert cs[k] in cs;
      forall c | c in Live(cs)
        ensures c.End() <= cs[k].addr || cs[k].addr + HDR_SIZE + n <= c.addr
      {
        var i :| 0 <= i < |cs| && cs[i] == c;
        if i < k { TilesApart(cs, base, hi, i, k); }
        if k < i { TilesApart(cs, base, hi, k, i); }
      }
      assert Gap(cs, base, total, cs[k].addr, n);
    }
    if a :| Gap(cs, base, total, a, n) {
      var i := Containing(cs, base, hi, a);
      assert cs[i] in cs;
      TilesNext(cs, base, hi, i);
      if i + 1 < |cs| { assert cs[i + 1] in cs; }
      assert Fits(cs[i], n);
    }
  }

  lemma {:induction false} Containing(cs: seq<Chunk>, lo: nat, hi: nat, a: nat) returns (i: nat)
    requires Tiles(cs, lo, hi) && lo <= a < hi
    ensures i < |cs| && cs[i].addr <= a < cs[i].End()
  {
    if a < cs[0].End() {
      i := 0;
    } else {
      i := Containing(cs[1..], cs[0].End(), hi, a);
      i := i + 1;
    }
  }

  /** Payloads of different live blocks do not overlap, and every payload is aligned. */
  lemma PayloadsApart(cs: seq<Chunk>, base: nat, total: nat, c: Chunk, d: Chunk)
    requires Good(cs, base, total) && c in Live(cs) && d in Live(cs) && c != d
    ensures c.End() <= d.addr || d.End() <= c.addr
    ensures c.Payload() % ALIGNMENT == 0 && base <= c.addr && c.End() <= base + total
  {
    var i :| 0 <= i < |cs| && cs[i] == c;
    var j :| 0 <= j < |cs| && cs[j] == d;
    TilesUp(cs, base, base + total);
    if i < j { TilesApart(cs, base, base + total, i, j); }
    else { TilesApart(cs, base, base + total, j, i); }
  }

  // ---------- accounting ----------

  /** Headers and payloads of all blocks add up to the region. */
  lemma {:induction false} TotalConserved(cs: seq<Chunk>, lo: nat, hi: nat)
    requires Tiles(cs, lo, hi)
    ensures TotalSize(cs) == hi - lo
  {
    TilesUp(cs, lo, hi);
    if cs != [] { TotalConserved(cs[1..], cs[0].End(), hi); }
  }

  lemma {:induction false} UsedAppend(a: seq<Chunk>, b: seq<Chunk>)
    ensures UsedSize(a + b) == UsedSize(a) + UsedSize(b)
  {
    if a == [] {
      assert a + b == b;
    } else {
      UsedAppend(a[1..], b);
      assert (a + b)[1..] == a[1..] + b;
    }
  }

  /** What a block adds to the used size. */
  function UsedOf(c: Chunk): nat { if c.free then 0 else c.size + HDR_SIZE }

  lemma UsedOne(c: Chunk)
    ensures UsedSize([c]) == UsedOf(c)
  {
    assert [c][1..] == [];
  }

  lemma UsedTwo(c: Chunk, d: Chunk)
    ensures UsedSize([c, d]) == UsedOf(c) + UsedOf(d)
  {
    assert [c, d][1..] == [d];
    UsedOne(d);
  }

  lemma UsedAt(cs: seq<Chunk>, k: nat)
    requires k < |cs|
    ensures UsedSize(cs) == UsedSize(cs[..k]) + UsedOf(cs[k]) + UsedSize(cs[k + 1..])
  {
    hide UsedSize;
    assert cs == cs[..k] + [cs[k]] + cs[k + 1..];
    UsedThree(cs[..k], [cs[k]], cs[k + 1..]);
    UsedOne(cs[k]);
  }

  lemma UsedAfterAlloc(cs: seq<Chunk>, k: nat, n: nat)
    requires k < |cs| && Fits(cs[k], n)
    ensures UsedSize(AllocAt(cs, k, n)) == UsedSize(cs) + Carve(cs[k], n)[0].size + HDR_SIZE
  {
    hide UsedSize;
    var carved := Carve(cs[k], n);
    UsedThree(cs[..k], carved, cs[k + 1..]);
    UsedAt(cs, k);
    if |carved| == 2 {
      UsedTwo(carved[0], carved[1]);
      assert carved == [carved[0], carved[1]];
    } else {
      UsedOne(carved[0]);
      assert carved == [carved[0]];
    }
  }

  lemma UsedThree(a: seq<Chunk>, b: seq<Chunk>, c: seq<Chunk>)
    ensures UsedSize(a + b + c) == UsedSize(a) + UsedSize(b) + UsedSize(c)
  {
    UsedAppend(a + b, c);
    UsedAppend(a, b);
  }

  lemma UsedCoalesce(cs: seq<Chunk>, k: nat)
    requires k < |cs|
    ensures UsedSize(Coalesce(cs, k)) == UsedSize(cs)
  {
    hide UsedSize;
    if k + 1 < |cs| && cs[k].free && cs[k + 1].free {
      var one := cs[k].(size := cs[k].size + HDR_SIZE + cs[k + 1].size);
      UsedThree(cs[..k], [one], cs[k + 2..]);
      UsedOne(one);
      UsedAt(cs, k);
      UsedAt(cs[k + 1..], 0);
      UsedNothing(cs[k + 1..][..0]);
      assert cs[k + 1..][1..] == cs[k + 2..];
    }
  }

  lemma UsedNothing(cs: seq<Chunk>)
    requires cs == []
    ensures UsedSize(cs) == 0
  {
  }

  lemma UsedAfterFree(cs: seq<Chunk>, k: nat)
    requires k < |cs| && !cs[k].free
    ensures UsedSize(cs) == UsedSize(FreeAt(cs, k)) + cs[k].size + HDR_SIZE
  {
    hide UsedSize, Coalesce;
    var marked := cs[k := cs[k].(free := true)];
    UsedAt(cs, k);
    UsedAt(marked, k);
    assert marked[..k] == cs[..k] && marked[k + 1..] == cs[k + 1..];
    UsedCoalesce(marked, k);
    var merged := Coalesce(marked, k);
    CoalesceLength(marked, k);
    if k > 0 { UsedCoalesce(merged, k - 1); }
  }

  lemma CoalesceLength(cs: seq<Chunk>, k: nat)
    requires k < |cs|
    ensures k < |Coalesce(cs, k)| <= |cs|
  {
  }
}
