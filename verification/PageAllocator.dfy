/** kernel/src/pmm.c: the bitmap page allocator, and the physical memory it hands out. */
module PageAllocator {

  const PAGE_SIZE: nat := 4096

  type Word = nat

  /** One page of memory, as 512 words of 64 bits. */
  type Page = s: seq<Word> | |s| == 512 witness seq(512, _ => 0)

  function ZeroPage(): Page { seq(512, _ => 0) }

  // ---------- bits of a byte ----------

  function BitMask(i: nat): bv8
    requires i < 8
  {
    1 << i
  }

  predicate BitOf(b: bv8, i: nat)
    requires i < 8
  {
    b & BitMask(i) != 0
  }

  lemma BitMaskIs(i: nat)
    requires i < 8
    ensures BitMask(i) == if i == 0 then 1 else if i == 1 then 2 else if i == 2 then 4
      else if i == 3 then 8 else if i == 4 then 16 else if i == 5 then 32 else if i == 6 then 64 else 128
  {
    if i == 0 {} else if i == 1 {} else if i == 2 {} else if i == 3 {}
    else if i == 4 {} else if i == 5 {} else if i == 6 {} else { assert i == 7; }
  }

  lemma SetBit(b: bv8, i: nat, j: nat)
    requires i < 8 && j < 8
    ensures BitOf(b | BitMask(i), j) <==> i == j || BitOf(b, j)
  {
    BitMaskIs(i);
    BitMaskIs(j);
  }

  lemma ClearBit(b: bv8, i: nat, j: nat)
    requires i < 8 && j < 8
    ensures BitOf(b & !BitMask(i), j) <==> i != j && BitOf(b, j)
  {
    BitMaskIs(i);
    BitMaskIs(j);
  }

  // ---------- runs of free pages ----------

  /** Pages q up to q + count are all in the set. */
  ghost predicate RunIn(free: set<nat>, q: nat, count: nat) {
    forall j :: q <= j < q + count ==> j in free
  }

  /** A boot loader memory map entry; only the type distinctions that pmm_init makes. */
  datatype EntryKind = Usable | Reclaimable | Other

  datatype Entry = Entry(kind: EntryKind, base: nat, length: nat) {
    /** The kinds that count for the highest address. */
    predicate Counts() { kind.Usable? || kind.Reclaimable? }
    predicate Covers(page: nat) {
      kind.Usable? && base / PAGE_SIZE <= page < (base + length) / PAGE_SIZE
    }
  }

  function HighestAddress(es: seq<Entry>): nat {
    if es == [] then 0
    else
      var rest, e := HighestAddress(es[..|es| - 1]), es[|es| - 1];
      if e.Counts() && e.base + e.length > rest then e.base + e.length else rest
  }

  function BitmapSize(highestPage: nat): nat { (highestPage + 7) / 8 }

  /** What the boot protocol promises: usable memory comes in whole pages. */
  predicate WholePages(es: seq<Entry>) {
    forall e :: e in es && e.kind.Usable? ==>
      e.base % PAGE_SIZE == 0 && e.length % PAGE_SIZE == 0 && e.length > 0
  }

  /** The entry that pmm_init puts the bitmap at: the first usable one that is big enough. */
  predicate Hosts(es: seq<Entry>, i: nat, size: nat) {
    i < |es| && es[i].kind.Usable? && es[i].length >= size
    && forall j :: 0 <= j < i ==> !(es[j].kind.Usable? && es[j].length >= size)
  }

  predicate Covered(es: seq<Entry>, page: nat) {
    exists e :: e in es && e.Covers(page)
  }

  lemma {:induction false} HighestBounds(es: seq<Entry>, e: Entry)
    requires e in es && e.Counts()
    ensures e.base + e.length <= HighestAddress(es)
  {
    if e != es[|es| - 1] {
      HighestBounds(es[..|es| - 1], e);
    }
  }

  /** The highest end of a usable or reclaimable entry, 0 if there is none. */
  lemma {:induction false} HighestIs(es: seq<Entry>)
    ensures forall e :: e in es && (e.kind.Usable? || e.kind.Reclaimable?) ==> e.base + e.length <= HighestAddress(es)
    ensures HighestAddress(es) == 0 ||
      exists e :: e in es && (e.kind.Usable? || e.kind.Reclaimable?) && e.base + e.length == HighestAddress(es)
  {
    if es != [] {
      HighestIs(es[..|es| - 1]);
      assert es[|es| - 1] in es;
      forall e | e in es && (e.kind.Usable? || e.kind.Reclaimable?)
        ensures e.base + e.length <= HighestAddress(es)
      {
        HighestBounds(es, e);
      }
    }
  }

  /** One bit for each page, in whole bytes and no byte more. */
  lemma BitmapSizeIs(pages: nat)
    ensures pages <= 8 * BitmapSize(pages) < pages + 8
  {
  }

  lemma PageArithmetic(base: nat, length: nat, k: nat)
    requires base % PAGE_SIZE == 0 && length % PAGE_SIZE == 0
    ensures (base + k * PAGE_SIZE) / PAGE_SIZE == base / PAGE_SIZE + k
    ensures (base + length) / PAGE_SIZE == base / PAGE_SIZE + length / PAGE_SIZE
    ensures k * PAGE_SIZE < length <==> k < length / PAGE_SIZE
  {
  }

  /** Up to page i there is no run of `count`; the free pages just before i are the last `len`. */
  ghost predicate Scanned(free: set<nat>, i: nat, len: nat, count: nat) {
    && len < i && len < count && RunIn(free, i - len, len) && i - len - 1 !in free
    && forall q: nat :: q + count <= i ==> !RunIn(free, q, count)
  }

  lemma ScanStarts(free: set<nat>, count: nat)
    requires 0 !in free && count > 0
    ensures Scanned(free, 1, 0, count)
  {
    forall q: nat | q + count <= 1
      ensures !RunIn(free, q, count)
    {
      assert q == 0;
    }
  }

  lemma ScanStep(free: set<nat>, i: nat, len: nat, count: nat)
    requires Scanned(free, i, len, count)
    ensures i !in free ==> Scanned(free, i + 1, 0, count)
    ensures i in free && len + 1 < count ==> Scanned(free, i + 1, len + 1, count)
    ensures i in free && len + 1 == count ==> RunIn(free, i - len, count) && len <= i
    ensures i in free && len + 1 == count ==> forall q: nat :: q < i - len ==> !RunIn(free, q, count)
  {
    forall q: nat | q + count <= i + 1 && (i !in free || q < i - len)
      ensures !RunIn(free, q, count)
    {
      if q + count == i + 1 {
        assert i !in free ==> q <= i < q + count;
        assert i in free ==> q <= i - len - 1 < q + count;
      }
    }
  }

  lemma ScanEnds(free: set<nat>, i: nat, len: nat, count: nat)
    requires Scanned(free, i, len, count) && forall p :: p in free ==> p < i
    ensures forall q: nat :: !RunIn(free, q, count)
  {
    forall q: nat
      ensures !RunIn(free, q, count)
    {
      if q + count > i { assert q + count - 1 !in free; }
    }
  }

  class PhysicalMemory {
    var bitmap: array<bv8>
    var highestPage: nat
    var mem: nat -> Page

    ghost predicate Valid()
      reads `bitmap, `highestPage
    {
      highestPage <= 8 * bitmap.Length
    }

    predicate Used(page: nat)
      requires page < 8 * bitmap.Length
      reads `bitmap, bitmap
    {
      BitOf(bitmap[page / 8], page % 8)
    }

    /** The pages that can be handed out: page 0 never is. */
    ghost function Free(): set<nat>
      requires Valid()
      reads `bitmap, `highestPage, bitmap
    {
      set p | 1 <= p < highestPage && !Used(p)
    }

    method BitmapSet(bit: nat)
      requires bit < 8 * bitmap.Length
      modifies bitmap
      ensures forall p :: 0 <= p < 8 * bitmap.Length ==> (Used(p) <==> p == bit || old(Used(p)))
    {
      bitmap[bit / 8] := bitmap[bit / 8] | BitMask(bit % 8);
      forall p | 0 <= p < 8 * bitmap.Length
        ensures Used(p) <==> p == bit || old(Used(p))
      {
        SetBit(old(bitmap[bit / 8]), bit % 8, p % 8);
      }
    }

    method BitmapClear(bit: nat)
      requires bit < 8 * bitmap.Length
      modifies bitmap
      ensures forall p :: 0 <= p < 8 * bitmap.Length ==> (Used(p) <==> p != bit && old(Used(p)))
    {
      bitmap[bit / 8] := bitmap[bit / 8] & !BitMask(bit % 8);
      forall p | 0 <= p < 8 * bitmap.Length
        ensures Used(p) <==> p != bit && old(Used(p))
      {
        ClearBit(old(bitmap[bit / 8]), bit % 8, p % 8);
      }
    }

    // ---------- pmm_alloc_pages ----------

    method MarkRun(start: nat, count: nat)
      requires Valid() && start + count <= highestPage
      modifies bitmap
      ensures forall p :: 0 <= p < 8 * bitmap.Length ==>
        (Used(p) <==> start <= p < start + count || old(Used(p)))
    {
      for j := 0 to count
        invariant forall p :: 0 <= p < 8 * bitmap.Length ==>
          (Used(p) <==> start <= p < start + j || old(Used(p)))
      {
        BitmapSet(start + j);
      }
    }

    /** pmm_alloc_pages. The result is the number of the first page, 0 for NULL: the lowest run of
        `count` free pages, which are taken out of the free set and zeroed; NULL exactly when
        count is 0 or there is no such run. */
    method AllocPages(count: nat) returns (r: nat)
      requires Valid()
      modifies bitmap, `mem
      ensures Valid()
      ensures r == 0 <==> count == 0 || forall q: nat :: !RunIn(old(Free()), q, count)
      ensures r == 0 ==> Free() == old(Free()) && mem == old(mem)
      ensures r != 0 ==>
        && RunIn(old(Free()), r, count)
        && (forall q: nat :: q < r ==> !RunIn(old(Free()), q, count))
        && (forall p :: p in Free() <==> p in old(Free()) && !(r <= p < r + count))
        && (forall p: nat :: mem(p) == if r <= p < r + count then ZeroPage() else old(mem)(p))
    {
      if count == 0 {
        return 0;
      }
      hide Scanned;
      var runLength, runStart := 0, 0;
      var i := 1;
      ghost var free := Free();
      ScanStarts(free, count);
      while i < highestPage
        invariant 1 <= i && (highestPage >= 1 ==> i <= highestPage) && Free() == free
        invariant runLength < count && runLength <= i - 1
        invariant runLength > 0 ==> runStart == i - runLength
        invariant Scanned(free, i, runLength, count) && mem == old(mem)
      {
        ScanStep(free, i, runLength, count);
        if !Used(i) {
          if runLength == 0 {
            runStart := i;
          }
          runLength := runLength + 1;
          if runLength == count {
            Take(runStart, count);
            return runStart;
          }
        } else {
          runLength := 0;
        }
        i := i + 1;
      }
      ScanEnds(free, i, runLength, count);
      return 0;
    }

    /** Marking and zeroing the run that was found. */
    method Take(start: nat, count: nat)
      requires Valid() && 1 <= start && start + count <= highestPage
      modifies bitmap, `mem
      ensures forall p :: p in Free() <==> p in old(Free()) && !(start <= p < start + count)
      ensures forall p: nat :: mem(p) == if start <= p < start + count then ZeroPage() else old(mem)(p)
    {
      MarkRun(start, count);
      var m := mem;
      mem := (p: nat) => if start <= p < start + count then ZeroPage() else m(p);
    }

    /** pmm_free_pages of an address; addresses that are not page-aligned are ignored. The bitmap must have
        a bit for every page, which the code does not check. */
    method FreePages(address: nat, count: nat)
      requires Valid()
      requires address % PAGE_SIZE == 0 ==> address / PAGE_SIZE + count <= 8 * bitmap.Length
      modifies bitmap
      ensures forall p: nat :: p in Free() <==>
        p in old(Free()) ||
        (address % PAGE_SIZE == 0 && 1 <= p < highestPage
         && address / PAGE_SIZE <= p < address / PAGE_SIZE + count)
    {
      if address % PAGE_SIZE != 0 {
        return;
      }
      var start := address / PAGE_SIZE;
      for i := 0 to count
        invariant forall p :: 0 <= p < 8 * bitmap.Length ==>
          (Used(p) <==> !(start <= p < start + i) && old(Used(p)))
      {
        BitmapClear(start + i);
      }
    }

    // ---------- pmm_init ----------

    /** The loop that frees one usable entry, page by page. */
    method ClearEntry(e: Entry)
      requires e.kind.Usable? && e.base % PAGE_SIZE == 0 && e.length % PAGE_SIZE == 0
      requires (e.base + e.length) / PAGE_SIZE <= highestPage && Valid()
      modifies bitmap
      ensures forall p :: 0 <= p < 8 * bitmap.Length ==> (Used(p) <==> !e.Covers(p) && old(Used(p)))
    {
      ghost var k: nat := 0;
      var addr := e.base;
      while addr < e.base + e.length
        invariant addr == e.base + k * PAGE_SIZE && k <= e.length / PAGE_SIZE
        invariant forall p :: 0 <= p < 8 * bitmap.Length ==>
          (Used(p) <==> !(e.base / PAGE_SIZE <= p < e.base / PAGE_SIZE + k) && old(Used(p)))
        decreases e.base + e.length - addr
      {
        PageArithmetic(e.base, e.length, k);
        BitmapClear(addr / PAGE_SIZE);
        addr := addr + PAGE_SIZE;
        k := k + 1;
      }
      PageArithmetic(e.base, e.length, k);
    }

    /** The loop that marks the bitmap's own pages. */
    method SetOwnPages(base: nat, size: nat)
      requires base % PAGE_SIZE == 0 && base / PAGE_SIZE + (size + 4095) / PAGE_SIZE <= highestPage
      requires Valid()
      modifies bitmap
      ensures forall p :: 0 <= p < 8 * bitmap.Length ==>
        (Used(p) <==> base / PAGE_SIZE <= p < base / PAGE_SIZE + (size + 4095) / PAGE_SIZE || old(Used(p)))
    {
      ghost var k: nat := 0;
      var addr := base;
      while addr < base + size
        invariant addr == base + k * PAGE_SIZE && k <= (size + 4095) / PAGE_SIZE
        invariant forall p :: 0 <= p < 8 * bitmap.Length ==>
          (Used(p) <==> base / PAGE_SIZE <= p < base / PAGE_SIZE + k || old(Used(p)))
        decreases base + size - addr
      {
        PageArithmetic(base, 0, k);
        BitmapSet(addr / PAGE_SIZE);
        addr := addr + PAGE_SIZE;
        k := k + 1;
      }
    }

    /** pmm_init. If some usable entry can hold the bitmap, then afterwards a page is free exactly
        when a usable entry covers it and it is neither page 0 nor one of the bitmap's own. */
    method Init(entries: seq<Entry>) returns (ok: bool, ghost host: nat)
      requires WholePages(entries)
      modifies this
      ensures ok <==> exists i :: Hosts(entries, i, BitmapSize(HighestAddress(entries) / PAGE_SIZE))
      ensures ok ==>
        var size := BitmapSize(HighestAddress(entries) / PAGE_SIZE);
        && Valid() && fresh(bitmap) && highestPage == HighestAddress(entries) / PAGE_SIZE
        && Hosts(entries, host, size)
        && forall p: nat :: p in Free() <==>
             && p != 0 && Covered(entries, p)
             && !(entries[host].base / PAGE_SIZE <= p
                  < entries[host].base / PAGE_SIZE + (size + 4095) / PAGE_SIZE)
    {
      var highest := 0;
      for i := 0 to |entries|
        invariant highest == HighestAddress(entries[..i])
      {
        var e := entries[i];
        assert entries[..i + 1][..i] == entries[..i];
        if e.Counts() {
          if e.base + e.length > highest {
            highest := e.base + e.length;
          }
        }
      }
      assert entries[..|entries|] == entries;
      highestPage := highest / PAGE_SIZE;
      var size := highestPage / 8;
      if size * 8 < highestPage {
        size := size + 1;
      }
      var at: int := 0;
      while at < |entries|
        invariant 0 <= at <= |entries|
        invariant forall j :: 0 <= j < at ==> !(entries[j].kind.Usable? && entries[j].length >= size)
      {
        if entries[at].kind.Usable? && entries[at].length >= size { break; }
        at := at + 1;
      }
      host := at;
      if at == |entries| {
        return false, host;
      }
      assert Hosts(entries, at, size);
      FillAndClear(entries, at, size);
      return true, host;
    }

    /** The second half of pmm_init. */
    method FillAndClear(entries: seq<Entry>, at: nat, size: nat)
      requires WholePages(entries) && at < |entries| && entries[at].kind.Usable?
      requires highestPage == HighestAddress(entries) / PAGE_SIZE && size == BitmapSize(highestPage)
      requires entries[at].length >= size
      modifies this
      ensures Valid() && fresh(bitmap) && highestPage == old(highestPage)
      ensures forall p: nat :: p in Free() <==>
        && p != 0 && Covered(entries, p)
        && !(entries[at].base / PAGE_SIZE <= p
             < entries[at].base / PAGE_SIZE + (size + 4095) / PAGE_SIZE)
    {
      var b := new bv8[size](_ => 0xFF);
      bitmap := b;
      assert forall p :: 0 <= p < 8 * bitmap.Length ==> Used(p) by {
        forall p | 0 <= p < 8 * bitmap.Length
          ensures Used(p)
        {
          BitMaskIs(p % 8);
        }
      }
      for i := 0 to |entries|
        invariant bitmap == b && fresh(b) && highestPage == old(highestPage)
        invariant forall p :: 0 <= p < 8 * bitmap.Length ==> (Used(p) <==> !Covered(entries[..i], p))
      {
        var e := entries[i];
        assert entries[..i + 1] == entries[..i] + [e];
        assert forall p: nat :: Covered(entries[..i + 1], p) <==> Covered(entries[..i], p) || e.Covers(p);
        if e.kind.Usable? {
          HighestBounds(entries, e);
          ClearEntry(e);
        }
      }
      assert entries[..|entries|] == entries;
      var h := entries[at];
      HighestBounds(entries, h);
      PageArithmetic(h.base, h.length, 0);
      SetOwnPages(h.base, size);
      BitmapSet(0);
      forall p: nat | Covered(entries, p)
        ensures p < highestPage
      {
        var e :| e in entries && e.Covers(p);
        HighestBounds(entries, e);
      }
    }
  }

  // ---------- clients ----------

  datatype Run = Run(start: nat, count: nat)

  datatype Request = Get(count: nat) | Give(which: nat)

  predicate InRun(r: Run, page: nat) { r.start <= page < r.start + r.count }

  ghost predicate Held(runs: seq<Run>, page: nat) { exists i :: 0 <= i < |runs| && InRun(runs[i], page) }

  /** The outstanding allocations: no page belongs to two of them, and none of their pages is free. */
  ghost predicate Outstanding(free: set<nat>, highest: nat, runs: seq<Run>) {
    && (forall i, page: nat :: 0 <= i < |runs| && InRun(runs[i], page) ==> 1 <= page < highest)
    && (forall i, page: nat :: 0 <= i < |runs| && InRun(runs[i], page) ==> page !in free)
    && (forall i, j, page: nat :: 0 <= i < j < |runs| && InRun(runs[i], page) ==> !InRun(runs[j], page))
  }

  function Without(runs: seq<Run>, k: nat): (r: seq<Run>)
    requires k < |runs|
    ensures |r| == |runs| - 1
    ensures forall i :: 0 <= i < |r| ==> r[i] == runs[if i < k then i else i + 1]
  {
    runs[..k] + runs[k + 1..]
  }

  /** One request of a caller that gives back only what it holds, once. */
  method Serve(m: PhysicalMemory, runs: seq<Run>, q: Request) returns (out: seq<Run>)
    requires m.Valid() && Outstanding(m.Free(), m.highestPage, runs)
    modifies m.bitmap, m`mem
    ensures m.Valid() && Outstanding(m.Free(), m.highestPage, out)
    ensures forall page: nat ::
      (page in m.Free() || Held(out, page)) <==> (page in old(m.Free()) || Held(runs, page))
  {
    hide RunIn, Outstanding, Held, Without;
    out := runs;
    ghost var free := m.Free();
    match q {
      case Get(count) =>
        var r := m.AllocPages(count);
        if r != 0 {
          out := runs + [Run(r, count)];
          HeldSnoc(runs, Run(r, count));
          Taken(free, m.Free(), m.highestPage, runs, Run(r, count));
        }
      case Give(k) =>
        if k < |runs| {
          out := Without(runs, k);
          HeldSplit(runs, k);
          GiveBack(m, runs, k);
          Given(free, m.Free(), m.highestPage, runs, k);
        }
    }
  }

  lemma HeldPage(free: set<nat>, highest: nat, runs: seq<Run>, i: nat, page: nat)
    requires Outstanding(free, highest, runs) && i < |runs| && InRun(runs[i], page)
    ensures 1 <= page < highest && page !in free
  {
  }

  lemma HeldOnce(free: set<nat>, highest: nat, runs: seq<Run>, i: nat, j: nat, page: nat)
    requires Outstanding(free, highest, runs) && i < |runs| && j < |runs| && i != j && InRun(runs[i], page)
    ensures !InRun(runs[j], page)
  {
  }

  lemma Taken(free: set<nat>, free': set<nat>, highest: nat, runs: seq<Run>, r: Run)
    requires Outstanding(free, highest, runs) && RunIn(free, r.start, r.count)
    requires forall page :: page in free ==> 1 <= page < highest
    requires forall page :: page in free' <==> page in free && !(r.start <= page < r.start + r.count)
    ensures Outstanding(free', highest, runs + [r])
    ensures forall page: nat :: page in free' || InRun(r, page) <==> page in free
  {
    var out := runs + [r];
    forall page: nat | InRun(r, page)
      ensures page in free
    {
    }
    forall i, page: nat | 0 <= i < |out| && InRun(out[i], page)
      ensures 1 <= page < highest && page !in free'
    {
      if i < |runs| {
        HeldPage(free, highest, runs, i, page);
      }
    }
    forall i, j, page: nat | 0 <= i < j < |out| && InRun(out[i], page)
      ensures !InRun(out[j], page)
    {
      HeldPage(free, highest, runs, i, page);
      if j < |runs| {
        HeldOnce(free, highest, runs, i, j, page);
      }
    }
  }

  lemma Given(free: set<nat>, free': set<nat>, highest: nat, runs: seq<Run>, k: nat)
    requires Outstanding(free, highest, runs) && k < |runs|
    requires forall page: nat :: page in free' <==> page in free || InRun(runs[k], page)
    ensures Outstanding(free', highest, Without(runs, k))
    ensures forall page: nat :: Held(Without(runs, k), page) ==> !InRun(runs[k], page)
  {
    hide Without;
    var out := Without(runs, k);
    forall i, page: nat | 0 <= i < |out| && InRun(out[i], page)
      ensures 1 <= page < highest && page !in free' && !InRun(runs[k], page)
    {
      var i0 := if i < k then i else i + 1;
      HeldPage(free, highest, runs, i0, page);
      HeldOnce(free, highest, runs, i0, k, page);
    }
    forall i, j, page: nat | 0 <= i < j < |out| && InRun(out[i], page)
      ensures !InRun(out[j], page)
    {
      HeldOnce(free, highest, runs, if i < k then i else i + 1, if j < k then j else j + 1, page);
    }
  }

  method GiveBack(m: PhysicalMemory, runs: seq<Run>, k: nat)
    requires m.Valid() && Outstanding(m.Free(), m.highestPage, runs) && k < |runs|
    modifies m.bitmap
    ensures forall page: nat :: page in m.Free() <==> page in old(m.Free()) || InRun(runs[k], page)
  {
    var r := runs[k];
    if r.count > 0 {
      HeldPage(m.Free(), m.highestPage, runs, k, r.start + r.count - 1);
      WholeAddress(r.start);
      m.FreePages(r.start * PAGE_SIZE, r.count);
    }
  }

  lemma WholeAddress(page: nat)
    ensures page * PAGE_SIZE / PAGE_SIZE == page && page * PAGE_SIZE % PAGE_SIZE == 0
  {
  }

  lemma HeldSnoc(runs: seq<Run>, r: Run)
    ensures forall page: nat :: Held(runs + [r], page) <==> Held(runs, page) || InRun(r, page)
  {
    var out := runs + [r];
    forall page: nat
      ensures Held(out, page) <==> Held(runs, page) || InRun(r, page)
    {
      if Held(runs, page) {
        var i :| 0 <= i < |runs| && InRun(runs[i], page);
        assert out[i] == runs[i];
      }
      if InRun(r, page) {
        assert out[|runs|] == r;
      }
    }
  }

  lemma HeldSplit(runs: seq<Run>, k: nat)
    requires k < |runs|
    ensures forall page: nat :: Held(runs, page) <==> Held(Without(runs, k), page) || InRun(runs[k], page)
  {
    hide Without;
    var out := Without(runs, k);
    forall page: nat
      ensures Held(runs, page) <==> Held(out, page) || InRun(runs[k], page)
    {
      if Held(runs, page) {
        var i :| 0 <= i < |runs| && InRun(runs[i], page);
        if i < k {
          assert out[i] == runs[i];
        } else if i > k {
          assert out[i - 1] == runs[i];
        }
      }
    }
  }

  /** Any sequence of requests: allocations never overlap, and no page is lost or gained. */
  method ServeAll(m: PhysicalMemory, requests: seq<Request>) returns (out: seq<Run>)
    requires m.Valid()
    modifies m.bitmap, m`mem
    ensures m.Valid() && Outstanding(m.Free(), m.highestPage, out)
    ensures forall page: nat :: (page in m.Free() || Held(out, page)) <==> page in old(m.Free())
  {
    hide Held;
    out := [];
    NothingHeld();
    for i := 0 to |requests|
      invariant m.Valid() && Outstanding(m.Free(), m.highestPage, out)
      invariant forall page: nat :: (page in m.Free() || Held(out, page)) <==> page in old(m.Free())
    {
      out := Serve(m, out, requests[i]);
    }
  }

  lemma NothingHeld()
    ensures forall page: nat :: !Held([], page)
  {
  }
}
