/** kernel/src/vmm.c: four-level page tables in physical memory. A table is named by the number of
    its page; the pointer arithmetic through the direct map cancels out. */
module PageTables {
  import opened Basics
  import opened Bits
  import opened PageAllocator

  type Memory = nat -> Page

  const PTE_PRESENT: nat := 1
  const PTE_WRITABLE: nat := 2
  const PTE_USER: nat := 4
  const PTE_ADDR_MASK: nat := 0x000ffffffffff000
  /** Page numbers that fit the address bits of an entry. */
  const FRAME_LIMIT: nat := 0x100_0000_0000

  function Present(w: Word): bool { And(w, PTE_PRESENT) != 0 }

  /** The page number in an entry. */
  function FrameOf(w: Word): nat { And(w, PTE_ADDR_MASK) / PAGE_SIZE }

  /** The entry that get_next_level writes for a new table. */
  function TableEntry(frame: nat): Word {
    Or(Or(Or(frame * PAGE_SIZE, PTE_PRESENT), PTE_WRITABLE), PTE_USER)
  }

  /** The entry that vmm_map_page writes. */
  function LeafEntry(paddr: nat, flags: nat): Word {
    Or(Or(And(paddr, PTE_ADDR_MASK), flags), PTE_PRESENT)
  }

  // ---------- what the masks do ----------

  lemma MaskIs(w: nat)
    ensures And(w, PTE_ADDR_MASK) == w / PAGE_SIZE % FRAME_LIMIT * PAGE_SIZE
  {
    var ones := FRAME_LIMIT - 1;
    FrameLimitIs();
    ShlIs(ones);
    AndShifted(w, ones, 12);
    ShrIs(w);
    AndOnes(w / PAGE_SIZE, 40);
    ShlIs(And(w / PAGE_SIZE, ones));
  }

  lemma FrameLimitIs()
    ensures Pow2(40) == FRAME_LIMIT
  {
    Pow2Four(0);
    Pow2Four(4);
    Pow2Four(8);
    Pow2Four(12);
    Pow2Four(16);
    Pow2Four(20);
    Pow2Four(24);
    Pow2Four(28);
    Pow2Four(32);
    Pow2Four(36);
  }

  lemma ShlIs(m: nat)
    ensures Shl(m, 12) == m * PAGE_SIZE
  {
    ShlFour(m, 8);
    ShlFour(m, 4);
    ShlFour(m, 0);
  }

  lemma ShrIs(a: nat)
    ensures Shr(a, 12) == a / PAGE_SIZE
  {
    ShrFour(a, 8);
    ShrFour(a / 16, 4);
    ShrFour(a / 16 / 16, 0);
  }

  lemma PresentIs(w: nat)
    ensures Present(w) <==> w % 2 == 1
  {
    AndStep(w, 1);
    assert And(w / 2, 0) == 0;
  }

  /** An entry for a new table is present and names the table. */
  lemma TableEntryIs(frame: nat)
    requires frame < FRAME_LIMIT
    ensures Present(TableEntry(frame)) && FrameOf(TableEntry(frame)) == frame
  {
    hide And, Or;
    var a := frame * PAGE_SIZE;
    var m := PTE_ADDR_MASK;
    AndOverOr(Or(Or(a, 1), 2), 4, m);
    AndOverOr(Or(a, 1), 2, m);
    AndOverOr(a, 1, m);
    MaskIs(a);
    MaskIs(1);
    MaskIs(2);
    MaskIs(4);
    OrStep(a, 1);
    OrStep(Or(a, 1), 2);
    OrStep(Or(Or(a, 1), 2), 4);
    PresentIs(TableEntry(frame));
    OrZero(a);
  }

  lemma OrZero(a: nat)
    ensures Or(a, 0) == a && Or(0, a) == a
  {
  }

  /** What vmm_get_phys makes of an entry that vmm_map_page wrote: the address asked for, with
      whatever address bits the flags add; so it is the address asked for if and only if the flags
      add no address bit that is not there already. */
  lemma LeafEntryIs(paddr: nat, flags: nat)
    ensures Present(LeafEntry(paddr, flags))
    ensures And(LeafEntry(paddr, flags), PTE_ADDR_MASK)
         == Or(And(paddr, PTE_ADDR_MASK), And(flags, PTE_ADDR_MASK))
    ensures And(LeafEntry(paddr, flags), PTE_ADDR_MASK) == And(paddr, PTE_ADDR_MASK) <==>
      And(And(flags, PTE_ADDR_MASK), And(paddr, PTE_ADDR_MASK)) == And(flags, PTE_ADDR_MASK)
  {
    var m := PTE_ADDR_MASK;
    var a := And(paddr, m);
    AndOverOr(Or(a, flags), 1, m);
    AndOverOr(a, flags, m);
    AndTwice(paddr, m);
    MaskIs(1);
    OrStep(Or(a, flags), 1);
    PresentIs(LeafEntry(paddr, flags));
    OrAbsorbs(a, And(flags, m));
    assert Or(Or(a, And(flags, m)), 0) == Or(a, And(flags, m));
  }

  /** The address bits of an entry are bits 12 to 51. */
  lemma MaskBit(i: nat)
    ensures Bit(PTE_ADDR_MASK, i) <==> 12 <= i < 52
  {
    FrameLimitIs();
    ShlIs(FRAME_LIMIT - 1);
    ShlBit(FRAME_LIMIT - 1, 12, i);
    if i >= 12 {
      OnesBit(40, i - 12);
    }
  }

  /** What an entry that vmm_map_page writes is, bit by bit: bit 0 is set, bits 12 to 51 are those of the
      physical address, and every bit of the flags is there. */
  ghost predicate EntryFor(w: Word, paddr: nat, flags: nat) {
    forall i: nat :: Bit(w, i) <==> i == 0 || Bit(flags, i) || (12 <= i < 52 && Bit(paddr, i))
  }

  lemma LeafBits(paddr: nat, flags: nat)
    ensures EntryFor(LeafEntry(paddr, flags), paddr, flags)
  {
    hide And, Or, Bit;
    forall i: nat
      ensures Bit(LeafEntry(paddr, flags), i) <==> i == 0 || Bit(flags, i) || (12 <= i < 52 && Bit(paddr, i))
    {
      var a := And(paddr, PTE_ADDR_MASK);
      OrBit(Or(a, flags), PTE_PRESENT, i);
      OrBit(a, flags, i);
      AndBit(paddr, PTE_ADDR_MASK, i);
      MaskBit(i);
      OneBit(i);
    }
  }

  /** For a page-aligned address and low flags the entry is their sum, the present bit included. */
  lemma LeafIsSum(paddr: nat, flags: nat)
    requires paddr % 4096 == 0 && paddr < 0x10_0000_0000_0000 && flags < 4096
    ensures LeafEntry(paddr, flags) == paddr + flags + (1 - flags % 2)
  {
    hide And, Or, LeafEntry;
    var frame := paddr / 4096;
    assert paddr == frame * PAGE_SIZE;
    AddressKept(frame);
    LowApart(frame, flags);
    OrIsSum(paddr, flags);
    OrOne(paddr + flags);
    LeafIs(paddr, flags);
    assert (paddr + flags) % 2 == flags % 2;
  }

  lemma AddressKept(frame: nat)
    requires frame < FRAME_LIMIT
    ensures And(frame * PAGE_SIZE, PTE_ADDR_MASK) == frame * PAGE_SIZE
  {
    hide And;
    MaskIs(frame * PAGE_SIZE);
  }

  lemma LeafIs(paddr: nat, flags: nat)
    requires And(paddr, PTE_ADDR_MASK) == paddr
    ensures LeafEntry(paddr, flags) == Or(Or(paddr, flags), 1)
  {
  }

  lemma LowApart(frame: nat, low: nat)
    requires low < PAGE_SIZE
    ensures And(frame * PAGE_SIZE, low) == 0
  {
    hide And;
    ShlIs(frame);
    AndCommutes(frame * PAGE_SIZE, low);
    AndShifted(low, frame, 12);
    ShrIs(low);
    NothingAnd(frame);
    ShlIs(0);
  }

  lemma NothingAnd(a: nat)
    ensures And(0, a) == 0
  {
  }

  lemma {:induction false} AndCommutes(a: nat, b: nat)
    ensures And(a, b) == And(b, a)
    decreases a
  {
    if a != 0 && b != 0 {
      AndCommutes(a / 2, b / 2);
    }
  }

  lemma OrOne(a: nat)
    ensures Or(a, 1) == a + (1 - a % 2)
  {
    OrStep(a, 1);
    OrZero(a / 2);
  }

  /** The device window of the network card: present, writable, not cached. */
  lemma DeviceEntry()
    ensures LeafEntry(0xFEBC0000, 1 + 2 + 16) == 0xFEBC0013
  {
    hide LeafEntry, And, Or;
    LeafIsSum(0xFEBC0000, 19);
  }

  /** The entry for a new table is its address with the present, writable and user bits. */
  lemma TableEntryIsSum(frame: nat)
    ensures TableEntry(frame) == frame * 4096 + 7
  {
    hide And, Or;
    var a := frame * PAGE_SIZE;
    OrOne(a);
    LowApart(frame, 1);
    LowApart(frame, 2);
    LowApart(frame, 4);
    OrStep(a + 1, 2);
    OrOne((a + 1) / 2);
    OrStep(a + 3, 4);
    OrStep((a + 3) / 2, 2);
    OrOne((a + 3) / 2 / 2);
  }

  // ---------- walking the tables ----------

  type Path = p: seq<nat> | forall i :: 0 <= i < |p| ==> p[i] < 512 witness []

  /** The four table indices of a virtual address. */
  function Indices(v: nat): (p: Path)
    ensures |p| == 4
  {
    [v / 0x80_0000_0000 % 512, v / 0x4000_0000 % 512, v / 0x20_0000 % 512, v / 0x1000 % 512]
  }

  /** Nine bits of the address for each level, from bit 39, 30, 21 and 12 on. */
  lemma IndexBits(v: nat)
    ensures var i := Indices(v);
      v % 0x1_0000_0000_0000
        == i[0] * 0x80_0000_0000 + i[1] * 0x4000_0000 + i[2] * 0x20_0000 + i[3] * 0x1000 + v % 0x1000
  {
    var i, a := Indices(v), v / PAGE_SIZE;
    PageDigits(v);
    Digits(a);
    var rest := a % 0x10_0000_0000;
    assert rest == i[0] * 0x800_0000 + i[1] * 0x4_0000 + i[2] * 512 + i[3];
    var x := a / 0x10_0000_0000;
    assert v == (x * 0x10_0000_0000 + rest) * 0x1000 + v % 0x1000;
    LowBits(v, x, rest * 0x1000 + v % 0x1000);
  }

  lemma LowBits(v: nat, x: nat, r: nat)
    requires v == x * 0x1_0000_0000_0000 + r && r < 0x1_0000_0000_0000
    ensures v % 0x1_0000_0000_0000 == r
  {
  }

  /** The walk, level by level: each entry on the way is odd and names the next table in bits 12 to 51. */
  lemma WalkSteps(mem: Memory, root: nat, v: nat)
    ensures var i := Indices(v);
      var w0 := mem(root)[i[0]];
      var w1 := mem(w0 / 4096 % 0x100_0000_0000)[i[1]];
      var w2 := mem(w1 / 4096 % 0x100_0000_0000)[i[2]];
      var w3 := mem(w2 / 4096 % 0x100_0000_0000)[i[3]];
      Walk(mem, root, v) ==
        if w0 % 2 == 1 && w1 % 2 == 1 && w2 % 2 == 1 && w3 % 2 == 1 then Some(w3) else None
  {
    hide And;
    var i := Indices(v);
    assert i[..3][..2] == i[..2] && i[..2][..1] == i[..1] && i[..1][..0] == [];
    forall w: nat
      ensures (Present(w) <==> w % 2 == 1) && FrameOf(w) == w / 4096 % 0x100_0000_0000
    {
      PresentIs(w);
      MaskIs(w);
    }
    assert TableAt(mem, root, i[..0]) == Some(root);
    var t1 := TableAt(mem, root, i[..1]);
    var t2 := TableAt(mem, root, i[..2]);
    var t3 := TableAt(mem, root, i[..3]);
  }

  /** The table reached from the root along a path of present entries. */
  function TableAt(mem: Memory, root: nat, p: Path): Option<nat> {
    if p == [] then Some(root)
    else
      match TableAt(mem, root, p[..|p| - 1])
      case None => None
      case Some(f) =>
        var w := mem(f)[p[|p| - 1]];
        if Present(w) then Some(FrameOf(w)) else None
  }

  /** What the processor finds for a virtual address: the entry in the last table, if any. */
  function Walk(mem: Memory, root: nat, v: nat): Option<Word> {
    match TableAt(mem, root, Indices(v)[..3])
    case None => None
    case Some(f) =>
      var w := mem(f)[Indices(v)[3]];
      if Present(w) then Some(w) else None
  }

  /** Two addresses are on the same page when bits 12 to 47 agree. */
  predicate SamePage(v: nat, v': nat) {
    v / PAGE_SIZE % 0x10_0000_0000 == v' / PAGE_SIZE % 0x10_0000_0000
  }

  lemma Digits(a: nat)
    ensures a % 0x10_0000_0000 == a / 0x800_0000 % 512 * 0x800_0000 + a / 0x4_0000 % 512 * 0x4_0000
                                  + a / 512 % 512 * 512 + a % 512
  {
    var b := a / 512;
    var c := b / 512;
    var d := c / 512;
    var x := d / 512;
    DigitOut(a);
    DigitOut(b);
    DigitOut(c);
    DigitOut(d);
    Shifted(a);
    Remainder(a, x, d % 512 * 0x800_0000 + c % 512 * 0x4_0000 + b % 512 * 512 + a % 512);
  }

  lemma DigitOut(a: nat)
    ensures a == 512 * (a / 512) + a % 512 && a % 512 < 512
  {
  }

  lemma Shifted(a: nat)
    ensures a / 0x4_0000 == a / 512 / 512 && a / 0x800_0000 == a / 512 / 512 / 512
  {
  }

  lemma Remainder(a: nat, x: nat, r: nat)
    requires a == x * 0x10_0000_0000 + r && r < 0x10_0000_0000
    ensures a % 0x10_0000_0000 == r
  {
  }

  lemma PageDigits(v: nat)
    ensures v / 0x20_0000 == v / PAGE_SIZE / 512 && v / 0x4000_0000 == v / PAGE_SIZE / 0x4_0000
    ensures v / 0x80_0000_0000 == v / PAGE_SIZE / 0x800_0000
  {
  }

  lemma DigitsUnique(i: Path, j: Path)
    requires |i| == |j| == 4
    requires i[0] * 0x800_0000 + i[1] * 0x4_0000 + i[2] * 512 + i[3]
          == j[0] * 0x800_0000 + j[1] * 0x4_0000 + j[2] * 512 + j[3]
    ensures i == j
  {
    var a, b := i[0] * 512 + i[1], j[0] * 512 + j[1];
    var c, d := a * 512 + i[2], b * 512 + j[2];
    DigitOff(c, i[3], d, j[3]);
    DigitOff(a, i[2], b, j[2]);
    DigitOff(i[0], i[1], j[0], j[1]);
  }

  lemma DigitOff(x: nat, a: nat, y: nat, b: nat)
    requires a < 512 && b < 512 && x * 512 + a == y * 512 + b
    ensures x == y && a == b
  {
  }

  lemma SameDigits(i: Path, j: Path)
    requires |i| == |j| == 4
    ensures i == j ==> i[0] == j[0] && i[1] == j[1] && i[2] == j[2] && i[3] == j[3]
  {
  }

  /** The four indices say exactly which page an address is on. */
  lemma SamePageIs(v: nat, v': nat)
    ensures SamePage(v, v') <==> Indices(v) == Indices(v')
  {
    Digits(v / PAGE_SIZE);
    Digits(v' / PAGE_SIZE);
    PageDigits(v);
    PageDigits(v');
    if SamePage(v, v') { DigitsUnique(Indices(v), Indices(v')); }
    SameDigits(Indices(v), Indices(v'));
  }

  ghost predicate Reaches(mem: Memory, root: nat, p: Path, f: nat) {
    |p| <= 3 && TableAt(mem, root, p) == Some(f)
  }

  /** The tables form a tree that is apart from the free pages: no table is reached along two
      paths, and none is a page that the allocator could hand out. */
  ghost predicate Tree(mem: Memory, root: nat, free: set<nat>) {
    && (forall p: Path, f :: Reaches(mem, root, p, f) ==> f !in free)
    && (forall p: Path, q: Path, f :: Reaches(mem, root, p, f) && Reaches(mem, root, q, f) ==> p == q)
  }

  function Write(mem: Memory, f: nat, i: nat, w: Word): Memory
    requires i < 512
  {
    (g: nat) => if g == f then mem(f)[i := w] else mem(g)
  }

  // ---------- what a write does to the walks ----------

  /** Memory that changes on free pages only keeps every table and every walk. */
  lemma {:induction false} FreeWritesKeepTables(mem: Memory, mem': Memory, root: nat, free: set<nat>, p: Path)
    requires Tree(mem, root, free) && |p| <= 3
    requires forall f: nat :: f !in free ==> mem'(f) == mem(f)
    ensures TableAt(mem', root, p) == TableAt(mem, root, p)
    decreases |p|
  {
    if p != [] {
      var q: Path := p[..|p| - 1];
      FreeWritesKeepTables(mem, mem', root, free, q);
      match TableAt(mem, root, q) {
        case None =>
        case Some(f) => assert Reaches(mem, root, q, f);
      }
    }
  }

  /** A write to a last-level table keeps every table. */
  lemma {:induction false} LeafWriteKeepsTables(mem: Memory, root: nat, free: set<nat>, leaf: Path, f: nat,
                                                i: nat, w: Word, p: Path)
    requires Tree(mem, root, free) && |leaf| == 3 && TableAt(mem, root, leaf) == Some(f) && i < 512
    requires |p| <= 3
    ensures TableAt(Write(mem, f, i, w), root, p) == TableAt(mem, root, p)
    decreases |p|
  {
    if p != [] {
      var q: Path := p[..|p| - 1];
      LeafWriteKeepsTables(mem, root, free, leaf, f, i, w, q);
      match TableAt(mem, root, q) {
        case None =>
        case Some(g) =>
          assert Reaches(mem, root, q, g) && Reaches(mem, root, leaf, f);
          assert g != f;
      }
    }
  }

  /** Linking a fresh, empty table adds that table and changes no other. */
  lemma {:induction false} LinkAddsTable(mem: Memory, root: nat, free: set<nat>, at: Path, f: nat,
                                         i: nat, g: nat, p: Path)
    requires Tree(mem, root, free) && |at| < 3 && TableAt(mem, root, at) == Some(f) && i < 512
    requires !Present(mem(f)[i]) && g in free && mem(g) == ZeroPage() && g < FRAME_LIMIT
    requires |p| <= 3
    ensures TableAt(Write(mem, f, i, TableEntry(g)), root, p) ==
      if p == at + [i] then Some(g) else TableAt(mem, root, p)
    decreases |p|
  {
    hide Present, FrameOf, TableEntry, Tree, TableAt;
    if p == [] {
      RootTable(mem, root);
      RootTable(Write(mem, f, i, TableEntry(g)), root);
    } else {
      var q: Path, j := p[..|p| - 1], p[|p| - 1];
      assert p == q + [j];
      LinkAddsTable(mem, root, free, at, f, i, g, q);
      LinkAddsOne(mem, root, free, at, f, i, g, q, j);
    }
  }

  lemma RootTable(mem: Memory, root: nat)
    ensures TableAt(mem, root, []) == Some(root)
  {
  }

  /** The table one level down. */
  lemma NextTable(mem: Memory, root: nat, q: Path, j: nat)
    requires |q| < 3 && j < 512
    ensures TableAt(mem, root, q + [j]) ==
      match TableAt(mem, root, q)
      case None => None
      case Some(h) => if Present(mem(h)[j]) then Some(FrameOf(mem(h)[j])) else None
  {
    assert (q + [j])[..|q|] == q;
  }

  /** One level of LinkAddsTable. */
  lemma LinkAddsOne(mem: Memory, root: nat, free: set<nat>, at: Path, f: nat, i: nat, g: nat, q: Path, j: nat)
    requires Tree(mem, root, free) && |at| < 3 && TableAt(mem, root, at) == Some(f) && i < 512
    requires !Present(mem(f)[i]) && g in free && mem(g) == ZeroPage() && g < FRAME_LIMIT
    requires |q| < 3 && j < 512
    requires TableAt(Write(mem, f, i, TableEntry(g)), root, q) ==
      if q == at + [i] then Some(g) else TableAt(mem, root, q)
    ensures TableAt(Write(mem, f, i, TableEntry(g)), root, q + [j]) ==
      if q + [j] == at + [i] then Some(g) else TableAt(mem, root, q + [j])
  {
    hide Present, FrameOf, TableEntry, Tree, TableAt;
    TableEntryIs(g);
    NotPresent();
    TableApart(mem, root, free, at, at, f, f);
    NextTable(mem, root, q, j);
    NextTable(Write(mem, f, i, TableEntry(g)), root, q, j);
    assert q + [j] == at + [i] ==> (q + [j])[..|q|] == (at + [i])[..|q|] && q == at;
    if q == at + [i] {
      NextTable(mem, root, at, i);
    } else if q != at && TableAt(mem, root, q).Some? {
      TableApart(mem, root, free, at, q, f, TableAt(mem, root, q).value);
    }
  }

  lemma TableApart(mem: Memory, root: nat, free: set<nat>, p: Path, q: Path, f: nat, g: nat)
    requires Tree(mem, root, free) && |p| <= 3 && |q| <= 3
    requires TableAt(mem, root, p) == Some(f) && TableAt(mem, root, q) == Some(g)
    ensures f !in free && (f == g ==> p == q)
  {
    assert Reaches(mem, root, p, f) && Reaches(mem, root, q, g);
  }

  lemma NotPresent()
    ensures !Present(0)
  {
  }

  // ---------- the same for whole walks ----------

  lemma FreeWritesKeepTree(mem: Memory, mem': Memory, root: nat, free: set<nat>, free': set<nat>)
    requires Tree(mem, root, free) && free' <= free
    requires forall f: nat :: f !in free ==> mem'(f) == mem(f)
    ensures Tree(mem', root, free')
    ensures forall v: nat :: Walk(mem', root, v) == Walk(mem, root, v)
  {
    forall p: Path | |p| <= 3
      ensures TableAt(mem', root, p) == TableAt(mem, root, p)
    {
      FreeWritesKeepTables(mem, mem', root, free, p);
    }
    forall p: Path, f | Reaches(mem', root, p, f)
      ensures Reaches(mem, root, p, f)
    {
    }
    forall v: nat
      ensures Walk(mem', root, v) == Walk(mem, root, v)
    {
      var p: Path := Indices(v)[..3];
      match TableAt(mem, root, p) {
        case None =>
        case Some(f) => assert Reaches(mem, root, p, f);
      }
    }
  }

  lemma LinkKeepsTree(mem: Memory, root: nat, free: set<nat>, at: Path, f: nat, i: nat, g: nat)
    requires Tree(mem, root, free) && |at| < 3 && TableAt(mem, root, at) == Some(f) && i < 512
    requires !Present(mem(f)[i]) && g in free && mem(g) == ZeroPage() && g < FRAME_LIMIT
    ensures var mem' := Write(mem, f, i, TableEntry(g));
      && Tree(mem', root, free - {g}) && TableAt(mem', root, at + [i]) == Some(g)
      && (forall p: Path :: |p| <= 3 && p != at + [i] ==> TableAt(mem', root, p) == TableAt(mem, root, p))
      && (forall v: nat :: Walk(mem', root, v) == Walk(mem, root, v))
  {
    hide Present, FrameOf, TableEntry;
    var mem' := Write(mem, f, i, TableEntry(g));
    var new': Path := at + [i];
    forall p: Path | |p| <= 3
      ensures TableAt(mem', root, p) == if p == new' then Some(g) else TableAt(mem, root, p)
    {
      LinkAddsTable(mem, root, free, at, f, i, g, p);
    }
    forall p: Path, h | Reaches(mem', root, p, h)
      ensures if p == new' then h == g else Reaches(mem, root, p, h) && h != g
    {
    }
    LinkKeepsWalks(mem, root, free, at, f, i, g);
  }

  lemma LinkKeepsWalks(mem: Memory, root: nat, free: set<nat>, at: Path, f: nat, i: nat, g: nat)
    requires Tree(mem, root, free) && |at| < 3 && TableAt(mem, root, at) == Some(f) && i < 512
    requires !Present(mem(f)[i]) && g in free && mem(g) == ZeroPage() && g < FRAME_LIMIT
    ensures forall v: nat :: Walk(Write(mem, f, i, TableEntry(g)), root, v) == Walk(mem, root, v)
  {
    hide Present, FrameOf, TableEntry;
    NotPresent();
    var mem' := Write(mem, f, i, TableEntry(g));
    assert Reaches(mem, root, at, f);
    forall v: nat
      ensures Walk(mem', root, v) == Walk(mem, root, v)
    {
      var p: Path := Indices(v)[..3];
      LinkAddsTable(mem, root, free, at, f, i, g, p);
      if p == at + [i] {
        assert p[..2] == at && p[2] == i;
        assert TableAt(mem, root, p) == None;
      } else {
        match TableAt(mem, root, p) {
          case None =>
          case Some(h) =>
            assert Reaches(mem, root, p, h);
            assert h != f;
        }
      }
    }
  }

  lemma LeafKeepsTree(mem: Memory, root: nat, free: set<nat>, v: nat, f: nat, w: Word)
    requires Tree(mem, root, free) && TableAt(mem, root, Indices(v)[..3]) == Some(f)
    ensures var mem' := Write(mem, f, Indices(v)[3], w);
      && Tree(mem', root, free)
      && (forall v': nat :: Walk(mem', root, v') ==
            if SamePage(v, v') then (if Present(w) then Some(w) else None) else Walk(mem, root, v'))
  {
    hide Present, FrameOf, SamePage;
    var leaf: Path := Indices(v)[..3];
    var mem' := Write(mem, f, Indices(v)[3], w);
    forall p: Path | |p| <= 3
      ensures TableAt(mem', root, p) == TableAt(mem, root, p)
    {
      LeafWriteKeepsTables(mem, root, free, leaf, f, Indices(v)[3], w, p);
    }
    forall p: Path, h | Reaches(mem', root, p, h)
      ensures Reaches(mem, root, p, h)
    {
    }
    LeafChangesOneWalk(mem, root, free, v, f, w);
  }

  lemma LeafChangesOneWalk(mem: Memory, root: nat, free: set<nat>, v: nat, f: nat, w: Word)
    requires Tree(mem, root, free) && TableAt(mem, root, Indices(v)[..3]) == Some(f)
    ensures forall v': nat ::
      Walk(Write(mem, f, Indices(v)[3], w), root, v') ==
        if SamePage(v, v') then (if Present(w) then Some(w) else None) else Walk(mem, root, v')
  {
    hide Present, FrameOf, SamePage, Indices;
    var leaf: Path := Indices(v)[..3];
    var mem' := Write(mem, f, Indices(v)[3], w);
    assert Reaches(mem, root, leaf, f);
    forall v': nat
      ensures Walk(mem', root, v') ==
        if SamePage(v, v') then (if Present(w) then Some(w) else None) else Walk(mem, root, v')
    {
      SamePageIs(v, v');
      var p: Path := Indices(v')[..3];
      LeafWriteKeepsTables(mem, root, free, leaf, f, Indices(v)[3], w, p);
      if p == leaf && Indices(v')[3] == Indices(v)[3] {
        assert Indices(v') == p + [Indices(v')[3]] && Indices(v) == leaf + [Indices(v)[3]];
      } else if p != leaf {
        match TableAt(mem, root, p) {
          case None =>
          case Some(g) =>
            assert Reaches(mem, root, p, g);
            assert g != f;
        }
      }
    }
  }

  // ---------- data pages ----------

  /** A page that is neither a table nor free. */
  ghost predicate Data(mem: Memory, root: nat, free: set<nat>, g: nat) {
    g !in free && forall q: Path :: !Reaches(mem, root, q, g)
  }

  /** Data pages stay what they are and keep their contents. */
  ghost predicate DataKept(mem: Memory, free: set<nat>, mem': Memory, free': set<nat>, root: nat) {
    forall g: nat :: Data(mem, root, free, g) ==> Data(mem', root, free', g) && mem'(g) == mem(g)
  }

  lemma DataSame(mem: Memory, free: set<nat>, root: nat)
    ensures DataKept(mem, free, mem, free, root)
  {
  }

  lemma DataThen(m0: Memory, f0: set<nat>, m1: Memory, f1: set<nat>, m2: Memory, f2: set<nat>, root: nat)
    requires DataKept(m0, f0, m1, f1, root) && DataKept(m1, f1, m2, f2, root)
    ensures DataKept(m0, f0, m2, f2, root)
  {
    hide Data;
  }

  /** Only a table and free pages are written, and a new table was a free page. */
  lemma TableWritten(mem: Memory, free: set<nat>, mem': Memory, free': set<nat>, root: nat, at: Path, f: nat)
    requires |at| <= 3 && TableAt(mem, root, at) == Some(f) && free' <= free
    requires forall g: nat :: g != f && g !in free ==> mem'(g) == mem(g)
    requires forall q: Path, h :: Reaches(mem', root, q, h) ==> Reaches(mem, root, q, h) || h in free
    ensures DataKept(mem, free, mem', free', root)
  {
    assert Reaches(mem, root, at, f);
  }

  // ---------- vmm.c ----------

  /** The address space: a root table in the physical memory p, and a tree below it. */
  ghost predicate Space(p: PhysicalMemory, root: nat)
    reads p, p.bitmap
  {
    p.Valid() && p.highestPage <= FRAME_LIMIT && Tree(p.mem, root, p.Free())
  }

  /** The part of get_next_level that only reads. */
  function Lookup(mem: Memory, current: nat, index: nat): Option<nat>
    requires index < 512
  {
    var entry := mem(current)[index];
    if Present(entry) then Some(FrameOf(entry)) else None
  }

  /** get_next_level, from the table `current` that is reached along the path `at`. */
  method GetNextLevel(p: PhysicalMemory, ghost root: nat, ghost at: Path, current: nat,
                      index: nat, allocate: bool) returns (r: Option<nat>)
    requires Space(p, root) && |at| < 3 && index < 512 && TableAt(p.mem, root, at) == Some(current)
    modifies p.bitmap, p`mem
    ensures Space(p, root)
    ensures TableAt(p.mem, root, at + [index]) == r
    ensures forall v: nat :: Walk(p.mem, root, v) == Walk(old(p.mem), root, v)
    ensures forall q: Path :: |q| <= 3 && q != at + [index] ==>
      TableAt(p.mem, root, q) == TableAt(old(p.mem), root, q)
    ensures old(TableAt(p.mem, root, at + [index])).Some? || !allocate ==>
      p.mem == old(p.mem) && p.Free() == old(p.Free())
      && r == TableAt(old(p.mem), root, at + [index])
    ensures old(TableAt(p.mem, root, at + [index])).None? && allocate ==>
      if old(p.Free()) == {} then r == None && p.Free() == {} && p.mem == old(p.mem)
      else r.Some? && r.value in old(p.Free()) && p.Free() == old(p.Free()) - {r.value}
    ensures DataKept(old(p.mem), old(p.Free()), p.mem, p.Free(), root)
  {
    hide Present, FrameOf, TableEntry, Tree, Walk, DataKept;
    ghost var next: Path := at + [index];
    assert next[..|next| - 1] == at && next[|next| - 1] == index;
    DataSame(p.mem, p.Free(), root);
    r := Lookup(p.mem, current, index);
    if r.Some? {
      return r;
    }
    if !allocate {
      return None;
    }
    ghost var free, mem := p.Free(), p.mem;
    var frame := AllocTable(p);
    if frame == 0 {
      return None;
    }
    AllocKeeps(mem, p.mem, root, free, at, current);
    LinkKeepsTree(p.mem, root, free, at, current, index, frame);
    p.mem := Write(p.mem, current, index, TableEntry(frame));
    OnlyNextAdded(mem, p.mem, root, next, frame);
    TableWritten(mem, free, p.mem, p.Free(), root, at, current);
    return Some(frame);
  }

  lemma OnlyNextAdded(mem: Memory, mem': Memory, root: nat, next: Path, frame: nat)
    requires forall q: Path :: |q| <= 3 && q != next ==> TableAt(mem', root, q) == TableAt(mem, root, q)
    requires TableAt(mem', root, next) == Some(frame)
    ensures forall q: Path, h :: Reaches(mem', root, q, h) ==> Reaches(mem, root, q, h) || h == frame
  {
    hide TableAt;
  }

  /** pmm_alloc_page, said for a single page. */
  method AllocTable(p: PhysicalMemory) returns (r: nat)
    requires p.Valid()
    modifies p.bitmap, p`mem
    ensures p.Valid()
    ensures r == 0 ==> old(p.Free()) == {} && p.Free() == {} && p.mem == old(p.mem)
    ensures r != 0 ==>
      && r in old(p.Free()) && r < p.highestPage && p.Free() == old(p.Free()) - {r}
      && p.mem(r) == ZeroPage() && forall f: nat :: f != r ==> p.mem(f) == old(p.mem)(f)
  {
    ghost var free := p.Free();
    r := p.AllocPages(1);
    if r == 0 {
      NoSingleRun(free);
    } else {
      assert r in free;
    }
  }

  lemma AllocKeeps(mem: Memory, mem': Memory, root: nat, free: set<nat>, at: Path, f: nat)
    requires Tree(mem, root, free) && |at| <= 3 && TableAt(mem, root, at) == Some(f)
    requires forall g: nat :: g !in free ==> mem'(g) == mem(g)
    ensures Tree(mem', root, free) && mem'(f) == mem(f)
    ensures forall v: nat :: Walk(mem', root, v) == Walk(mem, root, v)
    ensures forall q: Path :: |q| <= 3 ==> TableAt(mem', root, q) == TableAt(mem, root, q)
  {
    CurrentKept(mem, mem', root, free, at, f);
    FreeWritesKeepTree(mem, mem', root, free, free);
    forall q: Path | |q| <= 3
      ensures TableAt(mem', root, q) == TableAt(mem, root, q)
    {
      FreeWritesKeepTables(mem, mem', root, free, q);
    }
  }

  lemma NoSingleRun(free: set<nat>)
    requires forall q: nat :: !RunIn(free, q, 1)
    ensures free == {}
  {
    if q :| q in free { assert RunIn(free, q, 1); }
  }

  lemma CurrentKept(mem: Memory, mem': Memory, root: nat, free: set<nat>, at: Path, f: nat)
    requires Tree(mem, root, free) && |at| <= 3 && TableAt(mem, root, at) == Some(f)
    requires forall g: nat :: g !in free ==> mem'(g) == mem(g)
    ensures mem'(f) == mem(f)
  {
    assert Reaches(mem, root, at, f);
  }

  /** How many of the three lower tables on the way to v do not exist yet. */
  function Missing(mem: Memory, root: nat, v: nat): (n: nat)
    ensures n <= 3
  {
    if TableAt(mem, root, Indices(v)[..1]).None? then 3
    else if TableAt(mem, root, Indices(v)[..2]).None? then 2
    else if TableAt(mem, root, Indices(v)[..3]).None? then 1
    else 0
  }

  lemma MissingDown(mem: Memory, root: nat, v: nat)
    ensures TableAt(mem, root, Indices(v)[..0]) == Some(root)
    ensures TableAt(mem, root, Indices(v)[..1]).None? ==> TableAt(mem, root, Indices(v)[..2]).None?
    ensures TableAt(mem, root, Indices(v)[..2]).None? ==> TableAt(mem, root, Indices(v)[..3]).None?
  {
    var i := Indices(v);
    assert i[..2][..1] == i[..1] && i[..3][..2] == i[..2];
  }

  /** The k-th step of the descent in vmm_map_page. */
  method Descend(p: PhysicalMemory, root: nat, vaddr: nat, k: nat, current: nat)
    returns (r: Option<nat>)
    requires Space(p, root) && k < 3 && TableAt(p.mem, root, Indices(vaddr)[..k]) == Some(current)
    modifies p.bitmap, p`mem
    ensures Space(p, root) && TableAt(p.mem, root, Indices(vaddr)[..k + 1]) == r
    ensures forall v: nat :: Walk(p.mem, root, v) == Walk(old(p.mem), root, v)
    ensures forall j :: 0 <= j <= 3 && j != k + 1 ==>
      TableAt(p.mem, root, Indices(vaddr)[..j]) == TableAt(old(p.mem), root, Indices(vaddr)[..j])
    ensures old(TableAt(p.mem, root, Indices(vaddr)[..k + 1])).Some? ==>
      r.Some? && p.Free() == old(p.Free())
    ensures old(TableAt(p.mem, root, Indices(vaddr)[..k + 1])).None? ==>
      if old(p.Free()) == {} then r.None? && p.Free() == {}
      else r.Some? && p.Free() < old(p.Free()) && |p.Free()| == |old(p.Free())| - 1
    ensures DataKept(old(p.mem), old(p.Free()), p.mem, p.Free(), root)
  {
    hide Tree, Walk, TableAt, Indices, DataKept;
    ghost var i, free := Indices(vaddr), p.Free();
    ghost var at: Path := i[..k];
    assert i[..k + 1] == at + [i[k]];
    r := GetNextLevel(p, root, at, current, Indices(vaddr)[k], true);
    if r.Some? && r.value in free {
      assert free == (free - {r.value}) + {r.value};
    }
  }

  /** vmm_map_page. The mapping is made exactly when there are pages enough for the tables that
      are missing. If it is made, every address on the page translates through the new entry and
      every other address as before; if not, every address translates as before. */
  method MapPage(p: PhysicalMemory, pml4: nat, vaddr: nat, paddr: nat, flags: nat)
    returns (ghost ok: bool)
    requires Space(p, pml4)
    modifies p.bitmap, p`mem
    ensures Space(p, pml4)
    ensures ok <==> Missing(old(p.mem), pml4, vaddr) <= |old(p.Free())|
    ensures forall v: nat ::
      Walk(p.mem, pml4, v) ==
        if ok && SamePage(vaddr, v) then Some(LeafEntry(paddr, flags)) else Walk(old(p.mem), pml4, v)
    ensures ok ==> forall v: nat | SamePage(vaddr, v) ::
      Walk(p.mem, pml4, v).Some? && EntryFor(Walk(p.mem, pml4, v).value, paddr, flags)
    ensures |p.Free()| + (if ok then Missing(old(p.mem), pml4, vaddr) else |old(p.Free())|)
         == |old(p.Free())|
    ensures DataKept(old(p.mem), old(p.Free()), p.mem, p.Free(), pml4)
  {
    hide Tree, Walk, TableAt, Indices, SamePage, LeafEntry, DataKept, EntryFor;
    ghost var m, f := p.mem, p.Free();
    MissingDown(m, pml4, vaddr);
    ok := false;
    var pdp := Descend(p, pml4, vaddr, 0, pml4);
    if pdp.None? { return; }
    ghost var m1, f1 := p.mem, p.Free();
    MissingDown(m1, pml4, vaddr);
    var pd := Descend(p, pml4, vaddr, 1, pdp.value);
    DataThen(m, f, m1, f1, p.mem, p.Free(), pml4);
    if pd.None? { return; }
    ghost var m2, f2 := p.mem, p.Free();
    MissingDown(m2, pml4, vaddr);
    var pt := Descend(p, pml4, vaddr, 2, pd.value);
    DataThen(m, f, m2, f2, p.mem, p.Free(), pml4);
    if pt.None? { return; }
    ghost var m3, f3 := p.mem, p.Free();
    WriteLeaf(p, pml4, vaddr, pt.value, LeafEntry(paddr, flags));
    DataThen(m, f, m3, f3, p.mem, p.Free(), pml4);
    LeafEntryIs(paddr, flags);
    LeafBits(paddr, flags);
    ok := true;
  }

  /** The store into the last table. */
  method WriteLeaf(p: PhysicalMemory, pml4: nat, vaddr: nat, pt: nat, entry: Word)
    requires Space(p, pml4) && TableAt(p.mem, pml4, Indices(vaddr)[..3]) == Some(pt)
    modifies p`mem
    ensures Space(p, pml4) && p.Free() == old(p.Free())
    ensures forall v: nat ::
      Walk(p.mem, pml4, v) ==
        if SamePage(vaddr, v) then (if Present(entry) then Some(entry) else None) else Walk(old(p.mem), pml4, v)
    ensures DataKept(old(p.mem), old(p.Free()), p.mem, p.Free(), pml4)
  {
    hide Tree, TableAt, Indices, SamePage, Present, DataKept, Walk;
    LeafKeepsTree(p.mem, pml4, p.Free(), vaddr, pt, entry);
    LeafKeepsReach(p.mem, pml4, p.Free(), vaddr, pt, entry);
    ghost var mem := p.mem;
    p.mem := Write(p.mem, pt, Indices(vaddr)[3], entry);
    TableWritten(mem, p.Free(), p.mem, p.Free(), pml4, Indices(vaddr)[..3], pt);
  }

  lemma LeafKeepsReach(mem: Memory, root: nat, free: set<nat>, v: nat, f: nat, w: Word)
    requires Tree(mem, root, free) && TableAt(mem, root, Indices(v)[..3]) == Some(f)
    ensures var mem' := Write(mem, f, Indices(v)[3], w);
      forall q: Path, h :: Reaches(mem', root, q, h) ==> Reaches(mem, root, q, h)
  {
    hide Tree, Indices, TableAt;
    var mem' := Write(mem, f, Indices(v)[3], w);
    forall q: Path, h | Reaches(mem', root, q, h)
      ensures Reaches(mem, root, q, h)
    {
      LeafWriteKeepsTables(mem, root, free, Indices(v)[..3], f, Indices(v)[3], w, q);
    }
  }

  /** The walk of vmm_unmap_page and vmm_get_phys, which allocates nothing. */
  method FindTable(p: PhysicalMemory, pml4: nat, vaddr: nat) returns (r: Option<nat>)
    ensures r == TableAt(p.mem, pml4, Indices(vaddr)[..3])
  {
    hide Present, FrameOf, Indices;
    ghost var i := Indices(vaddr);
    assert i[..1][..0] == [] && i[..2][..1] == i[..1] && i[..3][..2] == i[..2];
    r := Lookup(p.mem, pml4, Indices(vaddr)[0]);
    assert r == TableAt(p.mem, pml4, i[..1]);
    if r.None? { return; }
    r := Lookup(p.mem, r.value, Indices(vaddr)[1]);
    assert r == TableAt(p.mem, pml4, i[..2]);
    if r.None? { return; }
    r := Lookup(p.mem, r.value, Indices(vaddr)[2]);
  }

  /** vmm_unmap_page: removes exactly one page. */
  method UnmapPage(p: PhysicalMemory, pml4: nat, vaddr: nat)
    requires Space(p, pml4)
    modifies p`mem
    ensures Space(p, pml4) && p.Free() == old(p.Free())
    ensures forall v: nat ::
      Walk(p.mem, pml4, v) == if SamePage(vaddr, v) then None else Walk(old(p.mem), pml4, v)
    ensures DataKept(old(p.mem), old(p.Free()), p.mem, p.Free(), pml4)
  {
    hide Tree, TableAt, Indices, SamePage, Present, DataKept;
    var pt := FindTable(p, pml4, vaddr);
    if pt.None? {
      DataSame(p.mem, p.Free(), pml4);
      forall v: nat | SamePage(vaddr, v)
        ensures Walk(p.mem, pml4, v) == None
      {
        SamePageIs(vaddr, v);
      }
      return;
    }
    NotPresent();
    WriteLeaf(p, pml4, vaddr, pt.value, 0);
  }

  /** The physical address of a virtual one, 0 if it is not mapped. */
  function Phys(mem: Memory, root: nat, v: nat): nat {
    match Walk(mem, root, v)
    case None => 0
    case Some(w) => And(w, PTE_ADDR_MASK) + v % PAGE_SIZE
  }

  /** vmm_get_phys */
  method GetPhys(p: PhysicalMemory, pml4: nat, vaddr: nat) returns (r: nat)
    ensures r == Phys(p.mem, pml4, vaddr)
    ensures match Walk(p.mem, pml4, vaddr)
            case None => r == 0
            case Some(w) => r == w / 4096 % 0x100_0000_0000 * 4096 + vaddr % 4096
  {
    hide TableAt, Indices, Present, And;
    var pt := FindTable(p, pml4, vaddr);
    if pt.None? {
      return 0;
    }
    var entry := p.mem(pt.value)[Indices(vaddr)[3]];
    if !Present(entry) {
      return 0;
    }
    MaskIs(entry);
    return And(entry, PTE_ADDR_MASK) + vaddr % PAGE_SIZE;
  }

  /** An empty root table and no free page: by the contract of MapPage no address can be mapped. */
  lemma NoPageLeft(v: nat)
    ensures var mem: Memory := (g: nat) => ZeroPage();
      Tree(mem, 0, {}) && Missing(mem, 0, v) == 3 && Walk(mem, 0, v) == None
  {
    hide Present, Indices;
    var mem: Memory := (g: nat) => ZeroPage();
    forall p: Path | 0 < |p| <= 3
      ensures TableAt(mem, 0, p) == None
    {
      EmptyRoot(p);
    }
    MissingDown(mem, 0, v);
  }

  lemma {:induction false} EmptyRoot(p: Path)
    requires 0 < |p| <= 3
    ensures TableAt((g: nat) => ZeroPage(), 0, p) == None
    decreases |p|
  {
    hide Present;
    NotPresent();
    if |p| > 1 {
      EmptyRoot(p[..|p| - 1]);
    }
  }

  /** After a mapping has been made, every address of the page translates to its place in the
      physical page asked for, if and only if the flags bring no address bits of their own. */
  lemma MappedPhys(mem: Memory, root: nat, v: nat, paddr: nat, flags: nat)
    requires Walk(mem, root, v) == Some(LeafEntry(paddr, flags))
    ensures Phys(mem, root, v) == And(paddr, PTE_ADDR_MASK) + v % PAGE_SIZE <==>
      And(And(flags, PTE_ADDR_MASK), And(paddr, PTE_ADDR_MASK)) == And(flags, PTE_ADDR_MASK)
  {
    LeafEntryIs(paddr, flags);
  }

  /** Mapping address 0 with flag 0x1000, an address bit, translates to address 0x1000. */
  lemma FlagsSpoilAddress(mem: Memory, root: nat, v: nat)
    requires Walk(mem, root, v) == Some(LeafEntry(0, 0x1000))
    ensures Phys(mem, root, v) == 0x1000 + v % PAGE_SIZE
    ensures And(0, PTE_ADDR_MASK) + v % PAGE_SIZE == v % PAGE_SIZE
  {
    hide And, Or, Walk, LeafEntry;
    LeafEntryIs(0, 0x1000);
    SmallMasks();
    OrZero(0x1000);
  }

  lemma SmallMasks()
    ensures And(0, PTE_ADDR_MASK) == 0 && And(0x1000, PTE_ADDR_MASK) == 0x1000
  {
    hide And;
    MaskIs(0);
    MaskIs(0x1000);
  }

  /** The flags that the kernel defines bring none. */
  lemma KernelFlags(flags: nat)
    requires flags < PAGE_SIZE || (0x8000_0000_0000_0000 <= flags < 0x8000_0000_0000_0000 + PAGE_SIZE)
    ensures And(flags, PTE_ADDR_MASK) == 0
  {
    hide And;
    MaskIs(flags);
    if flags < PAGE_SIZE {
      assert flags / PAGE_SIZE == 0;
    } else {
      assert flags / PAGE_SIZE == 2048 * FRAME_LIMIT;
      FrameMultiple(2048);
    }
  }

  lemma {:induction false} FrameMultiple(k: nat)
    ensures k * FRAME_LIMIT % FRAME_LIMIT == 0
  {
    if k > 0 {
      FrameMultiple(k - 1);
    }
  }

  /** Sequences of mappings that never run out of pages behave like a finite map: what each
      address translates to is what the last mapping or unmapping of its page said. */
  datatype Request = Map(vaddr: nat, paddr: nat, flags: nat) | Unmap(vaddr: nat)

  function Expected(start: Option<Word>, rs: seq<Request>, v: nat): Option<Word> {
    if rs == [] then start
    else
      var r := rs[|rs| - 1];
      if SamePage(r.vaddr, v) then
        (if r.Map? then Some(LeafEntry(r.paddr, r.flags)) else None)
      else Expected(start, rs[..|rs| - 1], v)
  }

  /** The requests that were carried out, in order. */
  function Carried(rs: seq<Request>, oks: seq<bool>): (done: seq<Request>)
    requires |oks| == |rs|
    ensures |done| <= |rs|
  {
    if rs == [] then []
    else
      var n := |rs| - 1;
      Carried(rs[..n], oks[..n]) + if oks[n] then [rs[n]] else []
  }

  method Perform(p: PhysicalMemory, pml4: nat, rs: seq<Request>)
    returns (ghost oks: seq<bool>, ghost done: seq<Request>)
    requires Space(p, pml4)
    modifies p.bitmap, p`mem
    ensures Space(p, pml4)
    ensures |oks| == |rs| && done == Carried(rs, oks)
    ensures forall i :: 0 <= i < |rs| && rs[i].Unmap? ==> oks[i]
    ensures |old(p.Free())| >= 3 * |rs| ==> done == rs
    ensures forall v: nat :: Walk(p.mem, pml4, v) == Expected(Walk(old(p.mem), pml4, v), done, v)
    ensures DataKept(old(p.mem), old(p.Free()), p.mem, p.Free(), pml4)
  {
    hide Tree, Walk, SamePage, LeafEntry, DataKept, Missing, Carried, Expected, Follows;
    done, oks := [], [];
    DataSame(p.mem, p.Free(), pml4);
    NothingDone(p.mem, pml4);
    for i := 0 to |rs|
      invariant Space(p, pml4) && |oks| == i && done == Carried(rs[..i], oks)
      invariant forall k :: 0 <= k < i && rs[k].Unmap? ==> oks[k]
      invariant |old(p.Free())| >= 3 * |rs| ==> done == rs[..i] && |p.Free()| >= 3 * (|rs| - i)
      invariant Follows(old(p.mem), p.mem, pml4, done)
      invariant DataKept(old(p.mem), old(p.Free()), p.mem, p.Free(), pml4)
    {
      ghost var mem, free := p.mem, p.Free();
      ghost var ok := Carry(p, pml4, rs[i]);
      DataThen(old(p.mem), old(p.Free()), mem, free, p.mem, p.Free(), pml4);
      FollowsNext(old(p.mem), mem, p.mem, pml4, done, rs[i], ok);
      assert rs[..i + 1] == rs[..i] + [rs[i]];
      CarriedNext(rs[..i], oks, rs[i], ok);
      oks := oks + [ok];
      if ok { done := done + [rs[i]]; }
    }
    assert rs[..|rs|] == rs;
    FollowsAll(old(p.mem), p.mem, pml4, done);
  }

  /** Every address translates as the requests carried out say. */
  ghost predicate Follows(start: Memory, mem: Memory, root: nat, done: seq<Request>) {
    forall v: nat :: Walk(mem, root, v) == Expected(Walk(start, root, v), done, v)
  }

  lemma FollowsAll(start: Memory, mem: Memory, root: nat, done: seq<Request>)
    requires Follows(start, mem, root, done)
    ensures forall v: nat :: Walk(mem, root, v) == Expected(Walk(start, root, v), done, v)
  {
    hide Walk, Expected;
  }

  lemma NothingDone(mem: Memory, root: nat)
    ensures Carried([], []) == [] && Follows(mem, mem, root, [])
  {
    hide Walk;
  }

  lemma FollowsNext(start: Memory, mem: Memory, mem': Memory, root: nat, done: seq<Request>, r: Request, ok: bool)
    requires Follows(start, mem, root, done)
    requires forall v: nat ::
      Walk(mem', root, v) ==
        if ok && SamePage(r.vaddr, v) then (if r.Map? then Some(LeafEntry(r.paddr, r.flags)) else None)
        else Walk(mem, root, v)
    ensures Follows(start, mem', root, if ok then done + [r] else done)
  {
    hide Walk, SamePage, LeafEntry;
    var more := done + [r];
    assert more[..|more| - 1] == done;
  }

  lemma CarriedNext(rs: seq<Request>, oks: seq<bool>, r: Request, ok: bool)
    requires |oks| == |rs|
    ensures Carried(rs + [r], oks + [ok]) == Carried(rs, oks) + if ok then [r] else []
  {
    var rs', oks' := rs + [r], oks + [ok];
    assert rs'[..|rs|] == rs && oks'[..|oks|] == oks && rs'[|rs|] == r && oks'[|oks|] == ok;
  }

  /** One request; a mapping may fail for lack of pages, and takes at most three of them. */
  method Carry(p: PhysicalMemory, pml4: nat, r: Request) returns (ghost ok: bool)
    requires Space(p, pml4)
    modifies p.bitmap, p`mem
    ensures Space(p, pml4)
    ensures r.Unmap? || |old(p.Free())| >= 3 ==> ok
    ensures |p.Free()| >= |old(p.Free())| - 3
    ensures forall v: nat ::
      Walk(p.mem, pml4, v) ==
        if ok && SamePage(r.vaddr, v) then (if r.Map? then Some(LeafEntry(r.paddr, r.flags)) else None)
        else Walk(old(p.mem), pml4, v)
    ensures DataKept(old(p.mem), old(p.Free()), p.mem, p.Free(), pml4)
  {
    hide Tree, Walk, SamePage, LeafEntry, DataKept;
    match r {
      case Map(vaddr, paddr, flags) =>
        ok := MapPage(p, pml4, vaddr, paddr, flags);
      case Unmap(vaddr) =>
        UnmapPage(p, pml4, vaddr);
        ok := true;
    }
  }
}
