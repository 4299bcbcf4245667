/** The virtual memory manager: page tables kept in frames handed out by the
    frame allocator (src/kernel/mm/vmm.c). */
module Vmm {
  import opened PageTable
  import opened Pmm

  // ----- addresses -----

  const CANONICAL_LOW_END: nat := 0x0000_8000_0000_0000
  const CANONICAL_HIGH: nat := 0xFFFF_8000_0000_0000
  const ROOT_FRAME_LIMIT: nat := 0x10_0000
  const PHYS_FRAME_LIMIT: nat := 0x100_0000_0000

  predicate IsCanonical(virt: nat)
  {
    virt < CANONICAL_LOW_END || virt >= CANONICAL_HIGH
  }

  function PageOf(virt: nat): Page
  {
    Page(virt / 0x80_0000_0000 % 512, virt / 0x4000_0000 % 512, virt / 0x20_0000 % 512, virt / 0x1000 % 512)
  }

  /** The index bits select a 4 KiB page: on canonical addresses they are the page number. */
  lemma PageOfInjective(a: nat, b: nat)
    requires IsCanonical(a) && IsCanonical(b) && a < 0x1_0000_0000_0000_0000 && b < 0x1_0000_0000_0000_0000
    requires PageOf(a) == PageOf(b)
    ensures a / PAGE_SIZE == b / PAGE_SIZE
  {
    IndexSum(a);
    IndexSum(b);
    CanonicalNumber(a / 0x1000);
    CanonicalNumber(b / 0x1000);
  }

  function PageNumber(p: Page): nat
  {
    ((p.i4 * 512 + p.i3) * 512 + p.i2) * 512 + p.i1
  }

  lemma IndexSum(virt: nat)
    ensures PageNumber(PageOf(virt)) == virt / 0x1000 % 0x10_0000_0000
  {
    var n := virt / 0x1000;
    Shifts(virt);
    Digit3(n);
    Digit2(n / 512);
    Digit1(n / 512 / 512);
  }

  lemma Shifts(virt: nat)
    ensures virt / 0x20_0000 == virt / 0x1000 / 512
    ensures virt / 0x4000_0000 == virt / 0x1000 / 512 / 512
    ensures virt / 0x80_0000_0000 == virt / 0x1000 / 512 / 512 / 512
  {
  }

  lemma Digit3(n: nat)
    ensures n % 0x10_0000_0000 == n / 512 % 0x800_0000 * 512 + n % 512
  {
  }

  lemma Digit2(n: nat)
    ensures n % 0x800_0000 == n / 512 % 0x4_0000 * 512 + n % 512
  {
  }

  lemma Digit1(n: nat)
    ensures n % 0x4_0000 == n / 512 % 512 * 512 + n % 512
  {
  }

  /** Bits 12..47 of a canonical address determine its page number. */
  lemma CanonicalNumber(n: nat)
    requires n < 0x8_0000_0000 || 0xF_FFF8_0000_0000 <= n < 0x10_0000_0000_0000
    ensures n % 0x10_0000_0000 == if n < 0x8_0000_0000 then n else n - 0xF_FFF0_0000_0000
  {
    if n >= 0x8_0000_0000 {
      assert n == 0xFFFF * 0x10_0000_0000 + (n - 0xF_FFF0_0000_0000);
    }
  }

  /** Offsets inside 2 MiB and 1 GiB pages are the lower indices followed by the page offset. */
  lemma SubPage(virt: nat)
    ensures virt % 0x20_0000 == PageOf(virt).i1 * 4096 + virt % 4096
    ensures virt % 0x4000_0000 == (PageOf(virt).i2 * 512 + PageOf(virt).i1) * 4096 + virt % 4096
  {
    var n := virt / 0x1000;
    Shifts(virt);
    Low2M(virt, n / 512, n % 512);
    Low1G(virt, n / 512 / 512, n / 512 % 512, n % 512);
  }

  lemma Low2M(virt: nat, q: nat, i1: nat)
    requires i1 < 512 && virt / 0x1000 == q * 512 + i1
    ensures virt % 0x20_0000 == i1 * 4096 + virt % 4096
  {
    var low := i1 * 4096 + virt % 4096;
    assert virt == q * 0x20_0000 + low;
    Rest2M(virt, q, low);
  }

  lemma Low1G(virt: nat, q: nat, i2: nat, i1: nat)
    requires i1 < 512 && i2 < 512 && virt / 0x1000 == (q * 512 + i2) * 512 + i1
    ensures virt % 0x4000_0000 == (i2 * 512 + i1) * 4096 + virt % 4096
  {
    var low := (i2 * 512 + i1) * 4096 + virt % 4096;
    assert virt / 0x1000 == q * 262144 + (i2 * 512 + i1);
    assert virt == q * 0x4000_0000 + low;
    Rest1G(virt, q, low);
  }

  lemma Rest2M(n: nat, q: nat, r: nat)
    requires r < 0x20_0000 && n == q * 0x20_0000 + r
    ensures n % 0x20_0000 == r
  {
  }

  lemma Rest1G(n: nat, q: nat, r: nat)
    requires r < 0x4000_0000 && n == q * 0x4000_0000 + r
    ensures n % 0x4000_0000 == r
  {
  }

  function PhysOf(l: Option<Leaf>, virt: nat): nat
  {
    if l.None? then 0 else l.value.frame * PAGE_SIZE + virt % PAGE_SIZE
  }

  /** What mapping page `p` leaves alone: every other page's translation and,
      while the leaf-bits invariant holds, every other page's permissions; all
      memory outside the tree. The only frames taken are new tables. */
  ghost predicate Mapped(a: State, b: State, root: nat, r: Range, p: Page)
  {
    && (forall q: Page :: In(r, q) && q != p ==> Translate(b.m, root, q) == Translate(a.m, root, q))
    && (BitsCovered(a.m, root, r) ==>
          && BitsCovered(b.m, root, r)
          && forall q: Page, w: bool :: In(r, q) && q != p ==> (Granted(b.m, root, q, w) <==> Granted(a.m, root, q, w)))
    && TookTables(a, b)
    && SameOutside(a.m, b.m, b.tab) && SameShared(a.m, b.m, root, r)
    && (NoBigPages(a.m, a.tab) ==> NoBigPages(b.m, b.tab))
  }

  /** A user program may read the page exactly if `read`, and write it exactly if also `write`. */
  predicate Grants(m: Mem, root: nat, q: Page, read: bool, write: bool)
  {
    Granted(m, root, q, false) == read && Granted(m, root, q, true) == (read && write)
  }

  /** While leaf bits stand in all ancestors, the leaf alone decides. */
  lemma LeafDecides(m: Mem, root: nat, r: Range, q: Page)
    requires BitsCovered(m, root, r) && In(r, q)
    ensures match Translate(m, root, q)
            case None => Grants(m, root, q, false, false)
            case Some(l) => Grants(m, root, q, l.user, l.write)
  {
    assert Granted(m, root, q, true) <==> LeafAllows(Translate(m, root, q), true);
  }

  lemma MappedByStep(a: State, b: State, root: nat, r: Range, p: Page)
    requires Step(a, b, root, r) && In(r, p)
    ensures Mapped(a, b, root, r, p) && Translate(b.m, root, p) == Translate(a.m, root, p)
  {
    if BitsCovered(a.m, root, r) {
      KeepsCovered(a.m, b.m, root, r);
    }
  }

  lemma MappedByStore(a: State, b: State, root: nat, r: Range, p: Page, frame: nat, flags: Flags)
    requires Step(a, b, root, r) && In(r, p) && SlotOf(p) in b.tab && PathAllows(b.m, root, p, flags)
    ensures Mapped(a, b.(m := Put(b.m, b.tab[SlotOf(p)], p.i1, LeafEntry(frame, flags))), root, r, p)
  {
    var e := LeafEntry(frame, flags);
    LeafWrite(b.m, root, b.tab, r, p, e);
    if BitsCovered(a.m, root, r) {
      KeepsCovered(a.m, b.m, root, r);
      StoreCovered(b.m, root, b.tab, r, p, frame, flags);
    }
    StoreRest(b.m, root, b.tab, r, p, e);
  }

  lemma StoreRest(m: Mem, root: nat, tab: Tables, r: Range, p: Page, e: Pte)
    requires Tree(m, root, tab, r) && SlotOf(p) in tab
    ensures var m' := Put(m, tab[SlotOf(p)], p.i1, e);
            SameOutside(m, m', tab) && SameShared(m, m', root, r) && (NoBigPages(m, tab) ==> NoBigPages(m', tab))
  {
    assert tab[SlotOf(p)] in tab.Values;
    var m' := Put(m, tab[SlotOf(p)], p.i1, e);
    assert forall u, j: Index :: u in tab && u != SlotOf(p) ==> Ent(m', tab[u], j) == Ent(m, tab[u], j);
  }

  /** What changing page `p`'s bits leaves alone. The leaf-bits invariant
      survives when the new bits ask for no more than the old ones. */
  ghost predicate Reflagged(a: State, b: State, root: nat, r: Range, p: Page, flags: Flags)
  {
    && (forall q: Page :: In(r, q) && q != p ==> Translate(b.m, root, q) == Translate(a.m, root, q))
    && (forall q: Page, w: bool :: In(r, q) && q != p ==> (Granted(b.m, root, q, w) <==> Granted(a.m, root, q, w)))
    && (BitsCovered(a.m, root, r) && NoMore(flags, Translate(a.m, root, p)) ==> BitsCovered(b.m, root, r))
    && TookTables(a, b)
    && SameOutside(a.m, b.m, b.tab) && SameShared(a.m, b.m, root, r)
    && (NoBigPages(a.m, a.tab) ==> NoBigPages(b.m, b.tab))
  }

  predicate NoMore(flags: Flags, l: Option<Leaf>)
  {
    l.Some? ==> (flags.user ==> l.value.user) && (flags.write ==> l.value.write)
  }

  lemma ReflaggedByStore(a: State, b: State, root: nat, r: Range, p: Page, frame: nat, flags: Flags)
    requires Step(a, b, root, r) && SameGrants(a.m, b.m, root, r) && In(r, p) && SlotOf(p) in b.tab
    requires Translate(a.m, root, p).Some?
    ensures Reflagged(a, b.(m := Put(b.m, b.tab[SlotOf(p)], p.i1, LeafEntry(frame, flags))), root, r, p, flags)
  {
    LeafWrite(b.m, root, b.tab, r, p, LeafEntry(frame, flags));
    StoreRest(b.m, root, b.tab, r, p, LeafEntry(frame, flags));
    if BitsCovered(a.m, root, r) && NoMore(flags, Translate(a.m, root, p)) {
      KeepsCovered(a.m, b.m, root, r);
      LoweredCovered(b.m, root, b.tab, r, p, frame, flags);
    }
  }

  /** The same for the page itself. */
  lemma RestoredByStore(a: State, b: State, root: nat, r: Range, p: Page, frame: nat, flags: Flags)
    requires Step(a, b, root, r) && SameGrants(a.m, b.m, root, r) && In(r, p) && SlotOf(p) in b.tab
    requires Translate(a.m, root, p).Some?
    ensures var m' := Put(b.m, b.tab[SlotOf(p)], p.i1, LeafEntry(frame, flags));
            && Tree(m', root, b.tab, r)
            && Translate(m', root, p) == Some(Leaf(frame, flags.write, flags.user))
            && Reflagged(a, b.(m := m'), root, r, p, flags)
  {
    LeafWrite(b.m, root, b.tab, r, p, LeafEntry(frame, flags));
    ReflaggedByStore(a, b, root, r, p, frame, flags);
  }

  lemma ReflaggedByStep(a: State, b: State, root: nat, r: Range, p: Page, flags: Flags)
    requires Step(a, b, root, r) && SameGrants(a.m, b.m, root, r) && In(r, p) && Translate(a.m, root, p).None?
    ensures Reflagged(a, b, root, r, p, flags)
  {
    if BitsCovered(a.m, root, r) {
      KeepsCovered(a.m, b.m, root, r);
    }
  }

  lemma LoweredCovered(m: Mem, root: nat, tab: Tables, r: Range, p: Page, frame: nat, flags: Flags)
    requires Tree(m, root, tab, r) && In(r, p) && SlotOf(p) in tab && BitsCovered(m, root, r)
    requires Translate(m, root, p).Some? && NoMore(flags, Translate(m, root, p))
    ensures BitsCovered(Put(m, tab[SlotOf(p)], p.i1, LeafEntry(frame, flags)), root, r)
  {
    var m' := Put(m, tab[SlotOf(p)], p.i1, LeafEntry(frame, flags));
    LeafWrite(m, root, tab, r, p, LeafEntry(frame, flags));
    forall q: Page, w: bool | In(r, q)
      ensures Granted(m', root, q, w) <==> LeafAllows(Translate(m', root, q), w)
    {
      assert Granted(m, root, q, w) <==> LeafAllows(Translate(m, root, q), w);
      if q == p {
        LoweredGranted(m, root, tab, r, p, frame, flags, w);
      }
    }
  }

  lemma LoweredGranted(m: Mem, root: nat, tab: Tables, r: Range, p: Page, frame: nat, flags: Flags, w: bool)
    requires Tree(m, root, tab, r) && In(r, p) && SlotOf(p) in tab
    requires Translate(m, root, p).Some? && NoMore(flags, Translate(m, root, p))
    requires Granted(m, root, p, w) <==> LeafAllows(Translate(m, root, p), w)
    ensures var m' := Put(m, tab[SlotOf(p)], p.i1, LeafEntry(frame, flags));
            Granted(m', root, p, w) <==> LeafAllows(Translate(m', root, p), w)
  {
    var m' := Put(m, tab[SlotOf(p)], p.i1, LeafEntry(frame, flags));
    PathInTree(m, root, tab, r, p);
    assert forall u, j: Index :: u in tab && u != SlotOf(p) ==> Ent(m', tab[u], j) == Ent(m, tab[u], j);
    assert Ent(m', tab[SlotOf(p)], p.i1) == LeafEntry(frame, flags);
  }

  /** The page lies in a 2 MiB mapping. */
  predicate BigPage(m: Mem, root: nat, p: Page)
  {
    var e4 := Ent(m, root, p.i4);
    e4.present &&
    var e3 := Ent(m, e4.frame, p.i3);
    e3.present && !e3.huge && Ent(m, e3.frame, p.i2).huge
  }

  /** Three tables whose only leaf maps 2 MiB, from frame 512 on. */
  function BigSpace(): Mem
  {
    var big := Pte(true, true, true, true, 0, 512);
    var none := ZeroTable();
    map[1 := none[1 := BigPointer(2)], 2 := none[0 := BigPointer(3)], 3 := none[0 := big]]
  }

  function BigPointer(t: nat): Pte
  {
    TableEntry(t, Flags(true, true, false, 0))
  }

  const BIG_TABLES: Tables := map[Root := 1, Pdp(1) := 2, Pd(1, 0) := 3]

  lemma BigSpaceTree()
    ensures Tree(BigSpace(), 1, BIG_TABLES, Range(1, 256))
  {
    var m := BigSpace();
    forall s, i: Index | s in BIG_TABLES
      ensures Entries(m, BIG_TABLES, Range(1, 256), s, i)
    {
      assert s == Root || s == Pdp(1) || s == Pd(1, 0);
    }
  }

  /** UnmapPage does remove pages it was not asked for: here clearing page `p`
      takes each of the 511 others of its 2 MiB mapping along. */
  lemma UnmapTakesNeighbours(p: Page, q: Page)
    requires p.i4 == 1 && p.i3 == 0 && p.i2 == 0 && SameBigPage(p, q) && q != p
    ensures var m := BigSpace();
            && Tree(m, 1, BIG_TABLES, Range(1, 256)) && BigPage(m, 1, p)
            && Translate(m, 1, q) == Some(Leaf(512 + q.i1, true, true))
            && Translate(Put(m, BIG_TABLES[Pd(1, 0)], 0, ABSENT), 1, q) == None
  {
    BigSpaceTree();
    BigClear(BigSpace(), 1, BIG_TABLES, Range(1, 256), p);
  }

  lemma HugeHasNoTable(m: Mem, root: nat, tab: Tables, r: Range, s: Slot, i: Index)
    requires Tree(m, root, tab, r) && s in tab && s.Pd? && Ent(m, tab[s], i).huge
    ensures Child(s, i) !in tab
  {
    assert Entries(m, tab, r, s, i);
  }

  lemma ClearOutside(m: Mem, tab: Tables, s: Slot, i: Index)
    requires s in tab && tab[s] in m && |m[tab[s]]| == ENTRIES
    ensures SameOutside(m, Put(m, tab[s], i, ABSENT), tab)
  {
    assert tab[s] in tab.Values;
  }

  class PageDirectory {
    var root: nat
    ghost var tab: Tables
    ghost const range: Range

    constructor (root: nat, ghost tab: Tables, ghost range: Range)
      ensures this.root == root && this.tab == tab && this.range == range
    {
      this.root, this.tab, this.range := root, tab, range;
    }
  }

  class Manager {
    var mem: Mem
    const pmm: FrameAllocator

    constructor (mem: Mem, pmm: FrameAllocator)
      ensures this.mem == mem && this.pmm == pmm
    {
      this.mem, this.pmm := mem, pmm;
    }

    ghost predicate Reserved(f: nat)
      requires pmm.Shape()
      reads this, pmm, pmm.bitmap
    {
      !pmm.Managed(f) || f in pmm.Frames()
    }

    ghost predicate Valid(dir: PageDirectory)
      reads this, pmm, pmm.bitmap, dir
    {
      && pmm.Ready()
      && Tree(mem, dir.root, dir.tab, dir.range)
      && forall f :: f in dir.tab.Values ==> Reserved(f)
    }

    /** Page tables of `dir`, their places, and the frames in use. */
    ghost function View(dir: PageDirectory): State
      requires pmm.Shape()
      reads this, pmm, pmm.bitmap, dir
    {
      State(mem, dir.tab, pmm.Frames())
    }

    ghost predicate Exhausted()
      reads pmm, pmm.bitmap
      requires pmm.Shape()
    {
      forall f: nat :: pmm.Managed(f) ==> f in pmm.Frames()
    }

    /** A frame for a new table; None when memory is exhausted. */
    method AllocTable(dir: PageDirectory) returns (table: Option<nat>)
      requires Valid(dir)
      modifies pmm`usedPages, pmm`lastAllocHint, pmm.bitmap
      ensures Valid(dir)
      ensures table.None? <==> old(pmm.Spare()) == 0
      ensures table.None? ==> Exhausted() && View(dir) == old(View(dir)) && pmm.Spare() == 0
      ensures table.Some? ==>
                && table.value !in old(pmm.Frames()) && table.value !in dir.tab.Values
                && pmm.Frames() == old(pmm.Frames()) + {table.value} && pmm.Spare() == old(pmm.Spare()) - 1
    {
      var phys := pmm.AllocPage();
      table := if phys == 0 then None else Some(phys / PAGE_SIZE);
    }

    /** get_or_create_table: raise USER/WRITE on a present entry, or hang a new
        zeroed table on an absent one. `s` is the place of `parent` in the tree. */
    method GetOrCreateTable(parent: nat, index: Index, flags: Flags, dir: PageDirectory, ghost s: Slot) returns (table: Option<nat>)
      requires Valid(dir) && s in dir.tab && !s.Pt? && dir.tab[s] == parent && Within(dir.range, s, index)
      requires s.Pd? ==> !Ent(mem, parent, index).huge
      modifies this`mem, dir`tab, pmm`usedPages, pmm`lastAllocHint, pmm.bitmap
      ensures Valid(dir) && Step(old(View(dir)), View(dir), dir.root, dir.range)
      ensures Took(old(dir.tab.Keys), old(pmm.Spare()), dir.tab.Keys, pmm.Spare(), Child(s, index), table.Some?)
      ensures table.None? ==> Exhausted() && View(dir) == old(View(dir))
      ensures table.Some? ==>
                && Child(s, index) in dir.tab && table.value == dir.tab[Child(s, index)]
                && Points(s, Ent(mem, parent, index)) && Ent(mem, parent, index).frame == table.value
                && Carries(Ent(mem, parent, index), flags)
    {
      var entry := Ent(mem, parent, index);
      assert Entries(mem, dir.tab, dir.range, s, index);
      pmm.SpareMeans();
      StepRefl(View(dir), dir.root, dir.range);
      if entry.present {
        RaiseStep(View(dir), dir.root, dir.range, s, index, flags);
        mem := Put(mem, parent, index, Raised(entry, flags));
        return Some(entry.frame);
      }
      table := HangNewTable(parent, index, flags, dir, s);
    }

    method HangNewTable(parent: nat, index: Index, flags: Flags, dir: PageDirectory, ghost s: Slot) returns (table: Option<nat>)
      requires Valid(dir) && s in dir.tab && !s.Pt? && dir.tab[s] == parent && Within(dir.range, s, index)
      requires !Ent(mem, parent, index).present
      modifies this`mem, dir`tab, pmm`usedPages, pmm`lastAllocHint, pmm.bitmap
      ensures Valid(dir)
      ensures Took(old(dir.tab.Keys), old(pmm.Spare()), dir.tab.Keys, pmm.Spare(), Child(s, index), table.Some?)
      ensures table.None? ==> Exhausted() && View(dir) == old(View(dir))
      ensures table.Some? ==>
                && Step(old(View(dir)), View(dir), dir.root, dir.range)
                && Child(s, index) in dir.tab && table.value == dir.tab[Child(s, index)]
                && Ent(mem, parent, index) == TableEntry(table.value, flags)
    {
      assert Entries(mem, dir.tab, dir.range, s, index);
      pmm.SpareMeans();
      table := AllocTable(dir);
      if table.None? { return; }
      var t := table.value;
      HangStep(old(View(dir)), dir.root, dir.range, s, index, t, flags);
      mem := Hang(mem, parent, index, t, flags);
      dir.tab := dir.tab[Child(s, index) := t];
    }

    /** split_huge_page; a no-op unless the entry maps 2 MiB. */
    method SplitHugePage(pd: nat, index: Index, dir: PageDirectory, ghost s: Slot) returns (ok: bool)
      requires Valid(dir) && s in dir.tab && s.Pd? && dir.tab[s] == pd
      modifies this`mem, dir`tab, pmm`usedPages, pmm`lastAllocHint, pmm.bitmap
      ensures Valid(dir) && Step(old(View(dir)), View(dir), dir.root, dir.range)
      ensures SameGrants(old(mem), mem, dir.root, dir.range)
      ensures if old(Ent(mem, pd, index)).huge
              then Child(s, index) !in old(dir.tab) && Took(old(dir.tab.Keys), old(pmm.Spare()), dir.tab.Keys, pmm.Spare(), Child(s, index), ok)
              else ok && dir.tab == old(dir.tab) && pmm.Spare() == old(pmm.Spare())
      ensures ok ==> !Ent(mem, pd, index).huge
      ensures !ok ==> Exhausted() && View(dir) == old(View(dir))
    {
      StepRefl(View(dir), dir.root, dir.range);
      if !Ent(mem, pd, index).huge { return true; }
      ok := SplitInto(pd, index, dir, s);
    }

    method SplitInto(pd: nat, index: Index, dir: PageDirectory, ghost s: Slot) returns (ok: bool)
      requires Valid(dir) && s in dir.tab && s.Pd? && dir.tab[s] == pd && Ent(mem, pd, index).huge
      modifies this`mem, dir`tab, pmm`usedPages, pmm`lastAllocHint, pmm.bitmap
      ensures Valid(dir) && Child(s, index) !in old(dir.tab)
      ensures Took(old(dir.tab.Keys), old(pmm.Spare()), dir.tab.Keys, pmm.Spare(), Child(s, index), ok)
      ensures ok ==>
                && Step(old(View(dir)), View(dir), dir.root, dir.range)
                && SameGrants(old(mem), mem, dir.root, dir.range)
                && !Ent(mem, pd, index).huge
      ensures !ok ==> Exhausted() && View(dir) == old(View(dir))
    {
      HugeHasNoTable(mem, dir.root, dir.tab, dir.range, s, index);
      pmm.SpareMeans();
      ghost var a := View(dir);
      var table := AllocTable(dir);
      if table.None? { return false; }
      var t := table.value;
      SplitStep(a, dir.root, dir.range, s, index, t);
      mem := Split(mem, pd, index, t);
      dir.tab := dir.tab[Child(s, index) := t];
      return true;
    }

    /** The first half of both map functions: the PDP and PD of page `p`. */
    method ReachDirectory(dir: PageDirectory, p: Page, flags: Flags) returns (pd: Option<nat>, ghost k: set<Slot>, ghost n: int, ghost ok: bool)
      requires Valid(dir) && In(dir.range, p)
      modifies this`mem, dir`tab, pmm`usedPages, pmm`lastAllocHint, pmm.bitmap
      ensures Valid(dir) && Step(old(View(dir)), View(dir), dir.root, dir.range)
      ensures pd.None? ==> Exhausted()
      ensures Took(old(dir.tab.Keys), old(pmm.Spare()), k, n, Pdp(p.i4), ok)
      ensures if ok then Took(k, n, dir.tab.Keys, pmm.Spare(), Pd(p.i4, p.i3), pd.Some?)
              else pd.None? && dir.tab.Keys == k && pmm.Spare() == n
      ensures pd.Some? ==>
                && Pdp(p.i4) in dir.tab && Pd(p.i4, p.i3) in dir.tab && pd.value == dir.tab[Pd(p.i4, p.i3)]
                && PointsTo(mem, Root, dir.root, p.i4, dir.tab[Pdp(p.i4)], flags)
                && PointsTo(mem, Pdp(p.i4), dir.tab[Pdp(p.i4)], p.i3, pd.value, flags)
    {
      ghost var v0 := View(dir);
      var pdp := GetOrCreateTable(dir.root, p.i4, flags, dir, Root);
      k, n, ok := dir.tab.Keys, pmm.Spare(), pdp.Some?;
      if pdp.None? { return None, k, n, ok; }
      ghost var v1 := View(dir);
      pd := GetOrCreateTable(pdp.value, p.i3, flags, dir, Pdp(p.i4));
      StepTrans(v0, v1, View(dir), dir.root, dir.range);
    }

    /** The common part of the two map functions: bring page `p`'s level-1
        table into being, raising its ancestors' bits on the way. */
    method ReachTable(dir: PageDirectory, p: Page, flags: Flags) returns (pt: Option<nat>)
      requires Valid(dir) && In(dir.range, p)
      modifies this`mem, dir`tab, pmm`usedPages, pmm`lastAllocHint, pmm.bitmap
      ensures Valid(dir) && Step(old(View(dir)), View(dir), dir.root, dir.range)
      ensures Paid(old(dir.tab.Keys), old(pmm.Spare()), dir.tab.Keys, pmm.Spare(), p, pt.Some?)
      ensures pt.None? ==> Exhausted()
      ensures pt.Some? ==> SlotOf(p) in dir.tab && pt.value == dir.tab[SlotOf(p)] && PathAllows(mem, dir.root, p, flags)
    {
      ghost var v0 := View(dir);
      pmm.SpareMeans();
      ghost var k0, n0 := dir.tab.Keys, pmm.Spare();
      var pd; ghost var k1, n1, ok1;
      pd, k1, n1, ok1 := ReachDirectory(dir, p, flags);
      ghost var k2, n2 := dir.tab.Keys, pmm.Spare();
      if pd.None? {
        PaidInThree(k0, n0, k1, n1, k2, n2, k2, n2, p, ok1, false, false);
        return None;
      }
      ghost var v1 := View(dir);
      pt := ReachLeafTable(pd.value, dir, p, flags);
      StepTrans(v0, v1, View(dir), dir.root, dir.range);
      PaidInThree(k0, n0, k1, n1, k2, n2, dir.tab.Keys, pmm.Spare(), p, ok1, true, pt.Some?);
    }

    /** The second half: a 2 MiB page in the way is split first. */
    method ReachLeafTable(pd: nat, dir: PageDirectory, p: Page, flags: Flags) returns (pt: Option<nat>)
      requires Valid(dir) && In(dir.range, p) && Pd(p.i4, p.i3) in dir.tab && dir.tab[Pd(p.i4, p.i3)] == pd
      modifies this`mem, dir`tab, pmm`usedPages, pmm`lastAllocHint, pmm.bitmap
      ensures Valid(dir) && Step(old(View(dir)), View(dir), dir.root, dir.range)
      ensures Took(old(dir.tab.Keys), old(pmm.Spare()), dir.tab.Keys, pmm.Spare(), SlotOf(p), pt.Some?)
      ensures pt.None? ==> Exhausted()
      ensures pt.Some? ==>
                && SlotOf(p) in dir.tab && pt.value == dir.tab[SlotOf(p)]
                && PointsTo(mem, Pd(p.i4, p.i3), pd, p.i2, pt.value, flags)
    {
      ghost var v0 := View(dir);
      var ok := SplitHugePage(pd, p.i2, dir, Pd(p.i4, p.i3));
      if !ok { return None; }
      ghost var v1 := View(dir);
      pt := GetOrCreateTable(pd, p.i2, flags, dir, Pd(p.i4, p.i3));
      StepTrans(v0, v1, View(dir), dir.root, dir.range);
    }

    /** Bring the table into being, then store the entry. */
    method MapFrame(dir: PageDirectory, p: Page, frame: nat, flags: Flags) returns (ok: bool)
      requires Valid(dir) && In(dir.range, p)
      modifies this`mem, dir`tab, pmm`usedPages, pmm`lastAllocHint, pmm.bitmap
      ensures Valid(dir) && Mapped(old(View(dir)), View(dir), dir.root, dir.range, p)
      ensures Translate(mem, dir.root, p) ==
                if ok then Some(Leaf(frame, flags.write, flags.user)) else old(Translate(mem, dir.root, p))
      ensures Paid(old(dir.tab.Keys), old(pmm.Spare()), dir.tab.Keys, pmm.Spare(), p, ok)
      ensures !ok ==> Exhausted()
    {
      var pt := ReachTable(dir, p, flags);
      if pt.None? {
        MappedByStep(old(View(dir)), View(dir), dir.root, dir.range, p);
        return false;
      }
      MappedByStore(old(View(dir)), View(dir), dir.root, dir.range, p, frame, flags);
      LeafWrite(mem, dir.root, dir.tab, dir.range, p, LeafEntry(frame, flags));
      mem := Put(mem, pt.value, p.i1, LeafEntry(frame, flags));
      return true;
    }

    /** vmm_map_page. Bits 52 and up of the physical address are masked off. */
    method MapPage(dir: PageDirectory, virt: nat, phys: nat, flags: Flags) returns (ok: bool)
      requires Valid(dir) && In(dir.range, PageOf(virt))
      modifies this`mem, dir`tab, pmm`usedPages, pmm`lastAllocHint, pmm.bitmap
      ensures Valid(dir) && Mapped(old(View(dir)), View(dir), dir.root, dir.range, PageOf(virt))
      ensures Translate(mem, dir.root, PageOf(virt)) ==
                if ok then Some(Leaf(phys / PAGE_SIZE % PHYS_FRAME_LIMIT, flags.write, flags.user))
                else old(Translate(mem, dir.root, PageOf(virt)))
      ensures ok && old(BitsCovered(mem, dir.root, dir.range)) ==> Grants(mem, dir.root, PageOf(virt), flags.user, flags.write)
      ensures IsCanonical(virt) ==> Paid(old(dir.tab.Keys), old(pmm.Spare()), dir.tab.Keys, pmm.Spare(), PageOf(virt), ok)
      ensures !ok ==> !IsCanonical(virt) || Exhausted()
      ensures !IsCanonical(virt) ==> !ok && View(dir) == old(View(dir)) && pmm.Spare() == old(pmm.Spare())
    {
      if !IsCanonical(virt) {
        StepRefl(View(dir), dir.root, dir.range);
        MappedByStep(View(dir), View(dir), dir.root, dir.range, PageOf(virt));
        return false;
      }
      ok := MapFrame(dir, PageOf(virt), phys / PAGE_SIZE % PHYS_FRAME_LIMIT, flags);
      if old(BitsCovered(mem, dir.root, dir.range)) { LeafDecides(mem, dir.root, dir.range, PageOf(virt)); }
    }

    /** vmm_map_user_page: PAGE_USER is added and the frame is not masked. The
        source also ORs PAGE_USER into each upper entry after it was created or
        raised; GetOrCreateTable already leaves it set. */
    method MapUserPage(dir: PageDirectory, virt: nat, phys: nat, flags: Flags) returns (ok: bool)
      requires Valid(dir) && In(dir.range, PageOf(virt))
      modifies this`mem, dir`tab, pmm`usedPages, pmm`lastAllocHint, pmm.bitmap
      ensures Valid(dir) && Mapped(old(View(dir)), View(dir), dir.root, dir.range, PageOf(virt))
      ensures Translate(mem, dir.root, PageOf(virt)) ==
                if ok then Some(Leaf(phys / PAGE_SIZE, flags.write, true))
                else old(Translate(mem, dir.root, PageOf(virt)))
      ensures ok && old(BitsCovered(mem, dir.root, dir.range)) ==> Grants(mem, dir.root, PageOf(virt), true, flags.write)
      ensures IsCanonical(virt) ==> Paid(old(dir.tab.Keys), old(pmm.Spare()), dir.tab.Keys, pmm.Spare(), PageOf(virt), ok)
      ensures !ok ==> !IsCanonical(virt) || Exhausted()
      ensures !IsCanonical(virt) ==> !ok && View(dir) == old(View(dir)) && pmm.Spare() == old(pmm.Spare())
    {
      if !IsCanonical(virt) {
        StepRefl(View(dir), dir.root, dir.range);
        MappedByStep(View(dir), View(dir), dir.root, dir.range, PageOf(virt));
        return false;
      }
      ok := MapFrame(dir, PageOf(virt), phys / PAGE_SIZE, flags.(user := true));
      if old(BitsCovered(mem, dir.root, dir.range)) { LeafDecides(mem, dir.root, dir.range, PageOf(virt)); }
    }

    /** vmm_get_physical, with its 1 GiB and 2 MiB cases; 0 when not mapped. */
    function GetPhysical(dir: PageDirectory, virt: nat): (phys: nat)
      reads this, dir
      ensures phys == PhysOf(Translate(mem, dir.root, PageOf(virt)), virt)
    {
      SubPage(virt);
      var p := PageOf(virt);
      var e4 := Ent(mem, dir.root, p.i4);
      if !e4.present then 0 else
      var e3 := Ent(mem, e4.frame, p.i3);
      if !e3.present then 0 else
      if e3.huge then (e3.frame - e3.frame % 262144) * 4096 + virt % 0x4000_0000 else
      var e2 := Ent(mem, e3.frame, p.i2);
      if !e2.present then 0 else
      if e2.huge then (e2.frame - e2.frame % 512) * 4096 + virt % 0x20_0000 else
      var e1 := Ent(mem, e2.frame, p.i1);
      if !e1.present then 0 else e1.frame * 4096 + virt % 4096
    }

    /** check_page_permissions, including its test that the root lies below 4 GiB. */
    predicate CheckPagePermissions(dir: PageDirectory, virt: nat, write: bool)
      reads this, dir
    {
      dir.root < ROOT_FRAME_LIMIT && Granted(mem, dir.root, PageOf(virt), write)
    }

    /** vmm_unmap_page. Inside a 2 MiB mapping it removes all 512 pages. */
    method UnmapPage(dir: PageDirectory, virt: nat) returns (ok: bool)
      requires Valid(dir) && In(dir.range, PageOf(virt))
      modifies this`mem
      ensures Valid(dir)
      ensures forall q: Page :: In(dir.range, q) ==>
                Translate(mem, dir.root, q) ==
                  if q == PageOf(virt) || (old(BigPage(mem, dir.root, PageOf(virt))) && SameBigPage(PageOf(virt), q))
                  then None else old(Translate(mem, dir.root, q))
      ensures old(BitsCovered(mem, dir.root, dir.range)) ==> BitsCovered(mem, dir.root, dir.range)
      ensures ok <==> SlotOf(PageOf(virt)) in dir.tab || old(Translate(mem, dir.root, PageOf(virt))).Some?
      ensures SameOutside(old(mem), mem, dir.tab)
    {
      var p := PageOf(virt);
      if SlotOf(p) in dir.tab { PathInTree(mem, dir.root, dir.tab, dir.range, p); }
      WalkInTree(mem, dir.root, dir.tab, dir.range, p);
      var e4 := Ent(mem, dir.root, p.i4);
      if !e4.present { return false; }
      var e3 := Ent(mem, e4.frame, p.i3);
      if !e3.present { return false; }
      var pd := e3.frame;
      var e2 := Ent(mem, pd, p.i2);
      if !e2.present { return false; }
      if e2.huge {
        BigClear(mem, dir.root, dir.tab, dir.range, p);
        ClearOutside(mem, dir.tab, Pd(p.i4, p.i3), p.i2);
        mem := Put(mem, pd, p.i2, ABSENT);
        return true;
      }
      LeafWrite(mem, dir.root, dir.tab, dir.range, p, ABSENT);
      ClearOutside(mem, dir.tab, SlotOf(p), p.i1);
      mem := Put(mem, e2.frame, p.i1, ABSENT);
      assert !Granted(mem, dir.root, p, true) && !Granted(mem, dir.root, p, false) by {
        GrantedLeaf(mem, dir.root, p, true);
        GrantedLeaf(mem, dir.root, p, false);
      }
      return true;
    }

    /** The level-2 table on the way to a page, if the page's entry there is present. */
    method LevelTwo(dir: PageDirectory, p: Page) returns (found: bool, pd: nat)
      requires Valid(dir) && In(dir.range, p)
      ensures !found ==> Translate(mem, dir.root, p).None?
      ensures found ==>
                && Pd(p.i4, p.i3) in dir.tab && dir.tab[Pd(p.i4, p.i3)] == pd && Ent(mem, pd, p.i2).present
                && (SlotOf(p) in dir.tab || Ent(mem, pd, p.i2).huge) && (BigPage(mem, dir.root, p) <==> Ent(mem, pd, p.i2).huge)
    {
      WalkInTree(mem, dir.root, dir.tab, dir.range, p);
      var e4 := Ent(mem, dir.root, p.i4);
      if !e4.present { return false, 0; }
      var e3 := Ent(mem, e4.frame, p.i3);
      if !e3.present { return false, 0; }
      pd := e3.frame;
      found := Ent(mem, pd, p.i2).present;
    }

    /** vmm_change_flags: keeps the frame, replaces the leaf's bits; a 2 MiB page is split first. */
    method ChangeFlags(dir: PageDirectory, virt: nat, flags: Flags) returns (ok: bool)
      requires Valid(dir) && In(dir.range, PageOf(virt))
      modifies this`mem, dir`tab, pmm`usedPages, pmm`lastAllocHint, pmm.bitmap
      ensures Valid(dir) && Reflagged(old(View(dir)), View(dir), dir.root, dir.range, PageOf(virt), flags)
      ensures ok ==> old(Translate(mem, dir.root, PageOf(virt))).Some?
      ensures var was := old(Translate(mem, dir.root, PageOf(virt)));
              Translate(mem, dir.root, PageOf(virt)) ==
                if ok then Some(Leaf(was.value.frame, flags.write, flags.user)) else was
      ensures !ok ==> old(Translate(mem, dir.root, PageOf(virt))).None? || Exhausted()
      ensures ok <==>
                && old(Translate(mem, dir.root, PageOf(virt))).Some?
                && (old(BigPage(mem, dir.root, PageOf(virt))) ==> old(pmm.Spare()) > 0)
      ensures !old(BigPage(mem, dir.root, PageOf(virt))) ==> dir.tab == old(dir.tab) && pmm.Spare() == old(pmm.Spare())
    {
      pmm.SpareMeans();
      var p := PageOf(virt);
      ghost var v0 := View(dir);
      StepRefl(v0, dir.root, dir.range);
      var found, pd := LevelTwo(dir, p);
      if !found { return false; }
      ok := SplitHugePage(pd, p.i2, dir, Pd(p.i4, p.i3));
      if !ok { return; }
      ok := Restore(dir, p, flags, v0);
    }

    /** The end of vmm_change_flags: rewrite the level-1 entry. */
    method Restore(dir: PageDirectory, p: Page, flags: Flags, ghost v0: State) returns (ok: bool)
      requires Valid(dir) && In(dir.range, p) && Step(v0, View(dir), dir.root, dir.range)
      requires SameGrants(v0.m, mem, dir.root, dir.range)
      requires SlotOf(p) in dir.tab
      modifies this`mem
      ensures Valid(dir) && Reflagged(v0, View(dir), dir.root, dir.range, p, flags)
      ensures ok <==> Translate(v0.m, dir.root, p).Some?
      ensures Translate(mem, dir.root, p) ==
                if ok then Some(Leaf(Translate(v0.m, dir.root, p).value.frame, flags.write, flags.user))
                else Translate(v0.m, dir.root, p)
    {
      PathInTree(mem, dir.root, dir.tab, dir.range, p);
      assert Translate(mem, dir.root, p) == Translate(v0.m, dir.root, p);
      var pt := Ent(mem, Ent(mem, Ent(mem, dir.root, p.i4).frame, p.i3).frame, p.i2).frame;
      var e1 := Ent(mem, pt, p.i1);
      ghost var b := View(dir);
      if !e1.present {
        ReflaggedByStep(v0, b, dir.root, dir.range, p, flags);
        return false;
      }
      RestoredByStore(v0, b, dir.root, dir.range, p, e1.frame, flags);
      mem := Put(mem, pt, p.i1, LeafEntry(e1.frame, flags));
      assert View(dir) == b.(m := mem);
      return true;
    }
  }
}
