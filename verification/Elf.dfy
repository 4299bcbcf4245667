/** The ELF loader builds the image its program headers describe
    (src/kernel/loader/elf.c). */
module Elf {
  import opened PageTable
  import opened Pmm
  import opened Vmm
  import opened Uaccess
  import opened UserImage
  import AddressSpace
  import opened Ledger

  const MAGIC: nat := 0x464C457F
  const HEADER_SIZE: nat := 64
  const PHDR_SIZE: nat := 56
  const PT_LOAD: nat := 1

  /** The fields of the file header and of a program header that matter. */
  datatype Header = Header(magic: nat, entry: nat, phoff: nat, phentsize: nat, phnum: nat)

  datatype Phdr = Phdr(kind: nat, flags: nat, offset: nat, vaddr: nat, filesz: nat, memsz: nat)
  {
    predicate Loads() {
      kind == PT_LOAD && memsz != 0
    }

    predicate Writable() {
      flags / 2 % 2 == 1
    }

    predicate Fits(size: nat) {
      Loads() ==> filesz <= memsz && offset + filesz <= size
    }

    predicate InUserSlots() {
      Loads() ==> USER_SPACE_START <= vaddr && vaddr + memsz <= USER_SPACE_END
    }

    function FirstPage(): nat {
      vaddr / PAGE_SIZE
    }

    function EndPage(): nat {
      (vaddr + memsz + (PAGE_SIZE - 1)) / PAGE_SIZE
    }

    predicate Covers(a: nat) {
      Loads() && vaddr <= a < vaddr + memsz
    }

    predicate Touches(n: nat) {
      Loads() && FirstPage() <= n < EndPage()
    }
  }

  predicate HeaderOk(h: Header, size: nat) {
    && size >= HEADER_SIZE && h.magic == MAGIC
    && h.phoff < size && h.phoff + h.phnum * h.phentsize <= size && h.phentsize >= PHDR_SIZE
  }

  // ----- the specified image -----

  function SegmentByte(file: seq<Byte>, ph: Phdr, a: nat): Byte
    requires ph.Fits(|file|) && ph.Covers(a)
  {
    if a < ph.vaddr + ph.filesz then file[ph.offset + (a - ph.vaddr)] else 0
  }

  /** The byte at an address: from the last segment over it, 0 where there is none. */
  function ImageByte(file: seq<Byte>, phs: seq<Phdr>, a: nat): Byte
    requires forall i :: 0 <= i < |phs| ==> phs[i].Fits(|file|)
  {
    if phs == [] then 0
    else if phs[|phs| - 1].Covers(a) then SegmentByte(file, phs[|phs| - 1], a)
    else ImageByte(file, phs[..|phs| - 1], a)
  }

  predicate Touched(phs: seq<Phdr>, n: nat) {
    exists i :: 0 <= i < |phs| && phs[i].Touches(n)
  }

  /** Is the last segment on the page writable? */
  predicate LastWritable(phs: seq<Phdr>, n: nat) {
    phs != [] && if phs[|phs| - 1].Touches(n) then phs[|phs| - 1].Writable() else LastWritable(phs[..|phs| - 1], n)
  }

  /** Segments over different bytes each keep their own; all else is zero. */
  lemma {:induction false} DisjointImage(file: seq<Byte>, phs: seq<Phdr>, i: nat, a: nat)
    requires forall j :: 0 <= j < |phs| ==> phs[j].Fits(|file|)
    requires i < |phs| && phs[i].Covers(a) && forall j :: 0 <= j < |phs| && j != i ==> !phs[j].Covers(a)
    ensures ImageByte(file, phs, a) == SegmentByte(file, phs[i], a)
    decreases |phs|
  {
    if i < |phs| - 1 {
      DisjointImage(file, phs[..|phs| - 1], i, a);
    }
  }

  lemma {:induction false} NothingElse(file: seq<Byte>, phs: seq<Phdr>, a: nat)
    requires forall j :: 0 <= j < |phs| ==> phs[j].Fits(|file|) && !phs[j].Covers(a)
    ensures ImageByte(file, phs, a) == 0
    decreases |phs|
  {
    if phs != [] {
      NothingElse(file, phs[..|phs| - 1], a);
    }
  }

  /** A page that only non-writable segments use is not writable. */
  lemma {:induction false} OnlyReadable(phs: seq<Phdr>, n: nat)
    requires forall j :: 0 <= j < |phs| && phs[j].Touches(n) ==> !phs[j].Writable()
    ensures !LastWritable(phs, n)
    decreases |phs|
  {
    if phs != [] {
      OnlyReadable(phs[..|phs| - 1], n);
    }
  }

  /** The last segment on a page decides whether it ends writable. */
  lemma {:induction false} LastDecides(phs: seq<Phdr>, n: nat, i: nat)
    requires i < |phs| && phs[i].Touches(n) && forall j :: i < j < |phs| ==> !phs[j].Touches(n)
    ensures LastWritable(phs, n) <==> phs[i].Writable()
    decreases |phs|
  {
    if i < |phs| - 1 {
      LastDecides(phs[..|phs| - 1], n, i);
    }
  }

  /** A writable segment may lose its WRITE bit to one that only shares its page. */
  lemma WriteLost()
    ensures var data, code := Phdr(PT_LOAD, 6, 0, 0x80_0000_0000, 16, 16), Phdr(PT_LOAD, 5, 16, 0x80_0000_0800, 16, 16);
            var n := 0x80_0000_0000 / PAGE_SIZE;
            && data.Fits(32) && code.Fits(32) && data.InUserSlots() && code.InUserSlots()
            && (forall a :: !(data.Covers(a) && code.Covers(a)))
            && data.Touches(n) && data.Writable() && !LastWritable([data, code], n)
  {
    var data, code := Phdr(PT_LOAD, 6, 0, 0x80_0000_0000, 16, 16), Phdr(PT_LOAD, 5, 16, 0x80_0000_0800, 16, 16);
    LastDecides([data, code], 0x80_0000_0000 / PAGE_SIZE, 1);
  }

  lemma CoveredIsTouched(ph: Phdr, a: nat)
    requires ph.Covers(a)
    ensures ph.Touches(PageNo(a))
  {
  }

  lemma UntouchedIsZero(file: seq<Byte>, phs: seq<Phdr>, a: nat)
    requires forall j :: 0 <= j < |phs| ==> phs[j].Fits(|file|)
    requires !Touched(phs, PageNo(a))
    ensures ImageByte(file, phs, a) == 0
  {
    forall j | 0 <= j < |phs|
      ensures !phs[j].Covers(a)
    {
      if phs[j].Covers(a) {
        CoveredIsTouched(phs[j], a);
      }
    }
    NothingElse(file, phs, a);
  }

  ghost function Image(file: seq<Byte>, phs: seq<Phdr>): nat -> Byte
    requires forall i :: 0 <= i < |phs| ==> phs[i].Fits(|file|)
  {
    (a: nat) => ImageByte(file, phs, a)
  }

  /** Exactly the pages the segments use, writable as the last one says. */
  ghost predicate PagesFit(pages: Pages, phs: seq<Phdr>) {
    forall n: nat {:trigger n in pages} ::
      && (n in pages <==> Touched(phs, n))
      && (n in pages ==> pages[n].write == LastWritable(phs, n))
  }

  // ----- the pages a program needs -----

  /** The pages the segments use. */
  function PagesIn(phs: seq<Phdr>): set<nat>
  {
    if phs == [] then {}
    else PagesIn(phs[..|phs| - 1]) + (if phs[|phs| - 1].Loads() then PagesFrom(phs[|phs| - 1].FirstPage(), phs[|phs| - 1].EndPage()) else {})
  }

  function PagesFrom(lo: nat, hi: nat): set<nat>
  {
    set k: nat | k < hi && InRange(k, lo, hi)
  }

  /** The addresses of the pages from `lo` to `hi` that are not there yet. */
  function Fresh(had: set<nat>, lo: nat, hi: nat): seq<nat>
  {
    if hi <= lo then [] else Fresh(had, lo, hi - 1) + (if hi - 1 in had then [] else [(hi - 1) * PAGE_SIZE])
  }

  /** The addresses of all pages the segments use, each once, in the order in
      which the loader comes to them. */
  function NewPages(phs: seq<Phdr>): seq<nat>
  {
    if phs == [] then []
    else NewPages(phs[..|phs| - 1]) + FreshOf(phs[..|phs| - 1], phs[|phs| - 1])
  }

  function FreshOf(phs: seq<Phdr>, ph: Phdr): seq<nat>
  {
    if ph.Loads() then Fresh(PagesIn(phs), ph.FirstPage(), ph.EndPage()) else []
  }

  lemma NewPagesSnoc(phs: seq<Phdr>, ph: Phdr)
    ensures NewPages(phs + [ph]) == NewPages(phs) + FreshOf(phs, ph)
  {
    assert (phs + [ph])[..|phs|] == phs;
  }

  lemma {:induction false} NewPagesPrefix(phs: seq<Phdr>, i: nat, j: nat)
    returns (more: seq<nat>)
    requires i <= j <= |phs|
    ensures NewPages(phs[..j]) == NewPages(phs[..i]) + more
    decreases j
  {
    more := [];
    if i < j {
      var front := NewPagesPrefix(phs, i, j - 1);
      assert phs[..j] == phs[..j - 1] + [phs[j - 1]];
      NewPagesSnoc(phs[..j - 1], phs[j - 1]);
      more := front + FreshOf(phs[..j - 1], phs[j - 1]);
    }
  }

  lemma {:induction false} TouchedPages(phs: seq<Phdr>, n: nat)
    ensures n in PagesIn(phs) <==> Touched(phs, n)
    decreases |phs|
  {
    if phs != [] {
      var front, ph := phs[..|phs| - 1], phs[|phs| - 1];
      TouchedPages(front, n);
      assert phs == front + [ph];
      TouchedSnoc(front, ph, n);
    }
  }

  lemma FitPages(pages: Pages, phs: seq<Phdr>)
    requires PagesFit(pages, phs)
    ensures pages.Keys == PagesIn(phs)
  {
    forall n: nat
      ensures n in pages <==> n in PagesIn(phs)
    {
      TouchedPages(phs, n);
    }
  }

  /** The program headers before the first that does not fit the file. */
  function Fitting(phs: seq<Phdr>, size: nat): seq<Phdr>
  {
    if phs != [] && phs[0].Fits(size) then [phs[0]] + Fitting(phs[1..], size) else []
  }

  lemma {:induction false} FittingIs(phs: seq<Phdr>, size: nat, i: nat)
    requires i <= |phs| && AllFit(phs[..i], size) && (i < |phs| ==> !phs[i].Fits(size))
    ensures Fitting(phs, size) == phs[..i]
    decreases i
  {
    if i > 0 {
      assert phs[..i][0] == phs[0];
      assert phs[1..][..i - 1] == phs[..i][1..];
      FittingIs(phs[1..], size, i - 1);
      assert phs[..i] == [phs[0]] + phs[1..][..i - 1];
    }
  }

  lemma {:induction false} FittingHas(phs: seq<Phdr>, size: nat, i: nat)
    requires i <= |phs| && AllFit(phs[..i], size)
    ensures i <= |Fitting(phs, size)| && Fitting(phs, size)[..i] == phs[..i]
    decreases i
  {
    if i > 0 {
      assert phs[..i][0] == phs[0];
      assert phs[1..][..i - 1] == phs[..i][1..];
      FittingHas(phs[1..], size, i - 1);
      assert phs[..i] == [phs[0]] + phs[1..][..i - 1];
    }
  }

  lemma {:induction false} FittingAll(phs: seq<Phdr>, size: nat)
    requires AllFit(phs, size)
    ensures Fitting(phs, size) == phs
  {
    assert phs[..|phs|] == phs;
    FittingIs(phs, size, |phs|);
  }

  // ----- the loader -----

  ghost predicate ZeroPage(img: nat -> Byte, n: nat) {
    forall a: nat {:trigger PageNo(a)} :: PageNo(a) == n ==> img(a) == 0
  }

  lemma PageStart(pages: Pages, n: nat)
    ensures PageNo(n * PAGE_SIZE) == n
    ensures At(pages, n * PAGE_SIZE) == if n in pages then pages[n].frame * PAGE_SIZE else 0
  {
  }

  /** pmm_alloc_page and the zeroing of the page. */
  method NewPage(u: UserMemory, dir: PageDirectory) returns (phys: nat)
    requires u.mgr.Valid(dir)
    modifies u`ram, u.mgr.pmm`usedPages, u.mgr.pmm`lastAllocHint, u.mgr.pmm.bitmap
    ensures u.mgr.Valid(dir)
    ensures phys == 0 <==> old(u.mgr.pmm.Spare()) == 0
    ensures u.mgr.pmm.Spare() == old(u.mgr.pmm.Spare()) - (if phys == 0 then 0 else 1)
    ensures phys == 0 ==> u.mgr.Exhausted() && u.mgr.pmm.Frames() == old(u.mgr.pmm.Frames())
    ensures phys != 0 ==>
              && phys % PAGE_SIZE == 0 && u.mgr.pmm.Managed(phys / PAGE_SIZE)
              && phys / PAGE_SIZE !in old(u.mgr.pmm.Frames())
              && u.mgr.pmm.Frames() == old(u.mgr.pmm.Frames()) + {phys / PAGE_SIZE}
              && u.ram == WriteUser(old(u.ram), Direct(), phys, Zeros(PAGE_SIZE))
  {
    phys := u.mgr.pmm.AllocPage();
    if phys == 0 { return; }
    u.ZeroFrame(phys);
  }

  /** The frame is the page's own, or it was free until now. */
  ghost predicate FrameTaken(pages: Pages, n: nat, frame: nat, before: set<nat>, after: set<nat>, managed: Range) {
    if n in pages then frame == pages[n].frame && after == before
    else frame > 0 && frame !in before && managed.lo <= frame < managed.hi && after == before + {frame}
  }

  /** The frame for a page of the segment: the one it has, or a new one. */
  method FrameFor(u: UserMemory, dir: PageDirectory, n: nat, ghost pages: Pages, ghost img: nat -> Byte)
    returns (phys: nat, ghost leaf: Leaf)
    requires Sound(u, dir, pages, img) && FIRST_PAGE <= n < END_PAGE
    requires n !in pages ==> ZeroPage(img, n)
    modifies u`ram, u.mgr.pmm`usedPages, u.mgr.pmm`lastAllocHint, u.mgr.pmm.bitmap
    ensures u.mgr.Valid(dir)
    ensures phys == 0 ==> u.mgr.Exhausted() && u.mgr.pmm.Frames() == old(u.mgr.pmm.Frames())
    ensures phys == 0 <==> n !in pages && old(u.mgr.pmm.Spare()) == 0
    ensures u.mgr.pmm.Spare() == old(u.mgr.pmm.Spare()) - (if phys == 0 || n in pages then 0 else 1)
    ensures phys != 0 ==>
              && phys % PAGE_SIZE == 0
              && FrameTaken(pages, n, phys / PAGE_SIZE, old(u.mgr.pmm.Frames()), u.mgr.pmm.Frames(), AddressSpace.Managing(u.mgr))
    ensures phys != 0 ==>
              && leaf == Leaf(phys / PAGE_SIZE, true, true)
              && Placed(WithPage(pages, n, leaf), u.mgr.pmm.Frames())
              && Holding(u.ram, WithPage(pages, n, leaf), img)
  {
    PageStart(pages, n);
    phys := u.Locate(dir, n * PAGE_SIZE, pages);
    if phys == 0 {
      phys := NewPage(u, dir);
      leaf := Leaf(phys / PAGE_SIZE, true, true);
      if phys == 0 { return; }
      assert leaf.frame * PAGE_SIZE == phys;
      NewPageHolding(old(u.ram), pages, old(u.mgr.pmm.Frames()), img, n, leaf);
      SameHolding(u.ram, WithPage(pages, n, leaf), Cleared(img, n), img);
    } else {
      leaf := Leaf(phys / PAGE_SIZE, true, true);
      assert leaf.frame == pages[n].frame;
      SameBytes(u.ram, pages, img, n, leaf);
    }
  }

  /** What one map call does to the tables, for the space's accounts. */
  ghost predicate MapStep(a: State, b: State, root: nat, managed: Range, n: nat, frame: nat, ok: bool) {
    && Tree(b.m, root, b.tab, AddressSpace.USER) && Mapped(a, b, root, AddressSpace.USER, VPage(n))
    && AddressSpace.FromManaged(a, b, managed)
    && AddressSpace.FrameAt(b.m, root, VPage(n)) == if ok then Some(frame) else AddressSpace.FrameAt(a.m, root, VPage(n))
  }

  /** Whether the page was there or is new, the accounts balance, or the frame is lost. */
  lemma MapConserves(a: State, b: State, root: nat, managed: Range, pages: Pages, n: nat, frame: nat, taken: set<nat>, ok: bool)
    requires Tabled(a.m, root, pages) && FIRST_PAGE <= n < END_PAGE
    requires FrameTaken(pages, n, frame, a.frames, taken, managed)
    requires MapStep(a.(frames := taken), b, root, managed, n, frame, ok)
    ensures AddressSpace.Conserved(a, b, root, managed, if ok || n in pages then 0 else frame)
  {
    VPageRange(n);
    var a' := a.(frames := taken);
    assert Translate(a.m, root, VPage(n)) == if n in pages then Some(pages[n]) else None;
    AddressSpace.MappedStep(a', b, root, VPage(n));
    if n in pages {
      assert a' == a;
      AddressSpace.ConservedSame(a, b, root, managed);
    } else {
      AddressSpace.ConservedMap(a, b, root, managed, VPage(n), frame, ok);
    }
  }

  /** vmm_map_user_page, seen as a change of the page map. */
  method MapAt(mgr: Manager, dir: PageDirectory, n: nat, phys: nat, ghost pages: Pages) returns (ok: bool)
    requires mgr.Valid(dir) && dir.range == AddressSpace.USER && Tabled(mgr.mem, dir.root, pages)
    requires FIRST_PAGE <= n < END_PAGE
    modifies mgr`mem, dir`tab, mgr.pmm`usedPages, mgr.pmm`lastAllocHint, mgr.pmm.bitmap
    ensures mgr.Valid(dir) && old(mgr.pmm.Frames()) <= mgr.pmm.Frames()
    ensures if ok then Tabled(mgr.mem, dir.root, WithPage(pages, n, Leaf(phys / PAGE_SIZE, true, true))) else mgr.Exhausted()
    ensures MapStep(old(mgr.View(dir)), mgr.View(dir), dir.root, AddressSpace.Managing(mgr), n, phys / PAGE_SIZE, ok)
    ensures Paid(old(dir.tab.Keys), old(mgr.pmm.Spare()), dir.tab.Keys, mgr.pmm.Spare(), VPage(n), ok)
  {
    VPageRange(n);
    mgr.pmm.ZeroFrame();
    ghost var before := mgr.View(dir);
    ok := mgr.MapUserPage(dir, n * PAGE_SIZE, phys, Flags(true, true, false, 0));
    mgr.pmm.ZeroFrame();
    assert mgr.View(dir).frames == mgr.pmm.Frames();
    if ok {
      TabledAfter(before.m, mgr.mem, dir.root, pages, n, Leaf(phys / PAGE_SIZE, true, true));
    }
  }

  lemma ReflagConserves(a: State, b: State, root: nat, managed: Range, p: Page, flags: Flags)
    requires Tree(b.m, root, b.tab, AddressSpace.USER) && Reflagged(a, b, root, AddressSpace.USER, p, flags)
    requires AddressSpace.FrameAt(b.m, root, p) == AddressSpace.FrameAt(a.m, root, p)
    requires AddressSpace.FromManaged(a, b, managed) && NoMore(flags, Translate(a.m, root, p))
    ensures AddressSpace.Conserved(a, b, root, managed, 0)
  {
    AddressSpace.ConservedSame(a, b, root, managed);
  }

  /** The map call, with the accounts since before the frame was found, when
      there were `spare` to spare. */
  method MapTaken(mgr: Manager, dir: PageDirectory, n: nat, phys: nat, ghost pages: Pages, ghost a: State, ghost spare: int)
    returns (ok: bool, ghost lost: nat)
    requires mgr.Valid(dir) && dir.range == AddressSpace.USER && Tabled(mgr.mem, dir.root, pages)
    requires FIRST_PAGE <= n < END_PAGE && mgr.View(dir) == a.(frames := mgr.pmm.Frames())
    requires FrameTaken(pages, n, phys / PAGE_SIZE, a.frames, mgr.pmm.Frames(), AddressSpace.Managing(mgr))
    requires mgr.pmm.Spare() == spare - (if n in pages then 0 else 1) && NoBigPages(mgr.mem, dir.tab)
    modifies mgr`mem, dir`tab, mgr.pmm`usedPages, mgr.pmm`lastAllocHint, mgr.pmm.bitmap
    ensures mgr.Valid(dir) && old(mgr.pmm.Frames()) <= mgr.pmm.Frames()
    ensures if ok then Tabled(mgr.mem, dir.root, WithPage(pages, n, Leaf(phys / PAGE_SIZE, true, true))) else mgr.Exhausted()
    ensures AddressSpace.Conserved(a, mgr.View(dir), dir.root, AddressSpace.Managing(mgr), lost)
    ensures NoBigPages(mgr.mem, dir.tab)
    ensures PageBill(n in pages, old(dir.tab.Keys), spare, dir.tab.Keys, mgr.pmm.Spare(), n * PAGE_SIZE, ok, lost)
  {
    ghost var frames, managed := mgr.pmm.Frames(), AddressSpace.Managing(mgr);
    ghost var k, left := dir.tab.Keys, mgr.pmm.Spare();
    mgr.pmm.SpareMeans();
    VPageRange(n);
    if n in pages {
      assert Translate(mgr.mem, dir.root, VPage(n)) == Some(pages[n]);
      MappedIsFree(mgr.mem, dir.root, dir.tab, VPage(n));
    }
    ok := MapAt(mgr, dir, n, phys, pages);
    MapConserves(a, mgr.View(dir), dir.root, managed, pages, n, phys / PAGE_SIZE, frames, ok);
    lost := if ok || n in pages then 0 else phys / PAGE_SIZE;
    BillFor(n in pages, k, spare, k, left, dir.tab.Keys, mgr.pmm.Spare(), n * PAGE_SIZE, ok, lost);
  }

  /** vmm_change_flags, seen as a change of the page map. */
  method TightenAt(mgr: Manager, dir: PageDirectory, n: nat, ghost pages: Pages) returns (ok: bool)
    requires mgr.Valid(dir) && dir.range == AddressSpace.USER && Tabled(mgr.mem, dir.root, pages)
    requires n in pages && FIRST_PAGE <= n < END_PAGE && NoBigPages(mgr.mem, dir.tab) && pages[n].user
    modifies mgr`mem, dir`tab, mgr.pmm`usedPages, mgr.pmm`lastAllocHint, mgr.pmm.bitmap
    ensures ok && mgr.Valid(dir) && old(mgr.pmm.Frames()) <= mgr.pmm.Frames()
    ensures Tabled(mgr.mem, dir.root, WithPage(pages, n, Leaf(pages[n].frame, false, true)))
    ensures AddressSpace.Conserved(old(mgr.View(dir)), mgr.View(dir), dir.root, AddressSpace.Managing(mgr), 0)
    ensures NoBigPages(mgr.mem, dir.tab) && dir.tab == old(dir.tab) && mgr.pmm.Spare() == old(mgr.pmm.Spare())
  {
    VPageRange(n);
    mgr.pmm.ZeroFrame();
    ghost var before, managed := mgr.View(dir), AddressSpace.Managing(mgr);
    assert Translate(before.m, dir.root, VPage(n)) == Some(pages[n]);
    NoneBig(mgr.mem, dir.root, dir.tab, VPage(n));
    ok := mgr.ChangeFlags(dir, n * PAGE_SIZE, Flags(false, true, false, 0));
    mgr.pmm.ZeroFrame();
    ReflagConserves(before, mgr.View(dir), dir.root, managed, VPage(n), Flags(false, true, false, 0));
    assert mgr.View(dir).frames == mgr.pmm.Frames();
    TabledAfter(before.m, mgr.mem, dir.root, pages, n, Leaf(pages[n].frame, false, true));
  }

  lemma NoneBig(m: Mem, root: nat, tab: Tables, p: Page)
    requires Tree(m, root, tab, AddressSpace.USER) && NoBigPages(m, tab) && In(AddressSpace.USER, p)
    ensures !BigPage(m, root, p)
  {
    WalkInTree(m, root, tab, AddressSpace.USER, p);
  }

  lemma PlacedMore(pages: Pages, frames: set<nat>, more: set<nat>)
    requires Placed(pages, frames) && frames <= more
    ensures Placed(pages, more)
  {
  }

  lemma PlacedSame(pages: Pages, frames: set<nat>, n: nat, leaf: Leaf)
    requires Placed(pages, frames) && n in pages && leaf.user && leaf.frame == pages[n].frame
    ensures Placed(WithPage(pages, n, leaf), frames)
  {
  }

  ghost predicate Added(pages: Pages, pages': Pages, n: nat, write: bool) {
    pages'.Keys == pages.Keys + {n} && pages'[n].write == write && forall k :: k in pages && k != n ==> pages'[k] == pages[k]
  }

  lemma WithPageAdded(pages: Pages, n: nat, leaf: Leaf)
    ensures Added(pages, WithPage(pages, n, leaf), n, leaf.write)
  {
  }

  /** One page of the mapping loop. */
  method MapOne(u: UserMemory, dir: PageDirectory, n: nat, ghost pages: Pages, ghost img: nat -> Byte)
    returns (ok: bool, ghost pages': Pages, ghost lost: nat)
    requires Sound(u, dir, pages, img) && FIRST_PAGE <= n < END_PAGE && NoBigPages(u.mgr.mem, dir.tab)
    requires n !in pages ==> ZeroPage(img, n)
    modifies u`ram, u.mgr`mem, dir`tab, u.mgr.pmm`usedPages, u.mgr.pmm`lastAllocHint, u.mgr.pmm.bitmap
    ensures if ok then Sound(u, dir, pages', img) && Added(pages, pages', n, true) else u.mgr.Valid(dir) && u.mgr.Exhausted()
    ensures AddressSpace.Conserved(old(u.mgr.View(dir)), u.mgr.View(dir), dir.root, AddressSpace.Managing(u.mgr), lost)
    ensures NoBigPages(u.mgr.mem, dir.tab)
    ensures PageBill(n in pages, old(dir.tab.Keys), old(u.mgr.pmm.Spare()), dir.tab.Keys, u.mgr.pmm.Spare(), n * PAGE_SIZE, ok, lost)
  {
    ghost var a, spare := u.mgr.View(dir), u.mgr.pmm.Spare();
    var phys;
    ghost var leaf;
    phys, leaf := FrameFor(u, dir, n, pages, img);
    pages' := WithPage(pages, n, leaf);
    if phys == 0 {
      AddressSpace.ConservedRefl(a, dir.root, AddressSpace.Managing(u.mgr));
      return false, pages', 0;
    }
    ghost var frames := u.mgr.pmm.Frames();
    assert u.mgr.View(dir) == a.(frames := frames);
    ok, lost := MapTaken(u.mgr, dir, n, phys, pages, a, spare);
    if ok {
      WithPageAdded(pages, n, leaf);
      PlacedMore(pages', frames, u.mgr.pmm.Frames());
    }
  }

  /** One page of the loop that takes WRITE away: it never fails. */
  method TightenOne(u: UserMemory, dir: PageDirectory, n: nat, ghost pages: Pages, ghost img: nat -> Byte)
    returns (ok: bool, ghost pages': Pages)
    requires Sound(u, dir, pages, img) && n in pages && NoBigPages(u.mgr.mem, dir.tab)
    modifies u.mgr`mem, dir`tab, u.mgr.pmm`usedPages, u.mgr.pmm`lastAllocHint, u.mgr.pmm.bitmap
    ensures ok && Sound(u, dir, pages', img) && Added(pages, pages', n, false)
    ensures AddressSpace.Conserved(old(u.mgr.View(dir)), u.mgr.View(dir), dir.root, AddressSpace.Managing(u.mgr), 0)
    ensures NoBigPages(u.mgr.mem, dir.tab) && dir.tab == old(dir.tab) && u.mgr.pmm.Spare() == old(u.mgr.pmm.Spare())
  {
    ghost var leaf := Leaf(pages[n].frame, false, true);
    pages' := WithPage(pages, n, leaf);
    ghost var frames := u.mgr.pmm.Frames();
    ok := TightenAt(u.mgr, dir, n, pages);
    WithPageAdded(pages, n, leaf);
    SameBytes(u.ram, pages, img, n, leaf);
    PlacedSame(pages, frames, n, leaf);
    PlacedMore(pages', frames, u.mgr.pmm.Frames());
  }

  // ----- one segment -----

  /** The books opened at `start` with `n0` spare frames, with the pages at `list`. */
  ghost predicate Booked(u: UserMemory, dir: PageDirectory, start: State, n0: int, list: seq<nat>)
    requires u.mgr.pmm.Shape()
    reads u, u.mgr, u.mgr.pmm, u.mgr.pmm.bitmap, dir
  {
    Books(start, n0, list, u.mgr.View(dir), u.mgr.pmm.Spare(), dir.root, AddressSpace.Managing(u.mgr))
  }

  ghost predicate Broken(u: UserMemory, dir: PageDirectory, start: State, n0: int, list: seq<nat>, lost: nat)
    requires u.mgr.pmm.Shape()
    reads u, u.mgr, u.mgr.pmm, u.mgr.pmm.bitmap, dir
  {
    Broke(start, n0, list, u.mgr.View(dir), dir.root, AddressSpace.Managing(u.mgr), lost)
  }

  predicate InRange(k: nat, lo: nat, hi: nat) {
    lo <= k < hi
  }

  /** Pages `lo` to `hi` are mapped, with this WRITE bit; the rest is as before. */
  ghost predicate Became(before: Pages, after: Pages, lo: nat, hi: nat, write: bool) {
    && (forall k: nat {:trigger k in after} :: k in after <==> k in before || InRange(k, lo, hi))
    && (forall k: nat {:trigger k in after} :: k in after ==>
         if InRange(k, lo, hi) then after[k].write == write else after[k] == before[k])
  }

  lemma BecameNext(before: Pages, now: Pages, next: Pages, lo: nat, n: nat, write: bool)
    requires lo <= n && Became(before, now, lo, n, write)
    requires Added(now, next, n, write)
    ensures Became(before, next, lo, n + 1, write)
  {
  }

  lemma BecameHas(before: Pages, now: Pages, lo: nat, n: nat, hi: nat, write: bool)
    requires lo <= n < hi && Became(before, now, lo, n, write)
    requires Has(before, lo, hi)
    ensures n in now
  {
    assert InRange(n, lo, hi);
  }

  lemma BecameAll(before: Pages, after: Pages, lo: nat, hi: nat, write: bool)
    requires Became(before, after, lo, hi, write)
    ensures Has(after, lo, hi)
  {
  }

  /** Nothing but zeros outside the pages. */
  ghost predicate Blank(pages: Pages, img: nat -> Byte) {
    forall n: nat {:trigger ZeroPage(img, n)} :: n !in pages ==> ZeroPage(img, n)
  }

  ghost predicate Has(pages: Pages, lo: nat, hi: nat) {
    forall k: nat {:trigger InRange(k, lo, hi)} :: InRange(k, lo, hi) ==> k in pages
  }

  ghost predicate UserPages(lo: nat, hi: nat) {
    forall k: nat {:trigger InRange(k, lo, hi)} :: InRange(k, lo, hi) ==> FIRST_PAGE <= k < END_PAGE
  }

  lemma BecameRefl(pages: Pages, lo: nat, write: bool)
    ensures Became(pages, pages, lo, lo, write)
  {
  }

  /** `start` and `n0` are the state and the spare frames the books were opened
      with, `list` the pages listed before this segment. */
  method MapNext(u: UserMemory, dir: PageDirectory, lo: nat, n: nat, hi: nat, ghost pages: Pages, ghost now: Pages,
                 ghost img: nat -> Byte, ghost start: State, ghost n0: int, ghost list: seq<nat>)
    returns (ok: bool, ghost after: Pages, ghost lost: nat)
    requires Sound(u, dir, now, img) && lo <= n < hi && UserPages(lo, hi) && Became(pages, now, lo, n, true)
    requires Blank(pages, img)
    requires Booked(u, dir, start, n0, Listed(list, pages, lo, n))
    modifies u`ram, u.mgr`mem, dir`tab, u.mgr.pmm`usedPages, u.mgr.pmm`lastAllocHint, u.mgr.pmm.bitmap
    ensures if ok then
              && Sound(u, dir, after, img) && Became(pages, after, lo, n + 1, true)
              && Booked(u, dir, start, n0, Listed(list, pages, lo, n + 1))
            else
              && u.mgr.Valid(dir) && u.mgr.Exhausted()
              && Broken(u, dir, start, n0, Listed(list, pages, lo, n + 1), lost)
    ensures ok ==> lost == 0
  {
    assert InRange(n, lo, hi);
    ghost var a, spare := u.mgr.View(dir), u.mgr.pmm.Spare();
    ok, after, lost := MapOne(u, dir, n, now, img);
    BooksNext(start, n0, Listed(list, pages, lo, n), a, spare, u.mgr.View(dir), u.mgr.pmm.Spare(), dir.root, AddressSpace.Managing(u.mgr),
              n in now, n * PAGE_SIZE, ok, lost);
    ListedNext(list, pages, now, lo, n);
    if !ok { return; }
    BecameNext(pages, now, after, lo, n, true);
  }

  /** The list after the pages up to `n` of a segment, when `pages` were there before it. */
  function Listed(list: seq<nat>, pages: Pages, lo: nat, n: nat): seq<nat>
  {
    list + Fresh(pages.Keys, lo, n)
  }

  lemma ListedNext(list: seq<nat>, pages: Pages, now: Pages, lo: nat, n: nat)
    requires lo <= n && Became(pages, now, lo, n, true)
    ensures Listed(list, pages, lo, n + 1) == Listed(list, pages, lo, n) + (if n in now then [] else [n * PAGE_SIZE])
  {
    assert n in now <==> n in pages;
  }

  lemma ListedNone(list: seq<nat>, pages: Pages, lo: nat)
    ensures Listed(list, pages, lo, lo) == list
  {
  }

  lemma {:induction false} FreshPrefix(had: set<nat>, lo: nat, n: nat, hi: nat) returns (more: seq<nat>)
    requires lo <= n <= hi
    ensures Fresh(had, lo, hi) == Fresh(had, lo, n) + more
    decreases hi
  {
    more := [];
    if n < hi {
      var front := FreshPrefix(had, lo, n, hi - 1);
      more := front + (if hi - 1 in had then [] else [(hi - 1) * PAGE_SIZE]);
    }
  }

  lemma BrokeEarly(start: State, n0: int, list: seq<nat>, pages: Pages, lo: nat, n: nat, hi: nat, b: State, root: nat,
                   managed: Range, lost: nat)
    requires lo <= n <= hi && Broke(start, n0, Listed(list, pages, lo, n), b, root, managed, lost)
    ensures Broke(start, n0, Listed(list, pages, lo, hi), b, root, managed, lost)
  {
    var more := FreshPrefix(pages.Keys, lo, n, hi);
    BrokeExtends(start, n0, Listed(list, pages, lo, n), more, b, root, managed, lost);
    assert Listed(list, pages, lo, hi) == Listed(list, pages, lo, n) + more;
  }

  /** The mapping loop. */
  method MapSegment(u: UserMemory, dir: PageDirectory, lo: nat, hi: nat, ghost pages: Pages, ghost img: nat -> Byte,
                    ghost start: State, ghost n0: int, ghost list: seq<nat>)
    returns (ok: bool, ghost after: Pages, ghost lost: nat)
    requires Sound(u, dir, pages, img) && lo <= hi && UserPages(lo, hi)
    requires Blank(pages, img)
    requires Booked(u, dir, start, n0, list)
    modifies u`ram, u.mgr`mem, dir`tab, u.mgr.pmm`usedPages, u.mgr.pmm`lastAllocHint, u.mgr.pmm.bitmap
    ensures if ok then
              && Sound(u, dir, after, img) && Became(pages, after, lo, hi, true)
              && Booked(u, dir, start, n0, Listed(list, pages, lo, hi))
            else
              && u.mgr.Valid(dir) && u.mgr.Exhausted()
              && Broken(u, dir, start, n0, Listed(list, pages, lo, hi), lost)
    ensures ok ==> lost == 0
  {
    after, lost := pages, 0;
    BecameRefl(pages, lo, true);
    ListedNone(list, pages, lo);
    var n := lo;
    while n < hi
      invariant lo <= n <= hi
      invariant Sound(u, dir, after, img) && Became(pages, after, lo, n, true)
      invariant Booked(u, dir, start, n0, Listed(list, pages, lo, n))
    {
      ok, after, lost := MapNext(u, dir, lo, n, hi, pages, after, img, start, n0, list);
      if !ok {
        BrokeEarly(start, n0, list, pages, lo, n + 1, hi, u.mgr.View(dir), dir.root, AddressSpace.Managing(u.mgr), lost);
        return;
      }
      n := n + 1;
    }
    ok, lost := true, 0;
  }

  method TightenNext(u: UserMemory, dir: PageDirectory, lo: nat, n: nat, hi: nat, ghost pages: Pages, ghost now: Pages,
                     ghost img: nat -> Byte, ghost start: State, ghost n0: int, ghost list: seq<nat>)
    returns (ok: bool, ghost after: Pages)
    requires Sound(u, dir, now, img) && lo <= n < hi && Became(pages, now, lo, n, false)
    requires Has(pages, lo, hi)
    requires Booked(u, dir, start, n0, list)
    modifies u.mgr`mem, dir`tab, u.mgr.pmm`usedPages, u.mgr.pmm`lastAllocHint, u.mgr.pmm.bitmap
    ensures ok && Sound(u, dir, after, img) && Became(pages, after, lo, n + 1, false)
    ensures Booked(u, dir, start, n0, list)
  {
    ghost var a, spare := u.mgr.View(dir), u.mgr.pmm.Spare();
    BecameHas(pages, now, lo, n, hi, false);
    ok, after := TightenOne(u, dir, n, now, img);
    BooksSame(start, n0, list, a, spare, u.mgr.View(dir), dir.root, AddressSpace.Managing(u.mgr));
    BecameNext(pages, now, after, lo, n, false);
  }

  /** The loop that takes WRITE away. */
  method TightenSegment(u: UserMemory, dir: PageDirectory, lo: nat, hi: nat, ghost pages: Pages, ghost img: nat -> Byte,
                        ghost start: State, ghost n0: int, ghost list: seq<nat>)
    returns (ok: bool, ghost after: Pages)
    requires Sound(u, dir, pages, img) && lo <= hi && Has(pages, lo, hi)
    requires Booked(u, dir, start, n0, list)
    modifies u.mgr`mem, dir`tab, u.mgr.pmm`usedPages, u.mgr.pmm`lastAllocHint, u.mgr.pmm.bitmap
    ensures ok && Sound(u, dir, after, img) && Became(pages, after, lo, hi, false)
    ensures Booked(u, dir, start, n0, list)
  {
    after := pages;
    var n := lo;
    BecameRefl(pages, lo, false);
    while n < hi
      invariant lo <= n <= hi
      invariant Sound(u, dir, after, img) && Became(pages, after, lo, n, false)
      invariant Booked(u, dir, start, n0, list)
    {
      ok, after := TightenNext(u, dir, lo, n, hi, pages, after, img, start, n0, list);
      n := n + 1;
    }
    ok := true;
  }

  lemma SegmentSpans(pages: Pages, ph: Phdr)
    requires ph.Loads() && Has(pages, ph.FirstPage(), ph.EndPage())
    ensures Spans(pages, ph.vaddr, ph.memsz)
  {
    forall a: nat | ph.vaddr <= a < ph.vaddr + ph.memsz
      ensures PageNo(a) in pages
    {
      CoveredIsTouched(ph, a);
      assert InRange(PageNo(a), ph.FirstPage(), ph.EndPage());
    }
  }

  /** The image after the copies of one more segment. */
  lemma FilledImage(file: seq<Byte>, phs: seq<Phdr>, ph: Phdr, a: nat)
    requires (forall i :: 0 <= i < |phs| ==> phs[i].Fits(|file|)) && ph.Loads() && ph.Fits(|file|)
    ensures ImageByte(file, phs + [ph], a) ==
            Patched(Patched(Image(file, phs), ph.vaddr, file[ph.offset..ph.offset + ph.filesz]),
                    ph.vaddr + ph.filesz, Zeros(ph.memsz - ph.filesz))(a)
  {
    assert (phs + [ph])[..|phs|] == phs;
  }

  /** The two copies of a segment: its file bytes and its zero tail. */
  method FillSegment(u: UserMemory, dir: PageDirectory, file: seq<Byte>, ghost phs: seq<Phdr>, ph: Phdr, ghost pages: Pages)
    returns (ok: bool)
    requires forall i :: 0 <= i < |phs| ==> phs[i].Fits(|file|)
    requires ph.Loads() && ph.Fits(|file|) && ph.InUserSlots()
    requires Sound(u, dir, pages, Image(file, phs)) && Spans(pages, ph.vaddr, ph.memsz)
    modifies u`ram
    ensures ok && Sound(u, dir, pages, Image(file, phs + [ph]))
  {
    ghost var img := Image(file, phs);
    var src := file[ph.offset..ph.offset + ph.filesz];
    if ph.filesz > 0 {
      ok := PutBytes(u, dir, ph.vaddr, src, pages, img);
      if !ok { return; }
    } else {
      SameHolding(u.ram, pages, img, Patched(img, ph.vaddr, src));
    }
    img := Patched(img, ph.vaddr, src);
    var tail := ph.vaddr + ph.filesz;
    if ph.memsz > ph.filesz {
      ok := PutZeros(u, dir, tail, ph.memsz - ph.filesz, pages, img);
      if !ok { return; }
    } else {
      SameHolding(u.ram, pages, img, Patched(img, tail, Zeros(0)));
    }
    img := Patched(img, tail, Zeros(ph.memsz - ph.filesz));
    forall a: nat
      ensures img(a) == Image(file, phs + [ph])(a)
    {
      FilledImage(file, phs, ph, a);
    }
    SameHolding(u.ram, pages, img, Image(file, phs + [ph]));
    return true;
  }

  /** The pages of a segment, mapped and writable. */
  method MapPages(u: UserMemory, dir: PageDirectory, file: seq<Byte>, ghost phs: seq<Phdr>, ph: Phdr, ghost pages: Pages,
                  ghost start: State, ghost n0: int, ghost list: seq<nat>)
    returns (ok: bool, ghost mapped: Pages, ghost lost: nat)
    requires AllFit(phs, |file|) && ph.InUserSlots() && ph.Loads()
    requires Sound(u, dir, pages, Image(file, phs)) && PagesFit(pages, phs)
    requires Booked(u, dir, start, n0, NewPages(phs)) && list == NewPages(phs + [ph])
    modifies u`ram, u.mgr`mem, dir`tab, u.mgr.pmm`usedPages, u.mgr.pmm`lastAllocHint, u.mgr.pmm.bitmap
    ensures if ok then
              && Sound(u, dir, mapped, Image(file, phs)) && Became(pages, mapped, ph.FirstPage(), ph.EndPage(), true)
              && Has(mapped, ph.FirstPage(), ph.EndPage()) && Spans(mapped, ph.vaddr, ph.memsz)
              && Booked(u, dir, start, n0, list)
            else
              && u.mgr.Valid(dir) && u.mgr.Exhausted()
              && Broken(u, dir, start, n0, list, lost)
    ensures ok ==> lost == 0
  {
    PageBounds(ph);
    BlankElsewhere(file, phs, pages);
    FitPages(pages, phs);
    NewPagesSnoc(phs, ph);
    ok, mapped, lost := MapSegment(u, dir, ph.FirstPage(), ph.EndPage(), pages, Image(file, phs), start, n0, NewPages(phs));
    if !ok { return; }
    BecameAll(pages, mapped, ph.FirstPage(), ph.EndPage(), true);
    SegmentSpans(mapped, ph);
  }

  /** One segment: its pages, its bytes, its permissions. `all` are the segments so
      far with this one. */
  method LoadSegment(u: UserMemory, dir: PageDirectory, file: seq<Byte>, ghost phs: seq<Phdr>, ph: Phdr, ghost all: seq<Phdr>,
                     ghost pages: Pages, ghost start: State, ghost n0: int)
    returns (ok: bool, ghost after: Pages, ghost lost: nat)
    requires AllFit(phs, |file|) && ph.InUserSlots() && all == phs + [ph]
    requires Sound(u, dir, pages, Image(file, phs)) && PagesFit(pages, phs)
    requires Booked(u, dir, start, n0, NewPages(phs))
    modifies u`ram, u.mgr`mem, dir`tab, u.mgr.pmm`usedPages, u.mgr.pmm`lastAllocHint, u.mgr.pmm.bitmap
    ensures ok ==>
              && ph.Fits(|file|) && AllFit(all, |file|) && Sound(u, dir, after, Image(file, all)) && PagesFit(after, all)
              && Booked(u, dir, start, n0, NewPages(all))
    ensures !ok && !ph.Fits(|file|) ==> lost == 0 && u.mgr.Valid(dir) && Booked(u, dir, start, n0, NewPages(phs))
    ensures !ok && ph.Fits(|file|) ==>
              && u.mgr.Valid(dir) && u.mgr.Exhausted() && Broken(u, dir, start, n0, NewPages(all), lost)
    ensures ok ==> lost == 0
  {
    after, lost := pages, 0;
    if ph.kind != PT_LOAD || ph.memsz == 0 {
      SkipSegment(u, dir, file, phs, ph, all, pages, start, n0);
      return true, after, 0;
    }
    if ph.filesz > ph.memsz || ph.offset + ph.filesz > |file| { return false, after, 0; }
    ok, after, lost := LoadPages(u, dir, file, phs, ph, all, pages, start, n0);
  }

  /** A header that does load something and fits the file. */
  method LoadPages(u: UserMemory, dir: PageDirectory, file: seq<Byte>, ghost phs: seq<Phdr>, ph: Phdr, ghost all: seq<Phdr>,
                   ghost pages: Pages, ghost start: State, ghost n0: int)
    returns (ok: bool, ghost after: Pages, ghost lost: nat)
    requires AllFit(phs, |file|) && ph.InUserSlots() && ph.Loads() && ph.Fits(|file|) && all == phs + [ph]
    requires Sound(u, dir, pages, Image(file, phs)) && PagesFit(pages, phs)
    requires Booked(u, dir, start, n0, NewPages(phs))
    modifies u`ram, u.mgr`mem, dir`tab, u.mgr.pmm`usedPages, u.mgr.pmm`lastAllocHint, u.mgr.pmm.bitmap
    ensures AllFit(all, |file|)
    ensures if ok then
              && Sound(u, dir, after, Image(file, all)) && PagesFit(after, all)
              && Booked(u, dir, start, n0, NewPages(all))
            else
              && u.mgr.Valid(dir) && u.mgr.Exhausted() && Broken(u, dir, start, n0, NewPages(all), lost)
    ensures ok ==> lost == 0
  {
    FitSnoc(phs, ph, |file|);
    ghost var mapped;
    ok, mapped, lost := MapPages(u, dir, file, phs, ph, pages, start, n0, NewPages(all));
    after := mapped;
    if !ok { return; }
    ok, after := FinishSegment(u, dir, file, phs, ph, mapped, start, n0, NewPages(all));
    PagesNow(pages, mapped, after, phs, ph);
  }

  lemma FitSnoc(phs: seq<Phdr>, ph: Phdr, size: nat)
    requires AllFit(phs, size) && ph.Fits(size)
    ensures AllFit(phs + [ph], size)
  {
  }

  lemma PrefixNext(phs: seq<Phdr>, i: nat)
    requires i < |phs|
    ensures phs[..i + 1] == phs[..i] + [phs[i]]
  {
  }

  /** A header that loads nothing changes nothing. */
  lemma SkipSegment(u: UserMemory, dir: PageDirectory, file: seq<Byte>, phs: seq<Phdr>, ph: Phdr, all: seq<Phdr>, pages: Pages,
                    start: State, n0: int)
    requires AllFit(phs, |file|) && !ph.Loads() && all == phs + [ph]
    requires Sound(u, dir, pages, Image(file, phs)) && PagesFit(pages, phs) && Booked(u, dir, start, n0, NewPages(phs))
    ensures AllFit(all, |file|) && Sound(u, dir, pages, Image(file, all)) && PagesFit(pages, all)
    ensures Booked(u, dir, start, n0, NewPages(all))
  {
    FitSnoc(phs, ph, |file|);
    NewPagesSnoc(phs, ph);
    NoLoad(file, phs, ph, pages);
    SameHolding(u.ram, pages, Image(file, phs), Image(file, all));
    assert NewPages(phs) + [] == NewPages(phs);
  }

  /** The bytes of a segment whose pages are there, and its permissions. */
  method FinishSegment(u: UserMemory, dir: PageDirectory, file: seq<Byte>, ghost phs: seq<Phdr>, ph: Phdr, ghost mapped: Pages,
                       ghost start: State, ghost n0: int, ghost list: seq<nat>)
    returns (ok: bool, ghost after: Pages)
    requires AllFit(phs, |file|) && ph.Loads() && ph.Fits(|file|) && ph.InUserSlots()
    requires Sound(u, dir, mapped, Image(file, phs))
    requires Has(mapped, ph.FirstPage(), ph.EndPage()) && Spans(mapped, ph.vaddr, ph.memsz)
    requires Booked(u, dir, start, n0, list)
    modifies u`ram, u.mgr`mem, dir`tab, u.mgr.pmm`usedPages, u.mgr.pmm`lastAllocHint, u.mgr.pmm.bitmap
    ensures ok && Sound(u, dir, after, Image(file, phs + [ph]))
    ensures if ph.Writable() then after == mapped else Became(mapped, after, ph.FirstPage(), ph.EndPage(), false)
    ensures Booked(u, dir, start, n0, list)
  {
    after := mapped;
    ghost var before, spare := u.mgr.View(dir), u.mgr.pmm.Spare();
    ok := FillSegment(u, dir, file, phs, ph, mapped);
    assert u.mgr.View(dir) == before && u.mgr.pmm.Spare() == spare;
    if !ph.Writable() {
      ok, after := TightenSegment(u, dir, ph.FirstPage(), ph.EndPage(), mapped, Image(file, phs + [ph]), start, n0, list);
    }
  }

  lemma PageBounds(ph: Phdr)
    requires ph.Loads() && ph.InUserSlots()
    ensures FIRST_PAGE <= ph.FirstPage() <= ph.EndPage() <= END_PAGE
  {
  }

  lemma NoLoad(file: seq<Byte>, phs: seq<Phdr>, ph: Phdr, pages: Pages)
    requires (forall i :: 0 <= i < |phs| ==> phs[i].Fits(|file|)) && !ph.Loads() && PagesFit(pages, phs)
    ensures PagesFit(pages, phs + [ph]) && forall a: nat :: Image(file, phs + [ph])(a) == Image(file, phs)(a)
  {
    assert (phs + [ph])[..|phs|] == phs;
    forall n: nat
      ensures Touched(phs + [ph], n) <==> Touched(phs, n)
    {
      TouchedSnoc(phs, ph, n);
    }
  }

  lemma TouchedSnoc(phs: seq<Phdr>, ph: Phdr, n: nat)
    ensures Touched(phs + [ph], n) <==> Touched(phs, n) || ph.Touches(n)
  {
    var all := phs + [ph];
    if ph.Touches(n) {
      assert all[|phs|].Touches(n);
    }
    if Touched(phs, n) {
      var i :| 0 <= i < |phs| && phs[i].Touches(n);
      assert all[i].Touches(n);
    }
  }

  lemma BlankElsewhere(file: seq<Byte>, phs: seq<Phdr>, pages: Pages)
    requires (forall i :: 0 <= i < |phs| ==> phs[i].Fits(|file|)) && PagesFit(pages, phs)
    ensures Blank(pages, Image(file, phs))
  {
    forall a: nat | PageNo(a) !in pages
      ensures Image(file, phs)(a) == 0
    {
      UntouchedIsZero(file, phs, a);
    }
    assert forall n: nat :: n !in pages ==> ZeroPage(Image(file, phs), n);
  }

  lemma PagesNow(before: Pages, mapped: Pages, after: Pages, phs: seq<Phdr>, ph: Phdr)
    requires PagesFit(before, phs) && ph.Loads() && Became(before, mapped, ph.FirstPage(), ph.EndPage(), true)
    requires if ph.Writable() then after == mapped else Became(mapped, after, ph.FirstPage(), ph.EndPage(), false)
    ensures PagesFit(after, phs + [ph])
  {
    assert (phs + [ph])[..|phs|] == phs;
    forall n: nat
      ensures n in after <==> Touched(phs + [ph], n)
      ensures n in after ==> after[n].write == LastWritable(phs + [ph], n)
    {
      TouchedSnoc(phs, ph, n);
      assert n in mapped || n !in mapped;
      assert n in before || n !in before;
    }
  }

  ghost predicate AllFit(phs: seq<Phdr>, size: nat) {
    forall i :: 0 <= i < |phs| ==> phs[i].Fits(size)
  }

  method LoadNext(u: UserMemory, dir: PageDirectory, file: seq<Byte>, phs: seq<Phdr>, i: nat, ghost pages: Pages,
                  ghost start: State, ghost n0: int)
    returns (ok: bool, ghost after: Pages, ghost lost: nat)
    requires i < |phs| && AllFit(phs[..i], |file|) && phs[i].InUserSlots()
    requires Sound(u, dir, pages, Image(file, phs[..i])) && PagesFit(pages, phs[..i])
    requires Booked(u, dir, start, n0, NewPages(phs[..i]))
    modifies u`ram, u.mgr`mem, dir`tab, u.mgr.pmm`usedPages, u.mgr.pmm`lastAllocHint, u.mgr.pmm.bitmap
    ensures ok ==>
              && AllFit(phs[..i + 1], |file|)
              && Sound(u, dir, after, Image(file, phs[..i + 1])) && PagesFit(after, phs[..i + 1])
              && Booked(u, dir, start, n0, NewPages(phs[..i + 1]))
    ensures !ok ==>
              && u.mgr.Valid(dir) && (!phs[i].Fits(|file|) || u.mgr.Exhausted())
              && Outcome(start, n0, phs, |file|, u.mgr.View(dir), dir.root, AddressSpace.Managing(u.mgr), false, lost)
  {
    PrefixNext(phs, i);
    ok, after, lost := LoadSegment(u, dir, file, phs[..i], phs[i], phs[..i + 1], pages, start, n0);
    if !ok {
      NotLoaded(start, n0, phs, |file|, i, u.mgr.View(dir), u.mgr.pmm.Spare(), dir.root, AddressSpace.Managing(u.mgr), lost);
    }
  }

  lemma NotLoaded(start: State, n0: int, phs: seq<Phdr>, size: nat, i: nat, b: State, spare: int, root: nat, managed: Range, lost: nat)
    requires i < |phs| && AllFit(phs[..i], size)
    requires if phs[i].Fits(size) then Broke(start, n0, NewPages(phs[..i + 1]), b, root, managed, lost)
             else lost == 0 && Books(start, n0, NewPages(phs[..i]), b, spare, root, managed)
    ensures Outcome(start, n0, phs, size, b, root, managed, false, lost)
  {
    if phs[i].Fits(size) {
      OutOfFrames(start, n0, phs, size, i, b, root, managed, lost);
    } else {
      Malformed(start, n0, phs, size, i, b, spare, root, managed);
    }
  }

  /** How loading ends, from the state and the spare frames it began with. */
  ghost predicate Outcome(start: State, n0: int, phs: seq<Phdr>, size: nat, b: State, root: nat, managed: Range, ok: bool, lost: nat) {
    match start
    case State(_, tab, _) =>
      && AddressSpace.Conserved(start, b, root, managed, lost)
      && (ok <==> AllFit(phs, size) && AddressSpace.Affordable(tab.Keys, NewPages(phs), n0))
      && (lost != 0 <==> AddressSpace.Leaks(tab.Keys, NewPages(Fitting(phs, size)), n0))
  }

  lemma Malformed(start: State, n0: int, phs: seq<Phdr>, size: nat, i: nat, b: State, spare: int, root: nat, managed: Range)
    requires i < |phs| && AllFit(phs[..i], size) && !phs[i].Fits(size)
    requires Books(start, n0, NewPages(phs[..i]), b, spare, root, managed)
    ensures Outcome(start, n0, phs, size, b, root, managed, false, 0)
  {
    FittingIs(phs, size, i);
    BooksClosed(start, n0, NewPages(phs[..i]), b, spare, root, managed);
  }

  lemma OutOfFrames(start: State, n0: int, phs: seq<Phdr>, size: nat, i: nat, b: State, root: nat, managed: Range, lost: nat)
    requires i < |phs| && AllFit(phs[..i + 1], size)
    requires Broke(start, n0, NewPages(phs[..i + 1]), b, root, managed, lost)
    ensures Outcome(start, n0, phs, size, b, root, managed, false, lost)
  {
    var good := Fitting(phs, size);
    FittingHas(phs, size, i + 1);
    var more := NewPagesPrefix(good, i + 1, |good|);
    assert good[..|good|] == good;
    BrokeExtends(start, n0, NewPages(phs[..i + 1]), more, b, root, managed, lost);
    BrokeClosed(start, n0, NewPages(good), b, root, managed, lost);
    if AllFit(phs, size) {
      FittingAll(phs, size);
    }
  }

  lemma AllLoaded(start: State, n0: int, phs: seq<Phdr>, size: nat, b: State, spare: int, root: nat, managed: Range)
    requires AllFit(phs, size) && Books(start, n0, NewPages(phs), b, spare, root, managed)
    ensures Outcome(start, n0, phs, size, b, root, managed, true, 0)
  {
    FittingAll(phs, size);
    BooksClosed(start, n0, NewPages(phs), b, spare, root, managed);
  }

  /** The segments one after the other. */
  method LoadAll(u: UserMemory, dir: PageDirectory, file: seq<Byte>, phs: seq<Phdr>)
    returns (ok: bool, ghost pages: Pages, ghost lost: nat)
    requires Sound(u, dir, map[], (_: nat) => 0) && forall i :: 0 <= i < |phs| ==> phs[i].InUserSlots()
    modifies u`ram, u.mgr`mem, dir`tab, u.mgr.pmm`usedPages, u.mgr.pmm`lastAllocHint, u.mgr.pmm.bitmap
    ensures u.mgr.Valid(dir)
    ensures ok ==>
              && AllFit(phs, |file|) && Sound(u, dir, pages, Image(file, phs)) && PagesFit(pages, phs)
              && Booked(u, dir, old(u.mgr.View(dir)), old(u.mgr.pmm.Spare()), NewPages(phs))
    ensures !ok ==> !AllFit(phs, |file|) || u.mgr.Exhausted()
    ensures Outcome(old(u.mgr.View(dir)), old(u.mgr.pmm.Spare()), phs, |file|, u.mgr.View(dir), dir.root,
                    AddressSpace.Managing(u.mgr), ok, lost)
  {
    pages, lost := map[], 0;
    ghost var start, n0 := u.mgr.View(dir), u.mgr.pmm.Spare();
    u.mgr.pmm.SpareMeans();
    EmptyHasNoBig(u.mgr.mem, dir.root, dir.tab);
    BooksOpen(start, n0, dir.root, AddressSpace.Managing(u.mgr));
    SameHolding(u.ram, pages, (_: nat) => 0, Image(file, []));
    for i := 0 to |phs|
      invariant AllFit(phs[..i], |file|)
      invariant Sound(u, dir, pages, Image(file, phs[..i])) && PagesFit(pages, phs[..i])
      invariant Booked(u, dir, start, n0, NewPages(phs[..i]))
    {
      ok, pages, lost := LoadNext(u, dir, file, phs, i, pages, start, n0);
      if !ok { return; }
    }
    assert phs[..|phs|] == phs;
    AllLoaded(start, n0, phs, |file|, u.mgr.View(dir), u.mgr.pmm.Spare(), dir.root, AddressSpace.Managing(u.mgr));
    ok, lost := true, 0;
  }

  /** A user space in which nothing is mapped holds no 2 MiB page. */
  lemma EmptyHasNoBig(m: Mem, root: nat, tab: Tables)
    requires Tree(m, root, tab, AddressSpace.USER) && Tabled(m, root, map[])
    ensures NoBigPages(m, tab)
  {
    forall s, i: Index | s in tab && s.Pd?
      ensures !Ent(m, tab[s], i).huge
    {
      if Ent(m, tab[s], i).huge {
        BigIsMapped(m, root, tab, s, i);
        PageOfNumber(Page(s.a, s.b, i, 0));
        assert false;
      }
    }
  }

  lemma BigIsMapped(m: Mem, root: nat, tab: Tables, s: Slot, i: Index)
    requires Tree(m, root, tab, AddressSpace.USER) && s in tab && s.Pd? && Ent(m, tab[s], i).huge
    ensures In(AddressSpace.USER, Page(s.a, s.b, i, 0)) && Translate(m, root, Page(s.a, s.b, i, 0)).Some?
  {
    assert Parent(s) == Pdp(s.a) && Parent(Pdp(s.a)) == Root;
    assert Entries(m, tab, AddressSpace.USER, s, i);
    assert Entries(m, tab, AddressSpace.USER, Root, s.a);
    assert Entries(m, tab, AddressSpace.USER, Pdp(s.a), s.b);
  }

  lemma PageOfNumber(p: Page)
    requires In(AddressSpace.USER, p)
    ensures FIRST_PAGE <= PageNumber(p) < END_PAGE && VPage(PageNumber(p)) == p
  {
    var n4 := p.i4;
    var n3 := n4 * 512 + p.i3;
    var n2 := n3 * 512 + p.i2;
    var n1 := n2 * 512 + p.i1;
    LastDigit(n4, p.i3);
    LastDigit(n3, p.i2);
    LastDigit(n2, p.i1);
    assert n1 * PAGE_SIZE / 0x1000 == n1;
    Shifts(n1 * PAGE_SIZE);
  }

  lemma LastDigit(q: nat, r: Index)
    ensures (q * 512 + r) / 512 == q && (q * 512 + r) % 512 == r
  {
  }

  /** Every program header of an accepted file lies inside it. */
  lemma HeadersInside(h: Header, size: nat, i: nat)
    requires HeaderOk(h, size) && i < h.phnum
    ensures h.phoff + i * h.phentsize + PHDR_SIZE <= size
  {
    var rest := h.phnum - (i + 1);
    assert h.phnum * h.phentsize == i * h.phentsize + h.phentsize + rest * h.phentsize;
  }

  /** elf_load into a space without user pages: the entry point and the image
      the program headers specify, or 0. */
  method ElfLoad(u: UserMemory, dir: PageDirectory, file: seq<Byte>, header: Header, phs: seq<Phdr>)
    returns (entry: nat, ok: bool, ghost pages: Pages, ghost lost: nat)
    requires Sound(u, dir, map[], (_: nat) => 0) && |phs| == header.phnum
    requires forall i :: 0 <= i < |phs| ==> phs[i].InUserSlots()
    modifies u`ram, u.mgr`mem, dir`tab, u.mgr.pmm`usedPages, u.mgr.pmm`lastAllocHint, u.mgr.pmm.bitmap
    ensures entry == if ok then header.entry else 0
    ensures u.mgr.Valid(dir)
    ensures ok ==>
              && HeaderOk(header, |file|) && AllFit(phs, |file|)
              && Sound(u, dir, pages, Image(file, phs)) && PagesFit(pages, phs)
              && Booked(u, dir, old(u.mgr.View(dir)), old(u.mgr.pmm.Spare()), NewPages(phs))
    ensures !ok ==> !HeaderOk(header, |file|) || !AllFit(phs, |file|) || u.mgr.Exhausted()
    ensures if HeaderOk(header, |file|)
            then Outcome(old(u.mgr.View(dir)), old(u.mgr.pmm.Spare()), phs, |file|, u.mgr.View(dir), dir.root,
                         AddressSpace.Managing(u.mgr), ok, lost)
            else !ok && lost == 0 && u.mgr.View(dir) == old(u.mgr.View(dir)) && u.mgr.pmm.Spare() == old(u.mgr.pmm.Spare())
  {
    pages, lost := map[], 0;
    if |file| < HEADER_SIZE { return 0, false, pages, lost; }
    if header.magic != MAGIC { return 0, false, pages, lost; }
    var phEnd := header.phoff + header.phnum * header.phentsize;
    if header.phoff >= |file| || phEnd > |file| || header.phentsize < PHDR_SIZE { return 0, false, pages, lost; }
    ok, pages, lost := LoadAll(u, dir, file, phs);
    if !ok { return 0, false, pages, lost; }
    entry := header.entry;
  }

  /** What the loaded program sees through its page tables. */
  lemma LoadedByte(u: UserMemory, dir: PageDirectory, pages: Pages, file: seq<Byte>, phs: seq<Phdr>, i: nat, a: nat)
    requires AllFit(phs, |file|) && Sound(u, dir, pages, Image(file, phs)) && PagesFit(pages, phs)
    requires i < |phs| && phs[i].Covers(a) && phs[i].InUserSlots()
    requires forall j :: 0 <= j < |phs| && j != i ==> !phs[j].Covers(a)
    ensures Phys(u.mgr.mem, dir.root, a) != 0
    ensures var ph, b := phs[i], Load(u.ram, Phys(u.mgr.mem, dir.root, a));
            && ph.vaddr <= a < ph.vaddr + ph.memsz && ph.offset + ph.filesz <= |file|
            && b == if a - ph.vaddr < ph.filesz then file[ph.offset + (a - ph.vaddr)] else 0
  {
    CoveredIsTouched(phs[i], a);
    assert Touched(phs, PageNo(a));
    PhysIsAt(u.mgr.mem, dir.root, pages, a);
    DisjointImage(file, phs, i, a);
    assert Load(u.ram, At(pages, a)) == Image(file, phs)(a);
  }

  lemma LoadedRest(u: UserMemory, dir: PageDirectory, pages: Pages, file: seq<Byte>, phs: seq<Phdr>, a: nat)
    requires AllFit(phs, |file|) && Sound(u, dir, pages, Image(file, phs)) && PagesFit(pages, phs)
    requires USER_SPACE_START <= a < USER_SPACE_END
    requires forall j :: 0 <= j < |phs| && phs[j].Loads() ==> !(phs[j].vaddr <= a < phs[j].vaddr + phs[j].memsz)
    ensures Phys(u.mgr.mem, dir.root, a) != 0 <==> Touched(phs, PageNo(a))
    ensures Touched(phs, PageNo(a)) ==> Load(u.ram, Phys(u.mgr.mem, dir.root, a)) == 0
  {
    PhysIsAt(u.mgr.mem, dir.root, pages, a);
    assert PageNo(a) in pages <==> Touched(phs, PageNo(a));
    NothingElse(file, phs, a);
    assert PageNo(a) in pages ==> Load(u.ram, At(pages, a)) == Image(file, phs)(a);
  }

  /** Pages that only non-writable segments use end without WRITE. */
  lemma LoadedReadOnly(u: UserMemory, dir: PageDirectory, pages: Pages, file: seq<Byte>, phs: seq<Phdr>, n: nat)
    requires AllFit(phs, |file|) && Sound(u, dir, pages, Image(file, phs)) && PagesFit(pages, phs)
    requires Touched(phs, n) && FIRST_PAGE <= n < END_PAGE
    requires forall j :: 0 <= j < |phs| && phs[j].Touches(n) ==> !phs[j].Writable()
    ensures Translate(u.mgr.mem, dir.root, VPage(n)).Some? && !Translate(u.mgr.mem, dir.root, VPage(n)).value.write
  {
    OnlyReadable(phs, n);
    assert n in pages;
  }
}
