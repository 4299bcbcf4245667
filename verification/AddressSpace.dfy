/** The life of a user address space: creation, mapping of fresh frames,
    destruction; every frame taken is given back exactly once
    (src/kernel/mm/vmm.c, src/kernel/task/task.c). */
module AddressSpace {
  import opened PageTable
  import opened Pmm
  import opened Vmm

  // ----- ownership -----

  /** `t` is `s` or lies below it in the trie. */
  predicate Under(t: Slot, s: Slot)
  {
    match s
    case Root => true
    case Pdp(a) => !t.Root? && t.a == a
    case Pd(a, b) => (t.Pd? || t.Pt? || t.Data?) && t.a == a && t.b == b
    case Pt(a, b, c) => (t.Pt? || t.Data?) && t.a == a && t.b == b && t.c == c
    case Data(_, _, _, _) => t == s
  }

  /** `t` lies below entry number j < i of the table at `s`. */
  predicate Below(t: Slot, s: Slot, i: nat)
  {
    t != s && Under(t, s) &&
    match s
    case Root => t.a < i
    case Pdp(_) => t.b < i
    case Pd(_, _) => t.c < i
    case Pt(_, _, _) => t.d < i
    case Data(_, _, _, _) => false
  }

  function Subtree(own: Tables, s: Slot): set<nat>
  {
    set t | t in own && Under(t, s) :: own[t]
  }

  function Swept(own: Tables, s: Slot, i: nat): set<nat>
  {
    set t | t in own && Below(t, s, i) :: own[t]
  }

  ghost predicate Closed(own: Tables)
  {
    && (forall s, t :: s in own && t in own && own[s] == own[t] ==> s == t)
    && (forall s :: s in own && !s.Root? ==> Parent(s) in own)
  }

  function Depth(s: Slot): nat
  {
    match s
    case Root => 0
    case Pdp(_) => 1
    case Pd(_, _) => 2
    case Pt(_, _, _) => 3
    case Data(_, _, _, _) => 4
  }

  /** A closed set of slots contains every slot above its members. */
  lemma {:induction false} UnderPresent(own: Tables, t: Slot, s: Slot)
    requires Closed(own) && t in own && Under(t, s)
    ensures s in own
    decreases Depth(t)
  {
    if t != s {
      UnderPresent(own, Parent(t), s);
    }
  }

  lemma BelowNext(t: Slot, s: Slot, i: Index)
    requires !s.Data?
    ensures Below(t, s, i + 1) <==> Below(t, s, i) || Under(t, Child(s, i))
    ensures !(Below(t, s, i) && Under(t, Child(s, i)))
  {
  }

  lemma SweptStep(own: Tables, s: Slot, i: Index)
    requires Closed(own) && !s.Data?
    ensures Swept(own, s, i + 1) ==
              Swept(own, s, i) + (if Child(s, i) in own then Subtree(own, Child(s, i)) else {})
    ensures Swept(own, s, i) !! Subtree(own, Child(s, i))
  {
    forall t | t in own
      ensures Below(t, s, i + 1) <==> Below(t, s, i) || Under(t, Child(s, i))
      ensures !(Below(t, s, i) && Under(t, Child(s, i)))
      ensures Under(t, Child(s, i)) ==> Child(s, i) in own
    {
      BelowNext(t, s, i);
      if Under(t, Child(s, i)) {
        UnderPresent(own, t, Child(s, i));
      }
    }
  }

  lemma SweptAll(own: Tables, s: Slot)
    requires Closed(own) && s in own && !s.Data?
    ensures Subtree(own, s) == Swept(own, s, 512) + {own[s]} && own[s] !in Swept(own, s, 512)
    ensures Swept(own, s, 0) == {}
  {
    forall t | t in own
      ensures Under(t, s) <==> Below(t, s, 512) || t == s
    {
    }
  }

  const USER: Range := Range(1, 256)

  function DataSlot(q: Page): Slot
  {
    Data(q.i4, q.i3, q.i2, q.i1)
  }

  /** `own` names every frame the user half of the space owns: its tables and
      the frames its pages map. No frame is owned twice. */
  ghost predicate Owns(m: Mem, root: nat, tab: Tables, own: Tables)
  {
    && Tree(m, root, tab, USER) && NoBigPages(m, tab)
    && Closed(own) && 0 !in own.Values
    && (forall s :: s in own && !s.Data? <==> s in tab)
    && (forall s :: s in tab ==> own[s] == tab[s])
    && (forall q: Page :: In(USER, q) ==>
          && (Translate(m, root, q).Some? <==> DataSlot(q) in own)
          && (Translate(m, root, q).Some? ==> Translate(m, root, q).value.frame == own[DataSlot(q)]))
  }

  lemma OwnedEntry(m: Mem, root: nat, tab: Tables, own: Tables, s: Slot, i: Index)
    requires Owns(m, root, tab, own) && s in own && !s.Data? && Within(USER, s, i)
    ensures var e := Ent(m, own[s], i);
            && (e.present <==> Child(s, i) in own)
            && (e.present ==> e.frame == own[Child(s, i)] && e.frame in own.Values && e.frame > 0)
            && (s.Pdp? || s.Pd? ==> e.present ==> !e.huge)
  {
    assert Entries(m, tab, USER, s, i);
    if s.Pt? {
      var q := Page(s.a, s.b, s.c, i);
      assert Parent(s) in tab;
      PathInTree(m, root, tab, USER, q);
      assert DataSlot(q) == Child(s, i);
    }
    if Child(s, i) in own {
      assert own[Child(s, i)] in own.Values;
    }
  }

  // ----- vmm_destroy_address_space -----

  ghost predicate Alive(mgr: Manager, dir: PageDirectory, own: Tables)
    reads mgr, mgr.pmm, mgr.pmm.bitmap, dir
  {
    mgr.pmm.Ready() && Owns(mgr.mem, dir.root, dir.tab, own)
  }

  /** Frees one frame that is known to be in use: never a double free. */
  method Release(mgr: Manager, frame: nat)
    requires mgr.pmm.Ready() && frame > 0 && frame in mgr.pmm.Frames()
    modifies mgr.pmm`usedPages, mgr.pmm`lastAllocHint, mgr.pmm.bitmap
    ensures mgr.pmm.Ready() && mgr.pmm.Frames() == old(mgr.pmm.Frames()) - {frame}
    ensures mgr.pmm.usedPages == old(mgr.pmm.usedPages) - 1
  {
    assert frame * PAGE_SIZE % PAGE_SIZE == 0 && frame * PAGE_SIZE / PAGE_SIZE == frame;
    mgr.pmm.FreePage(frame * PAGE_SIZE);
  }

  /** The innermost loop: the pages of one level-1 table, then the table. */
  method ReleasePt(mgr: Manager, dir: PageDirectory, ghost own: Tables, pt: nat, ghost s: Slot)
    requires Alive(mgr, dir, own) && s in own && s.Pt? && own[s] == pt
    requires Subtree(own, s) <= mgr.pmm.Frames()
    modifies mgr.pmm`usedPages, mgr.pmm`lastAllocHint, mgr.pmm.bitmap
    ensures mgr.pmm.Ready() && mgr.pmm.Frames() == old(mgr.pmm.Frames()) - Subtree(own, s)
  {
    ghost var frames := mgr.pmm.Frames();
    SweptAll(own, s);
    for i := 0 to 512
      invariant mgr.pmm.Ready() && mgr.pmm.Frames() == frames - Swept(own, s, i)
    {
      SweptStep(own, s, i);
      OwnedEntry(mgr.mem, dir.root, dir.tab, own, s, i);
      var e := Ent(mgr.mem, pt, i);
      if e.present {
        LeafSubtree(own, s, i);
        Release(mgr, e.frame);
      }
    }
    Release(mgr, pt);
  }

  lemma LeafSubtree(own: Tables, s: Slot, i: Index)
    requires s in own && s.Pt? && Child(s, i) in own
    ensures Subtree(own, Child(s, i)) == {own[Child(s, i)]} && Subtree(own, Child(s, i)) <= Subtree(own, s)
  {
  }

  lemma ChildSubtree(own: Tables, s: Slot, i: Index)
    requires !s.Data?
    ensures Subtree(own, Child(s, i)) <= Subtree(own, s)
    ensures own.Values >= Subtree(own, s)
  {
    forall t | t in own && Under(t, Child(s, i))
      ensures Under(t, s)
    {
    }
  }

  method ReleasePd(mgr: Manager, dir: PageDirectory, ghost own: Tables, pd: nat, ghost s: Slot)
    requires Alive(mgr, dir, own) && s in own && s.Pd? && own[s] == pd
    requires Subtree(own, s) <= mgr.pmm.Frames()
    modifies mgr.pmm`usedPages, mgr.pmm`lastAllocHint, mgr.pmm.bitmap
    ensures mgr.pmm.Ready() && mgr.pmm.Frames() == old(mgr.pmm.Frames()) - Subtree(own, s)
  {
    ghost var frames := mgr.pmm.Frames();
    SweptAll(own, s);
    for i := 0 to 512
      invariant mgr.pmm.Ready() && mgr.pmm.Frames() == frames - Swept(own, s, i)
    {
      SweptStep(own, s, i);
      ChildSubtree(own, s, i);
      OwnedEntry(mgr.mem, dir.root, dir.tab, own, s, i);
      var e := Ent(mgr.mem, pd, i);
      if e.present && !e.huge {
        ReleasePt(mgr, dir, own, e.frame, Child(s, i));
      }
    }
    Release(mgr, pd);
  }

  method ReleasePdp(mgr: Manager, dir: PageDirectory, ghost own: Tables, pdp: nat, ghost s: Slot)
    requires Alive(mgr, dir, own) && s in own && s.Pdp? && own[s] == pdp
    requires Subtree(own, s) <= mgr.pmm.Frames()
    modifies mgr.pmm`usedPages, mgr.pmm`lastAllocHint, mgr.pmm.bitmap
    ensures mgr.pmm.Ready() && mgr.pmm.Frames() == old(mgr.pmm.Frames()) - Subtree(own, s)
  {
    ghost var frames := mgr.pmm.Frames();
    SweptAll(own, s);
    for i := 0 to 512
      invariant mgr.pmm.Ready() && mgr.pmm.Frames() == frames - Swept(own, s, i)
    {
      SweptStep(own, s, i);
      ChildSubtree(own, s, i);
      OwnedEntry(mgr.mem, dir.root, dir.tab, own, s, i);
      var e := Ent(mgr.mem, pdp, i);
      if e.present && !e.huge {
        ReleasePd(mgr, dir, own, e.frame, Child(s, i));
      }
    }
    Release(mgr, pdp);
  }

  /** The tables the walk to page q looks into. */
  predicate OnWalk(m: Mem, root: nat, q: Page, f: nat)
  {
    f == root ||
    var e4 := Ent(m, root, q.i4);
    e4.present && (f == e4.frame ||
    var e3 := Ent(m, e4.frame, q.i3);
    e3.present && !e3.huge && (f == e3.frame ||
    var e2 := Ent(m, e3.frame, q.i2);
    e2.present && !e2.huge && f == e2.frame))
  }

  /** The kernel's tables, on all levels. */
  ghost function KernelFrames(m: Mem, kernelRoot: nat): iset<nat>
  {
    iset f: nat | KernelTable(m, kernelRoot, f)
  }

  ghost predicate KernelTable(m: Mem, kernelRoot: nat, f: nat)
  {
    exists q: Page :: OnWalk(m, kernelRoot, q, f)
  }

  /** The page translates alike under both roots, and grants the same accesses. */
  predicate SamePage(m: Mem, root: nat, m': Mem, root': nat, q: Page)
  {
    && Translate(m', root', q) == Translate(m, root, q)
    && Granted(m', root', q, false) == Granted(m, root, q, false) && Granted(m', root', q, true) == Granted(m, root, q, true)
  }

  /** Two roots mean the same for every page outside the user half. */
  ghost predicate SameKernelView(m: Mem, root: nat, m': Mem, root': nat)
  {
    forall q: Page :: !In(USER, q) ==> SamePage(m, root, m', root', q)
  }

  /** Every page of the kernel's own space keeps its translation and permissions. */
  ghost predicate KernelUnchanged(m: Mem, m': Mem, kernelRoot: nat)
  {
    forall q: Page :: SamePage(m, kernelRoot, m', kernelRoot, q)
  }

  lemma UnchangedTrans(a: Mem, b: Mem, c: Mem, kernelRoot: nat)
    requires KernelUnchanged(a, b, kernelRoot) && KernelUnchanged(b, c, kernelRoot)
    ensures KernelUnchanged(a, c, kernelRoot)
  {
    forall q: Page
      ensures SamePage(a, kernelRoot, c, kernelRoot, q)
    {
      assert SamePage(a, kernelRoot, b, kernelRoot, q) && SamePage(b, kernelRoot, c, kernelRoot, q);
    }
  }

  /** The top-level entries outside the user half are the kernel's. */
  ghost predicate SharesEntries(m: Mem, root: nat, kernelRoot: nat)
  {
    forall i: Index :: !(USER.lo <= i < USER.hi) ==> Ent(m, root, i) == Ent(m, kernelRoot, i)
  }

  /** So the space sees the kernel's memory, the direct map above all, as the kernel does. */
  lemma KernelSeen(m: Mem, root: nat, kernelRoot: nat)
    requires SharesEntries(m, root, kernelRoot)
    ensures SameKernelView(m, kernelRoot, m, root)
  {
    forall q: Page | !In(USER, q)
      ensures SamePage(m, kernelRoot, m, root, q)
    {
      assert Ent(m, root, q.i4) == Ent(m, kernelRoot, q.i4);
    }
  }

  /** None of the kernel's frames can be handed out. */
  ghost predicate KernelReserved(mgr: Manager, kernelRoot: nat)
    requires mgr.pmm.Shape()
    reads mgr, mgr.pmm, mgr.pmm.bitmap
  {
    forall f :: f in KernelFrames(mgr.mem, kernelRoot) ==> mgr.Reserved(f)
  }

  /** The space shares slot 0 and the upper half with the kernel and owns none of its tables. */
  ghost predicate SharesKernel(mgr: Manager, root: nat, kernelRoot: nat, own: Tables)
    requires mgr.pmm.Shape()
    reads mgr, mgr.pmm, mgr.pmm.bitmap
  {
    && SharesEntries(mgr.mem, root, kernelRoot)
    && KernelReserved(mgr, kernelRoot)
    && forall f :: f in KernelFrames(mgr.mem, kernelRoot) ==> f !in own.Values
  }

  /** vmm_destroy_address_space: a root at or above 4 GiB cannot be reached and
      nothing is freed; otherwise every owned frame is freed once and no other. */
  method Destroy(mgr: Manager, dir: PageDirectory, kernelRoot: nat, ghost own: Tables)
    requires Alive(mgr, dir, own) && own.Values <= mgr.pmm.Frames()
    requires SharesKernel(mgr, dir.root, kernelRoot, own)
    modifies mgr.pmm`usedPages, mgr.pmm`lastAllocHint, mgr.pmm.bitmap
    ensures mgr.pmm.Ready()
    ensures mgr.pmm.Frames() ==
              if dir.root < ROOT_FRAME_LIMIT && kernelRoot < ROOT_FRAME_LIMIT
              then old(mgr.pmm.Frames()) - own.Values else old(mgr.pmm.Frames())
  {
    if dir.root >= ROOT_FRAME_LIMIT || kernelRoot >= ROOT_FRAME_LIMIT { return; }
    SweptAll(own, Root);
    assert own.Values == Subtree(own, Root);
    ReleaseSlots(mgr, dir, kernelRoot, own);
    Release(mgr, dir.root);
  }

  /** The walk over the lower half of the top-level table. */
  method ReleaseSlots(mgr: Manager, dir: PageDirectory, kernelRoot: nat, ghost own: Tables)
    requires Alive(mgr, dir, own) && own.Values <= mgr.pmm.Frames()
    requires SharesKernel(mgr, dir.root, kernelRoot, own)
    modifies mgr.pmm`usedPages, mgr.pmm`lastAllocHint, mgr.pmm.bitmap
    ensures mgr.pmm.Ready() && mgr.pmm.Frames() == old(mgr.pmm.Frames()) - Swept(own, Root, 512)
  {
    ghost var frames := mgr.pmm.Frames();
    SweptAll(own, Root);
    for i := 0 to 256
      invariant mgr.pmm.Ready() && mgr.pmm.Frames() == frames - Swept(own, Root, i)
    {
      SweptStep(own, Root, i);
      ChildSubtree(own, Root, i);
      var e := Ent(mgr.mem, dir.root, i);
      KernelEntry(mgr.mem, kernelRoot, i);
      if i > 0 { OwnedEntry(mgr.mem, dir.root, dir.tab, own, Root, i); }
      if e.present && e != Ent(mgr.mem, kernelRoot, i) {
        ReleasePdp(mgr, dir, own, e.frame, Pdp(i));
      }
    }
    assert Swept(own, Root, 256) == Swept(own, Root, 512);
  }

  // ----- vmm_create_address_space -----

  /** The frames in use are those of everybody else and those of the space. */
  ghost predicate Accounts(frames: set<nat>, base: set<nat>, own: Tables)
  {
    frames == base + own.Values && base !! own.Values
  }

  /** A new space needs a directory structure and one frame; the next frame and
      the kernel's root must lie below 4 GiB. */
  ghost predicate CanCreate(mgr: Manager, kernelRoot: nat, heapOk: bool)
    requires mgr.pmm.Ready()
    reads mgr, mgr.pmm, mgr.pmm.bitmap
  {
    && heapOk && mgr.pmm.Spare() > 0
    && mgr.pmm.NextFrame() < ROOT_FRAME_LIMIT && kernelRoot < ROOT_FRAME_LIMIT
  }

  /** A frame for the top-level table; it must lie below 4 GiB. */
  method AllocRoot(mgr: Manager, kernelRoot: nat) returns (root: nat)
    requires mgr.pmm.Ready() && KernelReserved(mgr, kernelRoot)
    modifies mgr.pmm`usedPages, mgr.pmm`lastAllocHint, mgr.pmm.bitmap
    ensures mgr.pmm.Ready()
    ensures root != 0 <==> old(CanCreate(mgr, kernelRoot, true))
    ensures root == 0 ==> mgr.pmm.Frames() == old(mgr.pmm.Frames()) && mgr.pmm.Spare() == old(mgr.pmm.Spare())
    ensures root != 0 ==>
              && root < ROOT_FRAME_LIMIT && kernelRoot < ROOT_FRAME_LIMIT
              && root !in old(mgr.pmm.Frames()) && mgr.pmm.Frames() == old(mgr.pmm.Frames()) + {root}
              && mgr.pmm.Spare() == old(mgr.pmm.Spare()) - 1
              && KernelReserved(mgr, kernelRoot) && root !in KernelFrames(mgr.mem, kernelRoot)
  {
    mgr.pmm.SpareMeans();
    var phys := mgr.pmm.AllocPage();
    if phys == 0 { return 0; }
    root := phys / PAGE_SIZE;
    if root >= ROOT_FRAME_LIMIT || kernelRoot >= ROOT_FRAME_LIMIT {
      Release(mgr, root);
      return 0;
    }
  }

  /** Slot 0 and the upper half are copied from the kernel, the rest is empty.
      `heapOk` says whether kmalloc had room for the directory structure. */
  method Create(mgr: Manager, kernelRoot: nat, heapOk: bool) returns (dir: PageDirectory?, ghost own: Tables)
    requires mgr.pmm.Ready() && KernelReserved(mgr, kernelRoot)
    modifies mgr`mem, mgr.pmm`usedPages, mgr.pmm`lastAllocHint, mgr.pmm.bitmap
    ensures mgr.pmm.Ready()
    ensures dir != null <==> old(CanCreate(mgr, kernelRoot, heapOk))
    ensures dir == null ==>
              mgr.pmm.Frames() == old(mgr.pmm.Frames()) && mgr.pmm.Spare() == old(mgr.pmm.Spare()) && mgr.mem == old(mgr.mem)
    ensures dir != null ==>
              && dir.tab.Keys == {Root} && mgr.pmm.Spare() == old(mgr.pmm.Spare()) - 1
              && fresh(dir) && dir.range == USER && Alive(mgr, dir, own)
              && dir.root < ROOT_FRAME_LIMIT && kernelRoot < ROOT_FRAME_LIMIT
              && SharesKernel(mgr, dir.root, kernelRoot, own)
              && SameKernelView(old(mgr.mem), kernelRoot, mgr.mem, dir.root) && KernelUnchanged(old(mgr.mem), mgr.mem, kernelRoot)
              && Accounts(mgr.pmm.Frames(), old(mgr.pmm.Frames()), own)
              && (forall q: Page :: In(USER, q) ==> Translate(mgr.mem, dir.root, q) == None) && BitsCovered(mgr.mem, dir.root, USER)
              && (forall f: nat :: f != dir.root ==> SameFrame(old(mgr.mem), mgr.mem, f))
  {
    dir, own := null, map[];
    if !heapOk { return; }
    var root := AllocRoot(mgr, kernelRoot);
    if root == 0 { return; }
    var pml4 := CopyKernelHalf(mgr.mem, kernelRoot);
    EmptySpace(mgr.mem, root, pml4);
    SharedSpace(mgr.mem, root, kernelRoot, pml4);
    mgr.mem := mgr.mem[root := pml4];
    own := map[Root := root];
    dir := new PageDirectory(root, own, USER);
  }

  lemma KernelRoot(m: Mem, kernelRoot: nat)
    ensures kernelRoot in KernelFrames(m, kernelRoot)
  {
    assert OnWalk(m, kernelRoot, Page(0, 0, 0, 0), kernelRoot);
  }

  /** Who leaves the kernel's tables alone leaves its translations alone. */
  lemma SameKernel(m: Mem, m': Mem, kernelRoot: nat)
    requires forall f :: f in KernelFrames(m, kernelRoot) ==> SameFrame(m, m', f)
    ensures KernelFrames(m', kernelRoot) == KernelFrames(m, kernelRoot) && KernelUnchanged(m, m', kernelRoot)
    ensures forall i: Index :: Ent(m', kernelRoot, i) == Ent(m, kernelRoot, i)
  {
    KernelRoot(m, kernelRoot);
    assert forall i: Index :: Ent(m', kernelRoot, i) == Ent(m, kernelRoot, i);
    forall q: Page
      ensures SamePage(m, kernelRoot, m', kernelRoot, q)
    {
      assert forall f: nat :: OnWalk(m, kernelRoot, q, f) ==> f in KernelFrames(m, kernelRoot);
      SameWalk(m, m', kernelRoot, q);
    }
    forall f: nat
      ensures KernelTable(m', kernelRoot, f) <==> KernelTable(m, kernelRoot, f)
    {
      if q: Page :| OnWalk(m, kernelRoot, q, f) || OnWalk(m', kernelRoot, q, f) {
        assert forall g: nat :: OnWalk(m, kernelRoot, q, g) ==> g in KernelFrames(m, kernelRoot);
        SameWalk(m, m', kernelRoot, q);
      }
    }
  }

  lemma SameWalk(m: Mem, m': Mem, root: nat, q: Page)
    requires forall f: nat :: OnWalk(m, root, q, f) ==> SameFrame(m, m', f)
    ensures forall f: nat :: OnWalk(m', root, q, f) <==> OnWalk(m, root, q, f)
    ensures SamePage(m, root, m', root, q)
  {
    assert OnWalk(m, root, q, root);
    var e4 := Ent(m, root, q.i4);
    assert Ent(m', root, q.i4) == e4;
    if e4.present {
      assert OnWalk(m, root, q, e4.frame);
      var e3 := Ent(m, e4.frame, q.i3);
      assert Ent(m', e4.frame, q.i3) == e3;
      if e3.present && !e3.huge {
        assert OnWalk(m, root, q, e3.frame);
        var e2 := Ent(m, e3.frame, q.i2);
        assert Ent(m', e3.frame, q.i2) == e2;
        if e2.present && !e2.huge {
          assert OnWalk(m, root, q, e2.frame);
          assert Ent(m', e2.frame, q.i1) == Ent(m, e2.frame, q.i1);
        }
      }
    }
  }

  /** An entry of the kernel's top-level table names a table of the kernel. */
  lemma KernelEntry(m: Mem, kernelRoot: nat, i: Index)
    ensures Ent(m, kernelRoot, i).present ==> Ent(m, kernelRoot, i).frame in KernelFrames(m, kernelRoot)
  {
    assert Ent(m, kernelRoot, i).present ==> OnWalk(m, kernelRoot, Page(i, 0, 0, 0), Ent(m, kernelRoot, i).frame);
  }

  method CopyKernelHalf(m: Mem, kernelRoot: nat) returns (pml4: seq<Pte>)
    ensures |pml4| == ENTRIES && pml4[0] == Ent(m, kernelRoot, 0)
    ensures forall k :: 0 < k < 256 ==> pml4[k] == ABSENT
    ensures forall k :: 256 <= k < 512 ==> pml4[k] == Ent(m, kernelRoot, k)
  {
    pml4 := ZeroTable();
    pml4 := pml4[0 := Ent(m, kernelRoot, 0)];
    for i := 256 to 512
      invariant |pml4| == ENTRIES && pml4[0] == Ent(m, kernelRoot, 0)
      invariant forall k :: 0 < k < 256 || i <= k < 512 ==> pml4[k] == ABSENT
      invariant forall k :: 256 <= k < i ==> pml4[k] == Ent(m, kernelRoot, k)
    {
      pml4 := pml4[i := Ent(m, kernelRoot, i)];
    }
  }

  lemma EmptySpace(m: Mem, root: nat, pml4: seq<Pte>)
    requires root > 0 && |pml4| == ENTRIES && forall k :: 0 < k < 256 ==> pml4[k] == ABSENT
    ensures var own: Tables := map[Root := root];
            && own.Values == {root} && Owns(m[root := pml4], root, own, own)
            && (forall q: Page :: In(USER, q) ==> Translate(m[root := pml4], root, q) == None)
            && BitsCovered(m[root := pml4], root, USER)
  {
    var own: Tables := map[Root := root];
    assert own[Root] == root;
  }

  lemma SharedSpace(m: Mem, root: nat, kernelRoot: nat, pml4: seq<Pte>)
    requires root !in KernelFrames(m, kernelRoot) && |pml4| == ENTRIES
    requires forall i: Index :: !(USER.lo <= i < USER.hi) ==> pml4[i] == Ent(m, kernelRoot, i)
    ensures var m' := m[root := pml4];
            && SharesEntries(m', root, kernelRoot) && KernelFrames(m', kernelRoot) == KernelFrames(m, kernelRoot)
            && KernelUnchanged(m, m', kernelRoot) && SameKernelView(m, kernelRoot, m', root)
  {
    var m' := m[root := pml4];
    SameKernel(m, m', kernelRoot);
    assert forall i: Index :: Ent(m', root, i) == pml4[i];
    KernelSeen(m', root, kernelRoot);
    forall q: Page | !In(USER, q)
      ensures SamePage(m, kernelRoot, m', root, q)
    {
      assert SamePage(m, kernelRoot, m', kernelRoot, q) && SamePage(m', kernelRoot, m', root, q);
    }
  }

  // ----- mapping fresh frames -----

  function WithTables(own: Tables, tab: Tables): Tables
  {
    own + tab
  }

  function WithPage(own: Tables, tab: Tables, p: Page, frame: nat): Tables
  {
    WithTables(own, tab)[DataSlot(p) := frame]
  }

  lemma GrownValues(own: Tables, tab: Tables, tab': Tables)
    requires forall s :: s in tab ==> s in tab' && tab'[s] == tab[s] && s in own && own[s] == tab[s]
    requires forall s :: s in own && !s.Data? ==> s in tab
    requires forall s :: s in tab' ==> !s.Data?
    ensures WithTables(own, tab').Values == own.Values + (tab'.Values - tab.Values)
    ensures tab.Values <= own.Values
  {
    var own' := WithTables(own, tab');
    forall f | f in own.Values + (tab'.Values - tab.Values)
      ensures f in own'.Values
    {
      if f in own.Values {
        var s :| s in own && own[s] == f;
        assert s in own' && own'[s] == f;
      } else {
        var s :| s in tab' && tab'[s] == f;
        assert s in own' && own'[s] == f;
      }
    }
    forall f | f in own'.Values
      ensures f in own.Values + (tab'.Values - tab.Values)
    {
      var s :| s in own' && own'[s] == f;
      if s in tab {
        assert own[s] == f;
      }
      if f in tab.Values {
        var t :| t in tab && tab[t] == f;
        assert own[t] == f;
      }
    }
    forall f | f in tab.Values
      ensures f in own.Values
    {
      var t :| t in tab && tab[t] == f;
      assert own[t] == f;
    }
  }

  /** The tables a map call added join the owned frames. */
  lemma GrownClosed(a: State, b: State, root: nat, own: Tables)
    requires Owns(a.m, root, a.tab, own) && own.Values <= a.frames
    requires Tree(b.m, root, b.tab, USER) && TookTables(a, b) && 0 !in b.tab.Values - a.tab.Values
    ensures Closed(WithTables(own, b.tab)) && 0 !in WithTables(own, b.tab).Values
    ensures WithTables(own, b.tab).Values == own.Values + (b.tab.Values - a.tab.Values)
  {
    GrownValues(own, a.tab, b.tab);
    var own' := WithTables(own, b.tab);
    forall s, t | s in own' && t in own' && own'[s] == own'[t]
      ensures s == t
    {
      assert s in b.tab ==> b.tab[s] in b.tab.Values;
      assert t in b.tab ==> b.tab[t] in b.tab.Values;
      assert s in own ==> own[s] in own.Values;
      assert t in own ==> own[t] in own.Values;
      NewFrame(a, b, s);
      NewFrame(a, b, t);
    }
  }

  lemma NewFrame(a: State, b: State, s: Slot)
    requires forall u, v :: u in b.tab && v in b.tab && b.tab[u] == b.tab[v] ==> u == v
    requires TookTables(a, b)
    ensures s in b.tab && s !in a.tab ==> b.tab[s] !in a.frames
  {
    if s in b.tab && s !in a.tab {
      assert b.tab[s] in b.tab.Values;
      assert forall u :: u in a.tab ==> a.tab[u] == b.tab[u];
    }
  }

  /** What the map functions do to the tables of a user space, for its ownership. */
  ghost predicate TreeStep(a: State, b: State, root: nat)
  {
    && Tree(b.m, root, b.tab, USER) && TookTables(a, b)
    && SameOutside(a.m, b.m, b.tab) && SameShared(a.m, b.m, root, USER)
    && (NoBigPages(a.m, a.tab) ==> NoBigPages(b.m, b.tab))
  }

  function FrameAt(m: Mem, root: nat, q: Page): Option<nat>
  {
    match Translate(m, root, q)
    case None => None
    case Some(l) => Some(l.frame)
  }

  /** After a call that moved no page the space owns the new tables too. */
  lemma OwnsAfterTables(a: State, b: State, root: nat, own: Tables)
    requires Owns(a.m, root, a.tab, own) && own.Values <= a.frames
    requires TreeStep(a, b, root) && 0 !in b.tab.Values - a.tab.Values
    requires forall q: Page :: In(USER, q) ==> FrameAt(b.m, root, q) == FrameAt(a.m, root, q)
    ensures Owns(b.m, root, b.tab, WithTables(own, b.tab))
    ensures WithTables(own, b.tab).Values == own.Values + (b.tab.Values - a.tab.Values)
  {
    GrownClosed(a, b, root, own);
    var own' := WithTables(own, b.tab);
    forall q: Page | In(USER, q)
      ensures Translate(b.m, root, q).Some? <==> DataSlot(q) in own'
      ensures Translate(b.m, root, q).Some? ==> Translate(b.m, root, q).value.frame == own'[DataSlot(q)]
    {
      assert FrameAt(b.m, root, q) == FrameAt(a.m, root, q);
    }
  }

  lemma Closed1(own: Tables, s: Slot, frame: nat)
    requires Closed(own) && s !in own && !s.Root? && Parent(s) in own && frame !in own.Values
    ensures Closed(own[s := frame]) && own[s := frame].Values == own.Values + {frame}
  {
    var own' := own[s := frame];
    assert forall t :: t in own ==> own[t] in own.Values && own'[t] == own[t];
    assert own'[s] == frame;
  }

  /** After a successful map the fresh frame is owned too. */
  lemma OwnsAfterMap(a: State, b: State, root: nat, own: Tables, p: Page, frame: nat)
    requires Owns(a.m, root, a.tab, own) && own.Values <= a.frames && In(USER, p)
    requires TreeStep(a, b, root) && 0 !in b.tab.Values - a.tab.Values
    requires forall q: Page :: In(USER, q) && q != p ==> FrameAt(b.m, root, q) == FrameAt(a.m, root, q)
    requires FrameAt(a.m, root, p) == None && FrameAt(b.m, root, p) == Some(frame)
    requires frame > 0 && frame in a.frames && frame !in own.Values
    ensures var own' := WithPage(own, b.tab, p, frame);
            && Owns(b.m, root, b.tab, own')
            && own'.Values == own.Values + (b.tab.Values - a.tab.Values) + {frame}
  {
    GrownClosed(a, b, root, own);
    var grown := WithTables(own, b.tab);
    MappedTable(b.m, root, b.tab, p);
    assert Parent(DataSlot(p)) == SlotOf(p);
    Closed1(grown, DataSlot(p), frame);
    var own' := grown[DataSlot(p) := frame];
    forall q: Page | In(USER, q)
      ensures Translate(b.m, root, q).Some? <==> DataSlot(q) in own'
      ensures Translate(b.m, root, q).Some? ==> Translate(b.m, root, q).value.frame == own'[DataSlot(q)]
    {
      if q != p {
        assert DataSlot(q) != DataSlot(p);
        assert FrameAt(b.m, root, q) == FrameAt(a.m, root, q);
      }
    }
  }

  lemma MappedTable(m: Mem, root: nat, tab: Tables, p: Page)
    requires Tree(m, root, tab, USER) && NoBigPages(m, tab) && In(USER, p) && Translate(m, root, p).Some?
    ensures SlotOf(p) in tab
  {
    WalkInTree(m, root, tab, USER, p);
  }

  /** A user space and everybody else: every frame in use is accounted for, and
      the kernel's are not the space's. */
  ghost predicate Kept(s: State, root: nat, kernelRoot: nat, managed: Range, own: Tables, base: set<nat>)
  {
    && Owns(s.m, root, s.tab, own) && Accounts(s.frames, base, own)
    && SharesEntries(s.m, root, kernelRoot)
    && forall f :: f in KernelFrames(s.m, kernelRoot) ==> (managed.lo <= f < managed.hi ==> f in s.frames) && f !in own.Values
  }

  /** The frames taken are managed ones, and never frame 0. */
  ghost predicate FromManaged(a: State, b: State, managed: Range)
  {
    && (0 in b.frames ==> 0 in a.frames)
    && forall f :: f in b.frames - a.frames ==> managed.lo <= f < managed.hi
  }

  /** A map call leaves the kernel's tables alone, and with them its translations. */
  lemma KernelStays(a: State, b: State, root: nat, kernelRoot: nat, managed: Range, own: Tables, base: set<nat>)
    requires Kept(a, root, kernelRoot, managed, own, base) && a.tab.Values <= own.Values
    requires TreeStep(a, b, root) && FromManaged(a, b, managed)
    ensures SharesEntries(b.m, root, kernelRoot)
    ensures KernelFrames(b.m, kernelRoot) == KernelFrames(a.m, kernelRoot) && KernelUnchanged(a.m, b.m, kernelRoot)
  {
    forall f | f in KernelFrames(a.m, kernelRoot)
      ensures SameFrame(a.m, b.m, f)
    {
      assert f !in a.tab.Values && (managed.lo <= f < managed.hi ==> f in a.frames);
      assert f !in b.tab.Values;
    }
    SameKernel(a.m, b.m, kernelRoot);
    assert SameShared(a.m, b.m, root, USER);
  }

  lemma OwnTables(m: Mem, root: nat, tab: Tables, own: Tables)
    requires Owns(m, root, tab, own)
    ensures tab.Values <= own.Values
  {
    GrownValues(own, tab, tab);
  }

  /** A call that moved no page keeps the accounts. */
  lemma KeptTables(a: State, b: State, root: nat, kernelRoot: nat, managed: Range, own: Tables, base: set<nat>)
    requires Kept(a, root, kernelRoot, managed, own, base)
    requires TreeStep(a, b, root) && FromManaged(a, b, managed)
    requires forall q: Page :: In(USER, q) ==> FrameAt(b.m, root, q) == FrameAt(a.m, root, q)
    ensures Kept(b, root, kernelRoot, managed, WithTables(own, b.tab), base) && KernelUnchanged(a.m, b.m, kernelRoot)
  {
    OwnTables(a.m, root, a.tab, own);
    OwnsAfterTables(a, b, root, own);
    KernelStays(a, b, root, kernelRoot, managed, own, base);
  }

  /** A call that mapped one of the others' frames moves it to the space's account. */
  lemma KeptPage(a: State, b: State, root: nat, kernelRoot: nat, managed: Range, own: Tables, base: set<nat>, p: Page, frame: nat)
    requires Kept(a, root, kernelRoot, managed, own, base) && In(USER, p)
    requires TreeStep(a, b, root) && FromManaged(a, b, managed)
    requires forall q: Page :: In(USER, q) && q != p ==> FrameAt(b.m, root, q) == FrameAt(a.m, root, q)
    requires FrameAt(a.m, root, p) == None && FrameAt(b.m, root, p) == Some(frame)
    requires frame > 0 && frame in base && frame !in KernelFrames(a.m, kernelRoot)
    ensures Kept(b, root, kernelRoot, managed, WithPage(own, b.tab, p, frame), base - {frame}) && KernelUnchanged(a.m, b.m, kernelRoot)
  {
    OwnTables(a.m, root, a.tab, own);
    OwnsAfterMap(a, b, root, own, p, frame);
    KernelStays(a, b, root, kernelRoot, managed, own, base);
  }

  lemma Replaced(own: Tables, s: Slot, frame: nat)
    requires Closed(own) && s in own && !s.Root? && frame !in own.Values
    ensures Closed(own[s := frame]) && own[s := frame].Values == own.Values - {own[s]} + {frame}
  {
    var own' := own[s := frame];
    assert forall t :: t in own ==> own[t] in own.Values && (t != s ==> own'[t] == own[t]);
    assert own'[s] == frame;
    forall f | f in own.Values && f != own[s]
      ensures f in own'.Values
    {
      var t :| t in own && own[t] == f;
      assert own'[t] == f;
    }
  }

  lemma ReplacedClosed(a: State, b: State, root: nat, own: Tables, p: Page, frame: nat)
    requires Owns(a.m, root, a.tab, own) && own.Values <= a.frames && In(USER, p)
    requires Tree(b.m, root, b.tab, USER) && TookTables(a, b) && 0 !in b.tab.Values - a.tab.Values
    requires FrameAt(a.m, root, p).Some? && frame > 0 && frame in a.frames && frame !in own.Values
    ensures DataSlot(p) in own && own[DataSlot(p)] == FrameAt(a.m, root, p).value
    ensures var own' := WithPage(own, b.tab, p, frame);
            && Closed(own') && 0 !in own'.Values
            && own'.Values == own.Values + (b.tab.Values - a.tab.Values) - {own[DataSlot(p)]} + {frame}
  {
    GrownClosed(a, b, root, own);
    assert DataSlot(p) in own && DataSlot(p) !in b.tab;
    Replaced(WithTables(own, b.tab), DataSlot(p), frame);
  }

  lemma OwnsAfterReplace(a: State, b: State, root: nat, own: Tables, p: Page, frame: nat)
    requires Owns(a.m, root, a.tab, own) && own.Values <= a.frames && In(USER, p)
    requires TreeStep(a, b, root) && 0 !in b.tab.Values - a.tab.Values
    requires forall q: Page :: In(USER, q) && q != p ==> FrameAt(b.m, root, q) == FrameAt(a.m, root, q)
    requires FrameAt(a.m, root, p).Some? && FrameAt(b.m, root, p) == Some(frame)
    requires frame > 0 && frame in a.frames && frame !in own.Values
    ensures Owns(b.m, root, b.tab, WithPage(own, b.tab, p, frame))
  {
    ReplacedClosed(a, b, root, own, p, frame);
    var own' := WithPage(own, b.tab, p, frame);
    forall q: Page | In(USER, q)
      ensures Translate(b.m, root, q).Some? <==> DataSlot(q) in own'
      ensures Translate(b.m, root, q).Some? ==> Translate(b.m, root, q).value.frame == own'[DataSlot(q)]
    {
      if q != p {
        assert DataSlot(q) != DataSlot(p);
        assert FrameAt(b.m, root, q) == FrameAt(a.m, root, q);
      }
    }
  }

  /** Mapping another frame over a page that is mapped: the frame it had is no
      longer the space's and nobody gives it back. */
  lemma KeptReplace(a: State, b: State, root: nat, kernelRoot: nat, managed: Range, own: Tables, base: set<nat>,
                    p: Page, was: nat, frame: nat)
    requires Kept(a, root, kernelRoot, managed, own, base) && In(USER, p)
    requires TreeStep(a, b, root) && FromManaged(a, b, managed)
    requires forall q: Page :: In(USER, q) && q != p ==> FrameAt(b.m, root, q) == FrameAt(a.m, root, q)
    requires FrameAt(a.m, root, p) == Some(was) && FrameAt(b.m, root, p) == Some(frame)
    requires frame > 0 && frame in base && frame !in KernelFrames(a.m, kernelRoot)
    ensures was !in base
    ensures Kept(b, root, kernelRoot, managed, WithPage(own, b.tab, p, frame), base - {frame} + {was}) && KernelUnchanged(a.m, b.m, kernelRoot)
  {
    OwnTables(a.m, root, a.tab, own);
    ReplacedClosed(a, b, root, own, p, frame);
    OwnsAfterReplace(a, b, root, own, p, frame);
    KernelStays(a, b, root, kernelRoot, managed, own, base);
    assert own[DataSlot(p)] in own.Values;
    var own' := WithPage(own, b.tab, p, frame);
    AccountsReplace(a.frames, b.frames, base, own.Values, own'.Values, was, frame);
  }

  lemma AccountsReplace(frames: set<nat>, frames': set<nat>, base: set<nat>, owned: set<nat>, owned': set<nat>, was: nat, frame: nat)
    requires frames == base + owned && base !! owned && was in owned && frame in base
    requires frames <= frames' && owned' == owned + (frames' - frames) - {was} + {frame}
    ensures frames' == base - {frame} + {was} + owned' && base - {frame} + {was} !! owned'
  {
  }

  /** A frame joins everybody else's. */
  lemma KeptFrame(a: State, root: nat, kernelRoot: nat, managed: Range, own: Tables, base: set<nat>, frame: nat)
    requires Kept(a, root, kernelRoot, managed, own, base) && frame !in a.frames && managed.lo <= frame < managed.hi
    ensures Kept(a.(frames := a.frames + {frame}), root, kernelRoot, managed, own, base + {frame})
    ensures frame !in base && frame !in KernelFrames(a.m, kernelRoot)
  {
  }

  function Managing(mgr: Manager): Range
  {
    Range(mgr.pmm.start / PAGE_SIZE, mgr.pmm.start / PAGE_SIZE + mgr.pmm.totalPages)
  }

  /** A user space in good order, with every frame in use accounted for. */
  ghost predicate Sound(mgr: Manager, dir: PageDirectory, kernelRoot: nat, own: Tables, base: set<nat>)
    reads mgr, mgr.pmm, mgr.pmm.bitmap, dir
  {
    && mgr.pmm.Ready() && dir.range == USER
    && Kept(mgr.View(dir), dir.root, kernelRoot, Managing(mgr), own, base)
  }

  lemma SoundMeans(mgr: Manager, dir: PageDirectory, kernelRoot: nat, own: Tables, base: set<nat>)
    ensures Sound(mgr, dir, kernelRoot, own, base) <==>
              && Alive(mgr, dir, own) && dir.range == USER
              && Accounts(mgr.pmm.Frames(), base, own) && SharesKernel(mgr, dir.root, kernelRoot, own)
    ensures Sound(mgr, dir, kernelRoot, own, base) ==> mgr.Valid(dir)
  {
    if Sound(mgr, dir, kernelRoot, own, base) {
      OwnTables(mgr.mem, dir.root, dir.tab, own);
    }
  }

  /** What a map call takes; an address that is not canonical is refused at once. */
  ghost predicate Billed(k0: set<Slot>, n0: int, k1: set<Slot>, n1: int, virt: nat, ok: bool)
  {
    if IsCanonical(virt) then Paid(k0, n0, k1, n1, PageOf(virt), ok) else !ok && k1 == k0 && n1 == n0
  }

  /** No page of the user half but `p` changed its translation. */
  ghost predicate OnlyPage(m: Mem, m': Mem, root: nat, p: Page)
  {
    forall q: Page :: In(USER, q) && q != p ==> Translate(m', root, q) == Translate(m, root, q)
  }

  /** The frame a page had. */
  function HadFrame(was: Option<nat>): set<nat>
  {
    match was
    case None => {}
    case Some(f) => {f}
  }

  /** The space stays sound. On failure the frame is in use but owned by nobody;
      on success that is so for the frame the page had before, if it had one. */
  method MapOwned(mgr: Manager, dir: PageDirectory, kernelRoot: nat, virt: nat, frame: nat, flags: Flags,
                  ghost own: Tables, ghost base: set<nat>)
    returns (ok: bool, ghost own': Tables)
    requires Sound(mgr, dir, kernelRoot, own, base) && frame in base && frame > 0
    requires In(USER, PageOf(virt))
    requires frame !in KernelFrames(mgr.mem, kernelRoot)
    modifies mgr`mem, dir`tab, mgr.pmm`usedPages, mgr.pmm`lastAllocHint, mgr.pmm.bitmap
    ensures var was := old(FrameAt(mgr.mem, dir.root, PageOf(virt)));
            && HadFrame(was) !! base
            && Sound(mgr, dir, kernelRoot, own', if ok then base - {frame} + HadFrame(was) else base)
    ensures OnlyPage(old(mgr.mem), mgr.mem, dir.root, PageOf(virt)) && KernelUnchanged(old(mgr.mem), mgr.mem, kernelRoot)
    ensures old(BitsCovered(mgr.mem, dir.root, USER)) ==> BitsCovered(mgr.mem, dir.root, USER)
    ensures Translate(mgr.mem, dir.root, PageOf(virt)) ==
              if ok then Some(Leaf(frame, flags.write, true)) else old(Translate(mgr.mem, dir.root, PageOf(virt)))
    ensures Billed(old(dir.tab.Keys), old(mgr.pmm.Spare()), dir.tab.Keys, mgr.pmm.Spare(), virt, ok)
  {
    ghost var a := mgr.View(dir);
    SoundMeans(mgr, dir, kernelRoot, own, base);
    mgr.pmm.ZeroFrame();
    assert frame * PAGE_SIZE / PAGE_SIZE == frame;
    ok := mgr.MapUserPage(dir, virt, frame * PAGE_SIZE, flags);
    mgr.pmm.ZeroFrame();
    ghost var b := mgr.View(dir);
    own' := KeptMap(a, b, dir.root, kernelRoot, Managing(mgr), own, base, PageOf(virt), frame, ok);
  }

  /** The accounts after a map call. */
  lemma KeptMap(a: State, b: State, root: nat, kernelRoot: nat, managed: Range, own: Tables, base: set<nat>,
                p: Page, frame: nat, ok: bool)
    returns (own': Tables)
    requires Kept(a, root, kernelRoot, managed, own, base) && In(USER, p)
    requires Tree(b.m, root, b.tab, USER) && Mapped(a, b, root, USER, p) && FromManaged(a, b, managed)
    requires FrameAt(b.m, root, p) == if ok then Some(frame) else FrameAt(a.m, root, p)
    requires frame > 0 && frame in base && frame !in KernelFrames(a.m, kernelRoot)
    ensures var was := FrameAt(a.m, root, p);
            && HadFrame(was) !! base
            && Kept(b, root, kernelRoot, managed, own', if ok then base - {frame} + HadFrame(was) else base)
            && KernelUnchanged(a.m, b.m, kernelRoot)
  {
    MappedStep(a, b, root, p);
    var was := FrameAt(a.m, root, p);
    HadApart(a, root, kernelRoot, managed, own, base, p);
    if !ok {
      KeptTables(a, b, root, kernelRoot, managed, own, base);
      own' := WithTables(own, b.tab);
    } else if was == None {
      KeptPage(a, b, root, kernelRoot, managed, own, base, p, frame);
      own' := WithPage(own, b.tab, p, frame);
      assert base - {frame} + HadFrame(was) == base - {frame};
    } else {
      KeptReplace(a, b, root, kernelRoot, managed, own, base, p, was.value, frame);
      own' := WithPage(own, b.tab, p, frame);
    }
  }

  lemma HadApart(a: State, root: nat, kernelRoot: nat, managed: Range, own: Tables, base: set<nat>, p: Page)
    requires Kept(a, root, kernelRoot, managed, own, base) && In(USER, p)
    ensures HadFrame(FrameAt(a.m, root, p)) !! base
  {
    if FrameAt(a.m, root, p).Some? {
      assert own[DataSlot(p)] in own.Values;
    }
  }

  lemma MappedStep(a: State, b: State, root: nat, p: Page)
    requires Tree(b.m, root, b.tab, USER) && Mapped(a, b, root, USER, p)
    ensures TreeStep(a, b, root)
    ensures forall q: Page :: In(USER, q) && q != p ==> FrameAt(b.m, root, q) == FrameAt(a.m, root, q)
  {
  }

  /** pmm_alloc_page on behalf of the space: the frame joins everybody else's. */
  method AllocFor(mgr: Manager, dir: PageDirectory, kernelRoot: nat, ghost own: Tables, ghost base: set<nat>)
    returns (frame: nat)
    requires Sound(mgr, dir, kernelRoot, own, base)
    modifies mgr.pmm`usedPages, mgr.pmm`lastAllocHint, mgr.pmm.bitmap
    ensures frame == 0 <==> old(mgr.pmm.Spare()) == 0
    ensures mgr.pmm.Spare() == old(mgr.pmm.Spare()) - (if frame == 0 then 0 else 1)
    ensures frame == 0 ==> Sound(mgr, dir, kernelRoot, own, base)
    ensures frame != 0 ==>
              && Sound(mgr, dir, kernelRoot, own, base + {frame}) && frame !in base
              && frame !in KernelFrames(mgr.mem, kernelRoot)
  {
    var phys := mgr.pmm.AllocPage();
    frame := phys / PAGE_SIZE;
  }

  // ----- steps that keep the accounts -----

  ghost predicate Balanced(s: State, root: nat, kernelRoot: nat, managed: Range, base: set<nat>)
  {
    exists own :: Kept(s, root, kernelRoot, managed, own, base)
  }

  /** The frame a failed map call leaves behind, 0 for none. */
  function Lost(frame: nat): set<nat>
  {
    if frame == 0 then {} else {frame}
  }

  /** Whatever the accounts were, they balance again; `lost` joins everybody else's
      frames. The kernel's translations stay, and leaf bits go on to decide what
      the program may do with its pages. */
  ghost predicate Conserved(a: State, b: State, root: nat, managed: Range, lost: nat)
  {
    match a
    case State(_, _, frames) =>
    && frames <= b.frames && (lost != 0 ==> lost in b.frames && lost !in frames)
    && (BitsCovered(a.m, root, USER) ==> BitsCovered(b.m, root, USER))
    && forall kernelRoot: nat, base: set<nat> :: Balanced(a, root, kernelRoot, managed, base) ==>
         Balanced(b, root, kernelRoot, managed, base + Lost(lost)) && KernelUnchanged(a.m, b.m, kernelRoot)
  }

  lemma ConservedRefl(a: State, root: nat, managed: Range)
    ensures Conserved(a, a, root, managed, 0)
  {
    assert forall base: set<nat> :: base + Lost(0) == base;
  }

  lemma ConservedTrans(a: State, b: State, c: State, root: nat, managed: Range, lost: nat)
    requires Conserved(a, b, root, managed, 0) && Conserved(b, c, root, managed, lost)
    ensures Conserved(a, c, root, managed, lost)
  {
    assert forall base: set<nat> :: base + Lost(0) == base;
    forall kernelRoot: nat, base: set<nat> | Balanced(a, root, kernelRoot, managed, base)
      ensures Balanced(c, root, kernelRoot, managed, base + Lost(lost)) && KernelUnchanged(a.m, c.m, kernelRoot)
    {
      assert Balanced(b, root, kernelRoot, managed, base + Lost(0));
      UnchangedTrans(a.m, b.m, c.m, kernelRoot);
    }
  }

  /** Mapping a page again to its frame, or changing its bits. */
  lemma ConservedSame(a: State, b: State, root: nat, managed: Range)
    requires TreeStep(a, b, root) && FromManaged(a, b, managed) && (BitsCovered(a.m, root, USER) ==> BitsCovered(b.m, root, USER))
    requires forall q: Page :: In(USER, q) ==> FrameAt(b.m, root, q) == FrameAt(a.m, root, q)
    ensures Conserved(a, b, root, managed, 0)
  {
    forall kernelRoot: nat, base: set<nat> | Balanced(a, root, kernelRoot, managed, base)
      ensures Balanced(b, root, kernelRoot, managed, base + Lost(0)) && KernelUnchanged(a.m, b.m, kernelRoot)
    {
      var own :| Kept(a, root, kernelRoot, managed, own, base);
      KeptTables(a, b, root, kernelRoot, managed, own, base);
      assert base + Lost(0) == base;
    }
  }

  /** Mapping a page to a frame just allocated: the frame is the space's, or it is lost. */
  lemma ConservedMap(a: State, b: State, root: nat, managed: Range, p: Page, frame: nat, ok: bool)
    requires frame > 0 && frame !in a.frames && managed.lo <= frame < managed.hi && In(USER, p)
    requires var taken := a.(frames := a.frames + {frame}); Mapped(taken, b, root, USER, p) && FromManaged(taken, b, managed)
    requires Tree(b.m, root, b.tab, USER)
    requires FrameAt(a.m, root, p) == None && FrameAt(b.m, root, p) == if ok then Some(frame) else None
    ensures Conserved(a, b, root, managed, if ok then 0 else frame)
  {
    var taken := a.(frames := a.frames + {frame});
    forall kernelRoot: nat, base: set<nat> | Balanced(a, root, kernelRoot, managed, base)
      ensures Balanced(b, root, kernelRoot, managed, base + Lost(if ok then 0 else frame)) && KernelUnchanged(a.m, b.m, kernelRoot)
    {
      var own :| Kept(a, root, kernelRoot, managed, own, base);
      KeptFrame(a, root, kernelRoot, managed, own, base, frame);
      LostOrGiven(base, frame);
      var own' := KeptMap(taken, b, root, kernelRoot, managed, own, base + {frame}, p, frame, ok);
      assert base + {frame} - {frame} + HadFrame(None) == base;
    }
  }

  lemma LostOrGiven(base: set<nat>, frame: nat)
    requires frame !in base || frame == 0
    ensures base + Lost(0) == base
    ensures frame != 0 ==> base + {frame} == base + Lost(frame) && base + {frame} - {frame} == base
  {
  }

  // ----- a whole life -----

  function PagesOf(virts: seq<nat>): (pages: seq<Page>)
    ensures |pages| == |virts|
  {
    seq(|virts|, i requires 0 <= i < |virts| => PageOf(virts[i]))
  }

  ghost predicate Distinct(pages: seq<Page>)
  {
    forall i, j :: 0 <= i < j < |pages| ==> pages[i] != pages[j]
  }

  /** The first `n` pages are mapped, and those in `had`, which were so before. */
  ghost predicate MappedFirst(m: Mem, root: nat, pages: seq<Page>, had: set<Page>, n: nat)
  {
    forall j :: 0 <= j < |pages| ==> In(USER, pages[j]) && (Translate(m, root, pages[j]).Some? <==> j < n || pages[j] in had)
  }

  /** The first n pages are the program's, writable or not; every page not listed
      translates as before. */
  ghost predicate Filled(m0: Mem, m: Mem, root: nat, pages: seq<Page>, write: bool, n: nat)
    requires n <= |pages|
  {
    && (forall j :: 0 <= j < n ==> FitsLeaf(Translate(m, root, pages[j]), write))
    && (forall q: Page :: In(USER, q) && q !in pages ==> Translate(m, root, q) == Translate(m0, root, q))
  }

  predicate FitsLeaf(l: Option<Leaf>, write: bool)
  {
    l.Some? && l.value.user && l.value.write == write
  }

  /** What mapping the first n pages does to the space: they are the program's,
      its other pages and the kernel's stay, and leaf bits go on to decide. */
  ghost predicate PagesAdded(m0: Mem, m: Mem, root: nat, kernelRoot: nat, pages: seq<Page>, write: bool, n: nat)
    requires n <= |pages|
  {
    && Filled(m0, m, root, pages, write, n) && KernelUnchanged(m0, m, kernelRoot)
    && (BitsCovered(m0, root, USER) ==> BitsCovered(m, root, USER))
  }

  lemma AddedNext(m0: Mem, m: Mem, m': Mem, root: nat, kernelRoot: nat, pages: seq<Page>, write: bool, n: nat, ok: bool)
    requires n < |pages| && Distinct(pages) && PagesAdded(m0, m, root, kernelRoot, pages, write, n)
    requires OnlyPage(m, m', root, pages[n]) && (ok ==> FitsLeaf(Translate(m', root, pages[n]), write))
    requires forall j :: 0 <= j < |pages| ==> In(USER, pages[j])
    requires KernelUnchanged(m, m', kernelRoot) && (BitsCovered(m, root, USER) ==> BitsCovered(m', root, USER))
    ensures PagesAdded(m0, m', root, kernelRoot, pages, write, if ok then n + 1 else n)
  {
    FilledNext(m0, m, m', root, pages, write, n, ok);
    UnchangedTrans(m0, m, m', kernelRoot);
  }

  lemma FilledNext(m0: Mem, m: Mem, m': Mem, root: nat, pages: seq<Page>, write: bool, n: nat, ok: bool)
    requires n < |pages| && Distinct(pages) && Filled(m0, m, root, pages, write, n) && OnlyPage(m, m', root, pages[n])
    requires forall j :: 0 <= j < |pages| ==> In(USER, pages[j])
    requires ok ==> FitsLeaf(Translate(m', root, pages[n]), write)
    ensures Filled(m0, m', root, pages, write, if ok then n + 1 else n)
  {
  }

  lemma MappedNext(m: Mem, m': Mem, root: nat, pages: seq<Page>, had: set<Page>, n: nat)
    requires Distinct(pages) && n < |pages| && MappedFirst(m, root, pages, had, n)
    requires Translate(m', root, pages[n]).Some?
    requires OnlyPage(m, m', root, pages[n])
    ensures MappedFirst(m', root, pages, had, n + 1)
  {
  }

  // ----- what the pages of a space cost -----

  /** The tables' places after `pages` were mapped one by one. */
  function Slots(slots: set<Slot>, pages: seq<Page>): set<Slot>
    decreases |pages|
  {
    if pages == [] then slots else Slots(slots, pages[..|pages| - 1]) + PathSlots(pages[|pages| - 1])
  }

  /** The frames they take: each page one, and the tables its path lacks by then. */
  function Demand(slots: set<Slot>, pages: seq<Page>): nat
    decreases |pages|
  {
    if pages == [] then 0
    else
      var front := pages[..|pages| - 1];
      Demand(slots, front) + 1 + Missing(Slots(slots, front), pages[|pages| - 1])
  }

  lemma Costs(slots: set<Slot>, pages: seq<Page>, i: nat)
    requires i < |pages|
    ensures Slots(slots, pages[..i + 1]) == Slots(slots, pages[..i]) + PathSlots(pages[i])
    ensures Demand(slots, pages[..i + 1]) == Demand(slots, pages[..i]) + 1 + Missing(Slots(slots, pages[..i]), pages[i])
  {
    assert pages[..i + 1][..i] == pages[..i];
  }

  lemma {:induction false} DemandMonotone(slots: set<Slot>, pages: seq<Page>, i: nat, j: nat)
    requires i <= j <= |pages|
    ensures Demand(slots, pages[..i]) <= Demand(slots, pages[..j])
    decreases j
  {
    if i < j {
      DemandMonotone(slots, pages, i, j - 1);
      Costs(slots, pages, j - 1);
    }
  }

  ghost predicate AllCanonical(virts: seq<nat>, i: nat)
    requires i <= |virts|
  {
    forall j :: 0 <= j < i ==> IsCanonical(virts[j])
  }

  /** `n` spare frames cover all of the pages. */
  ghost predicate Affordable(slots: set<Slot>, virts: seq<nat>, n: int)
  {
    AllCanonical(virts, |virts|) && Demand(slots, PagesOf(virts)) <= n
  }

  /** `n` spare frames cover the pages before the i-th and the frame of the i-th
      itself, but then its address is refused or its tables do not fit. */
  ghost predicate StopsAt(slots: set<Slot>, virts: seq<nat>, n: int, i: nat)
    requires i < |virts|
  {
    && AllCanonical(virts, i) && Demand(slots, PagesOf(virts)[..i]) < n
    && (n < Demand(slots, PagesOf(virts)[..i + 1]) || !IsCanonical(virts[i]))
  }

  ghost predicate Leaks(slots: set<Slot>, virts: seq<nat>, n: int)
  {
    exists i: nat :: i < |virts| && StopsAt(slots, virts, n, i)
  }

  /** The first `i` pages go through and the next does not; whether its frame is lost. */
  ghost predicate ShortAt(slots: set<Slot>, virts: seq<nat>, n: int, lost: nat, i: nat)
    requires i < |virts|
  {
    && AllCanonical(virts, i) && Demand(slots, PagesOf(virts)[..i]) <= n
    && (n < Demand(slots, PagesOf(virts)[..i + 1]) || !IsCanonical(virts[i]))
    && (lost != 0 <==> Demand(slots, PagesOf(virts)[..i]) < n)
  }

  ghost predicate Short(slots: set<Slot>, virts: seq<nat>, n: int, lost: nat)
  {
    exists i: nat :: i < |virts| && ShortAt(slots, virts, n, lost, i)
  }

  lemma ShortNotAll(slots: set<Slot>, virts: seq<nat>, n: int, lost: nat, i: nat)
    requires i < |virts| && ShortAt(slots, virts, n, lost, i)
    ensures !Affordable(slots, virts, n)
  {
    var pages := PagesOf(virts);
    assert pages[..|pages|] == pages;
    DemandMonotone(slots, pages, i + 1, |pages|);
  }

  /** There is only one place to stop at. */
  lemma StopsThere(slots: set<Slot>, virts: seq<nat>, n: int, lost: nat, i: nat, k: nat)
    requires i < |virts| && ShortAt(slots, virts, n, lost, i) && k < |virts| && StopsAt(slots, virts, n, k)
    ensures k == i && lost != 0
  {
    var pages := PagesOf(virts);
    if k < i {
      DemandMonotone(slots, pages, k + 1, i);
      assert false;
    } else if i < k {
      DemandMonotone(slots, pages, i + 1, k);
      assert false;
    }
  }

  /** The first page that does not go through decides. */
  lemma ShortMeans(slots: set<Slot>, virts: seq<nat>, n: int, lost: nat)
    requires Short(slots, virts, n, lost)
    ensures !Affordable(slots, virts, n) && (lost != 0 <==> Leaks(slots, virts, n))
  {
    var i: nat :| i < |virts| && ShortAt(slots, virts, n, lost, i);
    ShortNotAll(slots, virts, n, lost, i);
    if lost != 0 {
      assert StopsAt(slots, virts, n, i);
    } else if k: nat :| k < |virts| && StopsAt(slots, virts, n, k) {
      StopsThere(slots, virts, n, lost, i, k);
      assert false;
    }
  }

  lemma PagesOfPrefix(virts: seq<nat>, more: seq<nat>, i: nat)
    requires i <= |virts|
    ensures PagesOf(virts + more)[..i] == PagesOf(virts)[..i]
  {
  }

  /** What comes after the page that did not go through does not matter. */
  lemma ShortExtends(slots: set<Slot>, virts: seq<nat>, more: seq<nat>, n: int, lost: nat)
    requires Short(slots, virts, n, lost)
    ensures Short(slots, virts + more, n, lost)
  {
    var i: nat :| i < |virts| && ShortAt(slots, virts, n, lost, i);
    PagesOfPrefix(virts, more, i);
    PagesOfPrefix(virts, more, i + 1);
    assert ShortAt(slots, virts + more, n, lost, i);
  }

  lemma NoLeak(slots: set<Slot>, virts: seq<nat>, n: int)
    requires Affordable(slots, virts, n)
    ensures !Leaks(slots, virts, n)
  {
    var pages := PagesOf(virts);
    assert pages[..|pages|] == pages;
    if k: nat :| k < |virts| && StopsAt(slots, virts, n, k) {
      DemandMonotone(slots, pages, k + 1, |pages|);
      assert false;
    }
  }

  /** A program page at 2 GiB + 128 KiB needs its frame and three tables: with
      one, two or three spare frames beside the root, mapping it loses a frame. */
  lemma OnePageLeaks(n: int)
    ensures Leaks({Root}, [0x8002_0000], n) <==> 1 <= n <= 3
  {
    var virts := [0x8002_0000];
    var pages := PagesOf(virts);
    Costs({Root}, pages, 0);
    assert pages[..0] == [];
    assert Missing({Root}, pages[0]) == 3;
    assert Leaks({Root}, virts, n) ==> StopsAt({Root}, virts, n, 0);
    assert StopsAt({Root}, virts, n, 0) <==> 0 < n < 4;
  }

  /** A fresh frame, then a map call: what they take, and whether the frame is lost. */
  ghost predicate FreshBill(k0: set<Slot>, n0: int, k1: set<Slot>, n1: int, virt: nat, ok: bool, lost: nat)
  {
    && (ok <==> IsCanonical(virt) && n0 >= 1 + Missing(k0, PageOf(virt)))
    && (lost != 0 <==> !ok && n0 >= 1)
    && (ok ==> k1 == k0 + PathSlots(PageOf(virt)) && n1 == n0 - 1 - Missing(k0, PageOf(virt)))
  }

  /** One page: a fresh frame, then vmm_map_user_page. `gone` are the frames that
      are nobody's afterwards: the one lost, or the one the page had. */
  method MapFresh(mgr: Manager, dir: PageDirectory, kernelRoot: nat, virt: nat, flags: Flags, ghost p: Page,
                  ghost own: Tables, ghost base: set<nat>)
    returns (ok: bool, ghost own': Tables, ghost lost: nat, ghost gone: set<nat>)
    requires Sound(mgr, dir, kernelRoot, own, base)
    requires p == PageOf(virt) && In(USER, p)
    modifies mgr`mem, dir`tab, mgr.pmm`usedPages, mgr.pmm`lastAllocHint, mgr.pmm.bitmap
    ensures Sound(mgr, dir, kernelRoot, own', base + gone) && gone !! base
    ensures gone == if ok then HadFrame(old(FrameAt(mgr.mem, dir.root, p))) else Lost(lost)
    ensures FreshBill(old(dir.tab.Keys), old(mgr.pmm.Spare()), dir.tab.Keys, mgr.pmm.Spare(), virt, ok, lost)
    ensures ok ==> FitsLeaf(Translate(mgr.mem, dir.root, p), flags.write)
    ensures OnlyPage(old(mgr.mem), mgr.mem, dir.root, p) && KernelUnchanged(old(mgr.mem), mgr.mem, kernelRoot)
    ensures old(BitsCovered(mgr.mem, dir.root, USER)) ==> BitsCovered(mgr.mem, dir.root, USER)
  {
    mgr.pmm.SpareMeans();
    var frame := AllocFor(mgr, dir, kernelRoot, own, base);
    LostOrGiven(base, frame);
    if frame == 0 { return false, own, 0, {}; }
    ghost var all, had := base + {frame}, HadFrame(FrameAt(mgr.mem, dir.root, p));
    ok, own' := MapOwned(mgr, dir, kernelRoot, virt, frame, flags, own, all);
    lost := if ok then 0 else frame;
    gone := if ok then had else Lost(lost);
    Exchanged(base, frame, had);
  }

  lemma Exchanged(base: set<nat>, frame: nat, had: set<nat>)
    requires frame !in base && had !! base + {frame}
    ensures base + {frame} - {frame} + had == base + had && had !! base
  {
  }

  /** The first `i` pages went through. */
  ghost predicate Progress(slots: set<Slot>, virts: seq<nat>, n: int, i: nat, k: set<Slot>, spare: int)
    requires i <= |virts|
  {
    && AllCanonical(virts, i) && spare >= 0
    && k == Slots(slots, PagesOf(virts)[..i]) && spare == n - Demand(slots, PagesOf(virts)[..i])
  }

  lemma NextBill(slots: set<Slot>, virts: seq<nat>, n: int, i: nat, k0: set<Slot>, n0: int, k1: set<Slot>, n1: int,
                 ok: bool, lost: nat)
    requires i < |virts| && Progress(slots, virts, n, i, k0, n0) && FreshBill(k0, n0, k1, n1, virts[i], ok, lost)
    ensures ok ==> Progress(slots, virts, n, i + 1, k1, n1)
    ensures !ok ==> ShortAt(slots, virts, n, lost, i)
  {
    Costs(slots, PagesOf(virts), i);
  }

  /** All pages went through. */
  lemma PaidAll(slots: set<Slot>, virts: seq<nat>, n: int, k: set<Slot>, spare: int)
    requires Progress(slots, virts, n, |virts|, k, spare)
    ensures Affordable(slots, virts, n) && !Leaks(slots, virts, n)
  {
    assert PagesOf(virts)[..|virts|] == PagesOf(virts);
    NoLeak(slots, virts, n);
  }

  /** `n` spare frames reach as far as the i-th page. */
  ghost predicate Reaches(slots: set<Slot>, virts: seq<nat>, n: int, i: nat)
    requires i < |virts|
  {
    Affordable(slots, virts[..i + 1], n)
  }

  /** The places in the list whose page is in `had` and to which the frames reach. */
  ghost function Replacing(slots: set<Slot>, virts: seq<nat>, n: int, had: set<Page>): set<nat>
  {
    set i: nat | i < |virts| && PageOf(virts[i]) in had && Reaches(slots, virts, n, i)
  }

  function One(yes: bool): nat
  {
    if yes then 1 else 0
  }

  lemma PartPages(virts: seq<nat>, i: nat, j: nat)
    requires i <= j <= |virts|
    ensures PagesOf(virts[..j])[..i] == PagesOf(virts)[..i]
  {
  }

  /** The pages before the i-th went through, so they were affordable. */
  lemma BeforeAffordable(slots: set<Slot>, virts: seq<nat>, n: int, i: nat, k: set<Slot>, spare: int, j: nat)
    requires j < i <= |virts| && Progress(slots, virts, n, i, k, spare)
    ensures Reaches(slots, virts, n, j)
  {
    DemandMonotone(slots, PagesOf(virts), j + 1, i);
    PartPages(virts, j + 1, j + 1);
    assert PagesOf(virts[..j + 1])[..j + 1] == PagesOf(virts[..j + 1]);
  }

  lemma AfterShort(slots: set<Slot>, virts: seq<nat>, n: int, lost: nat, i: nat, j: nat)
    requires i <= j < |virts| && ShortAt(slots, virts, n, lost, i)
    ensures !Reaches(slots, virts, n, j)
  {
    var part := virts[..j + 1];
    PartPages(virts, i, j + 1);
    PartPages(virts, i + 1, j + 1);
    assert ShortAt(slots, part, n, lost, i);
    ShortMeans(slots, part, n, lost);
  }

  /** Of the first `i` places, those whose page is in `had`. */
  ghost function Again(virts: seq<nat>, had: set<Page>, i: nat): set<nat>
    requires i <= |virts|
  {
    set j: nat | j < i && PageOf(virts[j]) in had
  }

  lemma AgainNext(virts: seq<nat>, had: set<Page>, i: nat)
    requires i < |virts|
    ensures |Again(virts, had, i + 1)| == |Again(virts, had, i)| + One(PageOf(virts[i]) in had)
  {
    var next := if PageOf(virts[i]) in had then {i} else {};
    assert Again(virts, had, i + 1) == Again(virts, had, i) + next;
  }

  lemma AgainAll(slots: set<Slot>, virts: seq<nat>, n: int, k: set<Slot>, spare: int, had: set<Page>)
    requires Progress(slots, virts, n, |virts|, k, spare)
    ensures Again(virts, had, |virts|) == Replacing(slots, virts, n, had)
  {
    forall j | 0 <= j < |virts|
      ensures Reaches(slots, virts, n, j)
    {
      BeforeAffordable(slots, virts, n, |virts|, k, spare, j);
    }
  }

  lemma AgainShort(slots: set<Slot>, virts: seq<nat>, n: int, i: nat, k: set<Slot>, spare: int, lost: nat, had: set<Page>)
    requires i < |virts| && Progress(slots, virts, n, i, k, spare) && ShortAt(slots, virts, n, lost, i)
    ensures Again(virts, had, i) == Replacing(slots, virts, n, had)
    ensures !Affordable(slots, virts, n) && (lost != 0 <==> Leaks(slots, virts, n))
  {
    ShortMeans(slots, virts, n, lost);
    forall j | 0 <= j < |virts|
      ensures Reaches(slots, virts, n, j) <==> j < i
    {
      if j < i {
        BeforeAffordable(slots, virts, n, i, k, spare, j);
      } else {
        AfterShort(slots, virts, n, lost, i, j);
      }
    }
  }

  lemma HadCount(m: Mem, root: nat, pages: seq<Page>, had: set<Page>, i: nat)
    requires i < |pages| && MappedFirst(m, root, pages, had, i)
    ensures In(USER, pages[i]) && |HadFrame(FrameAt(m, root, pages[i]))| == One(pages[i] in had)
  {
  }

  method PopulateNext(mgr: Manager, dir: PageDirectory, kernelRoot: nat, virts: seq<nat>, flags: Flags, i: nat,
                      ghost pages: seq<Page>, ghost had: set<Page>, ghost own: Tables, ghost base: set<nat>,
                      ghost slots: set<Slot>, ghost n: int)
    returns (ok: bool, ghost own': Tables, ghost lost: nat, ghost gone: set<nat>)
    requires Sound(mgr, dir, kernelRoot, own, base) && i < |virts|
    requires pages == PagesOf(virts) && Distinct(pages) && MappedFirst(mgr.mem, dir.root, pages, had, i)
    requires Progress(slots, virts, n, i, dir.tab.Keys, mgr.pmm.Spare())
    modifies mgr`mem, dir`tab, mgr.pmm`usedPages, mgr.pmm`lastAllocHint, mgr.pmm.bitmap
    ensures Sound(mgr, dir, kernelRoot, own', base + gone) && gone !! base
    ensures ok ==>
              && MappedFirst(mgr.mem, dir.root, pages, had, i + 1)
              && Progress(slots, virts, n, i + 1, dir.tab.Keys, mgr.pmm.Spare())
              && |gone| == One(pages[i] in had)
    ensures !ok ==> gone == Lost(lost) && ShortAt(slots, virts, n, lost, i)
    ensures OnlyPage(old(mgr.mem), mgr.mem, dir.root, pages[i]) && (ok ==> FitsLeaf(Translate(mgr.mem, dir.root, pages[i]), flags.write))
    ensures KernelUnchanged(old(mgr.mem), mgr.mem, kernelRoot)
    ensures old(BitsCovered(mgr.mem, dir.root, USER)) ==> BitsCovered(mgr.mem, dir.root, USER)
  {
    ghost var m, k, spare := mgr.mem, dir.tab.Keys, mgr.pmm.Spare();
    HadCount(m, dir.root, pages, had, i);
    ok, own', lost, gone := MapFresh(mgr, dir, kernelRoot, virts[i], flags, pages[i], own, base);
    NextBill(slots, virts, n, i, k, spare, dir.tab.Keys, mgr.pmm.Spare(), ok, lost);
    if ok {
      MappedNext(m, mgr.mem, dir.root, pages, had, i);
    }
  }

  lemma MoreGone(base: set<nat>, gone: set<nat>, more: set<nat>, virts: seq<nat>, had: set<Page>, i: nat)
    requires gone !! base && more !! base + gone && i < |virts| && |gone| == |Again(virts, had, i)|
    ensures base + gone + more == base + (gone + more) && gone + more !! base
    ensures |gone + more| == |Again(virts, had, i)| + |more|
    ensures |more| == One(PageOf(virts[i]) in had) ==> |gone + more| == |Again(virts, had, i + 1)|
    ensures gone == {} ==> gone + more == more
  {
    AgainNext(virts, had, i);
  }

  /** One round of the loop, with all frames gone so far. */
  method PopulateStep(mgr: Manager, dir: PageDirectory, kernelRoot: nat, virts: seq<nat>, flags: Flags, i: nat,
                      ghost pages: seq<Page>, ghost had: set<Page>, ghost own: Tables, ghost base: set<nat>,
                      ghost gone: set<nat>, ghost slots: set<Slot>, ghost n: int, ghost m0: Mem)
    returns (ok: bool, ghost own': Tables, ghost lost: nat, ghost gone': set<nat>)
    requires Sound(mgr, dir, kernelRoot, own, base + gone) && gone !! base && i < |virts|
    requires pages == PagesOf(virts) && Distinct(pages) && MappedFirst(mgr.mem, dir.root, pages, had, i)
    requires PagesAdded(m0, mgr.mem, dir.root, kernelRoot, pages, flags.write, i)
    requires Progress(slots, virts, n, i, dir.tab.Keys, mgr.pmm.Spare())
    requires |gone| == |Again(virts, had, i)| && (had == {} ==> gone == {})
    modifies mgr`mem, dir`tab, mgr.pmm`usedPages, mgr.pmm`lastAllocHint, mgr.pmm.bitmap
    ensures Sound(mgr, dir, kernelRoot, own', base + gone') && gone' !! base
    ensures PagesAdded(m0, mgr.mem, dir.root, kernelRoot, pages, flags.write, if ok then i + 1 else i)
    ensures ok ==>
              && MappedFirst(mgr.mem, dir.root, pages, had, i + 1)
              && Progress(slots, virts, n, i + 1, dir.tab.Keys, mgr.pmm.Spare())
              && |gone'| == |Again(virts, had, i + 1)| && (had == {} ==> gone' == {})
    ensures !ok ==>
              && !Affordable(slots, virts, n) && (lost != 0 <==> Leaks(slots, virts, n))
              && |gone'| == One(lost != 0) + |Replacing(slots, virts, n, had)| && (had == {} ==> gone' == Lost(lost))
  {
    ghost var k, spare, more := dir.tab.Keys, mgr.pmm.Spare(), {};
    ghost var all, m := base + gone, mgr.mem;
    ok, own', lost, more := PopulateNext(mgr, dir, kernelRoot, virts, flags, i, pages, had, own, all, slots, n);
    AddedNext(m0, m, mgr.mem, dir.root, kernelRoot, pages, flags.write, i, ok);
    MoreGone(base, gone, more, virts, had, i);
    gone' := gone + more;
    if !ok {
      AgainShort(slots, virts, n, i, k, spare, lost, had);
    }
  }

  /** Maps a fresh frame at each address, up to the first failure; the pages in
      `had` are mapped already. All calls succeed exactly when the spare frames
      cover the demand. A frame is lost exactly when they run out between the
      frame of some page and its tables, or that page's address is refused; and
      the frames of the pages mapped a second time are gone too. */
  method Populate(mgr: Manager, dir: PageDirectory, kernelRoot: nat, virts: seq<nat>, flags: Flags,
                  ghost pages: seq<Page>, ghost had: set<Page>, ghost own0: Tables, ghost base: set<nat>)
    returns (ok: bool, ghost own: Tables, ghost lost: nat, ghost gone: set<nat>)
    requires Sound(mgr, dir, kernelRoot, own0, base)
    requires pages == PagesOf(virts) && Distinct(pages)
    requires MappedFirst(mgr.mem, dir.root, pages, had, 0)
    modifies mgr`mem, dir`tab, mgr.pmm`usedPages, mgr.pmm`lastAllocHint, mgr.pmm.bitmap
    ensures Sound(mgr, dir, kernelRoot, own, base + gone) && gone !! base
    ensures ok <==> Affordable(old(dir.tab.Keys), virts, old(mgr.pmm.Spare()))
    ensures lost != 0 <==> Leaks(old(dir.tab.Keys), virts, old(mgr.pmm.Spare()))
    ensures |gone| == One(lost != 0) + |Replacing(old(dir.tab.Keys), virts, old(mgr.pmm.Spare()), had)|
    ensures had == {} ==> gone == Lost(lost)
    ensures PagesAdded(old(mgr.mem), mgr.mem, dir.root, kernelRoot, pages, flags.write, if ok then |pages| else 0)
  {
    own, lost, gone := own0, 0, {};
    ghost var slots, n, m0 := dir.tab.Keys, mgr.pmm.Spare(), mgr.mem;
    mgr.pmm.SpareMeans();
    LostOrGiven(base, 0);
    for i := 0 to |virts|
      invariant Sound(mgr, dir, kernelRoot, own, base + gone) && gone !! base
      invariant MappedFirst(mgr.mem, dir.root, pages, had, i)
      invariant PagesAdded(m0, mgr.mem, dir.root, kernelRoot, pages, flags.write, i)
      invariant Progress(slots, virts, n, i, dir.tab.Keys, mgr.pmm.Spare())
      invariant |gone| == |Again(virts, had, i)|
      invariant had == {} ==> gone == {}
    {
      ok, own, lost, gone := PopulateStep(mgr, dir, kernelRoot, virts, flags, i, pages, had, own, base, gone, slots, n, m0);
      if !ok { return; }
    }
    PaidAll(slots, virts, n, dir.tab.Keys, mgr.pmm.Spare());
    AgainAll(slots, virts, n, dir.tab.Keys, mgr.pmm.Spare(), had);
    ok, lost := true, 0;
  }

  lemma GivenBack(frames: set<nat>, base: set<nat>, own: Tables)
    requires Accounts(frames, base, own)
    ensures frames - own.Values == base && own.Values <= frames
  {
  }

  /** In a new space no page had a frame. */
  method PopulateNew(mgr: Manager, dir: PageDirectory, kernelRoot: nat, virts: seq<nat>, flags: Flags,
                     ghost own0: Tables, ghost base: set<nat>)
    returns (ok: bool, ghost own: Tables, ghost lost: nat)
    requires Sound(mgr, dir, kernelRoot, own0, base)
    requires Distinct(PagesOf(virts)) && MappedFirst(mgr.mem, dir.root, PagesOf(virts), {}, 0)
    modifies mgr`mem, dir`tab, mgr.pmm`usedPages, mgr.pmm`lastAllocHint, mgr.pmm.bitmap
    ensures Sound(mgr, dir, kernelRoot, own, base + Lost(lost)) && (lost != 0 ==> lost !in base)
    ensures KernelUnchanged(old(mgr.mem), mgr.mem, kernelRoot)
    ensures ok <==> Affordable(old(dir.tab.Keys), virts, old(mgr.pmm.Spare()))
    ensures lost != 0 <==> Leaks(old(dir.tab.Keys), virts, old(mgr.pmm.Spare()))
  {
    ghost var gone;
    ok, own, lost, gone := Populate(mgr, dir, kernelRoot, virts, flags, PagesOf(virts), {}, own0, base);
  }

  /** From a new space to none. */
  method UseSpace(mgr: Manager, dir: PageDirectory, kernelRoot: nat, virts: seq<nat>, flags: Flags,
                  ghost own0: Tables, ghost base: set<nat>)
    returns (ok: bool, ghost lost: nat)
    requires Sound(mgr, dir, kernelRoot, own0, base) && dir.root < ROOT_FRAME_LIMIT && kernelRoot < ROOT_FRAME_LIMIT
    requires Distinct(PagesOf(virts)) && MappedFirst(mgr.mem, dir.root, PagesOf(virts), {}, 0)
    modifies mgr`mem, dir`tab, mgr.pmm`usedPages, mgr.pmm`lastAllocHint, mgr.pmm.bitmap
    ensures mgr.pmm.Ready() && mgr.pmm.Frames() == base + Lost(lost)
    ensures KernelUnchanged(old(mgr.mem), mgr.mem, kernelRoot)
    ensures lost !in base || lost == 0
    ensures ok <==> Affordable(old(dir.tab.Keys), virts, old(mgr.pmm.Spare()))
    ensures lost != 0 <==> Leaks(old(dir.tab.Keys), virts, old(mgr.pmm.Spare()))
  {
    ghost var own;
    ok, own, lost := PopulateNew(mgr, dir, kernelRoot, virts, flags, own0, base);
    DestroySound(mgr, dir, kernelRoot, own, base + Lost(lost));
  }

  /** Destroying a space leaves everybody else's frames. */
  method DestroySound(mgr: Manager, dir: PageDirectory, kernelRoot: nat, ghost own: Tables, ghost base: set<nat>)
    requires Sound(mgr, dir, kernelRoot, own, base) && dir.root < ROOT_FRAME_LIMIT && kernelRoot < ROOT_FRAME_LIMIT
    modifies mgr.pmm`usedPages, mgr.pmm`lastAllocHint, mgr.pmm.bitmap
    ensures mgr.pmm.Ready() && mgr.pmm.Frames() == base
  {
    SoundMeans(mgr, dir, kernelRoot, own, base);
    GivenBack(mgr.pmm.Frames(), base, own);
    Destroy(mgr, dir, kernelRoot, own);
  }

  /** Create, populate, destroy. */
  method RunSpace(mgr: Manager, kernelRoot: nat, heapOk: bool, virts: seq<nat>, flags: Flags)
    returns (ok: bool, ghost lost: nat)
    requires mgr.pmm.Ready() && KernelReserved(mgr, kernelRoot)
    requires Distinct(PagesOf(virts)) && forall p :: p in PagesOf(virts) ==> In(USER, p)
    modifies mgr`mem, mgr.pmm`usedPages, mgr.pmm`lastAllocHint, mgr.pmm.bitmap
    ensures mgr.pmm.Ready() && mgr.pmm.Frames() == old(mgr.pmm.Frames()) + Lost(lost)
    ensures KernelUnchanged(old(mgr.mem), mgr.mem, kernelRoot)
    ensures lost !in old(mgr.pmm.Frames()) || lost == 0
    ensures ok <==> old(CanCreate(mgr, kernelRoot, heapOk)) && Affordable({Root}, virts, old(mgr.pmm.Spare()) - 1)
    ensures lost != 0 <==> old(CanCreate(mgr, kernelRoot, heapOk)) && Leaks({Root}, virts, old(mgr.pmm.Spare()) - 1)
  {
    ok, lost := false, 0;
    assert mgr.pmm.Frames() + Lost(0) == mgr.pmm.Frames();
    ghost var base := mgr.pmm.Frames();
    var dir, own := Create(mgr, kernelRoot, heapOk);
    if dir != null {
      ghost var m := mgr.mem;
      ok, lost := UseSpace(mgr, dir, kernelRoot, virts, flags, own, base);
      UnchangedTrans(old(mgr.mem), m, mgr.mem, kernelRoot);
    }
  }

  /** The life of a task's address space, with the calls of task_create_user and
      task_destroy: create, allocate and map a frame for each of a list of
      distinct pages, destroy, also after the first failure. The bitmap and the
      count of used pages end as they began, except when the spare frames beside
      the root run out between some page's frame and its tables, or that page's
      address is refused: then exactly the frame allocated for it stays in use,
      and no table records it. */
  method Lifetime(mgr: Manager, kernelRoot: nat, heapOk: bool, virts: seq<nat>, flags: Flags)
    returns (ok: bool, ghost lost: nat)
    requires mgr.pmm.Ready() && KernelReserved(mgr, kernelRoot)
    requires Distinct(PagesOf(virts)) && forall p :: p in PagesOf(virts) ==> In(USER, p)
    modifies mgr`mem, mgr.pmm`usedPages, mgr.pmm`lastAllocHint, mgr.pmm.bitmap
    ensures mgr.pmm.Ready() && mgr.pmm.Frames() == old(mgr.pmm.Frames()) + Lost(lost)
    ensures KernelUnchanged(old(mgr.mem), mgr.mem, kernelRoot)
    ensures lost !in old(mgr.pmm.Frames()) || lost == 0
    ensures ok <==> old(CanCreate(mgr, kernelRoot, heapOk)) && Affordable({Root}, virts, old(mgr.pmm.Spare()) - 1)
    ensures lost != 0 <==> old(CanCreate(mgr, kernelRoot, heapOk)) && Leaks({Root}, virts, old(mgr.pmm.Spare()) - 1)
    ensures mgr.pmm.Used() == old(mgr.pmm.Used()) && mgr.pmm.usedPages == old(mgr.pmm.usedPages) <==>
              !(old(CanCreate(mgr, kernelRoot, heapOk)) && Leaks({Root}, virts, old(mgr.pmm.Spare()) - 1))
  {
    ghost var used := mgr.pmm.Used();
    ok, lost := RunSpace(mgr, kernelRoot, heapOk, virts, flags);
    UsedTells(used, mgr.pmm.Used(), mgr.pmm.start / PAGE_SIZE, Lost(lost));
  }

  /** The bitmap ends as it began exactly when no frame is gone. */
  lemma UsedTells(used: set<nat>, used': set<nat>, base: nat, gone: set<nat>)
    requires FramesOf(used', base) == FramesOf(used, base) + gone && gone !! FramesOf(used, base)
    ensures used' == used <==> gone == {}
  {
    if gone == {} {
      assert FramesOf(used, base) + {} == FramesOf(used, base);
      FramesInjective(used', used, base);
    } else {
      var f :| f in gone;
      assert f in FramesOf(used', base);
    }
  }
}
