/** From a new address space to none: loading a program, mapping its stack and
    destroying the space give every frame back (src/kernel/task/task.c,
    src/kernel/loader/elf.c). */
module ProgramLife {
  import opened PageTable
  import opened Pmm
  import opened Vmm
  import opened AddressSpace
  import opened Ledger
  import opened Uaccess
  import UserImage
  import Elf

  // ----- two lists of pages after one another -----

  lemma CostsSnoc(slots: set<Slot>, p: seq<Page>, x: Page)
    ensures Slots(slots, p + [x]) == Slots(slots, p) + PathSlots(x)
    ensures Demand(slots, p + [x]) == Demand(slots, p) + 1 + Missing(Slots(slots, p), x)
  {
    var all := p + [x];
    assert all[..|all| - 1] == p;
  }

  ghost predicate CostsAdd(slots: set<Slot>, p: seq<Page>, q: seq<Page>, all: seq<Page>)
  {
    && Slots(slots, all) == Slots(Slots(slots, p), q)
    && Demand(slots, all) == Demand(slots, p) + Demand(Slots(slots, p), q)
  }

  lemma CostsAddOne(slots: set<Slot>, p: seq<Page>, q: seq<Page>, all: seq<Page>, x: Page)
    requires CostsAdd(slots, p, q, all)
    ensures CostsAdd(slots, p, q + [x], all + [x])
  {
    CostsSnoc(slots, all, x);
    CostsSnoc(Slots(slots, p), q, x);
  }

  lemma LastApart(p: seq<Page>, q: seq<Page>)
    requires q != []
    ensures var front, x := q[..|q| - 1], q[|q| - 1]; q == front + [x] && p + q == p + front + [x]
  {
  }

  lemma {:induction false} CostsConcat(slots: set<Slot>, p: seq<Page>, q: seq<Page>)
    ensures CostsAdd(slots, p, q, p + q)
    decreases |q|
  {
    if q == [] {
      assert p + q == p;
    } else {
      var front, x := q[..|q| - 1], q[|q| - 1];
      LastApart(p, q);
      CostsConcat(slots, p, front);
      CostsAddOne(slots, p, front, p + front, x);
    }
  }

  lemma PagesConcat(virts: seq<nat>, more: seq<nat>)
    ensures PagesOf(virts + more) == PagesOf(virts) + PagesOf(more)
  {
  }

  /** What is left after the first list decides about the second. */
  lemma ThenAffordable(slots: set<Slot>, virts: seq<nat>, more: seq<nat>, n: int)
    requires Affordable(slots, virts, n)
    ensures var left := n - Demand(slots, PagesOf(virts));
            Affordable(slots, virts + more, n) <==> Affordable(Slots(slots, PagesOf(virts)), more, left)
  {
    PagesConcat(virts, more);
    CostsConcat(slots, PagesOf(virts), PagesOf(more));
    CanonicalConcat(virts, more, |more|);
  }

  lemma PartCosts(slots: set<Slot>, virts: seq<nat>, more: seq<nat>, i: nat, at: nat)
    requires i <= |more| && at == |virts| + i
    ensures PagesOf(virts + more)[..at] == PagesOf(virts) + PagesOf(more)[..i]
    ensures Demand(slots, PagesOf(virts + more)[..at])
         == Demand(slots, PagesOf(virts)) + Demand(Slots(slots, PagesOf(virts)), PagesOf(more)[..i])
  {
    PagesConcat(virts, more);
    CostsConcat(slots, PagesOf(virts), PagesOf(more)[..i]);
  }

  lemma ThenLeaks(slots: set<Slot>, virts: seq<nat>, more: seq<nat>, n: int)
    requires Affordable(slots, virts, n)
    ensures var left := n - Demand(slots, PagesOf(virts));
            Leaks(slots, virts + more, n) <==> Leaks(Slots(slots, PagesOf(virts)), more, left)
  {
    var after, left, all := Slots(slots, PagesOf(virts)), n - Demand(slots, PagesOf(virts)), virts + more;
    if Leaks(slots, all, n) {
      var i: nat :| i < |all| && StopsAt(slots, all, n, i);
      if i < |virts| {
        FirstPagesPaid(slots, virts, more, n, i);
        assert false;
      } else {
        StopsLater(slots, virts, more, n, i - |virts|, all, i, after, left);
      }
    }
    if Leaks(after, more, left) {
      var i: nat :| i < |more| && StopsAt(after, more, left, i);
      StopsLater(slots, virts, more, n, i, all, |virts| + i, after, left);
    }
  }

  lemma FirstPagesPaid(slots: set<Slot>, virts: seq<nat>, more: seq<nat>, n: int, i: nat)
    requires Affordable(slots, virts, n) && i < |virts|
    ensures !StopsAt(slots, virts + more, n, i)
  {
    PagesOfPrefix(virts, more, i + 1);
    assert PagesOf(virts)[..|virts|] == PagesOf(virts);
    DemandMonotone(slots, PagesOf(virts), i + 1, |virts|);
  }

  lemma StopsLater(slots: set<Slot>, virts: seq<nat>, more: seq<nat>, n: int, i: nat, all: seq<nat>, k: nat,
                   after: set<Slot>, left: int)
    requires Affordable(slots, virts, n) && i < |more| && all == virts + more && k == |virts| + i
    requires after == Slots(slots, PagesOf(virts)) && left == n - Demand(slots, PagesOf(virts))
    ensures StopsAt(slots, all, n, k) <==> StopsAt(after, more, left, i)
  {
    PartCosts(slots, virts, more, i, k);
    PartCosts(slots, virts, more, i + 1, k + 1);
    CanonicalConcat(virts, more, i);
    StopsSame(slots, all, n, k, after, more, left, i);
  }

  lemma StopsSame(slots: set<Slot>, all: seq<nat>, n: int, k: nat, after: set<Slot>, more: seq<nat>, left: int, i: nat)
    requires k < |all| && i < |more| && all[k] == more[i] && (AllCanonical(all, k) <==> AllCanonical(more, i))
    requires n - Demand(slots, PagesOf(all)[..k]) == left - Demand(after, PagesOf(more)[..i])
    requires n - Demand(slots, PagesOf(all)[..k + 1]) == left - Demand(after, PagesOf(more)[..i + 1])
    ensures StopsAt(slots, all, n, k) <==> StopsAt(after, more, left, i)
  {
  }

  lemma CanonicalConcat(virts: seq<nat>, more: seq<nat>, i: nat)
    requires AllCanonical(virts, |virts|) && i <= |more|
    ensures AllCanonical(virts + more, |virts| + i) <==> AllCanonical(more, i)
  {
    var all := virts + more;
    assert forall j :: 0 <= j < i ==> more[j] == all[|virts| + j];
  }

  // ----- a program's space -----

  /** The pages of the stack: page addresses of the user half, each once. */
  ghost predicate StackPages(stack: seq<nat>)
  {
    && Distinct(PagesOf(stack))
    && forall j :: 0 <= j < |stack| ==>
         stack[j] % PAGE_SIZE == 0 && UserImage.FIRST_PAGE <= stack[j] / PAGE_SIZE < UserImage.END_PAGE
  }

  /** Does a segment use this page of the stack? */
  predicate Overlaps(stack: seq<nat>, phs: seq<Elf.Phdr>, i: nat)
    requires i < |stack|
  {
    Elf.Touched(phs, stack[i] / PAGE_SIZE)
  }

  /** Those pages. */
  ghost function Shared(stack: seq<nat>, phs: seq<Elf.Phdr>): set<Page>
  {
    set j | 0 <= j < |stack| && Overlaps(stack, phs, j) :: PageOf(stack[j])
  }

  /** The pages that creating the program asks for, up to the point where the
      file itself makes it fail. */
  ghost function Wanted(header: Elf.Header, phs: seq<Elf.Phdr>, size: nat, stack: seq<nat>): seq<nat>
  {
    if Elf.AllFit(phs, size) && header.entry != 0 then Elf.NewPages(phs) + stack else Elf.NewPages(Elf.Fitting(phs, size))
  }

  /** The file is one the loader accepts; an entry point of 0 counts as a failure. */
  ghost predicate Loadable(header: Elf.Header, phs: seq<Elf.Phdr>, size: nat)
  {
    Elf.HeaderOk(header, size) && Elf.AllFit(phs, size) && header.entry != 0
  }

  /** `n` spare frames reach as far as the i-th page of the stack. */
  ghost predicate ReachesStack(slots: set<Slot>, n: int, phs: seq<Elf.Phdr>, stack: seq<nat>, i: nat)
    requires i < |stack|
  {
    Affordable(slots, Elf.NewPages(phs) + stack[..i + 1], n)
  }

  /** The pages of the stack that would be mapped over a segment's before the frames give out. */
  ghost function Covered(slots: set<Slot>, n: int, phs: seq<Elf.Phdr>, stack: seq<nat>): set<nat>
  {
    set i: nat | i < |stack| && Overlaps(stack, phs, i) && ReachesStack(slots, n, phs, stack, i)
  }

  /** How creating a program in an empty space ends, from the places of its
      tables and the spare frames before: whether it succeeds, whether a frame is
      lost on the way, and how many frames are gone in the end. */
  ghost predicate Ends(slots: set<Slot>, n: int, header: Elf.Header, phs: seq<Elf.Phdr>, size: nat, stack: seq<nat>,
                       ok: bool, lost: nat, gone: set<nat>)
  {
    match header
    case Header(_, _, _, _, _) =>
      && (ok <==> Loadable(header, phs, size) && Affordable(slots, Elf.NewPages(phs) + stack, n))
      && (lost != 0 <==> Elf.HeaderOk(header, size) && Leaks(slots, Wanted(header, phs, size, stack), n))
      && |gone| == One(lost != 0) + if Loadable(header, phs, size) then |Covered(slots, n, phs, stack)| else 0
  }

  lemma {:induction false} ShortWhen(slots: set<Slot>, virts: seq<nat>, n: int, k: nat)
    requires k <= |virts| && AllCanonical(virts, k) && Demand(slots, PagesOf(virts)[..k]) <= n
    requires !Affordable(slots, virts, n)
    ensures Short(slots, virts, n, 0) || Short(slots, virts, n, 1)
    decreases |virts| - k
  {
    assert PagesOf(virts)[..|virts|] == PagesOf(virts);
    if k == |virts| {
      assert false;
    } else if IsCanonical(virts[k]) && Demand(slots, PagesOf(virts)[..k + 1]) <= n {
      ShortWhen(slots, virts, n, k + 1);
    } else {
      assert ShortAt(slots, virts, n, if Demand(slots, PagesOf(virts)[..k]) < n then 1 else 0, k);
    }
  }

  /** When the segments do not go through, the stack makes no difference. */
  lemma LeaksEarly(slots: set<Slot>, virts: seq<nat>, more: seq<nat>, n: int)
    requires n >= 0 && !Affordable(slots, virts, n)
    ensures !Affordable(slots, virts + more, n)
    ensures Leaks(slots, virts + more, n) <==> Leaks(slots, virts, n)
  {
    assert PagesOf(virts)[..0] == [];
    ShortWhen(slots, virts, n, 0);
    var lost := if Short(slots, virts, n, 0) then 0 else 1;
    ShortMeans(slots, virts, n, lost);
    ShortExtends(slots, virts, more, n, lost);
    ShortMeans(slots, virts + more, n, lost);
  }

  lemma EndsAtLoader(a: State, n: int, header: Elf.Header, phs: seq<Elf.Phdr>, size: nat, stack: seq<nat>, b: State,
                     root: nat, managed: Range, loaded: bool, lost: nat)
    requires n >= 0 && Elf.HeaderOk(header, size) && Elf.Outcome(a, n, phs, size, b, root, managed, loaded, lost)
    requires !loaded || header.entry == 0
    ensures Ends(a.tab.Keys, n, header, phs, size, stack, false, lost, Lost(lost))
  {
    if Elf.AllFit(phs, size) {
      Elf.FittingAll(phs, size);
      if header.entry != 0 {
        LeaksEarly(a.tab.Keys, Elf.NewPages(phs), stack, n);
        NeverReached(a.tab.Keys, phs, stack, n);
      }
    }
  }

  lemma NeverReached(slots: set<Slot>, phs: seq<Elf.Phdr>, stack: seq<nat>, n: int)
    requires n >= 0 && !Affordable(slots, Elf.NewPages(phs), n)
    ensures Covered(slots, n, phs, stack) == {}
  {
    forall i | 0 <= i < |stack| && Overlaps(stack, phs, i)
      ensures !ReachesStack(slots, n, phs, stack, i)
    {
      LeaksEarly(slots, Elf.NewPages(phs), stack[..i + 1], n);
    }
  }

  const SHARED: nat := 0x80_0000_0000

  lemma OnePageProgram(ph: Elf.Phdr)
    requires ph == Elf.Phdr(Elf.PT_LOAD, 6, 0, SHARED, 16, 16)
    ensures Elf.NewPages([ph]) == [SHARED] && ph.Touches(SHARED / PAGE_SIZE)
  {
    var n := SHARED / PAGE_SIZE;
    assert ph.FirstPage() == n && ph.EndPage() == n + 1;
    assert [ph][..0] == [];
    assert Elf.Fresh({}, n, n) == [];
    assert Elf.Fresh({}, n, n + 1) == [n * PAGE_SIZE];
  }

  /** A program whose one segment lies on the stack's only page: once there are
      frames enough for both, the segment's frame is gone for good. */
  lemma StackOverSegment(ph: Elf.Phdr, n: int)
    requires ph == Elf.Phdr(Elf.PT_LOAD, 6, 0, SHARED, 16, 16)
    ensures ph.Fits(16) && ph.InUserSlots() && StackPages([SHARED])
    ensures Covered({Root}, n, [ph], [SHARED]) == if n < 5 then {} else {0}
  {
    var stack := [SHARED];
    OnePageProgram(ph);
    TwoFrames(SHARED, n);
    assert [ph][0].Touches(SHARED / PAGE_SIZE);
    assert Overlaps(stack, [ph], 0);
    assert Elf.NewPages([ph]) + stack[..1] == [SHARED] + [SHARED];
  }

  /** The same page twice: two frames and three tables. */
  lemma TwoFrames(virt: nat, n: int)
    requires IsCanonical(virt)
    ensures Affordable({Root}, [virt] + [virt], n) <==> n >= 5
  {
    PagesConcat([virt], [virt]);
    TwiceCosts(PageOf(virt));
    assert PagesOf([virt]) == [PageOf(virt)];
    var virts := [virt] + [virt];
    assert forall j :: 0 <= j < |virts| ==> virts[j] == virt;
  }

  lemma TwiceCosts(p: Page)
    ensures Demand({Root}, [p] + [p]) == 5
  {
    CostsSnoc({Root}, [], p);
    assert [] + [p] == [p];
    CostsSnoc({Root}, [p], p);
    assert PathSlots(p) <= Slots({Root}, [p]);
  }

  /** What the stack loop replaced, seen from the state before the loader. */
  lemma ReplacedIsCovered(slots: set<Slot>, phs: seq<Elf.Phdr>, stack: seq<nat>, n: int)
    requires StackPages(stack) && Affordable(slots, Elf.NewPages(phs), n)
    ensures var virts := Elf.NewPages(phs);
            var left := n - Demand(slots, PagesOf(virts));
            Replacing(Slots(slots, PagesOf(virts)), stack, left, Shared(stack, phs)) == Covered(slots, n, phs, stack)
  {
    var virts := Elf.NewPages(phs);
    var after, left := Slots(slots, PagesOf(virts)), n - Demand(slots, PagesOf(virts));
    forall i: nat
      ensures i in Replacing(after, stack, left, Shared(stack, phs)) <==> i in Covered(slots, n, phs, stack)
    {
      if i < |stack| {
        CoveredAt(slots, phs, stack, n, i);
      }
    }
  }

  lemma CoveredAt(slots: set<Slot>, phs: seq<Elf.Phdr>, stack: seq<nat>, n: int, i: nat)
    requires StackPages(stack) && Affordable(slots, Elf.NewPages(phs), n) && i < |stack|
    ensures PageOf(stack[i]) in Shared(stack, phs) <==> Overlaps(stack, phs, i)
    ensures var virts := Elf.NewPages(phs);
            Reaches(Slots(slots, PagesOf(virts)), stack, n - Demand(slots, PagesOf(virts)), i) <==> ReachesStack(slots, n, phs, stack, i)
  {
    SharedPage(stack, phs, i);
    ThenAffordable(slots, Elf.NewPages(phs), stack[..i + 1], n);
  }

  lemma EndsAtStack(slots: set<Slot>, n: int, header: Elf.Header, phs: seq<Elf.Phdr>, size: nat, stack: seq<nat>,
                    k: set<Slot>, spare: int, ok: bool, lost: nat, gone: set<nat>)
    requires Loadable(header, phs, size) && StackPages(stack)
    requires Progress(slots, Elf.NewPages(phs), n, |Elf.NewPages(phs)|, k, spare)
    requires ok <==> Affordable(k, stack, spare)
    requires lost != 0 <==> Leaks(k, stack, spare)
    requires |gone| == One(lost != 0) + |Replacing(k, stack, spare, Shared(stack, phs))|
    ensures Ends(slots, n, header, phs, size, stack, ok, lost, gone)
  {
    var virts := Elf.NewPages(phs);
    WhatIsLeft(slots, virts, n, k, spare);
    RestAffordable(slots, virts, stack, n, k, spare);
    RestLeaks(slots, virts, stack, n, k, spare);
    RestCovered(slots, phs, stack, n, k, spare);
    EndsLoaded(slots, n, header, phs, size, stack, ok, lost, gone);
  }

  lemma RestCovered(slots: set<Slot>, phs: seq<Elf.Phdr>, stack: seq<nat>, n: int, k: set<Slot>, spare: int)
    requires StackPages(stack) && Affordable(slots, Elf.NewPages(phs), n)
    requires k == Slots(slots, PagesOf(Elf.NewPages(phs))) && spare == n - Demand(slots, PagesOf(Elf.NewPages(phs)))
    ensures Replacing(k, stack, spare, Shared(stack, phs)) == Covered(slots, n, phs, stack)
  {
    ReplacedIsCovered(slots, phs, stack, n);
  }

  lemma RestAffordable(slots: set<Slot>, virts: seq<nat>, more: seq<nat>, n: int, k: set<Slot>, spare: int)
    requires Affordable(slots, virts, n) && k == Slots(slots, PagesOf(virts)) && spare == n - Demand(slots, PagesOf(virts))
    ensures Affordable(slots, virts + more, n) <==> Affordable(k, more, spare)
  {
    ThenAffordable(slots, virts, more, n);
  }

  lemma RestLeaks(slots: set<Slot>, virts: seq<nat>, more: seq<nat>, n: int, k: set<Slot>, spare: int)
    requires Affordable(slots, virts, n) && k == Slots(slots, PagesOf(virts)) && spare == n - Demand(slots, PagesOf(virts))
    ensures Leaks(slots, virts + more, n) <==> Leaks(k, more, spare)
  {
    ThenLeaks(slots, virts, more, n);
  }

  /** For an acceptable file only the pages matter. */
  lemma EndsLoaded(slots: set<Slot>, n: int, header: Elf.Header, phs: seq<Elf.Phdr>, size: nat, stack: seq<nat>,
                   ok: bool, lost: nat, gone: set<nat>)
    requires Loadable(header, phs, size)
    requires ok <==> Affordable(slots, Elf.NewPages(phs) + stack, n)
    requires lost != 0 <==> Leaks(slots, Elf.NewPages(phs) + stack, n)
    requires |gone| == One(lost != 0) + |Covered(slots, n, phs, stack)|
    ensures Ends(slots, n, header, phs, size, stack, ok, lost, gone)
  {
  }

  lemma WhatIsLeft(slots: set<Slot>, virts: seq<nat>, n: int, k: set<Slot>, spare: int)
    requires Progress(slots, virts, n, |virts|, k, spare)
    ensures Affordable(slots, virts, n) && k == Slots(slots, PagesOf(virts)) && spare == n - Demand(slots, PagesOf(virts))
  {
    assert PagesOf(virts)[..|virts|] == PagesOf(virts);
  }

  lemma StackMapped(m: Mem, root: nat, pages: UserImage.Pages, phs: seq<Elf.Phdr>, stack: seq<nat>)
    requires UserImage.Tabled(m, root, pages) && Elf.PagesFit(pages, phs) && StackPages(stack)
    ensures MappedFirst(m, root, PagesOf(stack), Shared(stack, phs), 0)
  {
    forall j | 0 <= j < |stack|
      ensures In(USER, PageOf(stack[j]))
      ensures Translate(m, root, PageOf(stack[j])).Some? <==> PageOf(stack[j]) in Shared(stack, phs)
    {
      var n := stack[j] / PAGE_SIZE;
      UserImage.SamePage(stack[j]);
      UserImage.VPageRange(n);
      assert n in pages <==> Overlaps(stack, phs, j);
      SharedPage(stack, phs, j);
    }
  }

  lemma SharedPage(stack: seq<nat>, phs: seq<Elf.Phdr>, j: nat)
    requires StackPages(stack) && j < |stack|
    ensures PageOf(stack[j]) in Shared(stack, phs) <==> Overlaps(stack, phs, j)
  {
    if PageOf(stack[j]) in Shared(stack, phs) {
      var k :| 0 <= k < |stack| && Overlaps(stack, phs, k) && PageOf(stack[k]) == PageOf(stack[j]);
      assert PagesOf(stack)[k] == PagesOf(stack)[j];
    }
  }

  /** A new space shows no pages. */
  lemma NewSpaceSound(u: UserImage.UserMemory, dir: PageDirectory, kernelRoot: nat, own: Tables, base: set<nat>)
    requires AddressSpace.Sound(u.mgr, dir, kernelRoot, own, base)
    requires forall q: Page :: In(USER, q) ==> Translate(u.mgr.mem, dir.root, q) == None
    ensures UserImage.Sound(u, dir, map[], (_: nat) => 0)
  {
    SoundMeans(u.mgr, dir, kernelRoot, own, base);
    forall n: nat | UserImage.FIRST_PAGE <= n < UserImage.END_PAGE
      ensures Translate(u.mgr.mem, dir.root, UserImage.VPage(n)).None?
    {
      UserImage.VPageRange(n);
    }
  }

  /** The accounts after a conserving run. */
  lemma StillSound(a: State, mgr: Manager, dir: PageDirectory, kernelRoot: nat, own: Tables, base: set<nat>, lost: nat)
    returns (own': Tables)
    requires Kept(a, dir.root, kernelRoot, Managing(mgr), own, base)
    requires mgr.Valid(dir) && dir.range == USER
    requires Conserved(a, mgr.View(dir), dir.root, Managing(mgr), lost)
    ensures AddressSpace.Sound(mgr, dir, kernelRoot, own', base + Lost(lost)) && (lost != 0 ==> lost !in base)
    ensures KernelUnchanged(a.m, mgr.mem, kernelRoot)
    ensures BitsCovered(a.m, dir.root, USER) ==> BitsCovered(mgr.mem, dir.root, USER)
  {
    assert Balanced(a, dir.root, kernelRoot, Managing(mgr), base);
    own' :| Kept(mgr.View(dir), dir.root, kernelRoot, Managing(mgr), own', base + Lost(lost));
  }

  /** When the loader fails. */
  lemma AfterLoader(a: State, n: int, mgr: Manager, dir: PageDirectory, kernelRoot: nat, header: Elf.Header, phs: seq<Elf.Phdr>,
                    size: nat, stack: seq<nat>, own0: Tables, base: set<nat>, loaded: bool, lost: nat)
    returns (own: Tables)
    requires Kept(a, dir.root, kernelRoot, Managing(mgr), own0, base) && mgr.Valid(dir) && dir.range == USER && n >= 0
    requires if Elf.HeaderOk(header, size)
             then Elf.Outcome(a, n, phs, size, mgr.View(dir), dir.root, Managing(mgr), loaded, lost)
             else !loaded && lost == 0 && mgr.View(dir) == a
    requires !loaded || header.entry == 0
    ensures AddressSpace.Sound(mgr, dir, kernelRoot, own, base + Lost(lost)) && (lost != 0 ==> lost !in base)
    ensures KernelUnchanged(a.m, mgr.mem, kernelRoot)
    ensures Ends(a.tab.Keys, n, header, phs, size, stack, false, lost, Lost(lost))
  {
    if Elf.HeaderOk(header, size) {
      EndsAtLoader(a, n, header, phs, size, stack, mgr.View(dir), dir.root, Managing(mgr), loaded, lost);
    } else {
      ConservedRefl(a, dir.root, Managing(mgr));
    }
    own := StillSound(a, mgr, dir, kernelRoot, own0, base, lost);
  }

  /** elf_load and the stack loop of task_create_user, in an empty space. */
  method CreateProgram(u: UserImage.UserMemory, dir: PageDirectory, kernelRoot: nat, file: seq<Byte>, header: Elf.Header,
                       phs: seq<Elf.Phdr>, stack: seq<nat>, ghost own0: Tables, ghost base: set<nat>,
                       ghost slots: set<Slot>, ghost n: int)
    returns (ok: bool, ghost own: Tables, ghost lost: nat, ghost gone: set<nat>)
    requires AddressSpace.Sound(u.mgr, dir, kernelRoot, own0, base)
    requires dir.tab.Keys == slots && u.mgr.pmm.Spare() == n
    requires forall q: Page :: In(USER, q) ==> Translate(u.mgr.mem, dir.root, q) == None
    requires |phs| == header.phnum && (forall i :: 0 <= i < |phs| ==> phs[i].InUserSlots()) && StackPages(stack)
    modifies u`ram, u.mgr`mem, dir`tab, u.mgr.pmm`usedPages, u.mgr.pmm`lastAllocHint, u.mgr.pmm.bitmap
    ensures AddressSpace.Sound(u.mgr, dir, kernelRoot, own, base + gone) && gone !! base
    ensures KernelUnchanged(old(u.mgr.mem), u.mgr.mem, kernelRoot)
    ensures ok ==> ProgramMay(u.mgr.mem, dir.root, phs, stack)
    ensures Ends(slots, n, header, phs, |file|, stack, ok, lost, gone)
  {
    u.mgr.pmm.SpareMeans();
    EmptyCovered(u.mgr.mem, dir.root);
    NewSpaceSound(u, dir, kernelRoot, own0, base);
    ghost var a := u.mgr.View(dir);
    var entry, loaded;
    ghost var pages;
    entry, loaded, pages, lost := Elf.ElfLoad(u, dir, file, header, phs);
    gone := Lost(lost);
    if entry == 0 {
      own := AfterLoader(a, n, u.mgr, dir, kernelRoot, header, phs, |file|, stack, own0, base, loaded, lost);
      return false, own, lost, gone;
    }
    own := StillSound(a, u.mgr, dir, kernelRoot, own0, base, 0);
    LostOrGiven(base, 0);
    StackMapped(u.mgr.mem, dir.root, pages, phs, stack);
    ghost var k, spare, m := dir.tab.Keys, u.mgr.pmm.Spare(), u.mgr.mem;
    ok, own, lost, gone := Populate(u.mgr, dir, kernelRoot, stack, Flags(true, false, false, 0), PagesOf(stack), Shared(stack, phs), own, base);
    EndsAtStack(slots, n, header, phs, |file|, stack, k, spare, ok, lost, gone);
    UnchangedTrans(old(u.mgr.mem), m, u.mgr.mem, kernelRoot);
    if ok { MayDecided(m, u.mgr.mem, dir.root, kernelRoot, pages, phs, stack); }
  }

  predicate OnStack(stack: seq<nat>, n: nat)
  {
    UserImage.VPage(n) in PagesOf(stack)
  }

  /** The program may read exactly the pages of its segments and its stack; it may
      write its stack, and a segment's page exactly if the last segment there says so. */
  ghost predicate ProgramMay(m: Mem, root: nat, phs: seq<Elf.Phdr>, stack: seq<nat>)
  {
    forall n: nat {:trigger UserImage.VPage(n)} :: UserImage.FIRST_PAGE <= n < UserImage.END_PAGE ==>
      Grants(m, root, UserImage.VPage(n), OnStack(stack, n) || Elf.Touched(phs, n), OnStack(stack, n) || Elf.LastWritable(phs, n))
  }

  lemma EmptyCovered(m: Mem, root: nat)
    requires forall q: Page :: In(USER, q) ==> Translate(m, root, q) == None
    ensures BitsCovered(m, root, USER)
  {
    forall q: Page, w: bool | In(USER, q)
      ensures !Granted(m, root, q, w)
    {
      GrantedLeaf(m, root, q, w);
    }
  }

  lemma MayDecided(m0: Mem, m: Mem, root: nat, kernelRoot: nat, pages: UserImage.Pages, phs: seq<Elf.Phdr>, stack: seq<nat>)
    requires UserImage.Tabled(m0, root, pages) && (forall n :: n in pages ==> pages[n].user) && Elf.PagesFit(pages, phs)
    requires PagesAdded(m0, m, root, kernelRoot, PagesOf(stack), true, |stack|) && BitsCovered(m0, root, USER)
    ensures ProgramMay(m, root, phs, stack)
  {
    forall n: nat | UserImage.FIRST_PAGE <= n < UserImage.END_PAGE
      ensures Grants(m, root, UserImage.VPage(n), OnStack(stack, n) || Elf.Touched(phs, n), OnStack(stack, n) || Elf.LastWritable(phs, n))
    {
      var q := UserImage.VPage(n);
      UserImage.VPageRange(n);
      LeafDecides(m, root, USER, q);
      if q in PagesOf(stack) {
        var j :| 0 <= j < |stack| && PagesOf(stack)[j] == q;
        assert FitsLeaf(Translate(m, root, q), true);
      } else {
        assert Translate(m0, root, q) == if n in pages then Some(pages[n]) else None;
        assert n in pages <==> Elf.Touched(phs, n);
      }
    }
  }

  /** The space of a program from task_create_user to task_destroy: created,
      filled by the loader and with the stack's pages, destroyed, also after the
      first failure. Creation succeeds exactly when the file is acceptable and
      the spare frames cover every page of the segments and the stack with the
      tables they need. The bitmap and the count of used pages end as they began,
      except when the spare frames run out between a page's frame and its
      tables, or when a page of the stack was mapped over a segment's. */
  method RunProgram(u: UserImage.UserMemory, kernelRoot: nat, heapOk: bool, file: seq<Byte>, header: Elf.Header,
                    phs: seq<Elf.Phdr>, stack: seq<nat>)
    returns (ok: bool, ghost lost: nat, ghost gone: set<nat>)
    requires u.mgr.pmm.Ready() && KernelReserved(u.mgr, kernelRoot)
    requires |phs| == header.phnum && (forall i :: 0 <= i < |phs| ==> phs[i].InUserSlots()) && StackPages(stack)
    modifies u`ram, u.mgr`mem, u.mgr.pmm`usedPages, u.mgr.pmm`lastAllocHint, u.mgr.pmm.bitmap
    ensures u.mgr.pmm.Ready() && u.mgr.pmm.Frames() == old(u.mgr.pmm.Frames()) + gone && gone !! old(u.mgr.pmm.Frames())
    ensures KernelUnchanged(old(u.mgr.mem), u.mgr.mem, kernelRoot)
    ensures if old(CanCreate(u.mgr, kernelRoot, heapOk))
            then Ends({Root}, old(u.mgr.pmm.Spare()) - 1, header, phs, |file|, stack, ok, lost, gone)
            else !ok && gone == {}
    ensures u.mgr.pmm.Used() == old(u.mgr.pmm.Used()) && u.mgr.pmm.usedPages == old(u.mgr.pmm.usedPages) <==> gone == {}
  {
    ghost var used := u.mgr.pmm.Used();
    ok, lost, gone := WholeLife(u, kernelRoot, heapOk, file, header, phs, stack);
    UsedTells(used, u.mgr.pmm.Used(), u.mgr.pmm.start / PAGE_SIZE, gone);
  }

  method WholeLife(u: UserImage.UserMemory, kernelRoot: nat, heapOk: bool, file: seq<Byte>, header: Elf.Header,
                   phs: seq<Elf.Phdr>, stack: seq<nat>)
    returns (ok: bool, ghost lost: nat, ghost gone: set<nat>)
    requires u.mgr.pmm.Ready() && KernelReserved(u.mgr, kernelRoot)
    requires |phs| == header.phnum && (forall i :: 0 <= i < |phs| ==> phs[i].InUserSlots()) && StackPages(stack)
    modifies u`ram, u.mgr`mem, u.mgr.pmm`usedPages, u.mgr.pmm`lastAllocHint, u.mgr.pmm.bitmap
    ensures u.mgr.pmm.Ready() && u.mgr.pmm.Frames() == old(u.mgr.pmm.Frames()) + gone && gone !! old(u.mgr.pmm.Frames())
    ensures KernelUnchanged(old(u.mgr.mem), u.mgr.mem, kernelRoot)
    ensures if old(CanCreate(u.mgr, kernelRoot, heapOk))
            then Ends({Root}, old(u.mgr.pmm.Spare()) - 1, header, phs, |file|, stack, ok, lost, gone)
            else !ok && gone == {}
  {
    ghost var base, n := u.mgr.pmm.Frames(), u.mgr.pmm.Spare() - 1;
    LostOrGiven(base, 0);
    ok, lost, gone := false, 0, {};
    var dir, own := Create(u.mgr, kernelRoot, heapOk);
    if dir != null {
      ghost var m := u.mgr.mem;
      ok, lost, gone := UseProgram(u, dir, kernelRoot, file, header, phs, stack, own, base, {Root}, n);
      UnchangedTrans(old(u.mgr.mem), m, u.mgr.mem, kernelRoot);
    }
  }

  method UseProgram(u: UserImage.UserMemory, dir: PageDirectory, kernelRoot: nat, file: seq<Byte>, header: Elf.Header,
                    phs: seq<Elf.Phdr>, stack: seq<nat>, ghost own0: Tables, ghost base: set<nat>,
                    ghost slots: set<Slot>, ghost n: int)
    returns (ok: bool, ghost lost: nat, ghost gone: set<nat>)
    requires AddressSpace.Sound(u.mgr, dir, kernelRoot, own0, base) && dir.root < ROOT_FRAME_LIMIT && kernelRoot < ROOT_FRAME_LIMIT
    requires dir.tab.Keys == slots && u.mgr.pmm.Spare() == n
    requires forall q: Page :: In(USER, q) ==> Translate(u.mgr.mem, dir.root, q) == None
    requires |phs| == header.phnum && (forall i :: 0 <= i < |phs| ==> phs[i].InUserSlots()) && StackPages(stack)
    modifies u`ram, u.mgr`mem, dir`tab, u.mgr.pmm`usedPages, u.mgr.pmm`lastAllocHint, u.mgr.pmm.bitmap
    ensures u.mgr.pmm.Ready() && u.mgr.pmm.Frames() == base + gone && gone !! base
    ensures KernelUnchanged(old(u.mgr.mem), u.mgr.mem, kernelRoot)
    ensures Ends(slots, n, header, phs, |file|, stack, ok, lost, gone)
  {
    ghost var own;
    ok, own, lost, gone := CreateProgram(u, dir, kernelRoot, file, header, phs, stack, own0, base, slots, n);
    DestroySound(u.mgr, dir, kernelRoot, own, base + gone);
  }
}
