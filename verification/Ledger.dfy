/** The books of a user space over a run of map calls: what was listed, paid and
    lost (src/kernel/loader/elf.c, src/kernel/task/task.c). */
module Ledger {
  import opened PageTable
  import opened Vmm
  import opened AddressSpace

  /** A map call for a page: free of charge when the page is mapped already. */
  ghost predicate PageBill(had: bool, k0: set<Slot>, n0: int, k1: set<Slot>, n1: int, virt: nat, ok: bool, lost: nat)
  {
    if had then ok && lost == 0 && k1 == k0 && n1 == n0 else FreshBill(k0, n0, k1, n1, virt, ok, lost)
  }

  /** A page that is mapped by a level-1 entry lacks no table. */
  lemma MappedIsFree(m: Mem, root: nat, tab: Tables, p: Page)
    requires Tree(m, root, tab, USER) && NoBigPages(m, tab) && In(USER, p) && Translate(m, root, p).Some?
    ensures Missing(tab.Keys, p) == 0 && tab.Keys + PathSlots(p) == tab.Keys
  {
    MappedTable(m, root, tab, p);
    assert Parent(SlotOf(p)) == Pd(p.i4, p.i3) && Parent(Pd(p.i4, p.i3)) == Pdp(p.i4);
  }

  lemma BillFor(had: bool, k0: set<Slot>, n0: int, k: set<Slot>, n: int, k1: set<Slot>, n1: int, virt: nat, ok: bool, lost: nat)
    requires IsCanonical(virt) && n0 >= 0 && k == k0 && Paid(k, n, k1, n1, PageOf(virt), ok)
    requires if had then n == n0 && Missing(k, PageOf(virt)) == 0 && k + PathSlots(PageOf(virt)) == k
             else n0 >= 1 && n == n0 - 1
    requires lost != 0 <==> !ok && !had
    ensures PageBill(had, k0, n0, k1, n1, virt, ok, lost)
  {
  }

  /** From `a` with `n` spare frames to `b`: the pages at `list` were mapped one
      by one, and every frame they took is the space's. */
  ghost predicate Books(a: State, n: int, list: seq<nat>, b: State, spare: int, root: nat, managed: Range)
  {
    match a
    case State(_, tab, _) =>
      NoBigPages(b.m, b.tab) && Conserved(a, b, root, managed, 0) && Progress(tab.Keys, list, n, |list|, b.tab.Keys, spare)
  }

  /** One of the pages at `list` could not be mapped. */
  ghost predicate Broke(a: State, n: int, list: seq<nat>, b: State, root: nat, managed: Range, lost: nat)
  {
    match a
    case State(_, tab, _) => Conserved(a, b, root, managed, lost) && Short(tab.Keys, list, n, lost)
  }

  lemma BooksOpen(a: State, n: int, root: nat, managed: Range)
    requires NoBigPages(a.m, a.tab) && n >= 0
    ensures Books(a, n, [], a, n, root, managed)
  {
    ConservedRefl(a, root, managed);
    assert PagesOf([])[..0] == [];
  }

  /** One more page. */
  lemma BooksNext(a: State, n: int, list: seq<nat>, b: State, spare: int, c: State, spare': int, root: nat, managed: Range,
                  had: bool, virt: nat, ok: bool, lost: nat)
    requires Books(a, n, list, b, spare, root, managed) && Conserved(b, c, root, managed, lost)
    requires ok ==> NoBigPages(c.m, c.tab)
    requires PageBill(had, b.tab.Keys, spare, c.tab.Keys, spare', virt, ok, lost)
    ensures ok ==> lost == 0
    ensures var list' := list + (if had then [] else [virt]);
            if ok then Books(a, n, list', c, spare', root, managed) else Broke(a, n, list', c, root, managed, lost)
  {
    ConservedTrans(a, b, c, root, managed, lost);
    if had {
      assert list + [] == list;
    } else {
      var list' := list + [virt];
      PagesOfPrefix(list, [virt], |list|);
      NextBill(a.tab.Keys, list', n, |list|, b.tab.Keys, spare, c.tab.Keys, spare', ok, lost);
    }
  }

  /** A call that takes no frame and moves no page. */
  lemma BooksSame(a: State, n: int, list: seq<nat>, b: State, spare: int, c: State, root: nat, managed: Range)
    requires Books(a, n, list, b, spare, root, managed) && Conserved(b, c, root, managed, 0)
    requires NoBigPages(c.m, c.tab) && c.tab == b.tab
    ensures Books(a, n, list, c, spare, root, managed)
  {
    ConservedTrans(a, b, c, root, managed, 0);
  }

  lemma BrokeExtends(a: State, n: int, list: seq<nat>, more: seq<nat>, b: State, root: nat, managed: Range, lost: nat)
    requires Broke(a, n, list, b, root, managed, lost)
    ensures Broke(a, n, list + more, b, root, managed, lost)
  {
    ShortExtends(a.tab.Keys, list, more, n, lost);
  }

  /** What the books say when the run is over. */
  lemma BooksClosed(a: State, n: int, list: seq<nat>, b: State, spare: int, root: nat, managed: Range)
    requires Books(a, n, list, b, spare, root, managed)
    ensures Affordable(a.tab.Keys, list, n) && !Leaks(a.tab.Keys, list, n)
  {
    PaidAll(a.tab.Keys, list, n, b.tab.Keys, spare);
  }

  lemma BrokeClosed(a: State, n: int, list: seq<nat>, b: State, root: nat, managed: Range, lost: nat)
    requires Broke(a, n, list, b, root, managed, lost)
    ensures !Affordable(a.tab.Keys, list, n) && (lost != 0 <==> Leaks(a.tab.Keys, list, n))
  {
    ShortMeans(a.tab.Keys, list, n, lost);
  }
}
