/** Four-level page tables in shared physical memory, as values: entries,
    the hardware walk, and the shape of a table tree (src/kernel/mm/vmm.c,
    src/kernel/mm/uaccess.c). */
module PageTable {

  const ENTRIES: nat := 512

  datatype Option<+T> = None | Some(value: T)

  /** A 64-bit table entry. `frame` is bits 12..63, `rest` the low bits other
      than PRESENT, WRITE, USER and bit 7 (see PteCodec). */
  datatype Pte = Pte(present: bool, write: bool, user: bool, huge: bool, rest: nat, frame: nat)

  const ABSENT: Pte := Pte(false, false, false, false, 0, 0)

  /** The low 12 bits a caller asks for; PRESENT is always added. */
  datatype Flags = Flags(write: bool, user: bool, bit7: bool, rest: nat)

  type Index = i: nat | i < 512

  /** Bits 12..47 of an address, as the four table indices. */
  datatype Page = Page(i4: Index, i3: Index, i2: Index, i1: Index)

  /** What one page translates to: its frame and the bits of the entry that maps it. */
  datatype Leaf = Leaf(frame: nat, write: bool, user: bool)

  /** Table frames of physical memory. */
  type Mem = map<nat, seq<Pte>>

  function Ent(m: Mem, f: nat, i: nat): Pte
  {
    if f in m && i < |m[f]| then m[f][i] else ABSENT
  }

  // ----- the walk -----

  function Translate(m: Mem, root: nat, q: Page): Option<Leaf>
  {
    var e4 := Ent(m, root, q.i4);
    if !e4.present then None else
    var e3 := Ent(m, e4.frame, q.i3);
    if !e3.present then None else
    if e3.huge then Some(Leaf(e3.frame - e3.frame % 262144 + q.i2 * 512 + q.i1, e3.write, e3.user)) else
    var e2 := Ent(m, e3.frame, q.i2);
    if !e2.present then None else
    if e2.huge then Some(Leaf(e2.frame - e2.frame % 512 + q.i1, e2.write, e2.user)) else
    var e1 := Ent(m, e2.frame, q.i1);
    if !e1.present then None else Some(Leaf(e1.frame, e1.write, e1.user))
  }

  predicate Allows(e: Pte, write: bool)
  {
    e.present && e.user && (write ==> e.write)
  }

  /** check_page_permissions: every level of the walk must allow the access. */
  predicate Granted(m: Mem, root: nat, q: Page, write: bool)
  {
    var e4 := Ent(m, root, q.i4);
    Allows(e4, write) &&
    var e3 := Ent(m, e4.frame, q.i3);
    Allows(e3, write) && (e3.huge ||
    var e2 := Ent(m, e3.frame, q.i2);
    Allows(e2, write) && (e2.huge ||
    Allows(Ent(m, e2.frame, q.i1), write)))
  }

  predicate LeafAllows(l: Option<Leaf>, write: bool)
  {
    l.Some? && l.value.user && (write ==> l.value.write)
  }

  // ----- the shape of a tree -----

  /** A position in the trie of tables: the index path that leads to it. */
  datatype Slot =
    | Root
    | Pdp(a: Index)
    | Pd(a: Index, b: Index)
    | Pt(a: Index, b: Index, c: Index)
    | Data(a: Index, b: Index, c: Index, d: Index)

  function Child(s: Slot, i: Index): Slot
    requires !s.Data?
  {
    match s
    case Root => Pdp(i)
    case Pdp(a) => Pd(a, i)
    case Pd(a, b) => Pt(a, b, i)
    case Pt(a, b, c) => Data(a, b, c, i)
  }

  function Parent(s: Slot): Slot
    requires !s.Root?
  {
    match s
    case Pdp(a) => Root
    case Pd(a, b) => Pdp(a)
    case Pt(a, b, c) => Pd(a, b)
    case Data(a, b, c, d) => Pt(a, b, c)
  }

  /** The entry points to a table one level down. */
  predicate Points(s: Slot, e: Pte)
  {
    e.present && (s.Root? || s.Pdp? || (s.Pd? && !e.huge))
  }

  /** Top-level indices the tree speaks about. */
  datatype Range = Range(lo: nat, hi: nat)

  predicate Within(r: Range, s: Slot, i: nat)
  {
    s.Root? ==> r.lo <= i < r.hi
  }

  type Tables = map<Slot, nat>

  ghost predicate Entries(m: Mem, tab: Tables, r: Range, s: Slot, i: Index)
    requires s in tab && !s.Data?
  {
    var e := Ent(m, tab[s], i);
    && (Within(r, s, i) && !s.Pt? ==>
          && (Points(s, e) <==> Child(s, i) in tab)
          && (Points(s, e) ==> e.frame == tab[Child(s, i)]))
    && (s.Pdp? && e.present ==> !e.huge)
    && (s.Pd? && e.huge ==> e.present)
  }

  /** Well-formed: `tab` names the frame of every table; a frame has one place
      in the tree, hence one parent entry; no 1 GiB pages. */
  ghost predicate Tree(m: Mem, root: nat, tab: Tables, r: Range)
  {
    && Root in tab && tab[Root] == root
    && (forall s :: s in tab ==> !s.Data? && tab[s] in m && |m[tab[s]]| == ENTRIES)
    && (forall s, t :: s in tab && t in tab && tab[s] == tab[t] ==> s == t)
    && (forall s :: s in tab && !s.Root? ==> Parent(s) in tab && r.lo <= s.a < r.hi)
    && (forall s, i: Index :: s in tab ==> Entries(m, tab, r, s, i))
  }

  predicate In(r: Range, q: Page)
  {
    r.lo <= q.i4 < r.hi
  }

  /** No translation of the tree changed, and no access that was granted is refused. */
  ghost predicate Keeps(m: Mem, m': Mem, root: nat, r: Range)
  {
    forall q: Page :: In(r, q) ==>
      && Translate(m', root, q) == Translate(m, root, q)
      && (Granted(m, root, q, false) ==> Granted(m', root, q, false))
      && (Granted(m, root, q, true) ==> Granted(m', root, q, true))
  }

  ghost predicate SameGrants(m: Mem, m': Mem, root: nat, r: Range)
  {
    forall q: Page, w: bool :: In(r, q) ==> (Granted(m', root, q, w) <==> Granted(m, root, q, w))
  }

  /** The bits of a leaf also appear in all its ancestors. */
  ghost predicate BitsCovered(m: Mem, root: nat, r: Range)
  {
    forall q: Page, w: bool :: In(r, q) ==> (Granted(m, root, q, w) <==> LeafAllows(Translate(m, root, q), w))
  }

  // ----- single steps -----

  function Put(m: Mem, f: nat, i: Index, e: Pte): (m': Mem)
    requires f in m && |m[f]| == ENTRIES
  {
    m[f := m[f][i := e]]
  }

  function ZeroTable(): (t: seq<Pte>)
    ensures |t| == ENTRIES && forall i :: 0 <= i < ENTRIES ==> t[i] == ABSENT
  {
    seq(ENTRIES, _ => ABSENT)
  }

  /** `|= USER` and `|= WRITE` on an entry. */
  function Raised(e: Pte, flags: Flags): Pte
  {
    e.(user := e.user || flags.user, write := e.write || flags.write)
  }

  lemma RaiseTree(m: Mem, root: nat, tab: Tables, r: Range, s: Slot, i: Index, flags: Flags)
    requires Tree(m, root, tab, r) && s in tab && Points(s, Ent(m, tab[s], i))
    ensures Tree(Put(m, tab[s], i, Raised(Ent(m, tab[s], i), flags)), root, tab, r)
  {
    forall t, j: Index | t in tab
      ensures Entries(Put(m, tab[s], i, Raised(Ent(m, tab[s], i), flags)), tab, r, t, j)
    {
      assert Entries(m, tab, r, t, j);
    }
  }

  /** Raising bits of a table pointer changes no translation. */
  lemma RaiseKeeps(m: Mem, root: nat, tab: Tables, r: Range, s: Slot, i: Index, flags: Flags)
    requires Tree(m, root, tab, r) && s in tab && Points(s, Ent(m, tab[s], i))
    ensures Keeps(m, Put(m, tab[s], i, Raised(Ent(m, tab[s], i), flags)), root, r)
  {
    var m' := Put(m, tab[s], i, Raised(Ent(m, tab[s], i), flags));
    forall q: Page | In(r, q)
      ensures Translate(m', root, q) == Translate(m, root, q)
      ensures Granted(m, root, q, false) ==> Granted(m', root, q, false)
      ensures Granted(m, root, q, true) ==> Granted(m', root, q, true)
    {
      WalkInTree(m, root, tab, r, q);
    }
  }

  /** The frames a walk visits are the ones `tab` names. */
  lemma WalkInTree(m: Mem, root: nat, tab: Tables, r: Range, q: Page)
    requires Tree(m, root, tab, r) && In(r, q)
    ensures var e4 := Ent(m, root, q.i4);
            e4.present ==>
              && Pdp(q.i4) in tab && e4.frame == tab[Pdp(q.i4)]
              && var e3 := Ent(m, e4.frame, q.i3);
              e3.present ==>
                && !e3.huge && Pd(q.i4, q.i3) in tab && e3.frame == tab[Pd(q.i4, q.i3)]
                && var e2 := Ent(m, e3.frame, q.i2);
                e2.present && !e2.huge ==>
                  Pt(q.i4, q.i3, q.i2) in tab && e2.frame == tab[Pt(q.i4, q.i3, q.i2)]
  {
    assert Entries(m, tab, r, Root, q.i4);
    if Pdp(q.i4) in tab {
      assert Entries(m, tab, r, Pdp(q.i4), q.i3);
      if Pd(q.i4, q.i3) in tab {
        assert Entries(m, tab, r, Pd(q.i4, q.i3), q.i2);
      }
    }
  }

  function TableEntry(t: nat, flags: Flags): Pte
  {
    Pte(true, true, flags.user, false, 0, t)
  }

  /** A fresh zeroed table hung on an absent entry. */
  function Hang(m: Mem, f: nat, i: Index, t: nat, flags: Flags): (m': Mem)
    requires f in m && |m[f]| == ENTRIES && t != f
  {
    Put(m[t := ZeroTable()], f, i, TableEntry(t, flags))
  }

  lemma HangTree(m: Mem, root: nat, tab: Tables, r: Range, s: Slot, i: Index, t: nat, flags: Flags)
    requires Tree(m, root, tab, r) && s in tab && !s.Pt? && Within(r, s, i)
    requires !Ent(m, tab[s], i).present && t !in tab.Values
    ensures t != tab[s] && Child(s, i) !in tab
    ensures Tree(Hang(m, tab[s], i, t, flags), root, tab[Child(s, i) := t], r)
  {
    assert tab[s] in tab.Values;
    var m' := Hang(m, tab[s], i, t, flags);
    var tab' := tab[Child(s, i) := t];
    assert Entries(m, tab, r, s, i);
    GrowInjective(tab, Child(s, i), t);
    forall u, j: Index | u in tab'
      ensures Entries(m', tab', r, u, j)
    {
      if u in tab {
        assert tab[u] in tab.Values;
        assert Entries(m, tab, r, u, j);
      } else {
        ChildIsNew(tab, s, i, j);
      }
    }
  }

  lemma GrowInjective(tab: Tables, s: Slot, t: nat)
    requires forall u, v :: u in tab && v in tab && tab[u] == tab[v] ==> u == v
    requires t !in tab.Values && s !in tab
    ensures var tab' := tab[s := t];
            forall u, v :: u in tab' && v in tab' && tab'[u] == tab'[v] ==> u == v
  {
    assert forall u :: u in tab ==> tab[u] in tab.Values;
  }

  /** Filling an absent entry with an empty table leaves every walk as it was. */
  lemma HangKeeps(m: Mem, root: nat, tab: Tables, r: Range, s: Slot, i: Index, t: nat, flags: Flags)
    requires Tree(m, root, tab, r) && s in tab && !s.Pt? && Within(r, s, i)
    requires !Ent(m, tab[s], i).present && t !in tab.Values
    ensures t != tab[s] && Child(s, i) !in tab
    ensures Tree(Hang(m, tab[s], i, t, flags), root, tab[Child(s, i) := t], r)
    ensures Keeps(m, Hang(m, tab[s], i, t, flags), root, r)
  {
    HangTree(m, root, tab, r, s, i, t, flags);
    forall q: Page | In(r, q)
      ensures Translate(Hang(m, tab[s], i, t, flags), root, q) == Translate(m, root, q)
      ensures Granted(m, root, q, false) ==> Granted(Hang(m, tab[s], i, t, flags), root, q, false)
      ensures Granted(m, root, q, true) ==> Granted(Hang(m, tab[s], i, t, flags), root, q, true)
    {
      HangWalk(m, root, tab, r, s, i, t, flags, q);
    }
  }

  lemma HangWalk(m: Mem, root: nat, tab: Tables, r: Range, s: Slot, i: Index, t: nat, flags: Flags, q: Page)
    requires Tree(m, root, tab, r) && s in tab && !s.Pt? && In(r, q)
    requires !Ent(m, tab[s], i).present && t !in tab.Values && t != tab[s]
    ensures Translate(Hang(m, tab[s], i, t, flags), root, q) == Translate(m, root, q)
    ensures Granted(m, root, q, false) ==> Granted(Hang(m, tab[s], i, t, flags), root, q, false)
    ensures Granted(m, root, q, true) ==> Granted(Hang(m, tab[s], i, t, flags), root, q, true)
  {
    var m' := Hang(m, tab[s], i, t, flags);
    WalkInTree(m, root, tab, r, q);
    forall u, j: Index | u in tab
      ensures Ent(m', tab[u], j) == if u == s && j == i then TableEntry(t, flags) else Ent(m, tab[u], j)
    {
      assert tab[u] in tab.Values;
    }
    assert forall j: Index :: Ent(m', t, j) == ABSENT;
  }

  /** Nothing hangs below a slot that is not in the tree. */
  lemma ChildIsNew(tab: Tables, s: Slot, i: Index, j: Index)
    requires !s.Data? && !s.Pt? && Child(s, i) !in tab
    requires forall u :: u in tab && !u.Root? ==> Parent(u) in tab
    ensures !Child(s, i).Pt? ==> Child(Child(s, i), j) !in tab
  {
    assert !Child(s, i).Pt? ==> Parent(Child(Child(s, i), j)) == Child(s, i);
  }

  /** The 512 entries that replace a 2 MiB entry: `flags & ~bit 7`, PRESENT added. */
  function SplitTable(e: Pte): (t: seq<Pte>)
    ensures |t| == ENTRIES
  {
    seq(ENTRIES, (k: nat) => e.(present := true, huge := false, frame := e.frame - e.frame % 512 + k))
  }

  function Split(m: Mem, f: nat, i: Index, t: nat): (m': Mem)
    requires f in m && |m[f]| == ENTRIES && t != f
  {
    var e := m[f][i];
    Put(m[t := SplitTable(e)], f, i, e.(present := true, huge := false, frame := t))
  }

  lemma SplitTree(m: Mem, root: nat, tab: Tables, r: Range, s: Slot, i: Index, t: nat)
    requires Tree(m, root, tab, r) && s in tab && s.Pd?
    requires Ent(m, tab[s], i).huge && t !in tab.Values
    ensures t != tab[s] && Child(s, i) !in tab
    ensures Tree(Split(m, tab[s], i, t), root, tab[Child(s, i) := t], r)
  {
    assert tab[s] in tab.Values;
    var m' := Split(m, tab[s], i, t);
    var tab' := tab[Child(s, i) := t];
    assert Entries(m, tab, r, s, i);
    GrowInjective(tab, Child(s, i), t);
    forall u, j: Index | u in tab'
      ensures Entries(m', tab', r, u, j)
    {
      if u in tab {
        assert tab[u] in tab.Values;
        assert Entries(m, tab, r, u, j);
      }
    }
  }

  /** Splitting a 2 MiB page changes no translation and no permission. */
  lemma SplitKeeps(m: Mem, root: nat, tab: Tables, r: Range, s: Slot, i: Index, t: nat)
    requires Tree(m, root, tab, r) && s in tab && s.Pd?
    requires Ent(m, tab[s], i).huge && t !in tab.Values
    ensures t != tab[s] && Child(s, i) !in tab
    ensures Tree(Split(m, tab[s], i, t), root, tab[Child(s, i) := t], r)
    ensures Keeps(m, Split(m, tab[s], i, t), root, r)
    ensures SameGrants(m, Split(m, tab[s], i, t), root, r)
  {
    SplitTree(m, root, tab, r, s, i, t);
    forall q: Page, w: bool | In(r, q)
      ensures Granted(Split(m, tab[s], i, t), root, q, w) <==> Granted(m, root, q, w)
    {
      SplitWalk(m, root, tab, r, s, i, t, q, w);
    }
    forall q: Page | In(r, q)
      ensures Translate(Split(m, tab[s], i, t), root, q) == Translate(m, root, q)
      ensures Granted(m, root, q, false) ==> Granted(Split(m, tab[s], i, t), root, q, false)
      ensures Granted(m, root, q, true) ==> Granted(Split(m, tab[s], i, t), root, q, true)
    {
      SplitWalk(m, root, tab, r, s, i, t, q, false);
      SplitWalk(m, root, tab, r, s, i, t, q, true);
    }
  }

  lemma SplitWalk(m: Mem, root: nat, tab: Tables, r: Range, s: Slot, i: Index, t: nat, q: Page, w: bool)
    requires Tree(m, root, tab, r) && s in tab && s.Pd? && In(r, q)
    requires Ent(m, tab[s], i).huge && t !in tab.Values && t != tab[s]
    ensures Translate(Split(m, tab[s], i, t), root, q) == Translate(m, root, q)
    ensures Granted(Split(m, tab[s], i, t), root, q, w) <==> Granted(m, root, q, w)
  {
    var m' := Split(m, tab[s], i, t);
    var e := Ent(m, tab[s], i);
    assert Entries(m, tab, r, s, i);
    WalkInTree(m, root, tab, r, q);
    forall u, j: Index | u in tab
      ensures Ent(m', tab[u], j) == if u == s && j == i then e.(present := true, huge := false, frame := t) else Ent(m, tab[u], j)
    {
      assert tab[u] in tab.Values;
    }
    assert forall j: Index :: Ent(m', t, j) == e.(present := true, huge := false, frame := e.frame - e.frame % 512 + j);
  }

  function SlotOf(q: Page): Slot
  {
    Pt(q.i4, q.i3, q.i2)
  }

  lemma LeafTree(m: Mem, root: nat, tab: Tables, r: Range, p: Page, e: Pte)
    requires Tree(m, root, tab, r) && SlotOf(p) in tab
    ensures Tree(Put(m, tab[SlotOf(p)], p.i1, e), root, tab, r)
  {
    forall u, j: Index | u in tab
      ensures Entries(Put(m, tab[SlotOf(p)], p.i1, e), tab, r, u, j)
    {
      assert Entries(m, tab, r, u, j);
    }
  }

  lemma LeafWalk(m: Mem, root: nat, tab: Tables, r: Range, p: Page, e: Pte, q: Page, w: bool)
    requires Tree(m, root, tab, r) && SlotOf(p) in tab && In(r, q) && q != p
    ensures var m' := Put(m, tab[SlotOf(p)], p.i1, e);
            && Translate(m', root, q) == Translate(m, root, q)
            && (Granted(m', root, q, w) <==> Granted(m, root, q, w))
  {
    var m' := Put(m, tab[SlotOf(p)], p.i1, e);
    WalkInTree(m, root, tab, r, q);
    assert forall u, j: Index :: u in tab && !(u == SlotOf(p) && j == p.i1) ==> Ent(m', tab[u], j) == Ent(m, tab[u], j);
  }

  /** Writing the level-1 entry of one page changes that page and no other. */
  lemma LeafWrite(m: Mem, root: nat, tab: Tables, r: Range, p: Page, e: Pte)
    requires Tree(m, root, tab, r) && In(r, p) && SlotOf(p) in tab
    ensures var m' := Put(m, tab[SlotOf(p)], p.i1, e);
            && Tree(m', root, tab, r)
            && Translate(m', root, p) == (if e.present then Some(Leaf(e.frame, e.write, e.user)) else None)
            && (forall q: Page :: In(r, q) && q != p ==> Translate(m', root, q) == Translate(m, root, q))
            && (forall q: Page, w: bool :: In(r, q) && q != p ==> (Granted(m', root, q, w) <==> Granted(m, root, q, w)))
  {
    var m' := Put(m, tab[SlotOf(p)], p.i1, e);
    LeafTree(m, root, tab, r, p, e);
    PathInTree(m', root, tab, r, p);
    forall q: Page | In(r, q) && q != p
      ensures Translate(m', root, q) == Translate(m, root, q)
    {
      LeafWalk(m, root, tab, r, p, e, q, false);
    }
    forall q: Page, w: bool | In(r, q) && q != p
      ensures Granted(m', root, q, w) <==> Granted(m, root, q, w)
    {
      LeafWalk(m, root, tab, r, p, e, q, w);
    }
  }

  predicate SameBigPage(p: Page, q: Page)
  {
    p.i4 == q.i4 && p.i3 == q.i3 && p.i2 == q.i2
  }

  /** Clearing a 2 MiB entry removes its 512 pages and touches nothing else. */
  lemma BigClear(m: Mem, root: nat, tab: Tables, r: Range, p: Page)
    requires Tree(m, root, tab, r) && In(r, p) && Pd(p.i4, p.i3) in tab
    requires Ent(m, tab[Pd(p.i4, p.i3)], p.i2).huge
    ensures var m' := Put(m, tab[Pd(p.i4, p.i3)], p.i2, ABSENT);
            && Tree(m', root, tab, r)
            && (forall q: Page :: In(r, q) ==>
                  Translate(m', root, q) == if SameBigPage(p, q) then None else Translate(m, root, q))
            && (forall q: Page, w: bool :: In(r, q) ==>
                  (Granted(m', root, q, w) <==> !SameBigPage(p, q) && Granted(m, root, q, w)))
  {
    var m' := Put(m, tab[Pd(p.i4, p.i3)], p.i2, ABSENT);
    forall u, j: Index | u in tab
      ensures Entries(m', tab, r, u, j)
    {
      assert Entries(m, tab, r, u, j);
    }
    forall q: Page | In(r, q)
      ensures Translate(m', root, q) == if SameBigPage(p, q) then None else Translate(m, root, q)
    {
      BigClearWalk(m, root, tab, r, p, q, false);
    }
    forall q: Page, w: bool | In(r, q)
      ensures Granted(m', root, q, w) <==> !SameBigPage(p, q) && Granted(m, root, q, w)
    {
      BigClearWalk(m, root, tab, r, p, q, w);
    }
  }

  lemma BigClearWalk(m: Mem, root: nat, tab: Tables, r: Range, p: Page, q: Page, w: bool)
    requires Tree(m, root, tab, r) && In(r, q) && Pd(p.i4, p.i3) in tab
    ensures var m' := Put(m, tab[Pd(p.i4, p.i3)], p.i2, ABSENT);
            && Translate(m', root, q) == (if SameBigPage(p, q) then None else Translate(m, root, q))
            && (Granted(m', root, q, w) <==> !SameBigPage(p, q) && Granted(m, root, q, w))
  {
    var s := Pd(p.i4, p.i3);
    var m' := Put(m, tab[s], p.i2, ABSENT);
    WalkInTree(m, root, tab, r, q);
    assert forall u, j: Index :: u in tab ==>
      Ent(m', tab[u], j) == if u == s && j == p.i2 then ABSENT else Ent(m, tab[u], j);
    if SameBigPage(p, q) {
      assert Parent(s) == Pdp(p.i4);
      assert Entries(m, tab, r, Root, q.i4) && Entries(m, tab, r, Pdp(q.i4), q.i3);
    }
  }

  /** When the page's level-1 table exists, the walk reaches it. */
  lemma PathInTree(m: Mem, root: nat, tab: Tables, r: Range, p: Page)
    requires Tree(m, root, tab, r) && In(r, p) && SlotOf(p) in tab
    ensures Pd(p.i4, p.i3) in tab && Pdp(p.i4) in tab
    ensures var e4 := Ent(m, root, p.i4);
            var e3 := Ent(m, tab[Pdp(p.i4)], p.i3);
            var e2 := Ent(m, tab[Pd(p.i4, p.i3)], p.i2);
            && e4.present && e4.frame == tab[Pdp(p.i4)]
            && e3.present && !e3.huge && e3.frame == tab[Pd(p.i4, p.i3)]
            && e2.present && !e2.huge && e2.frame == tab[SlotOf(p)]
  {
    assert Parent(SlotOf(p)) == Pd(p.i4, p.i3) && Parent(Pd(p.i4, p.i3)) == Pdp(p.i4);
    assert Entries(m, tab, r, Root, p.i4);
    assert Entries(m, tab, r, Pdp(p.i4), p.i3);
    assert Entries(m, tab, r, Pd(p.i4, p.i3), p.i2);
  }

  ghost predicate PointsTo(m: Mem, s: Slot, f: nat, i: Index, t: nat, flags: Flags)
  {
    var e := Ent(m, f, i);
    Points(s, e) && e.frame == t && Carries(e, flags)
  }

  // ----- what a map call costs -----

  /** The three tables below the root on a page's path. */
  function PathSlots(p: Page): set<Slot>
  {
    {Pdp(p.i4), Pd(p.i4, p.i3), SlotOf(p)}
  }

  /** How many of them are not there yet; a page inside a 2 MiB mapping lacks its level-1 table. */
  function Missing(slots: set<Slot>, p: Page): nat
  {
    (if Pdp(p.i4) in slots then 0 else 1) + (if Pd(p.i4, p.i3) in slots then 0 else 1) + (if SlotOf(p) in slots then 0 else 1)
  }

  /** One table brought into being: places before and after, spare frames before and after. */
  predicate Took(k0: set<Slot>, n0: int, k1: set<Slot>, n1: int, s: Slot, ok: bool)
  {
    && (ok <==> s in k0 || n0 > 0)
    && k1 == (if ok then k0 + {s} else k0)
    && n1 == (if ok && s !in k0 then n0 - 1 else n0)
  }

  /** A map call: it succeeds exactly when the spare frames cover the missing tables. */
  predicate Paid(k0: set<Slot>, n0: int, k1: set<Slot>, n1: int, p: Page, ok: bool)
  {
    && (ok <==> n0 >= Missing(k0, p))
    && (ok ==> k1 == k0 + PathSlots(p) && n1 == n0 - Missing(k0, p))
    && (!ok ==> n1 == 0)
  }

  lemma PaidInThree(k0: set<Slot>, n0: int, k1: set<Slot>, n1: int, k2: set<Slot>, n2: int, k3: set<Slot>, n3: int,
                    p: Page, ok1: bool, ok2: bool, ok3: bool)
    requires n0 >= 0
    requires Took(k0, n0, k1, n1, Pdp(p.i4), ok1)
    requires if ok1 then Took(k1, n1, k2, n2, Pd(p.i4, p.i3), ok2) else !ok2 && k2 == k1 && n2 == n1
    requires if ok2 then Took(k2, n2, k3, n3, SlotOf(p), ok3) else !ok3 && k3 == k2 && n3 == n2
    ensures Paid(k0, n0, k3, n3, p, ok3)
  {
  }

  // ----- steps of the map functions -----

  /** Page tables, their places, and the frames in use. */
  datatype State = State(m: Mem, tab: Tables, frames: set<nat>)

  predicate SameFrame(m: Mem, m': Mem, f: nat)
  {
    (f in m <==> f in m') && (f in m ==> m'[f] == m[f])
  }

  /** Top-level entries outside the range, shared with the kernel, are untouched. */
  ghost predicate SameShared(m: Mem, m': Mem, root: nat, r: Range)
  {
    forall i: Index :: !(r.lo <= i < r.hi) ==> Ent(m', root, i) == Ent(m, root, i)
  }

  ghost predicate SameOutside(m: Mem, m': Mem, tab: Tables)
  {
    forall f: nat :: f !in tab.Values ==> SameFrame(m, m', f)
  }

  /** Table pointers stay, and only gain USER and WRITE. */
  ghost predicate PointersGrow(m: Mem, m': Mem, tab: Tables)
  {
    forall s, i: Index :: s in tab && Points(s, Ent(m, tab[s], i)) ==>
      var e, e' := Ent(m, tab[s], i), Ent(m', tab[s], i);
      Points(s, e') && e'.frame == e.frame && (e.user ==> e'.user) && (e.write ==> e'.write)
  }

  ghost predicate NoBigPages(m: Mem, tab: Tables)
  {
    forall s, i: Index :: s in tab && s.Pd? ==> !Ent(m, tab[s], i).huge
  }

  /** The new tables, and nothing else, were taken from the free frames. */
  ghost predicate TookTables(a: State, b: State)
  {
    && (forall s :: s in a.tab ==> s in b.tab && b.tab[s] == a.tab[s])
    && b.frames == a.frames + (b.tab.Values - a.tab.Values)
    && a.frames !! b.tab.Values - a.tab.Values
  }

  /** What every step before the final store guarantees. */
  ghost predicate Step(a: State, b: State, root: nat, r: Range)
  {
    && Tree(a.m, root, a.tab, r) && Tree(b.m, root, b.tab, r)
    && Keeps(a.m, b.m, root, r)
    && TookTables(a, b)
    && SameOutside(a.m, b.m, b.tab) && SameShared(a.m, b.m, root, r)
    && PointersGrow(a.m, b.m, a.tab)
    && (NoBigPages(a.m, a.tab) ==> NoBigPages(b.m, b.tab))
  }

  lemma StepRefl(a: State, root: nat, r: Range)
    requires Tree(a.m, root, a.tab, r)
    ensures Step(a, a, root, r)
  {
  }

  lemma KeepsTrans(a: Mem, b: Mem, c: Mem, root: nat, r: Range)
    requires Keeps(a, b, root, r) && Keeps(b, c, root, r)
    ensures Keeps(a, c, root, r)
  {
    forall q: Page | In(r, q)
      ensures Translate(c, root, q) == Translate(a, root, q)
      ensures Granted(a, root, q, false) ==> Granted(c, root, q, false)
      ensures Granted(a, root, q, true) ==> Granted(c, root, q, true)
    {
      assert Translate(b, root, q) == Translate(a, root, q);
    }
  }

  lemma TookTrans(a: State, b: State, c: State)
    requires TookTables(a, b) && TookTables(b, c)
    requires forall s, t :: s in c.tab && t in c.tab && c.tab[s] == c.tab[t] ==> s == t
    ensures TookTables(a, c)
  {
    assert forall f :: f in a.tab.Values ==> f in b.tab.Values by {
      assert forall s :: s in a.tab ==> b.tab[s] in b.tab.Values;
    }
    assert forall f :: f in b.tab.Values ==> f in c.tab.Values by {
      assert forall s :: s in b.tab ==> c.tab[s] in c.tab.Values;
    }
  }

  lemma OutsideTrans(a: State, b: State, c: State)
    requires TookTables(b, c) && SameOutside(a.m, b.m, b.tab) && SameOutside(b.m, c.m, c.tab)
    ensures SameOutside(a.m, c.m, c.tab)
  {
    assert forall s :: s in b.tab ==> c.tab[s] in c.tab.Values;
    assert forall f: nat :: f !in c.tab.Values ==> f !in b.tab.Values;
  }

  lemma GrowTrans(a: State, b: State, c: State)
    requires TookTables(a, b) && PointersGrow(a.m, b.m, a.tab) && PointersGrow(b.m, c.m, b.tab)
    ensures PointersGrow(a.m, c.m, a.tab)
  {
    forall s, i: Index | s in a.tab && Points(s, Ent(a.m, a.tab[s], i))
      ensures var e, e' := Ent(a.m, a.tab[s], i), Ent(c.m, a.tab[s], i);
              Points(s, e') && e'.frame == e.frame && (e.user ==> e'.user) && (e.write ==> e'.write)
    {
      assert Points(s, Ent(b.m, b.tab[s], i));
    }
  }

  lemma StepTrans(a: State, b: State, c: State, root: nat, r: Range)
    requires Step(a, b, root, r) && Step(b, c, root, r)
    ensures Step(a, c, root, r)
  {
    KeepsTrans(a.m, b.m, c.m, root, r);
    TookTrans(a, b, c);
    OutsideTrans(a, b, c);
    GrowTrans(a, b, c);
  }

  lemma RaiseStep(a: State, root: nat, r: Range, s: Slot, i: Index, flags: Flags)
    requires Tree(a.m, root, a.tab, r) && s in a.tab && Within(r, s, i) && Points(s, Ent(a.m, a.tab[s], i))
    ensures Step(a, a.(m := Put(a.m, a.tab[s], i, Raised(Ent(a.m, a.tab[s], i), flags))), root, r)
  {
    RaiseTree(a.m, root, a.tab, r, s, i, flags);
    RaiseKeeps(a.m, root, a.tab, r, s, i, flags);
    RaiseRest(a.m, root, a.tab, r, s, i, flags);
  }

  lemma RaiseRest(m: Mem, root: nat, tab: Tables, r: Range, s: Slot, i: Index, flags: Flags)
    requires Tree(m, root, tab, r) && s in tab && Within(r, s, i) && Points(s, Ent(m, tab[s], i))
    ensures var m' := Put(m, tab[s], i, Raised(Ent(m, tab[s], i), flags));
            SameOutside(m, m', tab) && SameShared(m, m', root, r) && PointersGrow(m, m', tab) && (NoBigPages(m, tab) ==> NoBigPages(m', tab))
  {
    assert tab[s] in tab.Values;
    var m' := Put(m, tab[s], i, Raised(Ent(m, tab[s], i), flags));
    assert forall u, j: Index :: u in tab ==>
      Ent(m', tab[u], j) == if u == s && j == i then Raised(Ent(m, tab[s], i), flags) else Ent(m, tab[u], j);
  }

  /** A new table `t` with the given content, hung on entry `i` of the table at `s` as `e`. */
  function WithTable(a: State, s: Slot, i: Index, t: nat, e: Pte, content: seq<Pte>): (b: State)
    requires s in a.tab && !s.Data? && a.tab[s] in a.m && |a.m[a.tab[s]]| == ENTRIES && t != a.tab[s]
  {
    State(Put(a.m[t := content], a.tab[s], i, e), a.tab[Child(s, i) := t], a.frames + {t})
  }

  lemma NewTableTook(a: State, root: nat, r: Range, s: Slot, i: Index, t: nat, e: Pte, content: seq<Pte>)
    requires Tree(a.m, root, a.tab, r) && s in a.tab && !s.Pt? && Within(r, s, i) && Child(s, i) !in a.tab
    requires t !in a.tab.Values && t !in a.frames && t != a.tab[s]
    ensures var b := WithTable(a, s, i, t, e, content);
            TookTables(a, b) && SameOutside(a.m, b.m, b.tab) && SameShared(a.m, b.m, root, r)
  {
    var b := WithTable(a, s, i, t, e, content);
    assert forall u :: u in a.tab ==> a.tab[u] in a.tab.Values;
    assert b.tab.Values == a.tab.Values + {t} by {
      assert forall u :: u in a.tab ==> u in b.tab && b.tab[u] == a.tab[u];
      assert b.tab[Child(s, i)] == t;
    }
  }

  lemma NewTableRest(a: State, root: nat, r: Range, s: Slot, i: Index, t: nat, e: Pte, content: seq<Pte>)
    requires Tree(a.m, root, a.tab, r) && s in a.tab && !s.Pt? && Child(s, i) !in a.tab
    requires t !in a.tab.Values && t != a.tab[s] && !Points(s, Ent(a.m, a.tab[s], i))
    requires !e.huge && |content| == ENTRIES && (s.Pdp? ==> forall k :: 0 <= k < ENTRIES ==> !content[k].huge)
    ensures var b := WithTable(a, s, i, t, e, content);
            PointersGrow(a.m, b.m, a.tab) && (NoBigPages(a.m, a.tab) ==> NoBigPages(b.m, b.tab))
  {
    var b := WithTable(a, s, i, t, e, content);
    assert forall u :: u in a.tab ==> a.tab[u] in a.tab.Values;
    assert forall u, j: Index :: u in a.tab ==>
      Ent(b.m, a.tab[u], j) == if u == s && j == i then e else Ent(a.m, a.tab[u], j);
    assert forall j: Index :: Ent(b.m, t, j) == content[j];
  }

  lemma HangStep(a: State, root: nat, r: Range, s: Slot, i: Index, t: nat, flags: Flags)
    requires Tree(a.m, root, a.tab, r) && s in a.tab && !s.Pt? && Within(r, s, i)
    requires !Ent(a.m, a.tab[s], i).present && t !in a.tab.Values && t !in a.frames
    ensures t != a.tab[s]
    ensures Step(a, State(Hang(a.m, a.tab[s], i, t, flags), a.tab[Child(s, i) := t], a.frames + {t}), root, r)
  {
    HangKeeps(a.m, root, a.tab, r, s, i, t, flags);
    NewTableTook(a, root, r, s, i, t, TableEntry(t, flags), ZeroTable());
    NewTableRest(a, root, r, s, i, t, TableEntry(t, flags), ZeroTable());
  }

  lemma SplitStep(a: State, root: nat, r: Range, s: Slot, i: Index, t: nat)
    requires Tree(a.m, root, a.tab, r) && s in a.tab && s.Pd?
    requires Ent(a.m, a.tab[s], i).huge && t !in a.tab.Values && t !in a.frames
    ensures t != a.tab[s]
    ensures Step(a, State(Split(a.m, a.tab[s], i, t), a.tab[Child(s, i) := t], a.frames + {t}), root, r)
    ensures SameGrants(a.m, Split(a.m, a.tab[s], i, t), root, r)
  {
    SplitKeeps(a.m, root, a.tab, r, s, i, t);
    var e := Ent(a.m, a.tab[s], i);
    NewTableTook(a, root, r, s, i, t, e.(present := true, huge := false, frame := t), SplitTable(e));
    NewTableRest(a, root, r, s, i, t, e.(present := true, huge := false, frame := t), SplitTable(e));
  }

  /** The three upper entries on the way to a page carry the requested bits. */
  ghost predicate PathAllows(m: Mem, root: nat, p: Page, flags: Flags)
  {
    var e4 := Ent(m, root, p.i4);
    var e3 := Ent(m, e4.frame, p.i3);
    var e2 := Ent(m, e3.frame, p.i2);
    Carries(e4, flags) && Carries(e3, flags) && Carries(e2, flags)
  }

  predicate Carries(e: Pte, flags: Flags)
  {
    (flags.user ==> e.user) && (flags.write ==> e.write)
  }

  function LeafEntry(frame: nat, flags: Flags): Pte
  {
    Pte(true, flags.write, flags.user, flags.bit7, flags.rest, frame)
  }

  lemma GrantedLeaf(m: Mem, root: nat, q: Page, w: bool)
    ensures Granted(m, root, q, w) ==> LeafAllows(Translate(m, root, q), w)
  {
  }

  /** A step keeps the leaf-bits invariant although it raises ancestors' bits. */
  lemma KeepsCovered(m: Mem, m': Mem, root: nat, r: Range)
    requires Keeps(m, m', root, r) && BitsCovered(m, root, r)
    ensures BitsCovered(m', root, r) && SameGrants(m, m', root, r)
  {
    forall q: Page, w: bool | In(r, q)
      ensures Granted(m', root, q, w) <==> LeafAllows(Translate(m', root, q), w)
      ensures Granted(m', root, q, w) <==> Granted(m, root, q, w)
    {
      GrantedLeaf(m', root, q, w);
      assert Granted(m, root, q, w) <==> LeafAllows(Translate(m, root, q), w);
      assert Translate(m', root, q) == Translate(m, root, q);
      assert Granted(m, root, q, w) ==> Granted(m', root, q, w) by { assert w == true || w == false; }
    }
  }

  lemma StoreCovered(m: Mem, root: nat, tab: Tables, r: Range, p: Page, frame: nat, flags: Flags)
    requires Tree(m, root, tab, r) && In(r, p) && SlotOf(p) in tab && PathAllows(m, root, p, flags)
    requires BitsCovered(m, root, r)
    ensures BitsCovered(Put(m, tab[SlotOf(p)], p.i1, LeafEntry(frame, flags)), root, r)
  {
    var m' := Put(m, tab[SlotOf(p)], p.i1, LeafEntry(frame, flags));
    LeafWrite(m, root, tab, r, p, LeafEntry(frame, flags));
    forall q: Page, w: bool | In(r, q)
      ensures Granted(m', root, q, w) <==> LeafAllows(Translate(m', root, q), w)
    {
      if q == p {
        StoreGranted(m, root, tab, r, p, frame, flags, w);
      } else {
        assert Granted(m, root, q, w) <==> LeafAllows(Translate(m, root, q), w);
      }
    }
  }

  lemma StoreGranted(m: Mem, root: nat, tab: Tables, r: Range, p: Page, frame: nat, flags: Flags, w: bool)
    requires Tree(m, root, tab, r) && In(r, p) && SlotOf(p) in tab && PathAllows(m, root, p, flags)
    ensures var m' := Put(m, tab[SlotOf(p)], p.i1, LeafEntry(frame, flags));
            Granted(m', root, p, w) <==> LeafAllows(Translate(m', root, p), w)
  {
    var m' := Put(m, tab[SlotOf(p)], p.i1, LeafEntry(frame, flags));
    PathInTree(m, root, tab, r, p);
    assert forall u, j: Index :: u in tab && u != SlotOf(p) ==> Ent(m', tab[u], j) == Ent(m, tab[u], j);
    assert Ent(m', tab[SlotOf(p)], p.i1) == LeafEntry(frame, flags);
  }

  /** A tree none of whose tables were written is the same tree, with the same
      translations and permissions. */
  lemma Isolated(m: Mem, m': Mem, root: nat, tab: Tables, r: Range)
    requires Tree(m, root, tab, r) && forall f :: f in tab.Values ==> SameFrame(m, m', f)
    ensures Tree(m', root, tab, r) && SameGrants(m, m', root, r)
    ensures forall q: Page :: In(r, q) ==> Translate(m', root, q) == Translate(m, root, q)
  {
    SameEntries(m, m', tab);
    forall s, i: Index | s in tab
      ensures Entries(m', tab, r, s, i)
    {
      assert Entries(m, tab, r, s, i);
    }
    forall q: Page | In(r, q)
      ensures Translate(m', root, q) == Translate(m, root, q)
    {
      WalkInTree(m, root, tab, r, q);
    }
    forall q: Page, w: bool | In(r, q)
      ensures Granted(m', root, q, w) <==> Granted(m, root, q, w)
    {
      WalkInTree(m, root, tab, r, q);
    }
  }

  lemma SameEntries(m: Mem, m': Mem, tab: Tables)
    requires forall f :: f in tab.Values ==> SameFrame(m, m', f)
    ensures forall s, i: nat :: s in tab ==> Ent(m', tab[s], i) == Ent(m, tab[s], i)
    ensures forall s :: s in tab ==> SameFrame(m, m', tab[s])
  {
    assert forall s :: s in tab ==> tab[s] in tab.Values;
  }
}
