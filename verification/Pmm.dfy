/** The physical frame allocator: one bit per 4 KiB page, first fit from a
    rotating hint (src/kernel/mm/pmm.c). */
module Pmm {

  const PAGE_SIZE: nat := 4096
  const MAX_MEMORY_PAGES: nat := 262144
  const BITMAP_WORDS: nat := 4096
  const LOW_MEMORY: nat := 0x200000

  // ----- bits of the bitmap -----

  /** A 64-bit word, bit 0 first; `1ULL << k` selects element k. */
  type Word = w: seq<bool> | |w| == 64 witness seq(64, _ => false)

  predicate Bit(words: seq<Word>, n: nat)
    requires n < 64 * |words|
  {
    words[n / 64][n % 64]
  }

  /** The pages below `total` whose bit is set. */
  function UsedIn(words: seq<Word>, total: nat): (used: set<nat>)
    requires total <= 64 * |words|
  {
    set n: nat | n < total && Bit(words, n)
  }

  // ----- runs of clear pages -----

  predicate RunClear(used: set<nat>, total: nat, page: nat, count: nat)
  {
    page + count <= total && forall i :: page <= i < page + count ==> i !in used
  }

  /** No run of that length is clear anywhere. */
  ghost predicate NoRun(used: set<nat>, total: nat, count: nat)
  {
    forall p: nat :: p < total ==> !RunClear(used, total, p, count)
  }

  predicate InRun(page: nat, count: nat, i: nat)
  {
    page <= i < page + count
  }

  function Run(page: nat, count: nat): (r: set<nat>)
  {
    set i: nat | i < page + count && InRun(page, count, i)
  }

  lemma {:induction false} RunSize(page: nat, count: nat)
    ensures |Run(page, count)| == count
  {
    if count == 0 {
      assert Run(page, 0) == {};
    } else {
      RunSize(page, count - 1);
      assert Run(page, count) == Run(page, count - 1) + {page + count - 1};
    }
  }

  lemma SingleRun(page: nat)
    ensures Run(page, 1) == {page}
  {
    assert forall i :: InRun(page, 1, i) <==> i == page;
  }

  /** Frame numbers of the pages in `used`, the first managed frame being `base`. */
  function FramesOf(used: set<nat>, base: nat): (frames: set<nat>)
  {
    set p | p in used :: base + p
  }

  lemma FramesChange(used: set<nat>, base: nat, page: nat)
    ensures FramesOf(used + Run(page, 1), base) == FramesOf(used, base) + {base + page}
    ensures FramesOf(used - Run(page, 1), base) == FramesOf(used, base) - {base + page}
  {
    SingleRun(page);
    assert page in used + Run(page, 1);
    forall f | f in FramesOf(used, base) - {base + page}
      ensures f in FramesOf(used - Run(page, 1), base)
    {
      var p :| p in used && base + p == f;
      assert p in used - Run(page, 1);
    }
    forall f | f in FramesOf(used, base)
      ensures f in FramesOf(used + Run(page, 1), base)
    {
      var p :| p in used && base + p == f;
      assert p in used + Run(page, 1);
    }
  }

  /** Taking one page, seen as taking one frame. */
  lemma TakeFrame(start: nat, total: nat, used: set<nat>, page: nat, phys: nat)
    requires start % PAGE_SIZE == 0 && RunClear(used, total, page, 1) && phys == start + page * PAGE_SIZE
    ensures phys % PAGE_SIZE == 0 && phys / PAGE_SIZE == start / PAGE_SIZE + page && page < total
    ensures phys / PAGE_SIZE !in FramesOf(used, start / PAGE_SIZE)
    ensures FramesOf(used + Run(page, 1), start / PAGE_SIZE) == FramesOf(used, start / PAGE_SIZE) + {phys / PAGE_SIZE}
  {
    PageAddress(start, page);
    FramesChange(used, start / PAGE_SIZE, page);
    assert page !in used;
  }

  /** A page address, seen as a frame. */
  lemma FrameOf(start: nat, used: set<nat>, addr: nat)
    requires start % PAGE_SIZE == 0 && addr % PAGE_SIZE == 0
    ensures addr < start ==> addr / PAGE_SIZE !in FramesOf(used, start / PAGE_SIZE)
    ensures addr >= start ==>
              var page := (addr - start) / PAGE_SIZE;
              && addr == start + page * PAGE_SIZE && Run(page, 1) == {page}
              && (addr / PAGE_SIZE in FramesOf(used, start / PAGE_SIZE) <==> page in used)
              && FramesOf(used - Run(page, 1), start / PAGE_SIZE) == FramesOf(used, start / PAGE_SIZE) - {addr / PAGE_SIZE}
  {
    var base := start / PAGE_SIZE;
    if addr >= start {
      var page := (addr - start) / PAGE_SIZE;
      assert addr == start + page * PAGE_SIZE;
      PageAddress(start, page);
      SingleRun(page);
      FramesChange(used, base, page);
      assert page in used ==> base + page in FramesOf(used, base);
    }
  }

  lemma NoFrameLeft(start: nat, total: nat, used: set<nat>)
    requires NoRun(used, total, 1)
    ensures forall f: nat :: start / PAGE_SIZE <= f < start / PAGE_SIZE + total ==> f in FramesOf(used, start / PAGE_SIZE)
  {
    var base := start / PAGE_SIZE;
    forall f: nat | base <= f < base + total
      ensures f in FramesOf(used, base)
    {
      assert !RunClear(used, total, f - base, 1);
      assert f == base + (f - base);
    }
  }

  lemma FramesInjective(used: set<nat>, used': set<nat>, base: nat)
    requires FramesOf(used, base) == FramesOf(used', base)
    ensures used == used'
  {
    forall p: nat
      ensures p in used <==> p in used'
    {
      assert p in used <==> base + p in FramesOf(used, base);
      assert p in used' <==> base + p in FramesOf(used', base);
    }
  }

  lemma PageAddress(start: nat, page: nat)
    requires start % PAGE_SIZE == 0
    ensures (start + page * PAGE_SIZE) % PAGE_SIZE == 0
    ensures (start + page * PAGE_SIZE) / PAGE_SIZE == start / PAGE_SIZE + page
  {
  }

  /** Page `page` of the managed range has a byte in [from, to). */
  predicate Touches(start: nat, page: nat, from: nat, to: nat)
  {
    from < to && start + page * PAGE_SIZE < to && from < start + (page + 1) * PAGE_SIZE
  }

  function Touched(start: nat, total: nat, from: nat, to: nat): (pages: set<nat>)
  {
    set p: nat | p < total && Touches(start, p, from, to)
  }

  function Min(a: nat, b: nat): nat
  {
    if a < b then a else b
  }

  function PageAt(start: nat, total: nat, addr: nat): (pages: set<nat>)
  {
    if start <= addr && (addr - start) / PAGE_SIZE < total then {(addr - start) / PAGE_SIZE} else {}
  }

  lemma BeyondEnd(start: nat, total: nat, end: nat, addr: nat)
    requires start + total * PAGE_SIZE <= end <= addr
    ensures PageAt(start, total, addr) == {}
  {
  }

  lemma RunTaken(used: set<nat>, page: nat, count: nat)
    requires Run(page, count) <= used
    ensures |used - Run(page, count)| == |used| - count
  {
    RunSize(page, count);
    assert |used| == |used - Run(page, count)| + |Run(page, count)|;
  }

  /** One more page of the byte range: the page at `addr`, if it is managed. */
  lemma UnionStep(used: set<nat>, marked: set<nat>, page: set<nat>, now: set<nat>)
    requires now == used + marked + page
    ensures now == used + (marked + page)
  {
  }

  lemma TouchedStep(start: nat, total: nat, from: nat, addr: nat, to: nat)
    requires start % PAGE_SIZE == 0 && addr % PAGE_SIZE == 0
    requires from < to && from - from % PAGE_SIZE <= addr < to
    ensures Touched(start, total, from, Min(addr + PAGE_SIZE, to))
         == Touched(start, total, from, addr)
            + PageAt(start, total, addr)
  {
    var s, a := start / PAGE_SIZE, addr / PAGE_SIZE;
    assert start == s * PAGE_SIZE && addr == a * PAGE_SIZE;
    forall p: nat
      ensures Touches(start, p, from, Min(addr + PAGE_SIZE, to))
          <==> Touches(start, p, from, addr) || s + p == a
    {
      assert start + p * PAGE_SIZE == (s + p) * PAGE_SIZE;
    }
  }

  lemma NextPage(addr: nat, to: nat)
    requires addr % PAGE_SIZE == 0 && addr < (to + PAGE_SIZE - 1) / PAGE_SIZE * PAGE_SIZE
    ensures addr < to && (addr + PAGE_SIZE) % PAGE_SIZE == 0
    ensures addr + PAGE_SIZE <= (to + PAGE_SIZE - 1) / PAGE_SIZE * PAGE_SIZE
  {
    assert addr / PAGE_SIZE < (to + PAGE_SIZE - 1) / PAGE_SIZE;
  }

  lemma CoveredStep(start: nat, total: nat, ranges: seq<(nat, nat)>, k: nat)
    requires k < |ranges|
    ensures Covered(start, total, ranges[..k + 1])
         == Covered(start, total, ranges[..k]) + Touched(start, total, ranges[k].0, ranges[k].1)
  {
    forall p | p in Covered(start, total, ranges[..k]) + Touched(start, total, ranges[k].0, ranges[k].1)
      ensures p in Covered(start, total, ranges[..k + 1])
    {
      if p in Touched(start, total, ranges[k].0, ranges[k].1) {
        assert ranges[..k + 1][k] == ranges[k];
      } else {
        var i: nat :| i < k && p < total && Touches(start, p, ranges[..k][i].0, ranges[..k][i].1);
        assert ranges[..k + 1][i] == ranges[..k][i];
      }
    }
  }

  function Covered(start: nat, total: nat, ranges: seq<(nat, nat)>): (pages: set<nat>)
  {
    set p: nat, k: nat | k < |ranges| && p < total && Touches(start, p, ranges[k].0, ranges[k].1) :: p
  }

  /** The i-th page the search looks at when it starts from `hint`. */
  function Visit(hint: nat, total: nat, i: nat): (page: nat)
    requires total > 0
  {
    (hint % total + i) % total
  }

  lemma WrapOnce(total: nat, page: nat)
    requires page < total
    ensures (total + page) % total == page
  {
    assert total + page == 1 * total + page;
  }

  /** Every page is visited by the rotating search, whatever the hint. */
  lemma RotationCovers(hint: nat, total: nat, page: nat) returns (i: nat)
    requires page < total
    ensures i < total && Visit(hint, total, i) == page
  {
    var h := hint % total;
    if h <= page {
      i := page - h;
    } else {
      i := page + total - h;
      WrapOnce(total, page);
    }
  }

  /** The first clear run in rotating order, from the i-th page looked at; -1 for none. */
  function FirstRun(used: set<nat>, total: nat, hint: nat, count: nat, i: nat): (found: int)
    requires total > 0 && i <= total
    ensures found == -1 || (0 <= found < total && RunClear(used, total, found, count))
    decreases total - i
  {
    if i == total then -1
    else if RunClear(used, total, Visit(hint, total, i), count) then Visit(hint, total, i)
    else FirstRun(used, total, hint, count, i + 1)
  }

  lemma {:induction false} FirstRunMisses(used: set<nat>, total: nat, hint: nat, count: nat, i: nat, j: nat)
    requires i <= j < total && RunClear(used, total, Visit(hint, total, j), count)
    ensures FirstRun(used, total, hint, count, i) >= 0
    decreases total - i
  {
    if i < j {
      FirstRunMisses(used, total, hint, count, i + 1, j);
    }
  }

  /** The rotating search misses no run, whatever the hint. */
  lemma FirstRunFinds(used: set<nat>, total: nat, hint: nat, count: nat)
    requires total > 0
    ensures FirstRun(used, total, hint, count, 0) == -1 <==> NoRun(used, total, count)
  {
    if p: nat :| p < total && RunClear(used, total, p, count) {
      var i := RotationCovers(hint, total, p);
      FirstRunMisses(used, total, hint, count, 0, i);
    }
  }

  /** The search takes the nearest run at or above the hint, and one below it only
      when there is none above. */
  lemma FirstRunIsNearest(used: set<nat>, total: nat, hint: nat, count: nat, p: nat)
    requires total > 0 && p < total && RunClear(used, total, p, count)
    ensures Nearest(hint % total, FirstRun(used, total, hint, count, 0), p)
  {
    var i := RotationCovers(hint, total, p);
    FirstRunWithin(used, total, hint, count, 0, i);
    var k: nat :| k <= i && FirstRun(used, total, hint, count, 0) == Visit(hint, total, k);
    VisitIs(hint, total, i);
    VisitIs(hint, total, k);
  }

  /** Looking upwards from h and then from 0, one comes to `found` no later than to p. */
  predicate Nearest(h: nat, found: int, p: nat)
  {
    found >= 0 && if p >= h then h <= found <= p else found >= h || found <= p
  }

  lemma VisitIs(hint: nat, total: nat, i: nat)
    requires i < total
    ensures Visit(hint, total, i) == if hint % total + i < total then hint % total + i else hint % total + i - total
  {
    var h := hint % total;
    if h + i < total {
      WrapOnce(total, h + i);
      assert (h + i) % total == h + i;
    } else {
      WrapOnce(total, h + i - total);
      assert total + (h + i - total) == h + i;
    }
  }

  lemma {:induction false} FirstRunWithin(used: set<nat>, total: nat, hint: nat, count: nat, i: nat, j: nat)
    requires total > 0 && i <= j < total && RunClear(used, total, Visit(hint, total, j), count)
    ensures exists k: nat :: i <= k <= j && FirstRun(used, total, hint, count, i) == Visit(hint, total, k)
    decreases total - i
  {
    if i < j && !RunClear(used, total, Visit(hint, total, i), count) {
      FirstRunWithin(used, total, hint, count, i + 1, j);
    } else {
      assert FirstRun(used, total, hint, count, i) == Visit(hint, total, i);
    }
  }

  /** The number of set bits says whether any page is left. */
  lemma {:induction false} FullCount(used: set<nat>, total: nat)
    requires forall p :: p in used ==> p < total
    ensures |used| <= total
    ensures |used| == total <==> forall p :: 0 <= p < total ==> p in used
    decreases total
  {
    if total == 0 {
      assert used == {};
    } else {
      var rest := used - {total - 1};
      FullCount(rest, total - 1);
      assert total - 1 !in used ==> rest == used;
      assert total - 1 in used ==> used == rest + {total - 1};
    }
  }

  // ----- the allocator -----

  class FrameAllocator {
    const bitmap: array<Word>
    const totalPages: nat
    const start: nat
    const end: nat
    var usedPages: nat
    var lastAllocHint: nat

    ghost predicate Shape()
      reads this
    {
      && bitmap.Length == BITMAP_WORDS
      && totalPages <= MAX_MEMORY_PAGES
      && start % PAGE_SIZE == 0
      && start + totalPages * PAGE_SIZE <= end < start + (totalPages + 1) * PAGE_SIZE
    }

    ghost function Used(): (used: set<nat>)
      requires Shape()
      reads this, bitmap
    {
      UsedIn(bitmap[..], totalPages)
    }

    ghost predicate Valid()
      reads this, bitmap
    {
      Shape() && usedPages == |Used()|
    }

    /** Page 0 is not available, so address 0 can stand for failure. */
    ghost predicate ZeroReserved()
      requires Shape()
      reads this, bitmap
    {
      start == 0 && 0 < totalPages ==> 0 in Used()
    }

    /** Starts from an all-clear bitmap and takes out the given byte ranges: the
        low 2 MiB, the kernel image, its boot tables and the bitmap itself. */
    constructor (memStart: nat, memEnd: nat, reserved: seq<(nat, nat)>)
      requires memStart % PAGE_SIZE == 0 && memStart < memEnd
      ensures Valid() && fresh(bitmap) && start == memStart
      ensures totalPages == if (memEnd - memStart) / PAGE_SIZE <= MAX_MEMORY_PAGES
                            then (memEnd - memStart) / PAGE_SIZE else MAX_MEMORY_PAGES
      ensures memStart == 0 ==> ZeroReserved()
      ensures Used() == Covered(start, totalPages, (if start < LOW_MEMORY then [(start, LOW_MEMORY)] else []) + reserved)
    {
      var total := (memEnd - memStart) / PAGE_SIZE;
      start, end, totalPages := memStart, memEnd, total;
      if total > MAX_MEMORY_PAGES {
        totalPages := MAX_MEMORY_PAGES;
        end := memStart + MAX_MEMORY_PAGES * PAGE_SIZE;
      }
      usedPages, lastAllocHint := 0, 0;
      bitmap := new Word[BITMAP_WORDS](_ => seq(64, _ => false));
      new;
      assert Used() == {};
      var ranges := (if start < LOW_MEMORY then [(start, LOW_MEMORY)] else []) + reserved;
      MarkRanges(ranges);
      assert memStart == 0 ==> ranges[0] == (0, LOW_MEMORY) && Touches(0, 0, 0, LOW_MEMORY);
    }

    method MarkRanges(ranges: seq<(nat, nat)>)
      requires Valid() && Used() == {}
      modifies this`usedPages, bitmap
      ensures Valid() && Used() == Covered(start, totalPages, ranges)
    {
      for i := 0 to |ranges|
        invariant Valid() && Used() == Covered(start, totalPages, ranges[..i])
      {
        MarkUsed(ranges[i].0, ranges[i].1);
        CoveredStep(start, totalPages, ranges, i);
      }
      assert ranges[..|ranges|] == ranges;
    }

    method SetBit(bit: nat)
      requires Shape()
      modifies bitmap
      ensures Used() == old(Used()) + (if bit < totalPages then {bit} else {})
    {
      if bit >= totalPages { return; }
      bitmap[bit / 64] := bitmap[bit / 64][bit % 64 := true];
    }

    method ClearBit(bit: nat)
      requires Shape()
      modifies bitmap
      ensures Used() == old(Used()) - {bit}
    {
      if bit >= totalPages { return; }
      bitmap[bit / 64] := bitmap[bit / 64][bit % 64 := false];
    }

    function TestBit(bit: nat): (set_: bool)
      requires Shape()
      reads this, bitmap
      ensures set_ == (bit >= totalPages || bit in Used())
    {
      if bit >= totalPages then true else bitmap[bit / 64][bit % 64]
    }

    method MarkPage(addr: nat)
      requires Valid() && addr % PAGE_SIZE == 0
      modifies this`usedPages, bitmap
      ensures Valid()
      ensures Used() == old(Used()) + PageAt(start, totalPages, addr)
    {
      if addr >= end { BeyondEnd(start, totalPages, end, addr); }
      if addr < start || addr >= end { return; }
      var page := (addr - start) / PAGE_SIZE;
      if !TestBit(page) {
        SetBit(page);
        usedPages := usedPages + 1;
      }
    }

    /** Marks every managed page that the byte range [from, to) touches. */
    method MarkUsed(from: nat, to: nat)
      requires Valid()
      modifies this`usedPages, bitmap
      ensures Valid()
      ensures Used() == old(Used()) + Touched(start, totalPages, from, to)
    {
      if from >= to { return; }
      var addr := from - from % PAGE_SIZE;
      var stop := (to + PAGE_SIZE - 1) / PAGE_SIZE * PAGE_SIZE;
      ghost var used := Used();
      while addr < stop
        invariant Valid() && addr % PAGE_SIZE == 0 && from - from % PAGE_SIZE <= addr <= stop
        invariant Used() == used + Touched(start, totalPages, from, Min(addr, to))
      {
        MarkNext(from, to, addr, stop, used);
        addr := addr + PAGE_SIZE;
      }
    }

    /** One page of the range. */
    method MarkNext(from: nat, to: nat, addr: nat, stop: nat, ghost used: set<nat>)
      requires Valid() && addr % PAGE_SIZE == 0 && from - from % PAGE_SIZE <= addr < stop && from < to
      requires stop == (to + PAGE_SIZE - 1) / PAGE_SIZE * PAGE_SIZE
      requires Used() == used + Touched(start, totalPages, from, Min(addr, to))
      modifies this`usedPages, bitmap
      ensures Valid() && (addr + PAGE_SIZE) % PAGE_SIZE == 0 && addr + PAGE_SIZE <= stop
      ensures Used() == used + Touched(start, totalPages, from, Min(addr + PAGE_SIZE, to))
    {
      NextPage(addr, to);
      MarkPage(addr);
      TouchedStep(start, totalPages, from, addr, to);
      UnionStep(used, Touched(start, totalPages, from, Min(addr, to)), PageAt(start, totalPages, addr), Used());
    }

    method RangeIsClear(page: nat, count: nat) returns (clear: bool)
      requires Shape()
      ensures clear == (count > 0 && page < totalPages && RunClear(Used(), totalPages, page, count))
    {
      if count == 0 || page >= totalPages || page + count > totalPages { return false; }
      for i := 0 to count
        invariant RunClear(Used(), totalPages, page, i)
      {
        if TestBit(page + i) { return false; }
      }
      return true;
    }

    method SetRange(page: nat, count: nat)
      requires Shape() && page + count <= totalPages
      modifies bitmap
      ensures Used() == old(Used()) + Run(page, count)
    {
      for j := 0 to count
        invariant Used() == old(Used()) + Run(page, j)
      {
        SetBit(page + j);
      }
    }

    method ClearRange(page: nat, count: nat)
      requires Shape() && page + count <= totalPages
      modifies bitmap
      ensures Used() == old(Used()) - Run(page, count)
    {
      for j := 0 to count
        invariant Used() == old(Used()) - Run(page, j)
      {
        ClearBit(page + j);
      }
    }

    /** The search loop of pmm_alloc_pages: the first clear run in rotating
        order from the hint, or -1 when no run of that length exists anywhere. */
    method FindRun(count: nat) returns (found: int)
      requires Valid() && totalPages > 0 && count > 0
      ensures found == FirstRun(Used(), totalPages, lastAllocHint, count, 0)
    {
      var hint := lastAllocHint % totalPages;
      for i := 0 to totalPages
        invariant FirstRun(Used(), totalPages, lastAllocHint, count, 0) == FirstRun(Used(), totalPages, lastAllocHint, count, i)
      {
        var page := (hint + i) % totalPages;
        assert page == Visit(lastAllocHint, totalPages, i);
        if page + count > totalPages { continue; }
        var clear := RangeIsClear(page, count);
        if clear { return page; }
      }
      return -1;
    }

    /** `found` is the page the search chose; the physical address is what the
        caller sees, with 0 for failure. */
    method AllocPages(count: nat) returns (phys: nat, ghost found: int)
      requires Valid() && totalPages > 0
      modifies this`usedPages, this`lastAllocHint, bitmap
      ensures Valid()
      ensures found < 0 <==> count == 0 || NoRun(old(Used()), totalPages, count)
      ensures count > 0 ==> found == old(FirstRun(Used(), totalPages, lastAllocHint, count, 0))
      ensures forall p: nat :: count > 0 && p < totalPages && RunClear(old(Used()), totalPages, p, count) ==>
                Nearest(old(lastAllocHint) % totalPages, found, p)
      ensures found < 0 ==> phys == 0 && Used() == old(Used()) && unchanged(this)
      ensures found >= 0 ==>
                && phys == start + found * PAGE_SIZE
                && RunClear(old(Used()), totalPages, found, count)
                && Used() == old(Used()) + Run(found, count)
                && usedPages == old(usedPages) + count
                && lastAllocHint == found + count
      ensures old(ZeroReserved()) ==> ZeroReserved() && (phys == 0 <==> found < 0)
    {
      found := -1;
      if count == 0 { return 0, -1; }
      FirstRunFinds(Used(), totalPages, lastAllocHint, count);
      forall p: nat | p < totalPages && RunClear(Used(), totalPages, p, count)
        ensures Nearest(lastAllocHint % totalPages, FirstRun(Used(), totalPages, lastAllocHint, count, 0), p)
      {
        FirstRunIsNearest(Used(), totalPages, lastAllocHint, count, p);
      }
      var page := FindRun(count);
      if page < 0 { return 0, -1; }
      TakeRun(page, count);
      return start + page * PAGE_SIZE, page;
    }

    method TakeRun(page: nat, count: nat)
      requires Valid() && RunClear(Used(), totalPages, page, count)
      modifies this`usedPages, this`lastAllocHint, bitmap
      ensures Valid() && Used() == old(Used()) + Run(page, count)
      ensures usedPages == old(usedPages) + count && lastAllocHint == page + count
    {
      RunSize(page, count);
      SetRange(page, count);
      usedPages := usedPages + count;
      lastAllocHint := page + count;
      assert old(Used()) !! Run(page, count);
    }

    method AllUsed(page: nat, count: nat) returns (all: bool)
      requires Shape() && page + count <= totalPages
      ensures all <==> Run(page, count) <= Used()
    {
      for i := 0 to count
        invariant forall k :: page <= k < page + i ==> k in Used()
      {
        if !TestBit(page + i) {
          assert page + i in Run(page, count);
          return false;
        }
      }
      return true;
    }

    /** All or nothing: the range is released only if every page of it is used. */
    method FreePages(addr: nat, count: nat) returns (ghost freed: bool)
      requires Valid()
      modifies this`usedPages, this`lastAllocHint, bitmap
      ensures Valid()
      ensures freed <==>
                && count > 0 && start <= addr && addr % PAGE_SIZE == 0
                && (addr - start) / PAGE_SIZE + count <= totalPages
                && Run((addr - start) / PAGE_SIZE, count) <= old(Used())
      ensures !freed ==> Used() == old(Used()) && unchanged(this)
      ensures freed ==>
                && Used() == old(Used()) - Run((addr - start) / PAGE_SIZE, count)
                && usedPages == old(usedPages) - count
      ensures old(ZeroReserved()) && addr != 0 ==> ZeroReserved()
    {
      freed := false;
      if count == 0 { return; }
      if addr < start || addr >= end { return; }
      if addr % PAGE_SIZE != 0 { return; }
      var page := (addr - start) / PAGE_SIZE;
      if page + count > totalPages { return; }
      var all := AllUsed(page, count);
      if !all { return; }
      ClearRange(page, count);
      RunTaken(old(Used()), page, count);
      usedPages := usedPages - count;
      if page < lastAllocHint { lastAllocHint := page; }
      freed := true;
    }

    // ----- one page at a time, by frame number -----

    predicate Managed(f: nat)
      reads this
    {
      start / PAGE_SIZE <= f < start / PAGE_SIZE + totalPages
    }

    /** Frame numbers of the pages in use. */
    ghost function Frames(): (frames: set<nat>)
      requires Shape()
      reads this, bitmap
    {
      FramesOf(Used(), start / PAGE_SIZE)
    }

    ghost predicate Ready()
      reads this, bitmap
    {
      Valid() && totalPages > 0 && ZeroReserved()
    }

    /** How many pages are left: what the kernel reports as free memory, in pages. */
    function Spare(): int
      reads this
    {
      totalPages - usedPages
    }

    lemma SpareMeans()
      requires Valid()
      ensures 0 <= Spare() && (Spare() == 0 <==> forall f: nat :: Managed(f) ==> f in Frames())
    {
      FullCount(Used(), totalPages);
      var base := start / PAGE_SIZE;
      if Spare() == 0 {
        forall f: nat | Managed(f)
          ensures f in Frames()
        {
          assert f - base in Used();
        }
      } else {
        var p :| 0 <= p < totalPages && p !in Used();
        assert Managed(base + p);
        assert base + p !in Frames();
      }
    }

    /** The frame the next single-page request gets. */
    ghost function NextFrame(): int
      requires Valid() && totalPages > 0
      reads this, bitmap
    {
      start / PAGE_SIZE + FirstRun(Used(), totalPages, lastAllocHint, 1, 0)
    }

    lemma ZeroFrame()
      requires Ready()
      ensures 0 in Frames() <==> start == 0
      ensures forall f :: f in Frames() ==> Managed(f)
    {
      if start == 0 {
        assert 0 in Used();
      }
    }

    method AllocPage() returns (phys: nat)
      requires Ready()
      modifies this`usedPages, this`lastAllocHint, bitmap
      ensures Ready() && phys % PAGE_SIZE == 0
      ensures phys == 0 ==>
                && Frames() == old(Frames()) && usedPages == old(usedPages)
                && forall f: nat :: Managed(f) ==> f in Frames()
      ensures phys != 0 ==>
                && Managed(phys / PAGE_SIZE) && phys / PAGE_SIZE !in old(Frames())
                && Frames() == old(Frames()) + {phys / PAGE_SIZE}
                && usedPages == old(usedPages) + 1
                && phys / PAGE_SIZE == old(NextFrame())
      ensures phys == 0 <==> old(Spare()) == 0
    {
      SpareMeans();
      ghost var found;
      ghost var used := Used();
      phys, found := AllocPages(1);
      if found >= 0 {
        TakeFrame(start, totalPages, used, found, phys);
      } else {
        NoFrameLeft(start, totalPages, Used());
      }
    }

    method FreePage(addr: nat)
      requires Ready() && addr != 0
      modifies this`usedPages, this`lastAllocHint, bitmap
      ensures Ready()
      ensures if addr % PAGE_SIZE == 0 && addr / PAGE_SIZE in old(Frames())
              then Frames() == old(Frames()) - {addr / PAGE_SIZE} && usedPages == old(usedPages) - 1
              else Frames() == old(Frames()) && usedPages == old(usedPages)
    {
      ghost var freed := FreePages(addr, 1);
      if addr % PAGE_SIZE == 0 {
        FrameOf(start, old(Used()), addr);
      }
    }
  }
}
