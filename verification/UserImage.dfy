/** The memory image of a user program: which pages are mapped to which frames,
    and what bytes they hold; and the page-by-page writes into it that the ELF
    loader and the argument builder share (src/kernel/loader/elf.c,
    src/kernel/task/task.c). */
module UserImage {
  import opened PageTable
  import opened Pmm
  import opened Vmm
  import opened Uaccess
  import AddressSpace

  /** Page numbers of the user half. */
  const FIRST_PAGE: nat := 0x800_0000
  const END_PAGE: nat := 0x8_0000_0000

  /** The user pages by number: the frame and the bits of each. */
  type Pages = map<nat, Leaf>

  function VPage(n: nat): Page
  {
    PageOf(n * PAGE_SIZE)
  }

  function PageNo(a: nat): nat
  {
    a / PAGE_SIZE
  }

  /** The physical address of a user address, 0 when it is not mapped. */
  function At(pages: Pages, a: nat): nat
  {
    if PageNo(a) in pages then pages[PageNo(a)].frame * PAGE_SIZE + a % PAGE_SIZE else 0
  }

  function Flat(pages: Pages): nat -> nat
  {
    (a: nat) => At(pages, a)
  }

  /** Every page on a frame of its own, all of them in use. */
  ghost predicate Placed(pages: Pages, frames: set<nat>) {
    && (forall n :: n in pages ==> FIRST_PAGE <= n < END_PAGE && pages[n].user && pages[n].frame > 0 && pages[n].frame in frames)
    && (forall n, k :: n in pages && k in pages && pages[n].frame == pages[k].frame ==> n == k)
  }

  /** The page tables map exactly these pages. */
  ghost predicate Tabled(m: Mem, root: nat, pages: Pages) {
    forall n: nat {:trigger VPage(n)} :: FIRST_PAGE <= n < END_PAGE ==>
      Translate(m, root, VPage(n)) == if n in pages then Some(pages[n]) else None
  }

  /** The mapped bytes. */
  ghost predicate Holding(ram: Memory, pages: Pages, img: nat -> Byte) {
    forall a: nat {:trigger At(pages, a)} :: PageNo(a) in pages ==> Load(ram, At(pages, a)) == img(a)
  }

  function Patched(img: nat -> Byte, addr: nat, src: seq<Byte>): nat -> Byte
  {
    (a: nat) => if addr <= a < addr + |src| then src[a - addr] else img(a)
  }

  /** All bytes of a range lie on mapped pages. */
  ghost predicate Spans(pages: Pages, addr: nat, n: nat) {
    forall a: nat {:trigger PageNo(a)} :: addr <= a < addr + n ==> PageNo(a) in pages
  }

  // ----- addresses -----

  lemma SamePage(a: nat)
    ensures PageOf(a) == VPage(PageNo(a))
  {
    Shifts(a);
    Shifts(PageNo(a) * PAGE_SIZE);
  }

  lemma VPageRange(n: nat)
    requires FIRST_PAGE <= n < END_PAGE
    ensures In(AddressSpace.USER, VPage(n)) && IsCanonical(n * PAGE_SIZE)
  {
    Shifts(n * PAGE_SIZE);
    assert n * PAGE_SIZE / PAGE_SIZE == n;
  }

  lemma VPageInjective(n: nat, k: nat)
    requires n < END_PAGE && k < END_PAGE && VPage(n) == VPage(k)
    ensures n == k
  {
    PageOfInjective(n * PAGE_SIZE, k * PAGE_SIZE);
  }

  lemma PhysIsAt(m: Mem, root: nat, pages: Pages, a: nat)
    requires Tabled(m, root, pages) && FIRST_PAGE <= PageNo(a) < END_PAGE
    ensures Phys(m, root, a) == At(pages, a)
  {
    SamePage(a);
  }

  lemma AtInjective(pages: Pages, frames: set<nat>, a: nat, b: nat)
    requires Placed(pages, frames) && PageNo(a) in pages && At(pages, a) == At(pages, b)
    ensures a == b
  {
    assert At(pages, a) / PAGE_SIZE == pages[PageNo(a)].frame && At(pages, a) % PAGE_SIZE == a % PAGE_SIZE;
    assert PageNo(b) in pages;
    assert At(pages, b) / PAGE_SIZE == pages[PageNo(b)].frame && At(pages, b) % PAGE_SIZE == b % PAGE_SIZE;
  }

  // ----- writes -----

  /** A write through the page tables patches the image and nothing else. */
  lemma WriteHolding(ram: Memory, pages: Pages, frames: set<nat>, img: nat -> Byte, addr: nat, src: seq<Byte>)
    requires Placed(pages, frames) && Holding(ram, pages, img) && Spans(pages, addr, |src|)
    ensures Holding(WriteUser(ram, Flat(pages), addr, src), pages, Patched(img, addr, src))
  {
    var f := Flat(pages);
    var after := WriteUser(ram, f, addr, src);
    forall a: nat | PageNo(a) in pages
      ensures Load(after, At(pages, a)) == Patched(img, addr, src)(a)
    {
      assert f(a) == At(pages, a);
      if addr <= a < addr + |src| {
        LastWriteWins(ram, f, addr, src, a);
        AtInjective(pages, frames, a, LastAlias(f, addr + |src|, a));
      } else {
        forall v: nat | addr <= v < addr + |src|
          ensures f(v) != f(a)
        {
          if f(v) == f(a) {
            AtInjective(pages, frames, a, v);
          }
        }
        Untouched(ram, f, addr, src, At(pages, a));
      }
    }
  }

  /** The part of a range that lies on the page of its next byte. */
  lemma ChunkFlat(pages: Pages, virt: nat, left: nat)
    requires left > 0
    ensures var chunk := ChunkSize(virt, left);
            && 0 < chunk <= left
            && forall a: nat {:trigger PageNo(a)} :: virt <= a < virt + chunk ==> PageNo(a) == PageNo(virt)
    ensures PageNo(virt) in pages ==>
              Consecutive(Flat(pages), virt, ChunkSize(virt, left),
                          At(pages, virt) - At(pages, virt) % PAGE_SIZE + virt % PAGE_SIZE)
  {
    var chunk := ChunkSize(virt, left);
    var f := Flat(pages);
    forall a: nat | virt <= a < virt + chunk
      ensures PageNo(a) == PageNo(virt)
      ensures PageNo(virt) in pages ==>
                f(a) == At(pages, virt) - At(pages, virt) % PAGE_SIZE + virt % PAGE_SIZE + (a - virt)
    {
      InPage(virt, a);
    }
  }

  /** One round of the write loops. */
  lemma ChunkStep(pages: Pages, addr: nat, done: nat, size: nat)
    requires done < size && Spans(pages, addr, done)
    requires forall n :: n in pages ==> pages[n].frame > 0
    ensures var virt, chunk := addr + done, ChunkSize(addr + done, size - done);
            && 0 < chunk <= size - done
            && (if At(pages, virt) == 0 then !Spans(pages, addr, size)
                else
                  && Spans(pages, addr, done + chunk)
                  && Consecutive(Flat(pages), virt, chunk, At(pages, virt) - At(pages, virt) % PAGE_SIZE + virt % PAGE_SIZE))
  {
    var virt := addr + done;
    ChunkFlat(pages, virt, size - done);
    assert PageNo(virt) in pages <==> At(pages, virt) != 0;
  }

  class UserMemory {
    var ram: Memory
    const mgr: Manager

    constructor (ram: Memory, mgr: Manager)
      ensures this.ram == ram && this.mgr == mgr
    {
      this.ram, this.mgr := ram, mgr;
    }

    ghost predicate InUser(addr: nat, n: nat) {
      FIRST_PAGE * PAGE_SIZE <= addr && addr + n <= END_PAGE * PAGE_SIZE
    }

    /** vmm_get_physical of a user address. */
    method Locate(dir: PageDirectory, virt: nat, ghost pages: Pages) returns (phys: nat)
      requires Tabled(mgr.mem, dir.root, pages) && FIRST_PAGE <= PageNo(virt) < END_PAGE
      ensures phys == At(pages, virt)
    {
      phys := mgr.GetPhysical(dir, virt);
      PhysIsAt(mgr.mem, dir.root, pages, virt);
      assert phys == Phys(mgr.mem, dir.root, virt);
    }

    /** The start of one round of the write loops: how much lies on this page, and where. */
    method NextChunk(dir: PageDirectory, addr: nat, done: nat, size: nat, ghost pages: Pages)
      returns (found: bool, chunk: nat, at: nat)
      requires Tabled(mgr.mem, dir.root, pages) && InUser(addr, size) && done < size && Spans(pages, addr, done)
      requires forall n :: n in pages ==> pages[n].frame > 0
      ensures !found ==> !Spans(pages, addr, size)
      ensures found ==>
                && done < done + chunk <= size && Spans(pages, addr, done + chunk)
                && Consecutive(Flat(pages), addr + done, chunk, at)
    {
      var virt := addr + done;
      var phys := Locate(dir, virt, pages);
      ChunkStep(pages, addr, done, size);
      if phys == 0 { return false, 0, 0; }
      return true, ChunkSize(virt, size - done), phys - phys % PAGE_SIZE + virt % PAGE_SIZE;
    }

    /** elf_copy_to_user and task_write_user: page by page through the tables. */
    method WriteBytes(dir: PageDirectory, addr: nat, src: seq<Byte>, ghost pages: Pages) returns (ok: bool)
      requires Tabled(mgr.mem, dir.root, pages) && InUser(addr, |src|)
      requires forall n :: n in pages ==> pages[n].frame > 0
      modifies this`ram
      ensures ok <==> src != [] && Spans(pages, addr, |src|)
      ensures ok ==> ram == WriteUser(old(ram), Flat(pages), addr, src)
    {
      if src == [] { return false; }
      var copied := 0;
      while copied < |src|
        invariant copied <= |src| && Spans(pages, addr, copied)
        invariant ram == WriteUser(old(ram), Flat(pages), addr, src[..copied])
      {
        var found, chunk, at := NextChunk(dir, addr, copied, |src|, pages);
        if !found { return false; }
        WriteChunk(src, addr, copied, chunk, at, old(ram), Flat(pages));
        copied := copied + chunk;
      }
      assert src[..copied] == src;
      ok := true;
    }

    method WriteChunk(src: seq<Byte>, addr: nat, copied: nat, chunk: nat, at: nat, ghost before: Memory, ghost f: nat -> nat)
      requires copied + chunk <= |src| && Consecutive(f, addr + copied, chunk, at)
      requires ram == WriteUser(before, f, addr, src[..copied])
      modifies this`ram
      ensures ram == WriteUser(before, f, addr, src[..copied + chunk])
    {
      for i := 0 to chunk
        invariant ram == WriteUser(before, f, addr, src[..copied + i])
      {
        WriteNext(before, f, addr, src, copied + i);
        ram := Store(ram, at + i, src[copied + i]);
      }
    }

    /** elf_zero_user */
    method ZeroBytes(dir: PageDirectory, addr: nat, len: nat, ghost pages: Pages) returns (ok: bool)
      requires Tabled(mgr.mem, dir.root, pages) && InUser(addr, len)
      requires forall n :: n in pages ==> pages[n].frame > 0
      modifies this`ram
      ensures ok <==> len > 0 && Spans(pages, addr, len)
      ensures ok ==> ram == WriteUser(old(ram), Flat(pages), addr, Zeros(len))
    {
      if len == 0 { return false; }
      var zeroed := 0;
      while zeroed < len
        invariant zeroed <= len && Spans(pages, addr, zeroed)
        invariant ram == ZeroUser(old(ram), Flat(pages), addr, zeroed)
      {
        var found, chunk, at := NextChunk(dir, addr, zeroed, len, pages);
        if !found { return false; }
        ZeroChunk(addr, zeroed, chunk, at, old(ram), Flat(pages));
        zeroed := zeroed + chunk;
      }
      ZeroIsWrite(old(ram), Flat(pages), addr, len);
      ok := true;
    }

    method ZeroChunk(addr: nat, zeroed: nat, chunk: nat, at: nat, ghost before: Memory, ghost f: nat -> nat)
      requires Consecutive(f, addr + zeroed, chunk, at)
      requires ram == ZeroUser(before, f, addr, zeroed)
      modifies this`ram
      ensures ram == ZeroUser(before, f, addr, zeroed + chunk)
    {
      for i := 0 to chunk
        invariant ram == ZeroUser(before, f, addr, zeroed + i)
      {
        assert f(addr + zeroed + i) == at + i;
        ram := Store(ram, at + i, 0);
      }
    }

    /** The zeroing of a new frame through the kernel's direct map. */
    method ZeroFrame(phys: nat)
      modifies this`ram
      ensures ram == WriteUser(old(ram), Direct(), phys, Zeros(PAGE_SIZE))
    {
      ZeroChunk(phys, 0, PAGE_SIZE, phys, old(ram), Direct());
      ZeroIsWrite(old(ram), Direct(), phys, PAGE_SIZE);
    }
  }

  function Direct(): nat -> nat
  {
    (x: nat) => x
  }

  // ----- one more page -----

  function WithPage(pages: Pages, n: nat, leaf: Leaf): Pages
  {
    pages[n := leaf]
  }

  /** A mapping call that left all other pages alone. */
  lemma TabledAfter(m: Mem, m': Mem, root: nat, pages: Pages, n: nat, leaf: Leaf)
    requires Tabled(m, root, pages) && FIRST_PAGE <= n < END_PAGE
    requires Translate(m', root, VPage(n)) == Some(leaf)
    requires forall q: Page :: In(AddressSpace.USER, q) && q != VPage(n) ==> Translate(m', root, q) == Translate(m, root, q)
    ensures Tabled(m', root, WithPage(pages, n, leaf))
  {
    forall k: nat | FIRST_PAGE <= k < END_PAGE && k != n
      ensures Translate(m', root, VPage(k)) == if k in pages then Some(pages[k]) else None
    {
      VPageRange(k);
      if VPage(k) == VPage(n) {
        VPageInjective(k, n);
      }
    }
  }

  function Cleared(img: nat -> Byte, n: nat): nat -> Byte
  {
    (a: nat) => if PageNo(a) == n then 0 else img(a)
  }

  /** A zeroed frame nobody used joins the image as a page of zeros. */
  lemma NewPageHolding(ram: Memory, pages: Pages, frames: set<nat>, img: nat -> Byte, n: nat, leaf: Leaf)
    requires Placed(pages, frames) && Holding(ram, pages, img) && n !in pages && leaf.frame !in frames
    ensures Holding(WriteUser(ram, Direct(), leaf.frame * PAGE_SIZE, Zeros(PAGE_SIZE)), WithPage(pages, n, leaf), Cleared(img, n))
  {
    var phys := leaf.frame * PAGE_SIZE;
    var after := WriteUser(ram, Direct(), phys, Zeros(PAGE_SIZE));
    var more := WithPage(pages, n, leaf);
    forall a: nat | PageNo(a) in more
      ensures Load(after, At(more, a)) == Cleared(img, n)(a)
    {
      var x := At(more, a);
      if PageNo(a) == n {
        LastWriteWins(ram, Direct(), phys, Zeros(PAGE_SIZE), x);
        assert Direct()(x) == x;
      } else {
        assert x == At(pages, a) && x / PAGE_SIZE == pages[PageNo(a)].frame;
        Untouched(ram, Direct(), phys, Zeros(PAGE_SIZE), x);
      }
    }
  }

  /** Other bits on a page do not move its bytes. */
  lemma SameBytes(ram: Memory, pages: Pages, img: nat -> Byte, n: nat, leaf: Leaf)
    requires Holding(ram, pages, img) && n in pages && leaf.frame == pages[n].frame
    ensures Holding(ram, WithPage(pages, n, leaf), img)
  {
    forall a: nat | PageNo(a) in pages
      ensures Load(ram, At(WithPage(pages, n, leaf), a)) == img(a)
    {
      assert At(WithPage(pages, n, leaf), a) == At(pages, a);
    }
  }

  // ----- a user space in use -----

  /** The page tables show these pages, and the pages hold this image. */
  ghost predicate Sound(u: UserMemory, dir: PageDirectory, pages: Pages, img: nat -> Byte)
    reads u, u.mgr, u.mgr.pmm, u.mgr.pmm.bitmap, dir
  {
    && u.mgr.Valid(dir) && dir.range == AddressSpace.USER
    && Placed(pages, u.mgr.pmm.Frames())
    && Tabled(u.mgr.mem, dir.root, pages)
    && Holding(u.ram, pages, img)
  }

  lemma SameHolding(ram: Memory, pages: Pages, f: nat -> Byte, g: nat -> Byte)
    requires Holding(ram, pages, f) && forall a: nat :: PageNo(a) in pages ==> f(a) == g(a)
    ensures Holding(ram, pages, g)
  {
  }

  /** A write to user memory succeeds exactly when it is mapped, and then patches the image. */
  method PutBytes(u: UserMemory, dir: PageDirectory, addr: nat, src: seq<Byte>, ghost pages: Pages, ghost img: nat -> Byte)
    returns (ok: bool)
    requires Sound(u, dir, pages, img) && src != [] && u.InUser(addr, |src|)
    modifies u`ram
    ensures ok <==> Spans(pages, addr, |src|)
    ensures ok ==> Sound(u, dir, pages, Patched(img, addr, src))
  {
    if Spans(pages, addr, |src|) {
      WriteHolding(u.ram, pages, u.mgr.pmm.Frames(), img, addr, src);
    }
    ok := u.WriteBytes(dir, addr, src, pages);
  }

  method PutZeros(u: UserMemory, dir: PageDirectory, addr: nat, len: nat, ghost pages: Pages, ghost img: nat -> Byte)
    returns (ok: bool)
    requires Sound(u, dir, pages, img) && len > 0 && u.InUser(addr, len)
    modifies u`ram
    ensures ok <==> Spans(pages, addr, len)
    ensures ok ==> Sound(u, dir, pages, Patched(img, addr, Zeros(len)))
  {
    if Spans(pages, addr, len) {
      WriteHolding(u.ram, pages, u.mgr.pmm.Frames(), img, addr, Zeros(len));
    }
    ok := u.ZeroBytes(dir, addr, len, pages);
  }
}
