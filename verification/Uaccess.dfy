/** Copies between kernel buffers and user memory: page-sized chunks through
    the page tables refine byte-by-byte accesses of a flat memory
    (src/kernel/mm/uaccess.c). */
module Uaccess {
  import opened PageTable
  import opened Pmm
  import opened Vmm

  const USER_SPACE_START: nat := 0x0000_0080_0000_0000
  const USER_SPACE_END: nat := 0x8000_0000_0000
  const EFAULT: int := 14
  const EINVAL: int := 22
  const FAST_COPY_THRESHOLD: nat := 64

  type Byte = b: int | 0 <= b < 256

  /** Physical memory as the kernel's direct map shows it: some initial content
      and the byte stores made since. */
  datatype Memory =
    | Initial(content: nat -> Byte)
    | Store(before: Memory, at: nat, b: Byte)

  function Load(ram: Memory, x: nat): Byte
  {
    match ram
    case Initial(content) => content(x)
    case Store(before, at, b) => if x == at then b else Load(before, x)
  }

  // ----- the flat view of a user space -----

  /** Where each user address lies (0: nowhere) and whether it may be read or written. */
  datatype Space = Space(phys: nat -> nat, may: (nat, bool) -> bool)

  function Phys(m: Mem, root: nat, virt: nat): nat
  {
    PhysOf(Translate(m, root, PageOf(virt)), virt)
  }

  function SpaceOf(m: Mem, root: nat): Space
  {
    Space((virt: nat) => Phys(m, root, virt),
          (virt: nat, write: bool) => root < ROOT_FRAME_LIMIT && Granted(m, root, PageOf(virt), write))
  }

  predicate OnePage(v: nat, w: nat)
  {
    v / 4096 == w / 4096
  }

  /** Addresses of one page translate together and share their permissions. */
  ghost predicate Paged(s: Space)
  {
    forall v: nat, w: nat {:trigger OnePage(v, w)} :: OnePage(v, w) ==>
      && (forall write :: s.may(v, write) == s.may(w, write))
      && (s.phys(v) != 0 ==> s.phys(v) % 4096 == v % 4096 && s.phys(w) == s.phys(v) - v + w)
  }

  /** `s` shows the page tables `m` under `root`. */
  ghost predicate Shows(s: Space, m: Mem, root: nat)
  {
    && Paged(s)
    && (forall v: nat {:trigger Phys(m, root, v)} :: s.phys(v) == Phys(m, root, v))
    && (forall v: nat, w: bool {:trigger Granted(m, root, PageOf(v), w)} ::
          s.may(v, w) <==> root < ROOT_FRAME_LIMIT && Granted(m, root, PageOf(v), w))
  }

  lemma OnePageOf(v: nat, w: nat)
    requires OnePage(v, w)
    ensures PageOf(v) == PageOf(w)
  {
    Shifts(v);
    Shifts(w);
  }

  lemma OnFrame(frame: nat, v: nat, w: nat)
    requires OnePage(v, w)
    ensures var x, y := frame * PAGE_SIZE + v % PAGE_SIZE, frame * PAGE_SIZE + w % PAGE_SIZE;
            x % 4096 == v % 4096 && y == x - v + w
  {
    assert v - v % 4096 == v / 4096 * 4096 && w - w % 4096 == w / 4096 * 4096;
  }

  lemma PhysTogether(m: Mem, root: nat, v: nat, w: nat)
    requires OnePage(v, w)
    ensures PageOf(v) == PageOf(w)
    ensures Phys(m, root, v) != 0 ==>
              Phys(m, root, v) % 4096 == v % 4096 && Phys(m, root, w) == Phys(m, root, v) - v + w
  {
    OnePageOf(v, w);
    var l := Translate(m, root, PageOf(v));
    if l.Some? {
      OnFrame(l.value.frame, v, w);
    }
  }

  /** Every page table tree has such a view. */
  lemma SpaceOfShows(m: Mem, root: nat)
    ensures Shows(SpaceOf(m, root), m, root)
  {
    forall v: nat, w: nat | OnePage(v, w)
      ensures PageOf(v) == PageOf(w)
      ensures Phys(m, root, v) != 0 ==>
                Phys(m, root, v) % 4096 == v % 4096 && Phys(m, root, w) == Phys(m, root, v) - v + w
    {
      PhysTogether(m, root, v, w);
    }
  }

  /** Where a chunk of the loops starts: the range's first byte and every page start in it. */
  predicate ChunkStart(addr: nat, i: nat)
  {
    i == 0 || (addr + i) % 4096 == 0
  }

  /** The address a loop translates for a chunk: the chunk's own or its page's. */
  function Probed(virt: nat, byPage: bool): nat
  {
    if byPage then PageBase(virt) else virt
  }

  /** At every chunk start the access is allowed and the translated address is not 0. */
  ghost predicate Reachable(s: Space, addr: nat, size: nat, write: bool, byPage: bool)
  {
    forall i: nat :: i < size && ChunkStart(addr, i) ==>
      s.may(addr + i, write) && s.phys(Probed(addr + i, byPage)) != 0
  }

  /** The first chunk that cannot be reached starts at byte n of the range. */
  ghost predicate FaultsAt(s: Space, addr: nat, size: nat, n: nat, write: bool, byPage: bool)
  {
    && n < size && ChunkStart(addr, n) && Reachable(s, addr, n, write, byPage)
    && !(s.may(addr + n, write) && s.phys(Probed(addr + n, byPage)) != 0)
  }

  /** The answer of a copy: bad arguments, a bad range, a byte that cannot be reached, or none of these. */
  function CopyAnswer(bad: bool, addr: nat, size: nat, reached: bool): int
  {
    if bad then -EINVAL
    else if ValidateUserRange(addr, size) != 0 then ValidateUserRange(addr, size)
    else if !reached then -EFAULT else 0
  }

  /** Byte-by-byte writes at consecutive user addresses. */
  function WriteUser(ram: Memory, f: nat -> nat, addr: nat, src: seq<Byte>): Memory
    decreases |src|
  {
    if src == [] then ram else
      Store(WriteUser(ram, f, addr, src[..|src| - 1]), f(addr + |src| - 1), src[|src| - 1])
  }

  /** `f` sends the n addresses from `virt` on to those from `at` on. */
  predicate Consecutive(f: nat -> nat, virt: nat, n: nat, at: nat)
  {
    forall k: nat :: virt <= k < virt + n ==> f(k) == at + (k - virt)
  }

  lemma Inner(f: nat -> nat, virt: nat, n: nat, at: nat, from: nat, count: nat)
    requires Consecutive(f, virt, n, at) && from + count <= n
    ensures Consecutive(f, virt + from, count, at + from)
  {
  }

  lemma Front(f: nat -> nat, virt: nat, n: nat, at: nat, count: nat)
    requires Consecutive(f, virt, n, at) && count <= n
    ensures Consecutive(f, virt, count, at)
  {
  }

  // ----- range check and chunks -----

  function ValidateUserRange(addr: nat, size: nat): (ret: int)
    ensures ret == 0 <==> USER_SPACE_START <= addr && addr + size <= USER_SPACE_END && addr < USER_SPACE_END
    ensures ret == 0 || ret == -EFAULT || (ret == -EINVAL && size > USER_SPACE_END)
  {
    if addr == 0 then -EFAULT
    else if addr < USER_SPACE_START then -EFAULT
    else if addr >= USER_SPACE_END then -EFAULT
    else if size > USER_SPACE_END then -EINVAL
    else if addr > USER_SPACE_END - size then -EFAULT
    else 0
  }

  function ChunkSize(virt: nat, left: nat): nat
  {
    var room := 4096 - virt % 4096;
    if room > left then left else room
  }

  function PageBase(virt: nat): nat
  {
    virt - virt % 4096
  }

  /** What the chunk starting at `done` contributes to the whole range. */
  lemma ChunkFacts(s: Space, addr: nat, done: nat, size: nat, write: bool, byPage: bool)
    requires Paged(s) && done < size && ChunkStart(addr, done) && Reachable(s, addr, done, write, byPage)
    requires var from := Probed(addr + done, byPage); s.may(from, write) && s.phys(from) != 0
    ensures var from, chunk := Probed(addr + done, byPage), ChunkSize(addr + done, size - done);
            && 0 < chunk && done + chunk <= size
            && (done + chunk < size ==> ChunkStart(addr, done + chunk))
            && Reachable(s, addr, done + chunk, write, byPage)
            && Consecutive(s.phys, addr + done, chunk, s.phys(from) - s.phys(from) % 4096 + (addr + done) % 4096)
  {
    var virt := addr + done;
    var chunk := ChunkSize(virt, size - done);
    ChunkLine(s, virt, chunk, byPage);
    InPage(virt, PageBase(virt));
    assert OnePage(Probed(virt, byPage), virt);
    NoStart(addr, done, chunk);
  }

  /** The bytes of a chunk lie next to one another. */
  lemma ChunkLine(s: Space, virt: nat, chunk: nat, byPage: bool)
    requires Paged(s) && s.phys(Probed(virt, byPage)) != 0 && virt % 4096 + chunk <= 4096
    ensures var from := Probed(virt, byPage);
            Consecutive(s.phys, virt, chunk, s.phys(from) - s.phys(from) % 4096 + virt % 4096)
  {
    var from := Probed(virt, byPage);
    InPage(virt, PageBase(virt));
    assert OnePage(from, virt);
    assert s.phys(from) % 4096 == from % 4096 && s.phys(from) - from % 4096 + virt % 4096 == s.phys(virt);
    forall k: nat | virt <= k < virt + chunk
      ensures s.phys(k) == s.phys(virt) - virt + k
    {
      InPage(virt, k);
    }
  }

  /** No other chunk starts inside one. */
  lemma NoStart(addr: nat, done: nat, chunk: nat)
    requires (addr + done) % 4096 + chunk <= 4096
    ensures forall i: nat :: done < i < done + chunk ==> !ChunkStart(addr, i)
  {
    forall i: nat | done < i < done + chunk
      ensures !ChunkStart(addr, i)
    {
      InPage(addr + done, addr + i);
    }
  }

  lemma BaseMay(s: Space, virt: nat)
    requires Paged(s)
    ensures forall w :: s.may(PageBase(virt), w) == s.may(virt, w)
  {
    InPage(virt, PageBase(virt));
  }

  lemma InPage(virt: nat, k: nat)
    requires PageBase(virt) <= k < PageBase(virt) + 4096
    ensures OnePage(virt, k) && k % 4096 == k - PageBase(virt)
  {
  }

  lemma WriteNext(ram: Memory, f: nat -> nat, addr: nat, src: seq<Byte>, n: nat)
    requires n < |src|
    ensures WriteUser(ram, f, addr, src[..n + 1]) == Store(WriteUser(ram, f, addr, src[..n]), f(addr + n), src[n])
  {
    assert src[..n + 1][..n] == src[..n];
  }

  function ZeroUser(ram: Memory, f: nat -> nat, addr: nat, n: nat): Memory
  {
    if n == 0 then ram else Store(ZeroUser(ram, f, addr, n - 1), f(addr + n - 1), 0)
  }

  function Zeros(n: nat): (z: seq<Byte>)
    ensures |z| == n
  {
    seq(n, _ => 0)
  }

  /** Zeroing is writing zeros. */
  lemma {:induction false} ZeroIsWrite(ram: Memory, f: nat -> nat, addr: nat, n: nat)
    ensures ZeroUser(ram, f, addr, n) == WriteUser(ram, f, addr, Zeros(n))
  {
    if n > 0 {
      assert Zeros(n)[..n - 1] == Zeros(n - 1);
      ZeroIsWrite(ram, f, addr, n - 1);
    }
  }

  function StoreFour(ram: Memory, at: nat): Memory
  {
    Store(Store(Store(Store(ram, at, 0), at + 1, 0), at + 2, 0), at + 3, 0)
  }

  /** An eight-byte store of zero. */
  function StoreQword(ram: Memory, at: nat): Memory
  {
    StoreFour(StoreFour(ram, at), at + 4)
  }

  lemma FourBytes(ram: Memory, f: nat -> nat, addr: nat, n: nat, at: nat)
    requires Consecutive(f, addr + n, 4, at)
    ensures ZeroUser(ram, f, addr, n + 4) == StoreFour(ZeroUser(ram, f, addr, n), at)
  {
    assert ZeroUser(ram, f, addr, n + 2) == Store(Store(ZeroUser(ram, f, addr, n), at, 0), at + 1, 0);
  }

  lemma QwordIsBytes(ram: Memory, f: nat -> nat, addr: nat, n: nat, at: nat)
    requires Consecutive(f, addr + n, 8, at)
    ensures ZeroUser(ram, f, addr, n + 8) == StoreQword(ZeroUser(ram, f, addr, n), at)
  {
    FourBytes(ram, f, addr, n, at);
    FourBytes(ram, f, addr, n + 4, at + 4);
  }

  // ----- strings -----

  const MAX_USER_STRING: nat := 0x100_0000

  function CappedLength(maxLen: nat): (limit: nat)
    ensures limit <= maxLen && limit <= MAX_USER_STRING && (limit == maxLen || limit == MAX_USER_STRING)
  {
    if maxLen > MAX_USER_STRING then MAX_USER_STRING else maxLen
  }

  /** The page of an address can be read, and its own address is not 0. */
  predicate ReadablePage(s: Space, v: nat)
  {
    s.may(v, false) && s.phys(PageBase(v)) != 0
  }

  /** Character i of the string at an address. */
  function Char(ram: Memory, s: Space, addr: nat, i: nat): Byte
  {
    Load(ram, s.phys(addr + i))
  }

  predicate CharReadable(s: Space, addr: nat, i: nat)
  {
    addr + i < USER_SPACE_END && ReadablePage(s, addr + i)
  }

  /** The first n characters can be read, and none of them ends the string. */
  ghost predicate Unbroken(ram: Memory, s: Space, addr: nat, n: nat)
  {
    forall i: nat :: i < n ==> CharReadable(s, addr, i) && Char(ram, s, addr, i) != 0
  }

  /** The string has n characters: its terminator follows, or the limit is reached. */
  ghost predicate StringLength(ram: Memory, s: Space, addr: nat, limit: nat, n: int)
  {
    && 0 <= n <= limit && Unbroken(ram, s, addr, n)
    && (n < limit ==> CharReadable(s, addr, n) && Char(ram, s, addr, n) == 0)
  }

  /** A character that cannot be read comes before any terminator and the limit. */
  ghost predicate StringFaults(ram: Memory, s: Space, addr: nat, limit: nat)
  {
    exists k: nat :: k < limit && !CharReadable(s, addr, k) && Unbroken(ram, s, addr, k)
  }

  /** What a scan answers: the length, or an error exactly when the string faults. */
  ghost predicate Answers(ram: Memory, s: Space, addr: nat, limit: nat, ret: int)
  {
    && (ret == -EFAULT <==> StringFaults(ram, s, addr, limit))
    && (ret != -EFAULT ==> StringLength(ram, s, addr, limit, ret))
    && (forall n: int :: StringLength(ram, s, addr, limit, n) ==> ret == n)
  }

  lemma {:induction false} ScanAnswers(ram: Memory, s: Space, addr: nat, i: nat, limit: nat)
    requires i <= limit && Unbroken(ram, s, addr, i)
    ensures Answers(ram, s, addr, limit, Scan(ram, s, addr, i, limit))
    decreases limit - i
  {
    var ret := Scan(ram, s, addr, i, limit);
    if i < limit && CharReadable(s, addr, i) && Char(ram, s, addr, i) != 0 {
      ScanAnswers(ram, s, addr, i + 1, limit);
    } else {
      forall n: int | StringLength(ram, s, addr, limit, n)
        ensures n == i && ret == i
      {
        OneLength(ram, s, addr, limit, i, n);
      }
      forall k: nat | k < limit && !CharReadable(s, addr, k) && Unbroken(ram, s, addr, k)
        ensures k == i
      {
        OneFault(ram, s, addr, limit, i, k);
      }
    }
  }

  /** Where the string stops cannot be passed. */
  lemma OneLength(ram: Memory, s: Space, addr: nat, limit: nat, i: nat, n: int)
    requires i <= limit && Unbroken(ram, s, addr, i) && StringLength(ram, s, addr, limit, n)
    requires i == limit || !CharReadable(s, addr, i) || Char(ram, s, addr, i) == 0
    ensures n == i && (i < limit ==> CharReadable(s, addr, i))
  {
  }

  lemma OneFault(ram: Memory, s: Space, addr: nat, limit: nat, i: nat, k: nat)
    requires i <= limit && Unbroken(ram, s, addr, i) && k < limit && Unbroken(ram, s, addr, k) && !CharReadable(s, addr, k)
    requires i == limit || !CharReadable(s, addr, i) || Char(ram, s, addr, i) == 0
    ensures k == i
  {
  }

  /** The length of the string at an address, byte by byte: the limit when no
      terminator comes before it, an error when a byte cannot be read. */
  function Scan(ram: Memory, s: Space, addr: nat, i: nat, limit: nat): int
    requires i <= limit
    decreases limit - i
  {
    if i == limit then limit
    else if addr + i >= USER_SPACE_END || !ReadablePage(s, addr + i) then -EFAULT
    else if Load(ram, s.phys(addr + i)) == 0 then i
    else Scan(ram, s, addr, i + 1, limit)
  }

  lemma SamePageRead(s: Space, v: nat, w: nat)
    requires Paged(s) && ReadablePage(s, v) && v < USER_SPACE_END && PageBase(v) <= w < PageBase(v) + 4096
    ensures w < USER_SPACE_END && ReadablePage(s, w) && s.phys(w) == s.phys(PageBase(v)) + (w - PageBase(v))
    ensures s.phys(PageBase(v)) % 4096 == 0
  {
    InPage(v, w);
    InPage(v, PageBase(v));
    assert OnePage(PageBase(v), w);
    assert PageBase(w) == PageBase(v);
  }

  /** What was scanned can be copied. */
  lemma {:induction false} ScannedReachable(ram: Memory, s: Space, addr: nat, i: nat, limit: nat)
    requires Paged(s) && i <= limit && addr + i <= USER_SPACE_END && Reachable(s, addr, i, false, false)
    ensures var len := Scan(ram, s, addr, i, limit);
            len >= 0 ==> i <= len <= limit && addr + len <= USER_SPACE_END && Reachable(s, addr, len, false, false)
    decreases limit - i
  {
    if i < limit && addr + i < USER_SPACE_END && ReadablePage(s, addr + i) {
      SamePageRead(s, addr + i, addr + i);
      ScannedReachable(ram, s, addr, i + 1, limit);
    }
  }

  // ----- the kernel side -----

  class UserAccess {
    var ram: Memory
    const mgr: Manager

    constructor (ram: Memory, mgr: Manager)
      ensures this.ram == ram && this.mgr == mgr
    {
      this.ram, this.mgr := ram, mgr;
    }

    /** check_page_permissions followed by vmm_get_physical. */
    method Probe(dir: PageDirectory, virt: nat, write: bool, ghost s: Space) returns (phys: nat)
      requires Shows(s, mgr.mem, dir.root)
      ensures phys == if s.may(virt, write) then s.phys(virt) else 0
    {
      ghost var granted := Granted(mgr.mem, dir.root, PageOf(virt), write);
      assert s.may(virt, write) <==> dir.root < ROOT_FRAME_LIMIT && granted;
      if !mgr.CheckPagePermissions(dir, virt, write) { return 0; }
      phys := mgr.GetPhysical(dir, virt);
      assert phys == Phys(mgr.mem, dir.root, virt);
    }

    /** `dir` is the current task's directory, null when there is no user task;
        `s` is its flat view. On success the buffer holds the user bytes. */
    method CopyFromUser(dst: array?<Byte>, dir: PageDirectory?, src: nat, size: nat, ghost s: Space) returns (ret: int)
      requires dst != null ==> size <= dst.Length
      requires dir != null ==> Shows(s, mgr.mem, dir.root)
      modifies dst
      ensures ret == CopyAnswer(dst == null || src == 0 || size == 0, src, size, dir != null && Reachable(s, src, size, false, false))
      ensures ret == 0 ==> forall i :: 0 <= i < size ==> dst[i] == Load(ram, s.phys(src + i))
      ensures dst != null ==> forall i :: size <= i < dst.Length ==> dst[i] == old(dst[i])
    {
      if dst == null || src == 0 || size == 0 { return -EINVAL; }
      ret := ValidateUserRange(src, size);
      if ret != 0 { return; }
      if dir == null { return -EFAULT; }
      var copied := 0;
      while copied < size
        invariant copied <= size && (copied < size ==> ChunkStart(src, copied))
        invariant Reachable(s, src, copied, false, false)
        invariant forall i :: 0 <= i < copied ==> dst[i] == Load(ram, s.phys(src + i))
        invariant forall i :: size <= i < dst.Length ==> dst[i] == old(dst[i])
      {
        var virt := src + copied;
        var phys := Probe(dir, virt, false, s);
        if phys == 0 { return -EFAULT; }
        var chunk := ChunkSize(virt, size - copied);
        ChunkFacts(s, src, copied, size, false, false);
        LoadChunk(dst, src, copied, chunk, phys - phys % 4096 + virt % 4096, s.phys);
        copied := copied + chunk;
      }
      ret := 0;
    }

    /** The inner loop of copy_from_user. */
    method LoadChunk(dst: array<Byte>, src: nat, copied: nat, chunk: nat, at: nat, ghost f: nat -> nat)
      requires copied + chunk <= dst.Length && Consecutive(f, src + copied, chunk, at)
      requires forall i :: 0 <= i < copied ==> dst[i] == Load(ram, f(src + i))
      modifies dst
      ensures forall i :: 0 <= i < copied + chunk ==> dst[i] == Load(ram, f(src + i))
      ensures forall i :: copied + chunk <= i < dst.Length ==> dst[i] == old(dst[i])
    {
      for i := 0 to chunk
        invariant forall k :: 0 <= k < copied + i ==> dst[k] == Load(ram, f(src + k))
        invariant forall k :: copied + i <= k < dst.Length ==> dst[k] == old(dst[k])
      {
        assert f(src + (copied + i)) == at + i;
        dst[copied + i] := Load(ram, at + i);
      }
    }

    /** On failure the bytes before the failing chunk have been written. */
    method CopyToUser(dst: nat, dir: PageDirectory?, src: array?<Byte>, size: nat, ghost s: Space)
      returns (ret: int, ghost done: nat)
      requires src != null ==> size <= src.Length
      requires dir != null ==> Shows(s, mgr.mem, dir.root)
      modifies this`ram
      ensures ret == CopyAnswer(src == null || dst == 0 || size == 0, dst, size, dir != null && Reachable(s, dst, size, true, false))
      ensures if ret == 0 then done == size
              else if src == null || dst == 0 || size == 0 || ValidateUserRange(dst, size) != 0 || dir == null then done == 0
              else FaultsAt(s, dst, size, done, true, false)
      ensures ram == if src == null then old(ram) else WriteUser(old(ram), s.phys, dst, src[..done])
    {
      done := 0;
      if dst == 0 || src == null || size == 0 { return -EINVAL, 0; }
      ret := ValidateUserRange(dst, size);
      if ret != 0 { return; }
      if dir == null { return -EFAULT, 0; }
      var copied := 0;
      while copied < size
        invariant copied <= size && (copied < size ==> ChunkStart(dst, copied))
        invariant Reachable(s, dst, copied, true, false)
        invariant ram == WriteUser(old(ram), s.phys, dst, src[..copied])
      {
        var virt := dst + copied;
        var phys := Probe(dir, virt, true, s);
        if phys == 0 { return -EFAULT, copied; }
        var chunk := ChunkSize(virt, size - copied);
        ChunkFacts(s, dst, copied, size, true, false);
        StoreChunk(src, dst, copied, chunk, phys - phys % 4096 + virt % 4096, old(ram), s.phys);
        copied := copied + chunk;
      }
      return 0, size;
    }

    /** The inner loop of copy_to_user. */
    method StoreChunk(src: array<Byte>, dst: nat, copied: nat, chunk: nat, at: nat, ghost before: Memory, ghost f: nat -> nat)
      requires copied + chunk <= src.Length && Consecutive(f, dst + copied, chunk, at)
      requires ram == WriteUser(before, f, dst, src[..copied])
      modifies this`ram
      ensures ram == WriteUser(before, f, dst, src[..copied + chunk])
    {
      for i := 0 to chunk
        invariant ram == WriteUser(before, f, dst, src[..copied + i])
      {
        WriteNext(before, f, dst, src[..], copied + i);
        assert src[..][..copied + i] == src[..copied + i] && src[..][..copied + i + 1] == src[..copied + i + 1];
        ram := Store(ram, at + i, src[copied + i]);
      }
    }

    /** Zeroes a range; aligned stretches of a page are written eight bytes at a
        time, with the same effect as byte-by-byte zeroing. */
    method ClearUser(dst: nat, dir: PageDirectory?, size: nat, ghost s: Space) returns (ret: int, ghost done: nat)
      requires dir != null ==> Shows(s, mgr.mem, dir.root)
      modifies this`ram
      ensures ret == CopyAnswer(dst == 0 || size == 0, dst, size, dir != null && Reachable(s, dst, size, true, true))
      ensures if ret == 0 then done == size
              else if dst == 0 || size == 0 || ValidateUserRange(dst, size) != 0 || dir == null then done == 0
              else FaultsAt(s, dst, size, done, true, true)
      ensures ram == WriteUser(old(ram), s.phys, dst, Zeros(done))
    {
      done := 0;
      if dst == 0 || size == 0 { return -EINVAL, 0; }
      ret := ValidateUserRange(dst, size);
      if ret != 0 { return; }
      if dir == null { return -EFAULT, 0; }
      var cleared := 0;
      while cleared < size
        invariant cleared <= size && (cleared < size ==> ChunkStart(dst, cleared))
        invariant Reachable(s, dst, cleared, true, true)
        invariant ram == ZeroUser(old(ram), s.phys, dst, cleared)
      {
        var virt := dst + cleared;
        var page := PageBase(virt);
        var chunk := ChunkSize(virt, size - cleared);
        BaseMay(s, virt);
        var phys := Probe(dir, page, true, s);
        if phys == 0 {
          ZeroIsWrite(old(ram), s.phys, dst, cleared);
          return -EFAULT, cleared;
        }
        ChunkFacts(s, dst, cleared, size, true, true);
        ClearChunk(dst, cleared, chunk, phys - phys % 4096 + virt % 4096, old(ram), s.phys);
        cleared := cleared + chunk;
      }
      ZeroIsWrite(old(ram), s.phys, dst, size);
      return 0, size;
    }

    /** One chunk of clear_user: eight bytes at a time where aligned, then bytes. */
    method ClearChunk(dst: nat, cleared: nat, chunk: nat, at: nat, ghost before: Memory, ghost f: nat -> nat)
      requires Consecutive(f, dst + cleared, chunk, at)
      requires ram == ZeroUser(before, f, dst, cleared)
      modifies this`ram
      ensures ram == ZeroUser(before, f, dst, cleared + chunk)
    {
      ghost var virt := dst + cleared;
      var fast := 0;
      if chunk >= FAST_COPY_THRESHOLD && at % 8 == 0 {
        Front(f, virt, chunk, at, chunk / 8 * 8);
        fast := ClearQwords(dst, cleared, chunk / 8, at, before, f);
      }
      ClearRest(dst, cleared, chunk, at, fast, before, f, virt);
    }

    method ClearRest(dst: nat, cleared: nat, chunk: nat, at: nat, fast: nat, ghost before: Memory, ghost f: nat -> nat, ghost virt: nat)
      requires virt == dst + cleared && fast <= chunk && Consecutive(f, virt, chunk, at)
      requires ram == ZeroUser(before, f, dst, cleared + fast)
      modifies this`ram
      ensures ram == ZeroUser(before, f, dst, cleared + chunk)
    {
      Inner(f, virt, chunk, at, fast, chunk - fast);
      ClearBytes(dst, cleared + fast, chunk - fast, at + fast, before, f, virt + fast, cleared + chunk);
    }

    method ClearBytes(dst: nat, cleared: nat, count: nat, at: nat, ghost before: Memory, ghost f: nat -> nat,
                      ghost virt: nat, ghost end: nat)
      requires virt == dst + cleared && end == cleared + count && Consecutive(f, virt, count, at)
      requires ram == ZeroUser(before, f, dst, cleared)
      modifies this`ram
      ensures ram == ZeroUser(before, f, dst, end)
    {
      for i := 0 to count
        invariant ram == ZeroUser(before, f, dst, cleared + i)
      {
        assert f(virt + i) == at + i;
        ram := Store(ram, at + i, 0);
      }
    }

    method ClearQwords(dst: nat, cleared: nat, qwords: nat, at: nat, ghost before: Memory, ghost f: nat -> nat)
      returns (bytes: nat)
      requires Consecutive(f, dst + cleared, qwords * 8, at)
      requires ram == ZeroUser(before, f, dst, cleared)
      modifies this`ram
      ensures bytes == qwords * 8 && ram == ZeroUser(before, f, dst, cleared + bytes)
    {
      var done := cleared;
      for i := 0 to qwords
        invariant done == cleared + i * 8 && ram == ZeroUser(before, f, dst, done)
      {
        Inner(f, dst + cleared, qwords * 8, at, i * 8, 8);
        ClearQword(dst, done, at + i * 8, before, f, dst + cleared + i * 8);
        done := done + 8;
      }
      bytes := done - cleared;
    }

    method ClearQword(dst: nat, n: nat, at: nat, ghost before: Memory, ghost f: nat -> nat, ghost virt: nat)
      requires virt == dst + n && Consecutive(f, virt, 8, at) && ram == ZeroUser(before, f, dst, n)
      modifies this`ram
      ensures ram == ZeroUser(before, f, dst, n + 8)
    {
      QwordIsBytes(before, f, dst, n, at);
      ram := StoreQword(ram, at);
    }

    /** strnlen_user: page by page, with the answer of a byte-by-byte look. */
    method StrnlenUser(src: nat, dir: PageDirectory?, maxLen: nat, ghost s: Space) returns (ret: int)
      requires dir != null ==> Shows(s, mgr.mem, dir.root)
      ensures if src == 0 || ValidateUserRange(src, 1) != 0 || dir == null then ret == -EFAULT
              else Answers(ram, s, src, CappedLength(maxLen), ret)
      ensures ret != -EFAULT ==> ret >= 0 && Reachable(s, src, ret, false, false) && src + ret <= USER_SPACE_END
    {
      if src == 0 { return -EFAULT; }
      var limit := CappedLength(maxLen);
      ScanAnswers(ram, s, src, 0, limit);
      ret := ValidateUserRange(src, 1);
      if ret != 0 { return; }
      if dir == null { return -EFAULT; }
      ScannedReachable(ram, s, src, 0, limit);
      var len := 0;
      while len < limit
        invariant len <= limit && Scan(ram, s, src, 0, limit) == Scan(ram, s, src, len, limit)
      {
        var page := PageBase(src + len);
        if src + len >= USER_SPACE_END { return -EFAULT; }
        BaseMay(s, src + len);
        var phys := Probe(dir, page, false, s);
        if phys == 0 { return -EFAULT; }
        SamePageRead(s, src + len, src + len);
        var found, n := ScanPage(src, len, limit, phys - phys % 4096, s);
        if found { return n; }
        len := n;
      }
      ret := limit;
    }

    /** The inner loop of strnlen_user, on one page. */
    method ScanPage(src: nat, start: nat, limit: nat, base: nat, ghost s: Space) returns (found: bool, len: nat)
      requires Paged(s) && start < limit && src + start < USER_SPACE_END
      requires ReadablePage(s, src + start) && base == s.phys(PageBase(src + start))
      ensures start <= len <= limit && (!found ==> start < len)
      ensures Scan(ram, s, src, start, limit) == if found then len else Scan(ram, s, src, len, limit)
    {
      len := start;
      var offset := (src + start) % 4096;
      while offset < 4096 && len < limit
        invariant start <= len <= limit && offset == (src + start) % 4096 + (len - start) <= 4096
        invariant Scan(ram, s, src, start, limit) == Scan(ram, s, src, len, limit)
      {
        SamePageRead(s, src + start, src + len);
        if Load(ram, base + offset) == 0 { return true, len; }
        len := len + 1;
        offset := offset + 1;
      }
      found := false;
    }

    /** strncpy_from_user. An empty string is refused: its copy has no bytes. */
    method StrncpyFromUser(dst: array?<Byte>, dir: PageDirectory?, src: nat, maxLen: nat, ghost s: Space) returns (ret: int)
      requires dst != null ==> maxLen <= dst.Length
      requires dir != null ==> Shows(s, mgr.mem, dir.root)
      modifies dst
      ensures if dst == null || src == 0 || maxLen == 0 then ret == -EINVAL
              else if ValidateUserRange(src, 1) != 0 || dir == null then ret == -EFAULT
              else Answers(ram, s, src, CappedLength(maxLen - 1), if ret == -EINVAL then 0 else ret) && ret != 0
      ensures ret > 0 ==>
                && ret < maxLen && dst[ret] == 0
                && forall i: nat :: i < ret ==> dst[i] == Char(ram, s, src, i) && dst[i] != 0
      ensures dst != null ==> forall i :: (if ret > 0 then ret + 1 else 0) <= i < dst.Length ==> dst[i] == old(dst[i])
    {
      if dst == null || src == 0 || maxLen == 0 { return -EINVAL; }
      var len := StrnlenUser(src, dir, maxLen - 1, s);
      if len < 0 { return len; }
      ret := CopyFromUser(dst, dir, src, len, s);
      if ret != 0 { return; }
      dst[len] := 0;
      ret := len;
    }

    /** verify_user_read and verify_user_write, page by page. */
    method VerifyUser(ptr: nat, dir: PageDirectory?, size: nat, write: bool, ghost s: Space) returns (ret: int)
      requires dir != null ==> Shows(s, mgr.mem, dir.root)
      ensures ret == CopyAnswer(ptr == 0 || size == 0, ptr, size, dir != null && Verified(s, ptr, size, write))
    {
      if ptr == 0 || size == 0 { return -EINVAL; }
      ret := ValidateUserRange(ptr, size);
      if ret != 0 { return; }
      if dir == null { return -EFAULT; }
      var all := VerifyPages(ptr, dir, size, write, s);
      ret := if all then 0 else -EFAULT;
    }

    method VerifyPages(ptr: nat, dir: PageDirectory, size: nat, write: bool, ghost s: Space) returns (all: bool)
      requires Shows(s, mgr.mem, dir.root) && size > 0
      ensures all <==> Verified(s, ptr, size, write)
    {
      var page := PageBase(ptr);
      var last := PageBase(ptr + size - 1);
      ghost var seen: nat := 0;
      while page <= last
        invariant page % 4096 == 0 && (if seen == 0 then page == PageBase(ptr) else page == ptr + seen)
        invariant Verified(s, ptr, seen, write)
        decreases last + 4096 - page
      {
        VerifyNext(s, ptr, seen, page, last, size, write);
        if !MayAccess(dir, page, write, s) { return false; }
        NextBase(page);
        seen := page + 4096 - ptr;
        page := page + 4096;
      }
      VerifyEnd(ptr, seen, page, last, size);
      all := true;
    }

    predicate MayAccess(dir: PageDirectory, virt: nat, write: bool, ghost s: Space)
      requires Shows(s, mgr.mem, dir.root)
      reads this, mgr, dir
      ensures MayAccess(dir, virt, write, s) == s.may(virt, write)
    {
      ghost var granted := Granted(mgr.mem, dir.root, PageOf(virt), write);
      mgr.CheckPagePermissions(dir, virt, write)
    }
  }

  /** One page of the verify loop covers the chunk that starts at `seen`. */
  lemma VerifyFacts(s: Space, ptr: nat, seen: nat, page: nat, last: nat, size: nat)
    requires Paged(s) && size > 0 && page % 4096 == 0 && page <= last == PageBase(ptr + size - 1)
    requires if seen == 0 then page == PageBase(ptr) else page == ptr + seen
    ensures seen < size && ChunkStart(ptr, seen) && ptr < page + 4096
    ensures forall w :: s.may(page, w) == s.may(ptr + seen, w)
    ensures forall i: nat :: seen < i < page + 4096 - ptr ==> !ChunkStart(ptr, i)
  {
    BaseMay(s, ptr);
    forall i: nat | seen < i < page + 4096 - ptr
      ensures !ChunkStart(ptr, i)
    {
      InPage(page, ptr + i);
    }
  }

  lemma VerifyNext(s: Space, ptr: nat, seen: nat, page: nat, last: nat, size: nat, write: bool)
    requires Paged(s) && size > 0 && page % 4096 == 0 && page <= last == PageBase(ptr + size - 1)
    requires if seen == 0 then page == PageBase(ptr) else page == ptr + seen
    requires Verified(s, ptr, seen, write)
    ensures ptr < page + 4096
    ensures if s.may(page, write) then Verified(s, ptr, page + 4096 - ptr, write) else !Verified(s, ptr, size, write)
  {
    VerifyFacts(s, ptr, seen, page, last, size);
    assert s.may(page, write) == s.may(ptr + seen, write);
  }

  lemma NextBase(page: nat)
    requires page % 4096 == 0
    ensures (page + 4096) % 4096 == 0
  {
  }

  lemma VerifyEnd(ptr: nat, seen: nat, page: nat, last: nat, size: nat)
    requires size > 0 && page % 4096 == 0 && last == PageBase(ptr + size - 1) < page
    requires if seen == 0 then page == PageBase(ptr) else page == ptr + seen
    ensures size <= seen
  {
  }

  /** What verify_user_read and verify_user_write look at. */
  ghost predicate Verified(s: Space, ptr: nat, size: nat, write: bool)
  {
    forall i: nat :: i < size && ChunkStart(ptr, i) ==> s.may(ptr + i, write)
  }

  /** When the accepted pages of the range have nonzero frames, a range is
      verified exactly when the copy of it succeeds, and exactly when each of its
      bytes may be accessed. */
  lemma VerifyAgreesWithCopy(s: Space, ptr: nat, size: nat, write: bool)
    requires Paged(s)
    requires forall i: nat :: i < size && ChunkStart(ptr, i) && s.may(ptr + i, write) ==> s.phys(ptr + i) != 0
    ensures Verified(s, ptr, size, write) <==> Reachable(s, ptr, size, write, false)
    ensures Verified(s, ptr, size, write) <==> forall v: nat :: ptr <= v < ptr + size ==> s.may(v, write)
  {
    if Verified(s, ptr, size, write) {
      forall v: nat | ptr <= v < ptr + size
        ensures s.may(v, write)
      {
        var first := if PageBase(v) < ptr then ptr else PageBase(v);
        InPage(v, first);
        assert ChunkStart(ptr, first - ptr) && ptr + (first - ptr) == first;
      }
    }
  }

  // ----- round trips -----

  lemma {:induction false} Untouched(ram: Memory, f: nat -> nat, addr: nat, src: seq<Byte>, x: nat)
    requires forall v: nat :: addr <= v < addr + |src| ==> f(v) != x
    ensures Load(WriteUser(ram, f, addr, src), x) == Load(ram, x)
    decreases |src|
  {
    if |src| > 0 {
      Untouched(ram, f, addr, src[..|src| - 1], x);
    }
  }

  /** The last address below `end` that shares v's physical byte. */
  function LastAlias(f: nat -> nat, end: nat, v: nat): (w: nat)
    requires v < end
    ensures v <= w < end && f(w) == f(v)
    ensures forall u: nat :: w < u < end ==> f(u) != f(w)
  {
    if f(end - 1) == f(v) then end - 1 else LastAlias(f, end - 1, v)
  }

  ghost predicate AliasesAgree(f: nat -> nat, addr: nat, src: seq<Byte>)
  {
    forall v: nat, w: nat :: addr <= v < w < addr + |src| && f(v) == f(w) ==> src[v - addr] == src[w - addr]
  }

  ghost predicate Holds(ram: Memory, f: nat -> nat, addr: nat, src: seq<Byte>)
  {
    forall v: nat :: addr <= v < addr + |src| ==> Load(ram, f(v)) == src[v - addr]
  }

  /** What a read returns after a write: the last byte written to that place. */
  lemma {:induction false} LastWriteWins(ram: Memory, f: nat -> nat, addr: nat, src: seq<Byte>, v: nat)
    requires addr <= v < addr + |src|
    ensures Load(WriteUser(ram, f, addr, src), f(v)) == src[LastAlias(f, addr + |src|, v) - addr]
    decreases |src|
  {
    var n := |src| - 1;
    if f(addr + n) != f(v) {
      LastWriteWins(ram, f, addr, src[..n], v);
    }
  }

  /** Writing a buffer to user memory and reading it back returns it exactly when
      bytes that fall on the same physical byte are equal. */
  lemma RoundTrip(ram: Memory, f: nat -> nat, addr: nat, src: seq<Byte>)
    ensures AliasesAgree(f, addr, src) <==> Holds(WriteUser(ram, f, addr, src), f, addr, src)
  {
    var end := addr + |src|;
    var after := WriteUser(ram, f, addr, src);
    if AliasesAgree(f, addr, src) {
      forall v: nat | addr <= v < end
        ensures Load(after, f(v)) == src[v - addr]
      {
        LastWriteWins(ram, f, addr, src, v);
      }
    }
    if Holds(after, f, addr, src) {
      forall v: nat, w: nat | addr <= v < w < end && f(v) == f(w)
        ensures src[v - addr] == src[w - addr]
      {
        assert Load(after, f(v)) == src[v - addr] && Load(after, f(w)) == src[w - addr];
      }
    }
  }

  /** Different pages of the range lie on different frames. */
  ghost predicate DistinctFrames(s: Space, addr: nat, size: nat)
  {
    forall v: nat, w: nat {:trigger OnePage(v, w)} ::
      addr <= v < addr + size && addr <= w < addr + size && !OnePage(v, w) ==> s.phys(v) / 4096 != s.phys(w) / 4096
  }

  /** On distinct frames copy_to_user followed by copy_from_user returns the buffer. */
  lemma DistinctRoundTrip(ram: Memory, s: Space, addr: nat, src: seq<Byte>)
    requires Paged(s) && DistinctFrames(s, addr, |src|)
    requires forall v: nat :: addr <= v < addr + |src| ==> s.phys(v) != 0
    ensures Holds(WriteUser(ram, s.phys, addr, src), s.phys, addr, src)
  {
    forall v: nat, w: nat | addr <= v < w < addr + |src|
      ensures s.phys(v) != s.phys(w)
    {
      assert OnePage(v, w) || !OnePage(v, w);
    }
    RoundTrip(ram, s.phys, addr, src);
  }

  /** A store through user memory changes no byte the range does not reach. */
  lemma OthersUntouched(ram: Memory, s: Space, addr: nat, src: seq<Byte>, x: nat)
    requires forall v: nat :: addr <= v < addr + |src| ==> s.phys(v) != x
    ensures Load(WriteUser(ram, s.phys, addr, src), x) == Load(ram, x)
  {
    Untouched(ram, s.phys, addr, src, x);
  }
}
