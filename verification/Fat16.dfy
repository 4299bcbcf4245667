/** FAT16: cluster chains in mirrored tables and sector-wise file access refine
    files that are byte sequences (src/kernel/fs/fat16.c). */
module Fat16 {

  const SECTOR_SIZE: nat := 512
  const END_OF_CHAIN: nat := 0xFFF8
  const ALLOC_LIMIT: nat := 0xFFF0
  const ENTRIES: nat := 0x10000
  type Word = w: nat | w < ENTRIES

  const SIZE_LIMIT: nat := 0x1_0000_0000_0000_0000

  type Byte = b: int | 0 <= b < 256

  type Sector = s: seq<Byte> | |s| == 512 witness seq(512, _ => 0)

  type Disk = map<nat, Sector>

  function ZeroSector(): Sector
  {
    seq(512, _ => 0)
  }

  function Sec(d: Disk, n: nat): Sector
  {
    if n in d then d[n] else ZeroSector()
  }

  /** What fat16_mount keeps of the boot sector. */
  datatype Geometry = Geometry(fatStart: nat, dataStart: nat, perCluster: nat, perFat: nat, fats: nat)

  /** What fat16_mount makes sure of: there are tables, and they end before the data. */
  predicate Usable(g: Geometry)
  {
    0 < g.perCluster < 256 && 0 < g.fats < 256 && 0 < g.perFat && g.fatStart + g.fats * g.perFat <= g.dataStart
  }

  /** How many 16-bit cluster numbers have an entry in the table. */
  function TableSize(g: Geometry): (n: nat)
    ensures n <= ENTRIES
  {
    if 256 * g.perFat < ENTRIES then 256 * g.perFat else ENTRIES
  }

  /** The boot sector fields fat16_mount reads. */
  datatype BootSector = BootSector(bytesPerSector: nat, sectorsPerCluster: nat, reservedSectors: nat, numFats: nat,
                                   rootEntries: nat, sectorsPerFat: nat)

  datatype MountResult = Rejected | Mounted(geo: Geometry)

  function Mount(bs: BootSector, startLba: nat): MountResult
  {
    if bs.bytesPerSector != SECTOR_SIZE then Rejected
    else if bs.sectorsPerCluster == 0 || bs.numFats == 0 || bs.sectorsPerFat == 0 || bs.rootEntries == 0 then Rejected
    else
      var fatStart := startLba + bs.reservedSectors;
      var rootStart := fatStart + bs.numFats * bs.sectorsPerFat;
      Mounted(Geometry(fatStart, rootStart + (bs.rootEntries * 32 + SECTOR_SIZE - 1) / SECTOR_SIZE,
                       bs.sectorsPerCluster, bs.sectorsPerFat, bs.numFats))
  }

  /** Every mounted volume has its reserved sectors, tables, root directory and data
      in this order: the data begins in the first sector behind the directory's last
      32-byte entry. */
  lemma MountLayout(bs: BootSector, startLba: nat)
    requires bs.sectorsPerCluster < 256 && bs.numFats < 256
    ensures var r := Mount(bs, startLba);
            r.Mounted? ==>
              var rootStart := startLba + bs.reservedSectors + bs.numFats * bs.sectorsPerFat;
              && Usable(r.geo) && r.geo.fatStart == startLba + bs.reservedSectors && rootStart < r.geo.dataStart
              && (r.geo.dataStart - rootStart - 1) * SECTOR_SIZE < 32 * bs.rootEntries <= (r.geo.dataStart - rootStart) * SECTOR_SIZE
              && r.geo.perFat == bs.sectorsPerFat && r.geo.fats == bs.numFats && r.geo.perCluster == bs.sectorsPerCluster
  {
    var n := bs.rootEntries * 32 + SECTOR_SIZE - 1;
    assert n == n / SECTOR_SIZE * SECTOR_SIZE + n % SECTOR_SIZE;
  }

  // ----- two-dimensional sector numbers -----

  lemma {:induction false} RowEnd(m: nat, a: nat, b: nat)
    requires a < b
    ensures a * m + m <= b * m
    decreases b
  {
    var c := b - 1;
    assert b * m == c * m + m;
    if a < c { RowEnd(m, a, c); }
  }

  lemma RowColumn(m: nat, a: nat, i: nat, b: nat, j: nat)
    requires i < m && j < m && a * m + i == b * m + j
    ensures a == b && i == j
  {
    if a < b { RowEnd(m, a, b); }
    if b < a { RowEnd(m, b, a); }
  }

  // ----- the tables -----

  function FatSector(g: Geometry, f: nat, c: nat): nat
  {
    g.fatStart + f * g.perFat + c / 256
  }

  function Entry(s: Sector, c: nat): Word
  {
    s[c % 256 * 2] as int + 256 * (s[c % 256 * 2 + 1] as int)
  }

  function Patch(s: Sector, c: nat, v: nat): Sector
    requires v < ENTRIES
  {
    s[c % 256 * 2 := v % 256][c % 256 * 2 + 1 := v / 256]
  }

  /** The 16-bit word where copy f would have the entry of cluster c. Beyond the
      table it belongs to the next copy, the root directory or a file. */
  function FatEntry(d: Disk, g: Geometry, f: nat, c: nat): Word
  {
    Entry(Sec(d, FatSector(g, f, c)), c)
  }

  /** Byte x of copy f of the table, on the disk. */
  function TableByte(d: Disk, g: Geometry, f: nat, x: nat): Byte
  {
    Sec(d, g.fatStart + f * g.perFat + x / 512)[x % 512]
  }

  /** The entries follow one another, two bytes each, the low byte first. */
  lemma EntryOnDisk(d: Disk, g: Geometry, f: nat, c: nat)
    ensures FatEntry(d, g, f, c) == TableByte(d, g, f, 2 * c) + 256 * TableByte(d, g, f, 2 * c + 1)
  {
    assert 2 * c / 512 == c / 256 == (2 * c + 1) / 512;
    assert 2 * c % 512 == c % 256 * 2 && (2 * c + 1) % 512 == c % 256 * 2 + 1;
  }

  ghost predicate Mirrored(d: Disk, g: Geometry)
  {
    forall f: nat, c: nat :: f < g.fats && c < TableSize(g) ==> FatEntry(d, g, f, c) == FatEntry(d, g, 0, c)
  }

  /** Every copy of the table got the value at entry c, and no copy anything else. */
  ghost predicate InEveryCopy(d: Disk, d': Disk, g: Geometry, c: nat, value: nat)
  {
    forall f: nat, e: nat :: f < g.fats && e < TableSize(g) ==> FatEntry(d', g, f, e) == if e == c then value else FatEntry(d, g, f, e)
  }

  /** The entries in `gone` are 0 in every copy of the table; the others are as
      they were, also where the copies differ. */
  ghost predicate Cleared(d: Disk, d': Disk, g: Geometry, gone: set<nat>)
  {
    forall f: nat, e: nat :: f < g.fats && e < TableSize(g) ==> FatEntry(d', g, f, e) == if e in gone then 0 else FatEntry(d, g, f, e)
  }

  lemma ClearedNext(d: Disk, d1: Disk, d2: Disk, g: Geometry, gone: set<nat>, c: nat)
    requires Cleared(d, d1, g, gone) && InEveryCopy(d1, d2, g, c, 0)
    ensures Cleared(d, d2, g, gone + {c})
  {
  }

  /** The first copy of the table, as one sequence. */
  function Fat(d: Disk, g: Geometry): (fat: seq<nat>)
    ensures |fat| == TableSize(g)
  {
    seq(TableSize(g), (c: nat) => FatEntry(d, g, 0, c))
  }

  ghost predicate SameData(d: Disk, d': Disk, g: Geometry)
  {
    forall n: nat :: n >= g.dataStart ==> Sec(d', n) == Sec(d, n)
  }

  lemma PatchEntry(s: Sector, c: nat, v: nat, e: nat)
    requires v < ENTRIES
    ensures Entry(Patch(s, c, v), e) == if c % 256 == e % 256 then v else Entry(s, e)
  {
  }

  lemma FatSectorsDistinct(g: Geometry, f: nat, c: nat, f': nat, c': nat)
    requires Usable(g) && c < TableSize(g) && c' < TableSize(g) && FatSector(g, f, c) == FatSector(g, f', c')
    ensures f == f' && c / 256 == c' / 256
  {
    RowColumn(g.perFat, f, c / 256, f', c' / 256);
  }

  lemma FatBeforeData(g: Geometry, f: nat, c: nat)
    requires Usable(g) && f < g.fats && c < TableSize(g)
    ensures FatSector(g, f, c) < g.dataStart
  {
    RowEnd(g.perFat, f, g.fats);
  }

  /** A write of entry c goes to one sector for each copy of the table. */
  ghost predicate Stamped(g: Geometry, c: nat, n: nat, copies: nat)
  {
    exists f: nat :: f < copies && FatSector(g, f, c) == n
  }

  /** Those sectors, and no others, got the value at entry c. */
  ghost predicate EntryWritten(d: Disk, d': Disk, g: Geometry, c: nat, v: nat, copies: nat)
    requires v < ENTRIES
  {
    forall n: nat {:trigger Sec(d', n)} ::
      Sec(d', n) == if Stamped(g, c, n, copies) then Patch(Sec(d, n), c, v) else Sec(d, n)
  }

  /** The same, as far as the data. */
  ghost predicate TablesWritten(d: Disk, d': Disk, g: Geometry, c: nat, v: nat)
    requires v < ENTRIES
  {
    forall n: nat {:trigger Sec(d', n)} :: n < g.dataStart ==>
      Sec(d', n) == if Stamped(g, c, n, g.fats) then Patch(Sec(d, n), c, v) else Sec(d, n)
  }

  lemma CopiesApart(g: Geometry, c: nat, f: nat)
    requires 0 < g.perFat
    ensures !Stamped(g, c, FatSector(g, f, c), f)
  {
    forall k: nat | k < f
      ensures FatSector(g, k, c) != FatSector(g, f, c)
    {
      if FatSector(g, k, c) == FatSector(g, f, c) {
        RowColumn(g.perFat, k, 0, f, 0);
        assert false;
      }
    }
  }

  /** For a cluster the table has an entry for, that is one entry in each copy. */
  lemma WrittenEntry(d: Disk, d': Disk, g: Geometry, c: nat, v: nat, f: nat, e: nat)
    requires Usable(g) && c < TableSize(g) && e < TableSize(g) && f < g.fats && v < ENTRIES
    requires TablesWritten(d, d', g, c, v)
    ensures FatEntry(d', g, f, e) == if e == c then v else FatEntry(d, g, f, e)
  {
    var n := FatSector(g, f, e);
    FatBeforeData(g, f, e);
    PatchEntry(Sec(d, n), c, v, e);
    if Stamped(g, c, n, g.fats) {
      var k: nat :| k < g.fats && FatSector(g, k, c) == n;
      FatSectorsDistinct(g, k, c, f, e);
      assert e == c <==> c % 256 == e % 256;
    } else {
      assert e == c ==> FatSector(g, f, c) == n;
    }
  }

  lemma WrittenTable(d: Disk, d': Disk, g: Geometry, c: nat, v: nat)
    requires Usable(g) && c < TableSize(g) && v < ENTRIES && TablesWritten(d, d', g, c, v)
    ensures InEveryCopy(d, d', g, c, v) && Fat(d', g) == Fat(d, g)[c := v]
    ensures Mirrored(d, g) ==> Mirrored(d', g)
  {
    forall f: nat, e: nat | f < g.fats && e < TableSize(g)
      ensures FatEntry(d', g, f, e) == if e == c then v else FatEntry(d, g, f, e)
    {
      WrittenEntry(d, d', g, c, v, f, e);
    }
  }

  /** Such a write stays inside the tables. */
  lemma WrittenInside(d: Disk, d': Disk, g: Geometry, c: nat, v: nat)
    requires Usable(g) && c < TableSize(g) && v < ENTRIES
    requires EntryWritten(d, d', g, c, v, g.fats)
    ensures SameData(d, d', g) && SameBetween(d, d', g)
  {
    forall n: nat | !TableSector(g, n)
      ensures Sec(d', n) == Sec(d, n)
    {
      if Stamped(g, c, n, g.fats) {
        var f: nat :| f < g.fats && FatSector(g, f, c) == n;
        InTables(g, f, c);
        assert false;
      }
    }
    assert forall n: nat :: n >= g.dataStart ==> !TableSector(g, n);
  }

  predicate TableSector(g: Geometry, n: nat)
  {
    g.fatStart <= n < g.fatStart + g.fats * g.perFat
  }

  lemma InTables(g: Geometry, f: nat, c: nat)
    requires Usable(g) && f < g.fats && c < TableSize(g)
    ensures TableSector(g, FatSector(g, f, c))
  {
    RowEnd(g.perFat, f, g.fats);
    EntrySector(g, c);
    var first, row, end := g.fatStart, f * g.perFat, g.fats * g.perFat;
    assert row + g.perFat <= end;
    assert FatSector(g, f, c) == first + row + c / 256;
  }

  lemma EntrySector(g: Geometry, c: nat)
    requires c < TableSize(g)
    ensures c / 256 < g.perFat
  {
  }

  /** What lies before the data but is no table, the root directory above all, is as before. */
  ghost predicate SameBetween(d: Disk, d': Disk, g: Geometry)
  {
    forall n: nat :: n < g.dataStart && !TableSector(g, n) ==> Sec(d', n) == Sec(d, n)
  }

  // ----- the volume the kernel is shipped with -----

  /** 32 MiB with 4 sectors per cluster and 64 per table: 16384 entries. */
  const SHIPPED: BootSector := BootSector(512, 4, 4, 2, 512, 64)

  const SHIPPED_GEOMETRY: Geometry := Geometry(4, 164, 4, 64, 2)

  lemma ShippedMounts()
    ensures Mount(SHIPPED, 0) == Mounted(SHIPPED_GEOMETRY)
    ensures Usable(SHIPPED_GEOMETRY) && TableSize(SHIPPED_GEOMETRY) == 16384
  {
  }

  /** The search goes from the first table on into the second. */
  lemma SecondTable(d: Disk, g: Geometry, c: nat)
    requires g == SHIPPED_GEOMETRY && c < 32768
    ensures FatEntry(d, g, 0, c) == FatEntry(d, g, if c < 16384 then 0 else 1, if c < 16384 then c else c - 16384)
  {
  }

  ghost predicate AllTaken(d: Disk, g: Geometry)
  {
    forall f: nat, c: nat :: f < g.fats && c < TableSize(g) ==> FatEntry(d, g, f, c) != 0
  }

  /** When every entry of both tables is taken and the root directory begins with
      a zero word, that word is handed out as cluster 32768. Its mark lands in the
      root directory, and the mark for the second table in a file's cluster 10. */
  lemma ShippedOverruns(d: Disk, d': Disk, g: Geometry)
    requires g == SHIPPED_GEOMETRY && AllTaken(d, g) && FatEntry(d, g, 0, 32768) == 0
    ensures Found(d, g) == 32768 && RootZero(d, g)
    ensures Taken(d, d', g, 32768) ==> FatEntry(d', g, 0, 32768) == 0xFFFF && ByteAt(d', g, 10, 0) == ByteAt(d', g, 10, 1) == 0xFF
  {
    ShippedMounts();
    var c, at: nat := Found(d, g), 32768;
    assert FatSector(g, 0, at) == 132 && FatSector(g, 1, at) == 196;
    if 0 < c < at {
      SecondTable(d, g, c);
      assert false;
    }
    assert Stamped(g, at, 132, g.fats) && Stamped(g, at, 196, g.fats);
    assert FirstSector(g, 10) == 196 && FirstSector(g, at) > 196;
    if Taken(d, d', g, at) {
      assert Sec(d', 132) == Patch(Sec(d, 132), at, 0xFFFF) && Sec(d', 196) == Patch(Sec(d, 196), at, 0xFFFF);
      PatchEntry(Sec(d, 132), at, 0xFFFF, at);
    }
  }

  /** Such a volume: tables of end marks, and nothing else. */
  function FullVolume(g: Geometry): Disk
  {
    map n: nat | n < g.dataStart && TableSector(g, n) :: seq(512, _ => 0xFF)
  }

  lemma FullIsTaken(g: Geometry)
    requires g == SHIPPED_GEOMETRY
    ensures AllTaken(FullVolume(g), g) && FatEntry(FullVolume(g), g, 0, 32768) == 0
  {
    forall f: nat, c: nat | f < g.fats && c < TableSize(g)
      ensures FatEntry(FullVolume(g), g, f, c) != 0
    {
      InTables(g, f, c);
    }
    assert FatSector(g, 0, 32768) == 132;
  }

  // ----- the search for a free cluster -----

  /** The first cluster number from i on whose word is zero, 0 for none. The
      search does not know where the table ends. */
  function FirstZero(d: Disk, g: Geometry, i: nat): (c: nat)
    requires 2 <= i <= ALLOC_LIMIT
    ensures c == 0 || (i <= c < ALLOC_LIMIT && FatEntry(d, g, 0, c) == 0)
    ensures forall k: nat {:trigger FatEntry(d, g, 0, k)} :: i <= k < (if c == 0 then ALLOC_LIMIT else c) ==> FatEntry(d, g, 0, k) != 0
    decreases ALLOC_LIMIT - i
  {
    if i == ALLOC_LIMIT then 0 else if FatEntry(d, g, 0, i) == 0 then i else FirstZero(d, g, i + 1)
  }

  function Found(d: Disk, g: Geometry): (c: nat)
    ensures c == 0 || (2 <= c < ALLOC_LIMIT && FatEntry(d, g, 0, c) == 0)
    ensures forall k: nat {:trigger FatEntry(d, g, 0, k)} :: 2 <= k < (if c == 0 then ALLOC_LIMIT else c) ==> FatEntry(d, g, 0, k) != 0
  {
    FirstZero(d, g, 2)
  }

  function FreeSet(fat: seq<nat>): set<nat>
  {
    set c: nat | c < |fat| && FreeEntry(fat, c)
  }

  /** The search ends in the table exactly when some entry below 0xFFF0 is zero;
      otherwise it hands out the first zero word beyond, if there is one. */
  lemma FoundInTable(d: Disk, g: Geometry)
    ensures var c := Found(d, g);
            && (FreeSet(Fat(d, g)) != {} <==> 0 < c < TableSize(g))
            && (0 < c < TableSize(g) ==> FreeEntry(Fat(d, g), c) && forall e :: e in FreeSet(Fat(d, g)) ==> c <= e)
            && (TableSize(g) >= ALLOC_LIMIT ==> c < TableSize(g))
  {
    var c := Found(d, g);
    if e :| e in FreeSet(Fat(d, g)) {
      assert FatEntry(d, g, 0, e) == 0;
    }
    if 0 < c < TableSize(g) {
      assert c in FreeSet(Fat(d, g));
      forall e | e in FreeSet(Fat(d, g))
        ensures c <= e
      {
        assert FatEntry(d, g, 0, e) == 0;
      }
    }
  }

  /** A zero word in the root directory that the search comes to. */
  ghost predicate RootZero(d: Disk, g: Geometry)
  {
    exists e: nat :: TableSize(g) <= e < ALLOC_LIMIT && FatSector(g, 0, e) < g.dataStart && !TableSector(g, FatSector(g, 0, e))
                     && FatEntry(d, g, 0, e) == 0
  }

  /** No write to the table or the files makes it go away. */
  lemma RootZeroStays(d: Disk, d': Disk, g: Geometry)
    requires Usable(g) && RootZero(d, g) && SameBetween(d, d', g)
    ensures Found(d', g) != 0
  {
    var e: nat :| TableSize(g) <= e < ALLOC_LIMIT && FatSector(g, 0, e) < g.dataStart && !TableSector(g, FatSector(g, 0, e))
                  && FatEntry(d, g, 0, e) == 0;
    assert e >= 2 && FatEntry(d', g, 0, e) == 0;
  }

  predicate InCluster(g: Geometry, c: nat, n: nat)
    requires c >= 2
  {
    FirstSector(g, c) <= n < FirstSector(g, c) + g.perCluster
  }

  /** Cluster c marked as an end of chain, wherever its word lies, and its data zeroed. */
  ghost predicate Taken(d: Disk, d': Disk, g: Geometry, c: nat)
    requires c >= 2
  {
    forall n: nat {:trigger Sec(d', n)} ::
      Sec(d', n) == if InCluster(g, c, n) then ZeroSector()
                                   else if Stamped(g, c, n, g.fats) then Patch(Sec(d, n), c, 0xFFFF) else Sec(d, n)
  }

  /** In the table that is one entry in each copy and one cluster's bytes. */
  lemma TakenInTable(d: Disk, d': Disk, g: Geometry, c: nat)
    requires Usable(g) && 2 <= c < TableSize(g) && Taken(d, d', g, c)
    ensures InEveryCopy(d, d', g, c, 0xFFFF) && Fat(d', g) == Fat(d, g)[c := 0xFFFF]
    ensures Mirrored(d, g) ==> Mirrored(d', g)
    ensures OnlyCluster(d, d', g, c) && SameBetween(d, d', g)
    ensures forall x: nat :: x < ClusterSize(g) ==> ByteAt(d', g, c, x) == 0
  {
    AfterTables(g, c);
    WrittenTable(d, d', g, c, 0xFFFF);
    forall n: nat | Stamped(g, c, n, g.fats)
      ensures TableSector(g, n)
    {
      var f: nat :| f < g.fats && FatSector(g, f, c) == n;
      InTables(g, f, c);
    }
    assert forall n: nat :: n >= g.dataStart ==> !TableSector(g, n);
    ZeroBytes(d', g, c);
  }

  // ----- chains -----

  predicate InChain(c: nat)
  {
    2 <= c < END_OF_CHAIN
  }

  /** A cluster number the table has an entry for. */
  predicate InTable(fat: seq<nat>, c: nat)
  {
    InChain(c) && c < |fat|
  }

  /** The clusters a release visits from `c` on, not entering `seen` again. */
  function Visited(fat: seq<nat>, c: nat, seen: set<nat>): (r: set<nat>)
    decreases Clusters() - seen
  {
    if !InTable(fat, c) || c in seen then {} else {c} + Visited(fat, fat[c], seen + {c})
  }

  function Clusters(): set<nat>
  {
    set c: nat | c < END_OF_CHAIN && InChain(c)
  }

  ghost predicate ClosedUnder(fat: seq<nat>, s: set<nat>)
  {
    forall c :: c in s ==> InTable(fat, c) && (InTable(fat, fat[c]) ==> fat[c] in s)
  }

  /** The start and every link from these entries that names a cluster names one
      the table has an entry for. */
  ghost predicate StaysInside(fat: seq<nat>, start: nat, s: set<nat>)
  {
    && (InChain(start) ==> start < |fat|)
    && forall c :: c in s && c < |fat| && InChain(fat[c]) ==> fat[c] < |fat|
  }

  /** The visited clusters are the least set that holds the start and follows links. */
  lemma {:induction false} VisitedClosed(fat: seq<nat>, c: nat, seen: set<nat>)
    requires forall x :: x in seen ==> InTable(fat, x) && (InTable(fat, fat[x]) ==> fat[x] in seen || fat[x] == c)
    ensures ClosedUnder(fat, seen + Visited(fat, c, seen)) && (InTable(fat, c) ==> c in seen + Visited(fat, c, seen))
    decreases Clusters() - seen
  {
    if InTable(fat, c) && c !in seen {
      VisitedClosed(fat, fat[c], seen + {c});
      assert seen + Visited(fat, c, seen) == seen + {c} + Visited(fat, fat[c], seen + {c});
    }
  }

  lemma {:induction false} VisitedLeast(fat: seq<nat>, c: nat, seen: set<nat>, s: set<nat>)
    requires ClosedUnder(fat, s) && (InTable(fat, c) ==> c in s)
    ensures Visited(fat, c, seen) <= s
    decreases Clusters() - seen
  {
    if InTable(fat, c) && c !in seen {
      VisitedLeast(fat, fat[c], seen + {c}, s);
    }
  }

  /** `fat` with the clusters of `s` free. */
  function Without(fat: seq<nat>, s: set<nat>): (r: seq<nat>)
    ensures |r| == |fat|
  {
    seq(|fat|, (c: nat) requires c < |fat| => if c in s then 0 else fat[c])
  }

  /** Freeing one more cluster, from a table in which `seen` is already free. */
  lemma ReleaseStep(fat: seq<nat>, seen: set<nat>, c: nat)
    requires InTable(fat, c)
    ensures var next, more := Without(fat, seen)[c], seen + {c};
            && Without(fat, seen)[c := 0] == Without(fat, more)
            && seen + Visited(fat, c, seen) == more + Visited(fat, next, more)
            && (c in seen ==> next == 0 && more == seen) && (c !in seen ==> |more| == |seen| + 1)
  {
  }

  lemma ClusterCount(s: set<nat>)
    requires forall c :: c in s ==> InChain(c)
    ensures |s| <= 65526
  {
    SubsetSize(s, 2, END_OF_CHAIN);
  }

  lemma {:induction false} SubsetSize(s: set<nat>, lo: nat, hi: nat)
    requires lo <= hi && forall c :: c in s ==> lo <= c < hi
    ensures |s| <= hi - lo
    decreases hi - lo
  {
    if lo < hi {
      SubsetSize(s - {hi - 1}, lo, hi - 1);
      assert |s| <= |s - {hi - 1}| + 1;
    } else {
      assert s == {};
    }
  }

  /** Link k of a chain: the next cluster, or an end mark. */
  predicate Link(fat: seq<nat>, cs: seq<nat>, k: nat)
    requires k < |cs|
  {
    InTable(fat, cs[k]) && if k + 1 < |cs| then fat[cs[k]] == cs[k + 1] else fat[cs[k]] >= END_OF_CHAIN
  }

  /** `cs` is a whole chain of the table, without repetition. */
  ghost predicate Chain(fat: seq<nat>, cs: seq<nat>)
  {
    && |cs| > 0
    && (forall k: nat {:trigger Link(fat, cs, k)} :: k < |cs| ==> Link(fat, cs, k))
    && (forall i: nat, j: nat :: i < j < |cs| ==> cs[i] != cs[j])
  }

  ghost predicate Disjoint(a: seq<nat>, b: seq<nat>)
  {
    forall c :: c in a ==> c !in b
  }

  /** A cluster whose entry is 0 belongs to no chain. */
  lemma FreeNotInChain(fat: seq<nat>, cs: seq<nat>, c: nat)
    requires Chain(fat, cs) && c < |fat| && fat[c] == 0
    ensures c !in cs
  {
    forall k: nat | k < |cs|
      ensures cs[k] != c
    {
      assert Link(fat, cs, k);
      if k + 1 < |cs| { assert Link(fat, cs, k + 1); }
    }
  }

  /** The table changed only inside `cs'`, which is `cs` and clusters that were free. */
  ghost predicate TableFrame(fat: seq<nat>, fat': seq<nat>, cs: seq<nat>, cs': seq<nat>)
    requires |fat| == |fat'|
  {
    && (forall c: nat :: c < |fat| && c !in cs' ==> fat'[c] == fat[c])
    && (forall c :: c in cs' && c !in cs ==> FreeEntry(fat, c))
  }

  /** What the allocation takes: a zero entry of the table, below 0xFFF0. */
  predicate FreeEntry(fat: seq<nat>, c: nat)
  {
    2 <= c < ALLOC_LIMIT && c < |fat| && fat[c] == 0
  }

  /** Any other file's chain is still its chain. */
  lemma OtherChain(fat: seq<nat>, fat': seq<nat>, cs: seq<nat>, cs': seq<nat>, o: seq<nat>)
    requires |fat| == |fat'| && TableFrame(fat, fat', cs, cs')
    requires Chain(fat, o) && Disjoint(o, cs)
    ensures Chain(fat', o) && Disjoint(o, cs')
  {
    forall c | c in o
      ensures c !in cs'
    {
      if c in cs' {
        FreeNotInChain(fat, o, c);
      }
    }
    forall k: nat | k < |o|
      ensures Link(fat', o, k)
    {
      assert Link(fat, o, k) && o[k] in o;
    }
  }

  lemma AppendChain(fat: seq<nat>, cs: seq<nat>, c: nat)
    requires Chain(fat, cs) && FreeEntry(fat, c)
    ensures c !in cs && InTable(fat, cs[|cs| - 1])
    ensures Chain(fat[c := 0xFFFF][cs[|cs| - 1] := c], cs + [c])
    ensures TableFrame(fat, fat[c := 0xFFFF][cs[|cs| - 1] := c], cs, cs + [c])
  {
    FreeNotInChain(fat, cs, c);
    assert Link(fat, cs, |cs| - 1);
    var fat', r := fat[c := 0xFFFF][cs[|cs| - 1] := c], cs + [c];
    forall k: nat | k < |r|
      ensures Link(fat', r, k)
    {
      if k < |cs| { assert Link(fat, cs, k); }
    }
    assert cs[|cs| - 1] in r;
  }

  // ----- bytes of clusters -----

  function ClusterSize(g: Geometry): nat
  {
    g.perCluster * SECTOR_SIZE
  }

  function FirstSector(g: Geometry, c: nat): nat
    requires c >= 2
  {
    g.dataStart + (c - 2) * g.perCluster
  }

  /** Byte x of cluster c. */
  function ByteAt(d: Disk, g: Geometry, c: nat, x: nat): Byte
    requires c >= 2
  {
    Sec(d, FirstSector(g, c) + x / 512)[x % 512]
  }

  /** Clusters of equal size fill the data area, beginning with number 2. */
  lemma ClustersFollow(g: Geometry, c: nat)
    requires c >= 2
    ensures FirstSector(g, 2) == g.dataStart && FirstSector(g, c + 1) == FirstSector(g, c) + g.perCluster
  {
    assert (c - 1) * g.perCluster == (c - 2) * g.perCluster + g.perCluster;
  }

  lemma AfterTables(g: Geometry, c: nat)
    requires c >= 2
    ensures FirstSector(g, c) >= g.dataStart
  {
  }

  lemma SameByte(d: Disk, d': Disk, g: Geometry, c: nat, x: nat)
    requires c >= 2 && SameData(d, d', g)
    ensures ByteAt(d', g, c, x) == ByteAt(d, g, c, x)
  {
    AfterTables(g, c);
  }

  /** Only sectors of cluster c's data changed. */
  ghost predicate OnlyCluster(d: Disk, d': Disk, g: Geometry, c: nat)
    requires c >= 2
  {
    forall n: nat :: n >= g.dataStart && !(FirstSector(g, c) <= n < FirstSector(g, c) + g.perCluster) ==> Sec(d', n) == Sec(d, n)
  }

  lemma OtherCluster(d: Disk, d': Disk, g: Geometry, c: nat, c': nat, x: nat)
    requires Usable(g) && c >= 2 && c' >= 2 && c != c' && OnlyCluster(d, d', g, c) && x < ClusterSize(g)
    ensures ByteAt(d', g, c', x) == ByteAt(d, g, c', x)
  {
    var i := x / 512;
    RowsApart(g.perCluster, c' - 2, i, c - 2);
    AfterTables(g, c');
    assert FirstSector(g, c') + i - g.dataStart == (c' - 2) * g.perCluster + i;
  }

  lemma RowsApart(m: nat, a: nat, i: nat, b: nat)
    requires i < m && a != b
    ensures !(b * m <= a * m + i < b * m + m)
  {
    if b * m <= a * m + i < b * m + m {
      RowColumn(m, a, i, b, a * m + i - b * m);
      assert false;
    }
  }

  // ----- the volume -----

  class Volume {
    var disk: Disk
    const geo: Geometry

    constructor (disk: Disk, geo: Geometry)
      ensures this.disk == disk && this.geo == geo
    {
      this.disk, this.geo := disk, geo;
    }

    ghost predicate Valid()
      reads this
    {
      Usable(geo) && Mirrored(disk, geo)
    }

    ghost function Table(): (fat: seq<nat>)
      reads this
      ensures |fat| == TableSize(geo)
    {
      Fat(disk, geo)
    }

    method ReadEntry(cluster: Word) returns (v: Word)
      ensures v == if cluster < 2 then 0 else FatEntry(disk, geo, 0, cluster)
      ensures 2 <= cluster < TableSize(geo) ==> v == Table()[cluster]
    {
      if cluster < 2 { return 0; }
      var fatOffset := cluster * 2;
      var sector := Sec(disk, geo.fatStart + fatOffset / 512);
      var at := fatOffset % 512;
      v := sector[at] as int + 256 * (sector[at + 1] as int);
      assert fatOffset / 512 == cluster / 256 && at == cluster % 256 * 2;
    }

    /** Every copy of the table gets the new value; nothing else changes. For a
        cluster beyond the table the same holds of the sectors where its entries
        would be. */
    method WriteEntry(cluster: Word, value: Word) returns (ok: bool)
      requires Usable(geo)
      modifies this`disk
      ensures ok <==> cluster >= 2
      ensures !ok ==> disk == old(disk)
      ensures ok ==> EntryWritten(old(disk), disk, geo, cluster, value, geo.fats)
      ensures 2 <= cluster < TableSize(geo) ==>
                && SameData(old(disk), disk, geo) && SameBetween(old(disk), disk, geo)
                && InEveryCopy(old(disk), disk, geo, cluster, value)
                && Table() == old(Table())[cluster := value]
                && (old(Mirrored(disk, geo)) ==> Mirrored(disk, geo))
    {
      if cluster < 2 { return false; }
      for f := 0 to geo.fats
        invariant EntryWritten(old(disk), disk, geo, cluster, value, f)
      {
        var n := geo.fatStart + cluster * 2 / 512 + f * geo.perFat;
        assert n == FatSector(geo, f, cluster);
        ghost var d := disk;
        disk := disk[n := Patch(Sec(disk, n), cluster, value)];
        NextCopy(old(disk), d, disk, geo, cluster, value, f);
      }
      if cluster < TableSize(geo) {
        WrittenTable(old(disk), disk, geo, cluster, value);
        WrittenInside(old(disk), disk, geo, cluster, value);
      }
      return true;
    }

    /** Frees every cluster reachable from the start. It succeeds on any volume,
        cyclic chains and links out of the table included: the guard is never
        exhausted. When no link leaves the table, exactly the visited entries are
        freed. The chain is read from the first copy of the table, whether or not
        the others agree with it. */
    method ReleaseChain(start: Word) returns (ok: bool)
      requires Usable(geo)
      modifies this`disk
      ensures ok
      ensures var visited := Visited(old(Table()), start, {});
              StaysInside(old(Table()), start, visited) ==> Released(old(disk), disk, geo, visited)
    {
      ghost var d0, fat := disk, Table();
      ghost var inside := StaysInside(fat, start, Visited(fat, start, {}));
      assert Without(fat, {}) == fat;
      if start < 2 { return true; }
      var cluster: Word := start;
      ghost var seen: set<nat> := {};
      var guard := 0;
      while guard < 0x10000
        invariant AllZero(disk, geo, seen)
        invariant guard <= |seen| + (if InChain(cluster) then 0 else 1)
        invariant inside ==> Releasing(d0, disk, geo, start, cluster, seen)
        decreases 0x10000 - guard
      {
        ClusterCount(seen);
        if cluster < 2 || cluster >= END_OF_CHAIN {
          if inside { ReleaseDone(d0, disk, geo, start, cluster, seen); }
          return true;
        }
        var next, written := ReleaseOne(cluster, d0, start, seen, inside);
        seen := seen + {cluster};
        if !written { return false; }
        if next == cluster {
          if inside { ReleaseDone(d0, disk, geo, start, cluster, seen); }
          return true;
        }
        cluster := next;
        guard := guard + 1;
      }
      ClusterCount(seen);
      return false;
    }

    method ReleaseOne(cluster: Word, ghost d0: Disk, ghost start: Word, ghost seen: set<nat>, ghost inside: bool)
      returns (next: Word, written: bool)
      requires Usable(geo) && InChain(cluster) && AllZero(disk, geo, seen)
      requires inside ==> StaysInside(Fat(d0, geo), start, Visited(Fat(d0, geo), start, {})) && Releasing(d0, disk, geo, start, cluster, seen)
      modifies this`disk
      ensures written && AllZero(disk, geo, seen + {cluster})
      ensures |seen| <= |seen + {cluster}| && (next != 0 ==> |seen + {cluster}| == |seen| + 1)
      ensures inside ==> Releasing(d0, disk, geo, start, next, seen + {cluster})
    {
      ghost var before := disk;
      next := ReadEntry(cluster);
      written := WriteEntry(cluster, 0);
      ReleaseNext(d0, before, disk, geo, start, cluster, next, seen, inside);
    }

    /** The first cluster whose word is zero, now an end of chain and filled with
        zeros; 0 when none is. */
    method AllocateCluster() returns (c: Word)
      requires Usable(geo)
      modifies this`disk
      ensures c == Found(old(disk), geo)
      ensures if c == 0 then disk == old(disk) else Taken(old(disk), disk, geo, c)
    {
      for i := 2 to 0xFFF0
        invariant disk == old(disk) && Found(disk, geo) == FirstZero(disk, geo, i)
      {
        var e := ReadEntry(i);
        if e == 0 {
          TakeCluster(i);
          return i;
        }
      }
      return 0;
    }

    method TakeCluster(c: Word)
      requires Usable(geo) && c >= 2
      modifies this`disk
      ensures Taken(old(disk), disk, geo, c)
    {
      var ok := WriteEntry(c, 0xFFFF);
      ghost var d := disk;
      ZeroSectors(FirstSector(geo, c), geo.perCluster);
      MarkedAndZeroed(old(disk), d, disk, geo, c);
    }

    method ZeroSectors(sector: nat, count: nat)
      modifies this`disk
      ensures forall n: nat :: Sec(disk, n) == if sector <= n < sector + count then ZeroSector() else old(Sec(disk, n))
    {
      for s := 0 to count
        invariant forall n: nat :: Sec(disk, n) == if sector <= n < sector + s then ZeroSector() else old(Sec(disk, n))
      {
        ghost var d := disk;
        disk := disk[sector + s := ZeroSector()];
        assert forall n: nat :: Sec(disk, n) == if n == sector + s then ZeroSector() else Sec(d, n);
      }
    }

    /** The sector loop of fat16_write over one cluster: the bytes from `intra` on
        take the next bytes of `data`, up to the cluster's end. */
    method WriteSectors(first: nat, intra: nat, data: seq<Byte>, from: nat) returns (written: nat)
      requires from < |data| && intra < geo.perCluster * 512
      modifies this`disk
      ensures written == from + Room(intra, geo.perCluster * 512, |data| - from)
      ensures forall n: nat :: !(first <= n < first + geo.perCluster) ==> Sec(disk, n) == old(Sec(disk, n))
      ensures forall n: nat, o: nat :: first <= n < first + geo.perCluster && o < 512 ==>
                Sec(disk, n)[o] == Overlaid(old(Sec(disk, n)), (n - first) * 512, o, intra, data, from, written)
    {
      written := from;
      var s := 0;
      while s < geo.perCluster && written < |data|
        invariant s <= geo.perCluster && written == from + Room(intra, s * 512, |data| - from)
        invariant forall n: nat :: !(first <= n < first + s) ==> Sec(disk, n) == old(Sec(disk, n))
        invariant forall n: nat, o: nat :: first <= n < first + s && o < 512 ==>
                    Sec(disk, n)[o] == Overlaid(old(Sec(disk, n)), (n - first) * 512, o, intra, data, from, written)
        decreases geo.perCluster - s
      {
        written := WriteSector(first + s, s * 512, intra, data, from, written);
        s := s + 1;
      }
    }

    /** One sector of that loop; `base` is its offset in the cluster. */
    method WriteSector(n: nat, base: nat, intra: nat, data: seq<Byte>, ghost from: nat, done: nat) returns (written: nat)
      requires from < |data| && done < |data| && done == from + Room(intra, base, |data| - from)
      modifies this`disk
      ensures written == from + Room(intra, base + 512, |data| - from)
      ensures forall k: nat :: k != n ==> Sec(disk, k) == old(Sec(disk, k))
      ensures forall o: nat :: o < 512 ==>
                Sec(disk, n)[o] == Overlaid(old(Sec(disk, n)), base, o, intra, data, from, written)
    {
      if intra >= base + 512 { return done; }
      var sectorOffset := if intra > base then intra - base else 0;
      var copySize := if 512 - sectorOffset > |data| - done then |data| - done else 512 - sectorOffset;
      var sector := Sec(disk, n);
      disk := disk[n := Spliced(sector, sectorOffset, data[done..done + copySize])];
      written := done + copySize;
    }

    method WriteCluster(c: nat, intra: nat, data: seq<Byte>, from: nat) returns (written: nat)
      requires Usable(geo) && c >= 2 && from < |data| && intra < ClusterSize(geo)
      modifies this`disk
      ensures written == from + Room(intra, ClusterSize(geo), |data| - from)
      ensures old(Valid()) ==>
                && Valid() && Table() == old(Table()) && OnlyCluster(old(disk), disk, geo, c) && SameBetween(old(disk), disk, geo)
                && ClusterOverlaid(old(disk), disk, geo, c, intra, data, from, written)
    {
      written := WriteSectors(FirstSector(geo, c), intra, data, from);
      if old(Valid()) {
        SectorsToBytes(old(disk), disk, geo, c, intra, data, from, written);
      }
    }

    /** The next cluster of a chain, appended to it when the chain ends here; 0
        when the search finds none. `current` is element i of `cs`. `clean` says
        whether every cluster handed out so far lay in the table. */
    method NextCluster(current: Word, ghost clean0: bool, ghost cs: seq<nat>, ghost i: nat)
      returns (next: Word, ghost clean: bool, ghost cs': seq<nat>)
      requires Usable(geo) && current >= 2
      requires clean0 ==> Valid() && Chain(Table(), cs) && i < |cs| && cs[i] == current
      modifies this`disk
      ensures next != 1 && (clean ==> clean0 && Valid())
      ensures clean && next == 0 ==> cs' == cs && disk == old(disk) && i + 1 == |cs| && Found(disk, geo) == 0
      ensures clean && next != 0 ==>
                && i + 1 < |cs'| && cs'[i + 1] == next && Grown(old(disk), disk, geo, cs, cs')
                && |cs'| == if i + 1 < |cs| then |cs| else |cs| + 1
      ensures clean0 && !clean ==> i + 1 == |cs| && TableSize(geo) <= next == Found(old(disk), geo)
    {
      clean, cs' := clean0, cs;
      if clean {
        assert Link(Table(), cs, i);
        if i + 1 < |cs| { assert Link(Table(), cs, i + 1); }
      }
      next := ReadEntry(current);
      if next < 2 || next >= END_OF_CHAIN {
        next, clean, cs' := AppendCluster(current, clean0, cs, i);
      } else if clean {
        SameGrown(disk, geo, cs);
      }
    }

    method AppendCluster(current: Word, ghost clean0: bool, ghost cs: seq<nat>, ghost i: nat)
      returns (next: Word, ghost clean: bool, ghost cs': seq<nat>)
      requires Usable(geo) && current >= 2
      requires clean0 ==> Valid() && Chain(Table(), cs) && i + 1 == |cs| && cs[i] == current
      modifies this`disk
      ensures next != 1 && (clean ==> clean0 && Valid())
      ensures clean && next == 0 ==> cs' == cs && disk == old(disk) && Found(disk, geo) == 0
      ensures clean && next != 0 ==> cs' == cs + [next as nat] && Grown(old(disk), disk, geo, cs, cs')
      ensures clean0 && !clean ==> TableSize(geo) <= next == Found(old(disk), geo)
    {
      clean, cs' := clean0, cs;
      next := AllocateCluster();
      if next == 0 { return; }
      clean := clean0 && next < TableSize(geo);
      ghost var d := disk;
      if clean {
        ChainClusters(Fat(old(disk), geo), cs);
        FoundInTable(old(disk), geo);
        TakenInTable(old(disk), disk, geo, next);
        AppendChain(old(Table()), cs, next);
        cs' := cs + [next];
      }
      var linked := WriteEntry(current, next);
      if clean {
        AppendGrown(old(disk), d, disk, geo, cs, next);
      }
    }

    /** fat16_write on a node whose chain is `cs0` ([] when it has none). As long
        as clusters of the table are handed out, success means that the file holds
        the data at the offset and keeps its other bytes, and that clusters new to
        it read as zero elsewhere; on failure `done` bytes were written before the
        volume filled up, and the size is unchanged. That it succeeds is decided
        by the number of free entries before. */
    method Write(node: Node, data: seq<Byte>, offset: nat, ghost cs0: seq<nat>)
      returns (ok: bool, ghost clean: bool, ghost cs: seq<nat>, ghost done: nat)
      requires Valid() && node.Owns(Table(), cs0)
      modifies this`disk, node
      ensures !node.isFile ==> !ok
      ensures node.isFile && data == [] ==> ok
      ensures offset + |data| >= SIZE_LIMIT && data != [] ==> !ok
      ensures !node.isFile || data == [] || offset + |data| >= SIZE_LIMIT ==>
                clean && cs == cs0 && disk == old(disk) && node.size == old(node.size)
      ensures clean ==> Valid() && node.Owns(Table(), cs)
      ensures clean && cs != [] && node.isFile && data != [] && offset + |data| < SIZE_LIMIT ==>
                Progress(old(disk), disk, geo, cs0, cs, offset, data, done)
      ensures clean && cs == [] ==> disk == old(disk)
      ensures clean && node.isFile && data != [] && offset + |data| < SIZE_LIMIT ==>
                (ok <==> Enough(old(disk), geo, cs0, offset, data)) && (!ok ==> Found(disk, geo) == 0)
      ensures if ok && data != [] then
                && (clean ==> done == |data| && |cs| == Longer(|cs0|, Need(geo, offset, data)))
                && node.size == (if offset + |data| > old(node.size) then offset + |data| else old(node.size))
              else node.size == old(node.size)
      ensures !clean ==> !Enough(old(disk), geo, cs0, offset, data) && Overruns(old(disk), geo, cs0, offset, data)
      ensures node.isFile && offset + |data| < SIZE_LIMIT && !Enough(old(disk), geo, cs0, offset, data) && RootZero(old(disk), geo) ==>
                !clean
      ensures TableSize(geo) >= ALLOC_LIMIT ==> clean
    {
      clean, cs, done := true, cs0, 0;
      if !node.isFile { return false, clean, cs, 0; }
      if |data| == 0 { return true, clean, cs, 0; }
      if offset + |data| >= SIZE_LIMIT { return false, clean, cs, 0; }
      ok, clean, cs, done := WriteClustersOf(node, data, offset, cs0);
      if ok && offset + |data| > node.size {
        node.size := offset + |data|;
      }
    }

    method WriteClustersOf(node: Node, data: seq<Byte>, offset: nat, ghost cs0: seq<nat>)
      returns (ok: bool, ghost clean: bool, ghost cs: seq<nat>, ghost done: nat)
      requires Valid() && node.Owns(Table(), cs0) && |data| > 0
      modifies this`disk, node`first
      ensures clean ==> Valid() && node.Owns(Table(), cs) && (ok <==> Enough(old(disk), geo, cs0, offset, data))
      ensures clean && cs != [] ==> Progress(old(disk), disk, geo, cs0, cs, offset, data, done)
      ensures clean && cs == [] ==> disk == old(disk)
      ensures clean && ok ==> done == |data| && |cs| == Longer(|cs0|, Need(geo, offset, data))
      ensures clean && !ok ==> Found(disk, geo) == 0 && !RootZero(old(disk), geo)
      ensures !clean ==> Overruns(old(disk), geo, cs0, offset, data)
      ensures !clean ==> !Enough(old(disk), geo, cs0, offset, data) && TableSize(geo) < ALLOC_LIMIT
    {
      done := 0;
      ok, clean, cs := FirstCluster(node, cs0, offset, data);
      if !ok {
        FoundInTable(disk, geo);
        SkipInside(geo, offset, data, 0);
        if RootZero(disk, geo) { RootZeroStays(disk, disk, geo); }
        return;
      }
      ghost var clean0 := clean;
      SkipInside(geo, offset, data, 0);
      ok, clean, cs, done := WriteChain(node.first, data, offset, old(disk), cs0, clean, cs);
      if clean {
        if !ok && RootZero(old(disk), geo) { RootZeroStays(old(disk), disk, geo); }
        EnoughDecides(old(disk), disk, geo, cs0, cs, offset, data, done, ok, node.first);
      } else {
        assert !clean0 ==> Overruns(old(disk), geo, cs0, offset, data);
        OverrunLacks(old(disk), geo, cs0, offset, data);
      }
    }

    /** A node without clusters gets one. */
    method FirstCluster(node: Node, ghost cs0: seq<nat>, ghost offset: nat, ghost data: seq<Byte>)
      returns (ok: bool, ghost clean: bool, ghost cs: seq<nat>)
      requires Valid() && node.Owns(Table(), cs0) && |data| > 0
      modifies this`disk, node`first
      ensures ok ==> node.first >= 2
      ensures clean ==> Valid() && node.Owns(Table(), cs)
      ensures !ok ==> clean && cs == cs0 == [] && disk == old(disk) && Found(disk, geo) == 0
      ensures clean && ok ==>
                && cs != [] && Progress(old(disk), disk, geo, cs0, cs, offset, data, 0)
                && |cs| == Longer(|cs0|, 1)
      ensures !clean ==> ok && cs0 == [] && Found(old(disk), geo) >= TableSize(geo)
    {
      clean, cs := true, cs0;
      if node.first < 2 {
        var c := AllocateCluster();
        if c == 0 { return false, clean, cs; }
        node.first := c;
        cs := [c];
        clean := c < TableSize(geo);
        if clean {
          FoundInTable(old(disk), geo);
          TakenInTable(old(disk), disk, geo, c);
          FirstProgress(old(disk), disk, geo, c, offset, data);
        }
        return true, clean, cs;
      }
      StartProgress(disk, geo, cs0, offset, data);
      ok := true;
    }

    /** The two loops of fat16_write: skip to the offset's cluster, then write,
        extending the chain whenever it ends. */
    method WriteChain(first: Word, data: seq<Byte>, offset: nat, ghost d0: Disk, ghost cs0: seq<nat>,
                      ghost clean0: bool, ghost cs1: seq<nat>)
      returns (ok: bool, ghost clean: bool, ghost cs: seq<nat>, ghost done: nat)
      requires Usable(geo) && |data| > 0 && first >= 2
      requires clean0 ==> Writing(d0, disk, geo, cs0, cs1, offset, data, 0, 0, first)
      modifies this`disk
      ensures clean ==> clean0 && Written(d0, disk, geo, cs0, cs, offset, data, done, ok, first)
      ensures clean0 && !clean ==> Overruns(d0, geo, cs0, offset, data)
    {
      clean, cs, done := clean0, cs1, 0;
      ClusterNonempty(geo);
      var clusterSize := ClusterSize(geo);
      DivMod(offset, clusterSize);
      var skip: nat := offset / clusterSize;
      var intra := offset % clusterSize;
      ghost var target := skip;
      assert offset == Base(geo, target) + intra;
      SkipInside(geo, offset, data, target);
      var current: Word := first;
      ghost var k: nat := 0;
      while skip > 0
        invariant k + skip == target && current >= 2 && (clean ==> clean0)
        invariant clean ==> Writing(d0, disk, geo, cs0, cs, offset, data, 0, k, current) && cs[0] == first
        invariant clean0 && !clean ==> Overruns(d0, geo, cs0, offset, data)
        decreases skip
      {
        var next;
        next, clean, cs := Advance(current, d0, cs0, clean, clean0, cs, k, offset, data, 0);
        if next == 0 { return false, clean, cs, 0; }
        current := next;
        skip := skip - 1;
        k := k + 1;
      }
      ok, clean, cs, done := WriteClusters(current, intra, data, offset, d0, cs0, clean, clean0, cs, k, first);
    }

    /** On to cluster k + 1 of the file, which the write needs. */
    method Advance(current: Word, ghost d0: Disk, ghost cs0: seq<nat>, ghost clean: bool, ghost clean0: bool, ghost cs: seq<nat>,
                   ghost k: nat, ghost offset: nat, ghost data: seq<Byte>, ghost done: nat)
      returns (next: Word, ghost clean': bool, ghost cs': seq<nat>)
      requires Usable(geo) && current >= 2 && |data| > 0 && k + 1 < Need(geo, offset, data) && (clean ==> clean0)
      requires clean ==> Writing(d0, disk, geo, cs0, cs, offset, data, done, k, current)
      requires clean ==> done == 0 || offset + done <= Base(geo, |cs|)
      requires clean0 && !clean ==> Overruns(d0, geo, cs0, offset, data)
      modifies this`disk
      ensures next != 1 && (clean' ==> clean)
      ensures clean' && next != 0 ==> Writing(d0, disk, geo, cs0, cs', offset, data, done, k + 1, next) && cs <= cs'
      ensures clean' && next == 0 ==> Written(d0, disk, geo, cs0, cs', offset, data, done, false, cs[0]) && cs' == cs
      ensures clean0 && !clean' ==> Overruns(d0, geo, cs0, offset, data)
    {
      ghost var d := disk;
      if clean { assert InChain(cs[k]); }
      next, clean', cs' := NextCluster(current, clean, cs, k);
      if clean' && next != 0 {
        GrowProgress(d0, d, disk, geo, cs0, cs, cs', offset, data, done);
      }
      if clean && !clean' {
        assert Progress(d0, d, geo, cs0, cs, offset, data, done);
      }
    }

    method WriteClusters(start: Word, intra0: nat, data: seq<Byte>, offset: nat, ghost d0: Disk, ghost cs0: seq<nat>,
                         ghost clean1: bool, ghost clean0: bool, ghost cs1: seq<nat>, ghost k0: nat, ghost first: nat)
      returns (ok: bool, ghost clean: bool, ghost cs: seq<nat>, ghost done: nat)
      requires Usable(geo) && |data| > 0 && start >= 2 && (clean1 ==> clean0)
      requires clean1 ==> Writing(d0, disk, geo, cs0, cs1, offset, data, 0, k0, start) && cs1[0] == first
      requires clean0 && !clean1 ==> Overruns(d0, geo, cs0, offset, data)
      requires intra0 < ClusterSize(geo) && offset == Base(geo, k0) + intra0
      modifies this`disk
      ensures clean ==> clean1 && Written(d0, disk, geo, cs0, cs, offset, data, done, ok, first)
      ensures clean0 && !clean ==> Overruns(d0, geo, cs0, offset, data)
    {
      clean, cs := clean1, cs1;
      var current: Word, intra: nat, written: nat := start, intra0, 0;
      ghost var k: nat := k0;
      while true
        invariant current >= 2 && (clean ==> clean1)
        invariant written < |data| && intra < ClusterSize(geo) && offset + written == Base(geo, k) + intra
        invariant clean ==> Writing(d0, disk, geo, cs0, cs, offset, data, written, k, current) && cs[0] == first
        invariant clean0 && !clean ==> Overruns(d0, geo, cs0, offset, data)
        decreases |data| - written
      {
        written := PutCluster(current, intra, data, written, offset, d0, cs0, clean, cs, k);
        intra := 0;
        if written >= |data| { return true, clean, cs, written; }
        var next;
        next, clean, cs := Advance(current, d0, cs0, clean, clean0, cs, k, offset, data, written);
        if next == 0 { return false, clean, cs, written; }
        current := next;
        k := k + 1;
      }
    }

    /** One cluster's share of the data. */
    method PutCluster(current: Word, intra: nat, data: seq<Byte>, was: nat, ghost offset: nat, ghost d0: Disk, ghost cs0: seq<nat>,
                      ghost clean: bool, ghost cs: seq<nat>, ghost k: nat)
      returns (written: nat)
      requires Usable(geo) && current >= 2 && was < |data| && intra < ClusterSize(geo) && offset + was == Base(geo, k) + intra
      requires clean ==> Writing(d0, disk, geo, cs0, cs, offset, data, was, k, current)
      modifies this`disk
      ensures was < written <= |data|
      ensures written < |data| ==> offset + written == Base(geo, k + 1) && k + 1 < Need(geo, offset, data)
      ensures clean ==>
                && Writing(d0, disk, geo, cs0, cs, offset, data, written, k, current)
                && offset + written <= Base(geo, |cs|)
      ensures clean && written == |data| ==> Written(d0, disk, geo, cs0, cs, offset, data, written, true, cs[0])
    {
      ghost var d := disk;
      if clean { assert InChain(cs[k]); }
      written := WriteCluster(current, intra, data, was);
      RowEnd(ClusterSize(geo), k, k + 1);
      NeedIs(geo, offset, data, k + 1);
      if clean {
        PutProgress(d0, d, disk, geo, cs0, cs, offset, data, was, written, k, intra);
        EndInside(geo, k, |cs|);
      }
    }

    /** fat16_read: up to `size` bytes from the offset, cut at the file's size. For
        a file in good order it succeeds exactly when the chain is long enough. */
    method Read(node: Node, offset: nat, size: nat, ghost cs: seq<nat>) returns (ok: bool, buffer: seq<Byte>)
      requires Usable(geo)
      ensures node.Owns(Table(), cs) ==>
                (ok <==>
                   && node.isFile
                   && (size == 0 || (offset < node.size && offset + Readable(node.size, offset, size) <= Base(geo, |cs|))))
      ensures ok ==> |buffer| == Readable(node.size, offset, size)
      ensures ok && node.Owns(Table(), cs) ==> Shows(disk, geo, cs, offset, buffer)
    {
      buffer := [];
      if !node.isFile { return false, []; }
      if size == 0 { return true, []; }
      if offset >= node.size { return false, []; }
      var count := Readable(node.size, offset, size);
      if node.first < 2 { return false, []; }
      ok, buffer := ReadChain(node.first, offset, count, cs);
    }

    method ReadChain(first: Word, offset: nat, count: nat, ghost cs: seq<nat>) returns (ok: bool, buffer: seq<Byte>)
      requires Usable(geo) && first >= 2 && count > 0
      ensures ok ==> |buffer| == count
      ensures Chain(Table(), cs) && cs[0] == first ==>
                (ok <==> offset + count <= Base(geo, |cs|)) && (ok ==> Shows(disk, geo, cs, offset, buffer))
    {
      ClusterNonempty(geo);
      var clusterSize := ClusterSize(geo);
      DivMod(offset, clusterSize);
      var skip: nat := offset / clusterSize;
      var intra: nat := offset % clusterSize;
      ghost var target := skip;
      ghost var good := Chain(Table(), cs) && cs[0] == first;
      assert offset == Base(geo, target) + intra;
      var cluster: Word := first;
      ghost var k: nat := 0;
      while skip > 0 && InChain(cluster)
        invariant k + skip == target
        invariant good ==> Reached(Table(), cs, k, cluster)
      {
        if good { ReachNext(Table(), cs, k, cluster); }
        cluster := ReadEntry(cluster);
        skip := skip - 1;
        k := k + 1;
      }
      if !InChain(cluster) {
        if good {
          ReachEnds(Table(), cs, k, cluster);
          BaseMonotone(geo, |cs|, target);
        }
        return false, [];
      }
      ok, buffer := ReadClusters(cluster, intra, offset, count, cs, k, good);
    }

    method ReadClusters(start: Word, intra0: nat, ghost offset: nat, count: nat, ghost cs: seq<nat>, ghost k0: nat, ghost good: bool)
      returns (ok: bool, buffer: seq<Byte>)
      requires Usable(geo) && count > 0 && intra0 < ClusterSize(geo) && offset == Base(geo, k0) + intra0 && InChain(start)
      requires good ==> Chain(Table(), cs) && Reached(Table(), cs, k0, start)
      ensures ok ==> |buffer| == count
      ensures good ==> (ok <==> offset + count <= Base(geo, |cs|)) && (ok ==> Shows(disk, geo, cs, offset, buffer))
    {
      buffer := [];
      var cluster: Word, intra: nat := start, intra0;
      ghost var k: nat := k0;
      while |buffer| < count && InChain(cluster)
        invariant |buffer| <= count && intra < ClusterSize(geo)
        invariant |buffer| < count ==> offset + |buffer| == Base(geo, k) + intra
        invariant good ==> Reached(Table(), cs, k, cluster) && Shows(disk, geo, cs, offset, buffer)
        invariant good && |buffer| == count ==> offset + count <= Base(geo, |cs|)
        decreases count - |buffer|
      {
        if good {
          ReachNext(Table(), cs, k, cluster);
          EndInside(geo, k, |cs|);
        }
        RowEnd(ClusterSize(geo), k, k + 1);
        var more := ReadSectors(FirstSector(geo, cluster), intra, count - |buffer|);
        if good { MoreShown(disk, geo, cs, offset, buffer, k, intra, more); }
        buffer := buffer + more;
        intra := 0;
        cluster := ReadEntry(cluster);
        k := k + 1;
      }
      if good && |buffer| < count {
        ReachEnds(Table(), cs, k, cluster);
        BaseMonotone(geo, |cs|, k);
      }
      ok := |buffer| == count;
    }

    /** The sector loop of fat16_read over one cluster. */
    method ReadSectors(first: nat, intra: nat, left: nat) returns (bytes: seq<Byte>)
      requires intra < geo.perCluster * 512 && left > 0
      ensures |bytes| == Room(intra, geo.perCluster * 512, left)
      ensures forall t :: 0 <= t < |bytes| ==> bytes[t] == Sec(disk, first + (intra + t) / 512)[(intra + t) % 512]
    {
      bytes := [];
      var s := 0;
      while s < geo.perCluster && |bytes| < left
        invariant s <= geo.perCluster && |bytes| == Room(intra, s * 512, left)
        invariant forall t :: 0 <= t < |bytes| ==> bytes[t] == Sec(disk, first + (intra + t) / 512)[(intra + t) % 512]
      {
        var sectorStart := s * 512;
        if intra < sectorStart + 512 {
          var sectorOffset := if intra > sectorStart then intra - sectorStart else 0;
          var copySize := if 512 - sectorOffset > left - |bytes| then left - |bytes| else 512 - sectorOffset;
          bytes := bytes + Sec(disk, first + s)[sectorOffset..sectorOffset + copySize];
        }
        s := s + 1;
      }
    }
  }

  lemma NextCopy(d0: Disk, d: Disk, d': Disk, g: Geometry, c: nat, v: nat, f: nat)
    requires Usable(g) && v < ENTRIES && EntryWritten(d0, d, g, c, v, f)
    requires var n := FatSector(g, f, c); d' == d[n := Patch(Sec(d, n), c, v)]
    ensures EntryWritten(d0, d', g, c, v, f + 1)
  {
    CopiesApart(g, c, f);
    forall n: nat
      ensures Sec(d', n) == if Stamped(g, c, n, f + 1) then Patch(Sec(d0, n), c, v) else Sec(d0, n)
    {
      StampedNext(g, c, n, f);
      assert Sec(d, n) == if Stamped(g, c, n, f) then Patch(Sec(d0, n), c, v) else Sec(d0, n);
    }
  }

  lemma StampedNext(g: Geometry, c: nat, n: nat, f: nat)
    ensures Stamped(g, c, n, f + 1) <==> Stamped(g, c, n, f) || n == FatSector(g, f, c)
  {
    if Stamped(g, c, n, f) {
      var k: nat :| k < f && FatSector(g, k, c) == n;
      assert k < f + 1;
    }
    assert f < f + 1;
  }

  lemma MarkedAndZeroed(d0: Disk, d: Disk, d': Disk, g: Geometry, c: nat)
    requires c >= 2 && EntryWritten(d0, d, g, c, 0xFFFF, g.fats)
    requires forall n: nat {:trigger Sec(d', n)} :: Sec(d', n) == if InCluster(g, c, n) then ZeroSector() else Sec(d, n)
    ensures Taken(d0, d', g, c)
  {
    forall n: nat
      ensures Sec(d', n) == if InCluster(g, c, n) then ZeroSector()
                            else if Stamped(g, c, n, g.fats) then Patch(Sec(d0, n), c, 0xFFFF) else Sec(d0, n)
    {
      assert Sec(d, n) == if Stamped(g, c, n, g.fats) then Patch(Sec(d0, n), c, 0xFFFF) else Sec(d0, n);
    }
  }

  /** A release under way whose links all stay in the table. */
  ghost predicate Releasing(d0: Disk, d: Disk, g: Geometry, start: nat, cluster: nat, seen: set<nat>)
  {
    var fat := Fat(d0, g);
    && (InChain(cluster) ==> cluster < |fat|)
    && Released(d0, d, g, seen)
    && Visited(fat, start, {}) == seen + Visited(fat, cluster, seen)
  }

  ghost predicate AllZero(d: Disk, g: Geometry, s: set<nat>)
  {
    forall c :: c in s ==> InChain(c) && FatEntry(d, g, 0, c) == 0
  }

  /** Exactly these entries were freed, in every copy of the table. */
  ghost predicate Released(d: Disk, d': Disk, g: Geometry, s: set<nat>)
  {
    && SameData(d, d', g) && SameBetween(d, d', g) && (Mirrored(d, g) ==> Mirrored(d', g))
    && Fat(d', g) == Without(Fat(d, g), s) && Cleared(d, d', g, s)
  }

  lemma ReleaseNext(d0: Disk, d: Disk, d': Disk, g: Geometry, start: nat, c: nat, next: nat, seen: set<nat>, inside: bool)
    requires Usable(g) && InChain(c) && next == FatEntry(d, g, 0, c)
    requires EntryWritten(d, d', g, c, 0, g.fats)
    requires AllZero(d, g, seen)
    requires inside ==> StaysInside(Fat(d0, g), start, Visited(Fat(d0, g), start, {})) && Releasing(d0, d, g, start, c, seen)
    ensures AllZero(d', g, seen + {c})
    ensures |seen + {c}| >= |seen| && (next != 0 ==> |seen + {c}| == |seen| + 1)
    ensures inside ==> Releasing(d0, d', g, start, next, seen + {c})
  {
    forall x | x in seen + {c}
      ensures FatEntry(d', g, 0, x) == 0
    {
      ZeroStays(d, d', g, c, x);
    }
    assert c in seen ==> seen + {c} == seen;
    if inside {
      ReleaseInside(d0, d, d', g, start, c, next, seen);
    }
  }

  /** Writing a zero entry leaves every zero word zero. */
  lemma ZeroStays(d: Disk, d': Disk, g: Geometry, c: nat, x: nat)
    requires Usable(g) && EntryWritten(d, d', g, c, 0, g.fats)
    requires x == c || FatEntry(d, g, 0, x) == 0
    ensures FatEntry(d', g, 0, x) == 0
  {
    var n := FatSector(g, 0, x);
    PatchEntry(Sec(d, n), c, 0, x);
    if x == c {
      assert Stamped(g, c, n, g.fats);
    }
  }

  lemma ReleaseDone(d0: Disk, d: Disk, g: Geometry, start: nat, cluster: nat, seen: set<nat>)
    requires Releasing(d0, d, g, start, cluster, seen) && (!InChain(cluster) || cluster in seen)
    ensures Released(d0, d, g, Visited(Fat(d0, g), start, {}))
  {
    assert Visited(Fat(d0, g), start, {}) == seen;
  }

  lemma ReleaseInside(d0: Disk, d: Disk, d': Disk, g: Geometry, start: nat, c: nat, next: nat, seen: set<nat>)
    requires Usable(g) && InChain(c) && next == FatEntry(d, g, 0, c)
    requires EntryWritten(d, d', g, c, 0, g.fats)
    requires StaysInside(Fat(d0, g), start, Visited(Fat(d0, g), start, {})) && Releasing(d0, d, g, start, c, seen)
    ensures Releasing(d0, d', g, start, next, seen + {c})
  {
    var fat := Fat(d0, g);
    assert next == Fat(d, g)[c];
    assert TablesWritten(d, d', g, c, 0);
    WrittenTable(d, d', g, c, 0);
    WrittenInside(d, d', g, c, 0);
    ReleaseStep(fat, seen, c);
    ClearedNext(d0, d, d', g, seen, c);
    assert c in Visited(fat, start, {});
  }

  function Readable(fileSize: nat, offset: nat, size: nat): (n: nat)
    ensures n <= size && (n > 0 ==> offset + n <= fileSize) && (n == size || offset + n >= fileSize)
  {
    if offset >= fileSize then 0 else if size > fileSize - offset then fileSize - offset else size
  }

  /** The buffer holds the file's bytes from the offset on. */
  ghost predicate Shows(d: Disk, g: Geometry, cs: seq<nat>, offset: nat, buffer: seq<Byte>)
  {
    forall k: nat, x: nat :: k < |cs| && x < ClusterSize(g) && cs[k] >= 2 && offset <= Base(g, k) + x < offset + |buffer| ==>
      buffer[Base(g, k) + x - offset] == ByteAt(d, g, cs[k], x)
  }

  lemma MoreShown(d: Disk, g: Geometry, cs: seq<nat>, offset: nat, buffer: seq<Byte>, k: nat, intra: nat, more: seq<Byte>)
    requires Shows(d, g, cs, offset, buffer) && k < |cs| && cs[k] >= 2
    requires offset + |buffer| == Base(g, k) + intra && intra + |more| <= ClusterSize(g)
    requires forall t :: 0 <= t < |more| ==> more[t] == Sec(d, FirstSector(g, cs[k]) + (intra + t) / 512)[(intra + t) % 512]
    ensures Shows(d, g, cs, offset, buffer + more)
  {
    forall j: nat, x: nat | j < |cs| && x < ClusterSize(g) && cs[j] >= 2
                            && offset <= Base(g, j) + x < offset + |buffer + more|
      ensures (buffer + more)[Base(g, j) + x - offset] == ByteAt(d, g, cs[j], x)
    {
      WindowInCluster(g, j, x, k, intra, |more|);
      if Base(g, j) + x >= offset + |buffer| {
        assert more[x - intra] == ByteAt(d, g, cs[k], x);
      }
    }
  }

  lemma BaseMonotone(g: Geometry, a: nat, b: nat)
    requires a <= b
    ensures Base(g, a) <= Base(g, b)
  {
    if a < b { RowEnd(ClusterSize(g), a, b); }
  }

  lemma DivMod(a: nat, m: nat)
    requires m > 0
    ensures a / m >= 0 && a == a / m * m + a % m
  {
  }

  lemma ClusterNonempty(g: Geometry)
    requires Usable(g)
    ensures ClusterSize(g) > 0
  {
  }

  /** Cluster k ends where cluster k + 1 begins, inside the file's clusters. */
  lemma EndInside(g: Geometry, k: nat, n: nat)
    requires k < n
    ensures Base(g, k) + ClusterSize(g) == Base(g, k + 1) <= Base(g, n)
  {
    RowEnd(ClusterSize(g), k, n);
  }

  class Node {
    var size: nat
    var first: Word
    const isFile: bool

    constructor (size: nat, first: Word, isFile: bool)
      ensures this.size == size && this.first == first && this.isFile == isFile
    {
      this.size, this.first, this.isFile := size, first, isFile;
    }

    /** `cs` is the node's chain in the table, [] when it has no cluster. */
    ghost predicate Owns(fat: seq<nat>, cs: seq<nat>)
      reads this
    {
      if first < 2 then cs == [] else Chain(fat, cs) && cs[0] == first
    }
  }

  /** Byte x of a cluster after data[from..to] was laid over it from `intra` on. */
  ghost predicate ClusterOverlaid(d: Disk, d': Disk, g: Geometry, c: nat, intra: nat, data: seq<Byte>, from: nat, to: nat)
    requires c >= 2 && from <= to <= |data|
  {
    forall x: nat :: x < ClusterSize(g) ==>
      ByteAt(d', g, c, x) == if intra <= x < intra + (to - from) then data[from + (x - intra)] else ByteAt(d, g, c, x)
  }

  lemma SectorByte(first: nat, row: nat, o: nat, x: nat)
    requires x == row * 512 + o
    ensures ((first + row) - first) * 512 + o == x
  {
  }

  lemma SectorsToBytes(d: Disk, d': Disk, g: Geometry, c: nat, intra: nat, data: seq<Byte>, from: nat, to: nat)
    requires Usable(g) && Mirrored(d, g) && c >= 2 && from <= to <= |data|
    requires forall n: nat :: !(FirstSector(g, c) <= n < FirstSector(g, c) + g.perCluster) ==> Sec(d', n) == Sec(d, n)
    requires forall n: nat, o: nat :: FirstSector(g, c) <= n < FirstSector(g, c) + g.perCluster && o < 512 ==>
               Sec(d', n)[o] == Overlaid(Sec(d, n), (n - FirstSector(g, c)) * 512, o, intra, data, from, to)
    ensures Mirrored(d', g) && Fat(d', g) == Fat(d, g) && OnlyCluster(d, d', g, c) && SameBetween(d, d', g)
    ensures ClusterOverlaid(d, d', g, c, intra, data, from, to)
  {
    AfterTables(g, c);
    TablesKept(d, d', g);
    var first := FirstSector(g, c);
    forall x: nat | x < ClusterSize(g)
      ensures ByteAt(d', g, c, x) == if intra <= x < intra + (to - from) then data[from + (x - intra)] else ByteAt(d, g, c, x)
    {
      SectorByte(first, x / 512, x % 512, x);
    }
  }

  /** From `cs` to `cs'`: old links and bytes stay, new clusters were free and
      read as zero, no other cluster or table entry is touched. */
  ghost predicate Grown(d: Disk, d': Disk, g: Geometry, cs: seq<nat>, cs': seq<nat>)
  {
    && cs <= cs' && Chain(Fat(d', g), cs')
    && TableFrame(Fat(d, g), Fat(d', g), cs, cs')
    && (forall k: nat, x: nat :: |cs| <= k < |cs'| && x < ClusterSize(g) ==> cs'[k] >= 2 && ByteAt(d', g, cs'[k], x) == 0)
    && SameBetween(d, d', g)
    && (forall c: nat, x: nat :: c >= 2 && x < ClusterSize(g) && c !in cs'[|cs|..] ==> ByteAt(d', g, c, x) == ByteAt(d, g, c, x))
  }

  // ----- a file as a byte sequence -----

  function Base(g: Geometry, k: nat): nat
  {
    k * ClusterSize(g)
  }

  /** Byte x of the k-th cluster of the file after the first `done` bytes of
      `data` were written at `offset`; beyond the old chain `cs0` there are zeros. */
  function Want(d0: Disk, g: Geometry, cs0: seq<nat>, offset: nat, data: seq<Byte>, done: nat, k: nat, x: nat): Byte
    requires done <= |data| && (k < |cs0| ==> cs0[k] >= 2)
  {
    var pos := Base(g, k) + x;
    if offset <= pos < offset + done then data[pos - offset] else if k < |cs0| then ByteAt(d0, g, cs0[k], x) else 0
  }

  /** Progress of a write: the chain grew from `cs0` to `cs`, its bytes are those
      wanted, and no other chain, table entry or cluster was touched. */
  ghost predicate Progress(d0: Disk, d: Disk, g: Geometry, cs0: seq<nat>, cs: seq<nat>, offset: nat, data: seq<Byte>, done: nat)
  {
    && cs0 <= cs && done <= |data|
    && Chain(Fat(d, g), cs)
    && TableFrame(Fat(d0, g), Fat(d, g), cs0, cs)
    && (forall k :: 0 <= k < |cs| ==> InTable(Fat(d, g), cs[k]))
    && (forall k: nat, x: nat :: k < |cs| && x < ClusterSize(g) ==>
          ByteAt(d, g, cs[k], x) == Want(d0, g, cs0, offset, data, done, k, x))
    && (forall c: nat, x: nat :: c >= 2 && x < ClusterSize(g) && c !in cs ==> ByteAt(d, g, c, x) == ByteAt(d0, g, c, x))
    && SameBetween(d0, d, g)
  }

  // ----- what a write needs -----

  /** The clusters a file must have to hold the data. */
  function Need(g: Geometry, offset: nat, data: seq<Byte>): nat
    requires Usable(g) && |data| > 0
  {
    ClusterNonempty(g);
    DivMod(offset + |data| - 1, ClusterSize(g));
    (offset + |data| - 1) / ClusterSize(g) + 1
  }

  /** Cluster k is needed exactly when it starts before the data's end. */
  lemma NeedIs(g: Geometry, offset: nat, data: seq<Byte>, k: nat)
    requires Usable(g) && |data| > 0
    ensures k < Need(g, offset, data) <==> Base(g, k) < offset + |data|
  {
    ClusterNonempty(g);
    var m, last := ClusterSize(g), offset + |data| - 1;
    DivMod(last, m);
    var q := last / m;
    if k <= q {
      BaseMonotone(g, k, q);
    } else {
      BaseMonotone(g, q + 1, k);
      assert Base(g, q + 1) == q * m + m;
    }
  }

  lemma SkipInside(g: Geometry, offset: nat, data: seq<Byte>, target: nat)
    requires Usable(g) && |data| > 0 && Base(g, target) <= offset
    ensures target < Need(g, offset, data)
  {
    NeedIs(g, offset, data, target);
  }

  function Longer(a: nat, b: nat): nat
  {
    if a < b then b else a
  }

  /** The free entries cover the clusters the file lacks. */
  ghost predicate Enough(d: Disk, g: Geometry, cs0: seq<nat>, offset: nat, data: seq<Byte>)
    requires Usable(g)
  {
    |data| > 0 ==> Need(g, offset, data) <= |cs0| + |FreeSet(Fat(d, g))|
  }

  /** The write comes to a point where it lacks a cluster, no entry of the table
      is free, and the search takes a word beyond the table for a free entry. */
  ghost predicate Overruns(d0: Disk, g: Geometry, cs0: seq<nat>, offset: nat, data: seq<Byte>)
    requires Usable(g)
  {
    && |data| > 0
    && ((cs0 == [] && Found(d0, g) >= TableSize(g))
        || exists d: Disk, cs: seq<nat>, done: nat {:trigger Progress(d0, d, g, cs0, cs, offset, data, done)} ::
             && Progress(d0, d, g, cs0, cs, offset, data, done) && Mirrored(d, g)
             && |cs| < Need(g, offset, data) && Found(d, g) >= TableSize(g))
  }

  /** A write under way, at cluster k of the file. */
  ghost predicate Writing(d0: Disk, d: Disk, g: Geometry, cs0: seq<nat>, cs: seq<nat>, offset: nat, data: seq<Byte>,
                          done: nat, k: nat, current: nat)
    requires Usable(g) && |data| > 0
  {
    && Mirrored(d, g) && Progress(d0, d, g, cs0, cs, offset, data, done)
    && k < |cs| && cs[k] == current && |cs| <= Longer(|cs0|, Need(g, offset, data))
  }

  /** The end of a write: all was written, or no cluster was free. */
  ghost predicate Written(d0: Disk, d: Disk, g: Geometry, cs0: seq<nat>, cs: seq<nat>, offset: nat, data: seq<Byte>,
                          done: nat, ok: bool, first: nat)
    requires Usable(g) && |data| > 0
  {
    && Mirrored(d, g) && Progress(d0, d, g, cs0, cs, offset, data, done) && cs[0] == first
    && |cs| <= Longer(|cs0|, Need(g, offset, data))
    && (if ok then done == |data| && Need(g, offset, data) <= |cs|
        else |cs| < Need(g, offset, data) && Found(d, g) == 0)
  }

  lemma {:induction false} ElementsCount(cs: seq<nat>)
    requires forall i: nat, j: nat :: i < j < |cs| ==> cs[i] != cs[j]
    ensures |Elements(cs)| == |cs|
    decreases |cs|
  {
    if cs != [] {
      var n := |cs| - 1;
      ElementsCount(cs[..n]);
      assert Elements(cs) == Elements(cs[..n]) + {cs[n]};
    }
  }

  /** What the file gained the table lost. */
  lemma FreeLeft(fat: seq<nat>, fat': seq<nat>, cs0: seq<nat>, cs: seq<nat>)
    requires |fat| == |fat'| && TableFrame(fat, fat', cs0, cs) && Chain(fat', cs) && cs0 <= cs
    requires cs0 == [] || Chain(fat, cs0)
    ensures |FreeSet(fat')| + |cs| == |FreeSet(fat)| + |cs0|
  {
    var added := cs[|cs0|..];
    ElementsCount(added);
    forall c: nat
      ensures c in FreeSet(fat) <==> c in FreeSet(fat') || c in Elements(added)
      ensures !(c in FreeSet(fat') && c in Elements(added))
    {
      FreeOrAdded(fat, fat', cs0, cs, c);
    }
    assert FreeSet(fat) == FreeSet(fat') + Elements(added);
  }

  lemma FreeOrAdded(fat: seq<nat>, fat': seq<nat>, cs0: seq<nat>, cs: seq<nat>, c: nat)
    requires |fat| == |fat'| && TableFrame(fat, fat', cs0, cs) && Chain(fat', cs) && cs0 <= cs
    requires cs0 == [] || Chain(fat, cs0)
    ensures c in FreeSet(fat) <==> c in FreeSet(fat') || c in cs[|cs0|..]
    ensures !(c in FreeSet(fat') && c in cs[|cs0|..])
  {
    NotFreeInside(fat', cs);
    if cs0 != [] { NotFreeInside(fat, cs0); }
    InParts(cs, |cs0|, c);
    assert cs[..|cs0|] == cs0;
    if c in cs[|cs0|..] {
      TailApart(cs, |cs0|, c);
    }
  }

  lemma InParts(cs: seq<nat>, n: nat, c: nat)
    requires n <= |cs|
    ensures c in cs <==> c in cs[..n] || c in cs[n..]
  {
    assert cs == cs[..n] + cs[n..];
  }

  lemma TailApart(cs: seq<nat>, n: nat, c: nat)
    requires n <= |cs| && c in cs[n..] && forall i: nat, j: nat :: i < j < |cs| ==> cs[i] != cs[j]
    ensures c !in cs[..n]
  {
  }

  lemma NotFreeInside(fat: seq<nat>, cs: seq<nat>)
    requires Chain(fat, cs)
    ensures forall c :: c in cs ==> c !in FreeSet(fat)
  {
    forall k: nat | k < |cs|
      ensures cs[k] < |fat| && fat[cs[k]] != 0
    {
      assert Link(fat, cs, k);
      if k + 1 < |cs| { assert Link(fat, cs, k + 1); }
    }
  }

  /** How a write ends was decided by the free entries before it. */
  lemma EnoughDecides(d0: Disk, d: Disk, g: Geometry, cs0: seq<nat>, cs: seq<nat>, offset: nat, data: seq<Byte>, done: nat,
                      ok: bool, first: nat)
    requires Usable(g) && |data| > 0 && Written(d0, d, g, cs0, cs, offset, data, done, ok, first)
    requires cs0 == [] || Chain(Fat(d0, g), cs0)
    ensures ok <==> Enough(d0, g, cs0, offset, data)
  {
    FreeLeft(Fat(d0, g), Fat(d, g), cs0, cs);
    FoundInTable(d, g);
  }

  /** A write that overruns lacked free entries, and the table ends below 0xFFF0. */
  lemma OverrunLacks(d0: Disk, g: Geometry, cs0: seq<nat>, offset: nat, data: seq<Byte>)
    requires Usable(g) && Overruns(d0, g, cs0, offset, data)
    requires cs0 == [] || Chain(Fat(d0, g), cs0)
    ensures !Enough(d0, g, cs0, offset, data) && TableSize(g) < ALLOC_LIMIT
  {
    if cs0 == [] && Found(d0, g) >= TableSize(g) {
      FoundInTable(d0, g);
      SkipInside(g, offset, data, 0);
    } else {
      var d: Disk, cs: seq<nat>, done: nat :| && Progress(d0, d, g, cs0, cs, offset, data, done) && Mirrored(d, g)
             && |cs| < Need(g, offset, data) && Found(d, g) >= TableSize(g);
      FreeLeft(Fat(d0, g), Fat(d, g), cs0, cs);
      FoundInTable(d, g);
    }
  }

  // ----- following a chain -----

  /** Where a walk along the chain stands: at its k-th cluster, or past its end. */
  ghost predicate Reached(fat: seq<nat>, cs: seq<nat>, k: nat, cluster: nat)
  {
    k <= |cs| && if k < |cs| then cluster == cs[k] else cluster >= END_OF_CHAIN
  }

  lemma ReachNext(fat: seq<nat>, cs: seq<nat>, k: nat, cluster: nat)
    requires Chain(fat, cs) && Reached(fat, cs, k, cluster) && InChain(cluster)
    ensures k < |cs| && cluster == cs[k] && cluster < |fat| && Reached(fat, cs, k + 1, fat[cluster])
  {
    assert Link(fat, cs, k);
  }

  lemma ReachEnds(fat: seq<nat>, cs: seq<nat>, k: nat, cluster: nat)
    requires Chain(fat, cs) && Reached(fat, cs, k, cluster) && !InChain(cluster)
    ensures k == |cs|
  {
    assert k < |cs| ==> Link(fat, cs, k);
  }

  lemma ChainClusters(fat: seq<nat>, cs: seq<nat>)
    requires Chain(fat, cs)
    ensures forall k :: 0 <= k < |cs| ==> InTable(fat, cs[k])
  {
    forall k | 0 <= k < |cs|
      ensures InTable(fat, cs[k])
    {
      assert Link(fat, cs, k);
    }
  }

  lemma StartProgress(d: Disk, g: Geometry, cs: seq<nat>, offset: nat, data: seq<Byte>)
    requires Chain(Fat(d, g), cs)
    ensures Progress(d, d, g, cs, cs, offset, data, 0)
  {
    ChainClusters(Fat(d, g), cs);
  }

  /** The first cluster of a file that had none. */
  lemma FirstProgress(d: Disk, d': Disk, g: Geometry, c: nat, offset: nat, data: seq<Byte>)
    requires Usable(g) && FreeEntry(Fat(d, g), c) && Fat(d', g) == Fat(d, g)[c := 0xFFFF]
    requires OnlyCluster(d, d', g, c) && SameBetween(d, d', g) && forall x: nat :: x < ClusterSize(g) ==> ByteAt(d', g, c, x) == 0
    ensures Progress(d, d', g, [], [c], offset, data, 0)
  {
    assert Link(Fat(d', g), [c], 0);
    forall e: nat, x: nat | e >= 2 && x < ClusterSize(g) && e != c
      ensures ByteAt(d', g, e, x) == ByteAt(d, g, e, x)
    {
      OtherCluster(d, d', g, c, e, x);
    }
  }

  lemma FrameTrans(fat0: seq<nat>, fat1: seq<nat>, fat2: seq<nat>, a: seq<nat>, b: seq<nat>, c: seq<nat>)
    requires |fat0| == |fat1| == |fat2| && b <= c
    requires TableFrame(fat0, fat1, a, b) && TableFrame(fat1, fat2, b, c)
    ensures TableFrame(fat0, fat2, a, c)
  {
    assert forall x :: x in b ==> x in c;
  }

  /** Clusters appended before their bytes are reached read as zero. */
  lemma GrowProgress(d0: Disk, d: Disk, d': Disk, g: Geometry, cs0: seq<nat>, cs: seq<nat>, cs': seq<nat>,
                     offset: nat, data: seq<Byte>, done: nat)
    requires Progress(d0, d, g, cs0, cs, offset, data, done) && Grown(d, d', g, cs, cs')
    requires done == 0 || offset + done <= Base(g, |cs|)
    ensures Progress(d0, d', g, cs0, cs', offset, data, done)
  {
    FrameTrans(Fat(d0, g), Fat(d, g), Fat(d', g), cs0, cs, cs');
    ChainClusters(Fat(d', g), cs');
    forall k: nat, x: nat | k < |cs'| && x < ClusterSize(g)
      ensures ByteAt(d', g, cs'[k], x) == Want(d0, g, cs0, offset, data, done, k, x)
    {
      if k < |cs| {
        NotInTail(cs', |cs|, k);
        assert cs'[k] == cs[k];
      } else if |cs| < k {
        RowEnd(ClusterSize(g), |cs|, k);
      }
    }
  }

  lemma NotInTail(cs: seq<nat>, n: nat, k: nat)
    requires k < n <= |cs| && forall i: nat, j: nat :: i < j < |cs| ==> cs[i] != cs[j]
    ensures cs[k] !in cs[n..]
  {
  }

  /** Only the cluster that holds them contains the next bytes of the write. */
  lemma WindowInCluster(g: Geometry, k: nat, x: nat, at: nat, intra: nat, n: nat)
    requires x < ClusterSize(g) && intra + n <= ClusterSize(g)
    ensures Base(g, at) + intra <= Base(g, k) + x < Base(g, at) + intra + n <==> k == at && intra <= x < intra + n
  {
    if k < at { RowEnd(ClusterSize(g), k, at); }
    if at < k { RowEnd(ClusterSize(g), at, k); }
  }

  /** Laying data[done..to] over cluster k advances the write. */
  lemma PutProgress(d0: Disk, d: Disk, d': Disk, g: Geometry, cs0: seq<nat>, cs: seq<nat>,
                    offset: nat, data: seq<Byte>, done: nat, to: nat, k: nat, intra: nat)
    requires Usable(g) && Progress(d0, d, g, cs0, cs, offset, data, done)
    requires k < |cs| && cs[k] >= 2 && done <= to <= |data| && intra + (to - done) <= ClusterSize(g)
    requires offset + done == Base(g, k) + intra
    requires Fat(d', g) == Fat(d, g) && OnlyCluster(d, d', g, cs[k]) && SameBetween(d, d', g)
    requires ClusterOverlaid(d, d', g, cs[k], intra, data, done, to)
    ensures Progress(d0, d', g, cs0, cs, offset, data, to)
  {
    forall j: nat, x: nat | j < |cs| && x < ClusterSize(g)
      ensures ByteAt(d', g, cs[j], x) == Want(d0, g, cs0, offset, data, to, j, x)
    {
      assert InChain(cs[j]);
      WindowInCluster(g, j, x, k, intra, to - done);
      if j != k {
        OtherCluster(d, d', g, cs[k], cs[j], x);
      }
    }
    forall c: nat, x: nat | c >= 2 && x < ClusterSize(g) && c !in cs
      ensures ByteAt(d', g, c, x) == ByteAt(d0, g, c, x)
    {
      OtherCluster(d, d', g, cs[k], c, x);
    }
  }

  lemma SameGrown(d: Disk, g: Geometry, cs: seq<nat>)
    requires Chain(Fat(d, g), cs)
    ensures Grown(d, d, g, cs, cs)
  {
  }

  lemma AppendGrown(d0: Disk, d1: Disk, d2: Disk, g: Geometry, cs: seq<nat>, c: nat)
    requires Usable(g) && Chain(Fat(d2, g), cs + [c]) && c >= 2
    requires TableFrame(Fat(d0, g), Fat(d2, g), cs, cs + [c])
    requires OnlyCluster(d0, d1, g, c) && SameData(d1, d2, g) && SameBetween(d0, d1, g) && SameBetween(d1, d2, g)
    requires forall x: nat :: x < ClusterSize(g) ==> ByteAt(d1, g, c, x) == 0
    ensures Grown(d0, d2, g, cs, cs + [c])
  {
    forall e: nat, x: nat | e >= 2 && x < ClusterSize(g)
      ensures ByteAt(d2, g, e, x) == ByteAt(d1, g, e, x)
      ensures e != c ==> ByteAt(d2, g, e, x) == ByteAt(d0, g, e, x)
    {
      SameByte(d1, d2, g, e, x);
      if e != c { OtherCluster(d0, d1, g, c, e, x); }
    }
    assert (cs + [c])[|cs|..] == [c];
  }

  /** How many of `left` bytes go between `intra` and `limit`. */
  function Room(intra: nat, limit: nat, left: nat): nat
  {
    if limit <= intra then 0 else if limit - intra < left then limit - intra else left
  }

  /** Byte o of a sector whose first byte has offset `base` in its cluster, after
      data[from..to] has been laid over the cluster from `intra` on. */
  function Overlaid(old_: Sector, base: nat, o: nat, intra: nat, data: seq<Byte>, from: nat, to: nat): Byte
    requires o < 512 && from <= to <= |data|
  {
    if intra <= base + o < intra + (to - from) then data[from + (base + o - intra)] else old_[o]
  }

  function Spliced(s: Sector, at: nat, bytes: seq<Byte>): Sector
    requires at + |bytes| <= 512
  {
    s[..at] + bytes + s[at + |bytes|..]
  }

  lemma ZeroBytes(d: Disk, g: Geometry, c: nat)
    requires c >= 2
    requires forall n: nat :: FirstSector(g, c) <= n < FirstSector(g, c) + g.perCluster ==> Sec(d, n) == ZeroSector()
    ensures forall x: nat :: x < ClusterSize(g) ==> ByteAt(d, g, c, x) == 0
  {
    forall x: nat | x < ClusterSize(g)
      ensures ByteAt(d, g, c, x) == 0
    {
      assert Sec(d, FirstSector(g, c) + x / 512) == ZeroSector();
    }
  }

  /** Writes at or above the data area leave the tables alone. */
  lemma TablesKept(d: Disk, d': Disk, g: Geometry)
    requires Usable(g) && Mirrored(d, g) && forall n: nat :: n < g.dataStart ==> Sec(d', n) == Sec(d, n)
    ensures Mirrored(d', g) && Fat(d', g) == Fat(d, g)
  {
    forall f: nat, c: nat | f < g.fats && c < TableSize(g)
      ensures FatEntry(d', g, f, c) == FatEntry(d, g, f, c)
    {
      FatBeforeData(g, f, c);
    }
  }

  // ----- what a file system user relies on -----

  lemma Locate(g: Geometry, pos: nat, n: nat) returns (k: nat, x: nat)
    requires Usable(g) && pos < Base(g, n)
    ensures k < n && x < ClusterSize(g) && Base(g, k) + x == pos
  {
    ClusterNonempty(g);
    DivMod(pos, ClusterSize(g));
    k, x := pos / ClusterSize(g), pos % ClusterSize(g);
    if n <= k { BaseMonotone(g, n, k); }
  }

  /** What a finished write put there is what a read shows. */
  lemma WrittenIsRead(d0: Disk, d: Disk, g: Geometry, cs0: seq<nat>, cs: seq<nat>, offset: nat, data: seq<Byte>, buffer: seq<Byte>)
    requires Usable(g) && Progress(d0, d, g, cs0, cs, offset, data, |data|) && offset + |data| <= Base(g, |cs|)
    requires |buffer| == |data| && Shows(d, g, cs, offset, buffer)
    ensures buffer == data
  {
    forall i | 0 <= i < |data|
      ensures buffer[i] == data[i]
    {
      var k, x := Locate(g, offset + i, |cs|);
      assert InChain(cs[k]);
      assert ByteAt(d, g, cs[k], x) == Want(d0, g, cs0, offset, data, |data|, k, x);
    }
  }

  /** A finished write as the file's user sees it: the data in its range, the old
      bytes in the old clusters beside it, zero in the new ones. */
  lemma FileAfterWrite(d0: Disk, d: Disk, g: Geometry, cs0: seq<nat>, cs: seq<nat>, offset: nat, data: seq<Byte>, k: nat, x: nat)
    requires Usable(g) && Progress(d0, d, g, cs0, cs, offset, data, |data|) && k < |cs| && x < ClusterSize(g)
    ensures cs[k] >= 2 && (k < |cs0| ==> cs0[k] == cs[k])
    ensures var pos := k * ClusterSize(g) + x;
            && (offset <= pos < offset + |data| ==> ByteAt(d, g, cs[k], x) == data[pos - offset])
            && (!(offset <= pos < offset + |data|) && k < |cs0| ==> ByteAt(d, g, cs[k], x) == ByteAt(d0, g, cs[k], x))
            && (!(offset <= pos < offset + |data|) && k >= |cs0| ==> ByteAt(d, g, cs[k], x) == 0)
  {
    ChainClusters(Fat(d, g), cs);
  }

  /** So reading beside the written range shows what it showed before. */
  lemma BesideKept(d0: Disk, d: Disk, g: Geometry, cs0: seq<nat>, cs: seq<nat>, offset: nat, data: seq<Byte>, at: nat, buffer: seq<Byte>)
    requires Usable(g) && Progress(d0, d, g, cs0, cs, offset, data, |data|)
    requires at + |buffer| <= offset || offset + |data| <= at
    requires at + |buffer| <= Base(g, |cs0|) && (forall k :: 0 <= k < |cs0| ==> cs0[k] >= 2)
    ensures Shows(d0, g, cs0, at, buffer) <==> Shows(d, g, cs, at, buffer)
  {
    forall k: nat, x: nat | k < |cs| && x < ClusterSize(g) && at <= Base(g, k) + x < at + |buffer|
      ensures k < |cs0| && cs0[k] == cs[k] && cs[k] >= 2 && ByteAt(d, g, cs[k], x) == ByteAt(d0, g, cs[k], x)
    {
      if |cs0| <= k { BaseMonotone(g, |cs0|, k); }
      FileAfterWrite(d0, d, g, cs0, cs, offset, data, k, x);
    }
  }

  /** fat16_write followed by fat16_read of the same range returns the data
      whenever the free entries cover the write. */
  method WriteThenRead(v: Volume, node: Node, data: seq<Byte>, offset: nat, ghost cs0: seq<nat>)
    returns (ok: bool, buffer: seq<Byte>, ghost clean: bool)
    requires v.Valid() && node.Owns(v.Table(), cs0) && node.isFile
    modifies v`disk, node
    ensures offset + |data| < SIZE_LIMIT && Enough(old(v.disk), v.geo, cs0, offset, data) ==> ok && clean
    ensures clean ==> v.Valid() && (ok ==> buffer == data)
    ensures TableSize(v.geo) >= ALLOC_LIMIT ==> clean
  {
    ghost var cs, done;
    var readOk;
    buffer := [];
    ok, clean, cs, done := v.Write(node, data, offset, cs0);
    if ok {
      readOk, buffer := v.Read(node, offset, |data|, cs);
      if |data| > 0 && clean {
        NeedIs(v.geo, offset, data, |cs|);
        assert readOk;
        WrittenIsRead(old(v.disk), v.disk, v.geo, cs0, cs, offset, data, buffer);
      }
    }
  }

  /** A write leaves every other file's chain and bytes alone. */
  lemma OtherFileKept(d0: Disk, d: Disk, g: Geometry, cs0: seq<nat>, cs: seq<nat>, offset: nat, data: seq<Byte>, done: nat, o: seq<nat>)
    requires Progress(d0, d, g, cs0, cs, offset, data, done)
    requires Chain(Fat(d0, g), o) && Disjoint(o, cs0)
    ensures Chain(Fat(d, g), o) && Disjoint(o, cs)
    ensures forall k: nat, x: nat :: k < |o| && x < ClusterSize(g) ==> o[k] >= 2 && ByteAt(d, g, o[k], x) == ByteAt(d0, g, o[k], x)
  {
    OtherChain(Fat(d0, g), Fat(d, g), cs0, cs, o);
    ChainClusters(Fat(d0, g), o);
    assert forall k: nat :: k < |o| ==> o[k] in o;
  }

  /** Releasing a well-formed chain frees exactly its clusters. */
  lemma {:induction false} ReleasedChain(fat: seq<nat>, cs: seq<nat>, k: nat)
    requires Chain(fat, cs) && k < |cs|
    ensures Visited(fat, cs[k], Elements(cs[..k])) == Elements(cs[k..])
    decreases |cs| - k
  {
    assert Link(fat, cs, k);
    assert cs[k] !in cs[..k];
    assert Elements(cs[..k + 1]) == Elements(cs[..k]) + {cs[k]};
    if k + 1 < |cs| {
      ReleasedChain(fat, cs, k + 1);
      assert cs[k..] == [cs[k]] + cs[k + 1..];
    }
  }

  function Elements(cs: seq<nat>): set<nat>
  {
    set c | c in cs
  }

  /** and leaves every other chain whole. */
  lemma OtherAfterRelease(fat: seq<nat>, cs: seq<nat>, o: seq<nat>)
    requires Chain(fat, cs) && Chain(fat, o) && Disjoint(o, cs)
    ensures Chain(Without(fat, Visited(fat, cs[0], {})), o)
  {
    ReleasedChain(fat, cs, 0);
    assert cs[..0] == [] && cs[0..] == cs;
    assert Elements(cs[..0]) == {};
    var fat' := Without(fat, Visited(fat, cs[0], {}));
    forall k: nat | k < |o|
      ensures Link(fat', o, k)
    {
      assert Link(fat, o, k) && o[k] in o;
    }
  }
}
