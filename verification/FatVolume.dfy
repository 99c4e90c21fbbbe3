/** The FAT16 volume below files (src/fs/fat16.c): mount geometry, the mirrored allocation table,
    its sector cache, and cluster data. */
module FatVolume {
  import opened Words
  import opened Options
  import opened Spans
  import opened FatSectors

  const CACHE_SLOTS: nat := 8

  type U16 = x: int | 0 <= x < 0x1_0000

  const EOC: U16 := 0xFFFF

  predicate IsEnd(v: int) { v >= 0xFFF8 }

  /** `fat16_state_t` */
  datatype Geometry = Geometry(fatStart: nat, fatCount: nat, secPerFat: nat, rootStart: nat, dataStart: nat,
                               spc: nat, clusters: nat)
  {
    /** What `fat16_try_mount_at` establishes, and the three facts it leaves to the image builder: the
        table has an entry for every cluster, it does not start at sector 0, the cache's free mark, and
        the data area is smaller than 2 GiB. */
    ghost predicate Ok() {
      && fatStart > 0 && fatCount >= 1 && spc >= 1 && 4085 <= clusters < 65525 && DataSize() < 0x8000_0000
      && rootStart == fatStart + Span(fatCount, secPerFat) && rootStart <= dataStart
      && clusters + 2 <= 256 * secPerFat
    }

    /** `cluster_to_lba` */
    function Lba(c: nat): nat
      requires c >= 2
    {
      dataStart + Span(c - 2, spc)
    }

    /** Bytes in the data area. */
    function DataSize(): nat { Span(clusters, 512 * spc) }

    function DiskSize(): nat { dataStart + Span(clusters, spc) }
  }

  /** The fields of the boot sector that matter. */
  datatype Bpb = Bpb(bytesPerSector: U16, secPerCluster: Byte, reserved: U16, fatCount: Byte, rootEntries: U16,
                     total16: U16, total32: int, secPerFat: U16)

  /** Sectors of all copies of the table. */
  function TableSectors(b: Bpb): nat { Span(b.fatCount, b.secPerFat) }

  lemma TableSectorsBound(b: Bpb)
    ensures TableSectors(b) == (b.fatCount as int) * (b.secPerFat as int) <= 255 * 65535
  {
    SpanIsProduct(b.fatCount, b.secPerFat);
    ProductBound(b.fatCount, b.secPerFat, 255, 65535);
  }

  /** `fat16_try_mount_at` */
  function TryMount(b: Bpb, part: nat): Option<Geometry>
    requires 0 <= b.total32 < TWO32
  {
    if b.bytesPerSector != SECTOR || b.secPerCluster == 0 || b.fatCount == 0 || b.rootEntries == 0 || b.secPerFat == 0
       || TotalSectors(b) == 0 then None
    else
      var clusters := U32(TotalSectors(b) - MetaSectors(b)) / (b.secPerCluster as int);
      if clusters < 4085 || clusters >= 65525 then None
      else
        var fatStart := part + b.reserved;
        var rootStart := fatStart + TableSectors(b);
        Some(Geometry(fatStart, b.fatCount, b.secPerFat, rootStart, part + MetaSectors(b), b.secPerCluster, clusters))
  }

  lemma ProductBound(a: int, b: int, x: int, y: int)
    requires 0 <= a <= x && 0 <= b <= y
    ensures 0 <= a * b <= x * y
  {
    assert a * b <= x * b;
    assert x * b <= x * y;
  }

  function TotalSectors(b: Bpb): int { if b.total16 != 0 then b.total16 else b.total32 }

  /** Sectors before the data area. */
  function MetaSectors(b: Bpb): nat {
    (b.reserved as int) + TableSectors(b) + ((b.rootEntries as int) * 32 + 511) / 512
  }

  /** An accepted boot sector gives a usable geometry: the unsigned subtraction did not wrap, the
      areas follow each other, the last cluster ends inside the partition, and no cluster number can
      be mistaken for an end-of-chain mark. */
  lemma MountIsSound(b: Bpb, part: nat)
    requires 0 <= b.total32 < TWO32 && TryMount(b, part).Some?
    ensures var g := TryMount(b, part).value;
            && g.DiskSize() <= part + TotalSectors(b)
            && g.fatStart <= g.rootStart < g.dataStart
            && g.clusters + 1 < 0xFFF7
            && (g.fatStart > 0 && g.DataSize() < 0x8000_0000 && g.clusters + 2 <= 256 * g.secPerFat ==> g.Ok())
  {
    NoWrap(b, part);
    ClustersFit(TotalSectors(b) - MetaSectors(b), b.secPerCluster);
  }

  /** Where things lie, by the boot sector's fields: the reserved sectors, the copies of the table, the root directory
      in whole sectors, then the clusters one after the other. */
  lemma MountPlaces(b: Bpb, part: nat)
    requires 0 <= b.total32 < TWO32 && TryMount(b, part).Some?
    ensures var g, tables := TryMount(b, part).value, (b.fatCount as int) * (b.secPerFat as int);
            && g.fatStart == part + b.reserved && g.rootStart == part + b.reserved + tables
            && g.fatCount == b.fatCount && g.secPerFat == b.secPerFat && g.spc == b.secPerCluster
            && (forall i: nat :: i < g.fatCount ==> CopyStart(g, i) == g.fatStart + i * g.secPerFat)
            && 32 * b.rootEntries <= 512 * (g.Lba(2) - g.rootStart) < 32 * b.rootEntries + 512
            && (forall c: nat :: c >= 2 ==> g.Lba(c) == g.Lba(2) + (c - 2) * g.spc)
            && (g.clusters * g.spc <= part + TotalSectors(b) - g.Lba(2) < (g.clusters + 1) * g.spc)
  {
    var g := TryMount(b, part).value;
    NoWrap(b, part);
    TableSectorsBound(b);
    forall i: nat
      ensures CopyStart(g, i) == g.fatStart + i * g.secPerFat
    {
      SpanIsProduct(i, g.secPerFat);
    }
    forall c: nat | c >= 2
      ensures g.Lba(c) == g.Lba(2) + (c - 2) * g.spc
    {
      SpanIsProduct(c - 2, g.spc);
    }
    ClustersFill(TotalSectors(b) - MetaSectors(b), g.spc);
  }

  lemma ClustersFill(sectors: nat, spc: nat)
    requires sectors < TWO32 && spc > 0
    ensures var n := U32(sectors) / spc; n * spc <= sectors < (n + 1) * spc
  {
    SpanOf(sectors, spc);
    SpanIsProduct(sectors / spc, spc);
    assert (sectors / spc + 1) * spc == sectors / spc * spc + spc;
  }

  lemma ClustersFit(sectors: nat, spc: nat)
    requires sectors < TWO32 && spc > 0
    ensures U32(sectors) / spc >= 0 && Span(U32(sectors) / spc, spc) <= sectors
  {
    SpanOf(sectors, spc);
  }

  lemma NoWrap(b: Bpb, part: nat)
    requires 0 <= b.total32 < TWO32 && TryMount(b, part).Some?
    ensures MetaSectors(b) <= TotalSectors(b) < TWO32
  {
    TableSectorsBound(b);
    if TotalSectors(b) < MetaSectors(b) { WrapRejected(TotalSectors(b), MetaSectors(b), b.secPerCluster); }
  }

  /** A wrapped sector count is far above the FAT16 limit. */
  lemma WrapRejected(total: int, meta: int, spc: int)
    requires 0 <= total < meta <= 65535 + 255 * 65535 + 4097 && 1 <= spc <= 255
    ensures U32(total - meta) / spc >= 65525
  {
    var data := U32(total - meta);
    assert data == total - meta + TWO32;
    ProductBound(65525, spc, 65525, 255);
    DivAtLeast(data, spc, 65525);
  }

  lemma DivAtLeast(x: int, a: int, q: nat)
    requires x >= 0 && a > 0 && q * a <= x
    ensures x / a >= q
  {
    SpanOf(x, a);
    SpanIsProduct(q, a);
    SpanOrder(q, x / a + 1, a);
  }

  // ---- reading the volume as a table and cluster data --------------------------------------------

  function ReadU16(s: Sector, off: nat): U16
    requires off + 1 < SECTOR
  {
    var lo: int, hi: int := s[off], s[off + 1];
    lo + 256 * hi
  }

  function PutU16(s: Sector, off: nat, v: U16): Sector
    requires off + 1 < SECTOR
  {
    s[off := v % 256][off + 1 := v / 256]
  }

  lemma PutThenRead(s: Sector, a: nat, b: nat, v: U16)
    requires a + 1 < SECTOR && b + 1 < SECTOR && a % 2 == 0 && b % 2 == 0
    ensures ReadU16(PutU16(s, a, v), b) == if a == b then v else ReadU16(s, b)
  {
  }

  /** Sector of entry `c` inside one table, and its offset in that sector. */
  function EntrySector(c: nat): nat { c * 2 / 512 }
  function EntryOff(c: nat): (o: nat)
    ensures o + 1 < SECTOR && o % 2 == 0
  {
    c * 2 % 512
  }

  /** Two entries share sector and offset only if they are the same. */
  lemma EntryPlace(c: nat, d: nat)
    ensures EntrySector(c) == EntrySector(d) && EntryOff(c) == EntryOff(d) ==> c == d
  {
  }

  /** First sector of copy `i` of the table. */
  function CopyStart(g: Geometry, i: nat): nat { g.fatStart + Span(i, g.secPerFat) }

  /** The disk is big enough for the geometry. */
  ghost predicate Fits(g: Geometry, disk: seq<Sector>) { g.Ok() && g.DiskSize() <= |disk| }

  lemma CopyInside(g: Geometry, i: nat, r: nat)
    requires g.Ok() && i < g.fatCount && r < g.secPerFat
    ensures g.fatStart <= CopyStart(g, i) + r < g.rootStart <= g.DiskSize()
  {
    SpanBelow(i, g.fatCount, g.secPerFat);
  }

  lemma CopyUnique(g: Geometry, i: nat, r: nat, j: nat, q: nat)
    requires r < g.secPerFat && q < g.secPerFat && CopyStart(g, i) + r == CopyStart(g, j) + q
    ensures i == j && r == q
  {
    SpanUnique(i, r, j, q, g.secPerFat);
  }

  lemma ClusterInside(g: Geometry, c: nat)
    requires g.Ok() && 2 <= c < g.clusters + 2
    ensures g.dataStart <= g.Lba(c) && g.Lba(c) + g.spc <= g.DiskSize()
  {
    SpanBelow(c - 2, g.clusters, g.spc);
  }

  lemma ClusterApart(g: Geometry, c: nat, s: nat, d: nat, t: nat)
    requires c >= 2 && d >= 2 && s < g.spc && t < g.spc && g.Lba(c) + s == g.Lba(d) + t
    ensures c == d && s == t
  {
    SpanUnique(c - 2, s, d - 2, t, g.spc);
  }

  /** An uncached read of entry `c` in the first table. */
  ghost function EntryAt(g: Geometry, disk: seq<Sector>, c: nat): U16
    requires Fits(g, disk) && c < g.clusters + 2
  {
    CopyInside(g, 0, EntrySector(c));
    ReadU16(disk[g.fatStart + EntrySector(c)], EntryOff(c))
  }

  /** The allocation table the volume holds. */
  ghost function Fat(g: Geometry, disk: seq<Sector>): (f: seq<U16>)
    requires Fits(g, disk)
    ensures |f| == g.clusters + 2
  {
    Entries(g, disk, g.clusters + 2)
  }

  ghost function Entries(g: Geometry, disk: seq<Sector>, n: nat): (f: seq<U16>)
    requires Fits(g, disk) && n <= g.clusters + 2
    ensures |f| == n
    decreases n
  {
    if n == 0 then [] else Entries(g, disk, n - 1) + [EntryAt(g, disk, n - 1)]
  }

  lemma {:induction false} EntriesAt(g: Geometry, disk: seq<Sector>, n: nat, c: nat)
    requires Fits(g, disk) && c < n <= g.clusters + 2
    ensures Entries(g, disk, n)[c] == EntryAt(g, disk, c)
    decreases n
  {
    if c < n - 1 { EntriesAt(g, disk, n - 1, c); }
  }

  ghost function ClusterAt(g: Geometry, disk: seq<Sector>, c: nat): (r: seq<Sector>)
    requires Fits(g, disk) && c < g.clusters + 2
    ensures c >= 2 ==> |r| == g.spc
  {
    if c < 2 then []
    else
      ClusterInside(g, c);
      disk[g.Lba(c)..g.Lba(c) + g.spc]
  }

  /** The sectors of every cluster. */
  ghost function Data(g: Geometry, disk: seq<Sector>): (d: seq<seq<Sector>>)
    requires Fits(g, disk)
    ensures |d| == g.clusters + 2
  {
    Areas(g, disk, g.clusters + 2)
  }

  ghost function Areas(g: Geometry, disk: seq<Sector>, n: nat): (d: seq<seq<Sector>>)
    requires Fits(g, disk) && n <= g.clusters + 2
    ensures |d| == n
    decreases n
  {
    if n == 0 then [] else Areas(g, disk, n - 1) + [ClusterAt(g, disk, n - 1)]
  }

  lemma {:induction false} AreasAt(g: Geometry, disk: seq<Sector>, n: nat, c: nat)
    requires Fits(g, disk) && c < n <= g.clusters + 2
    ensures Areas(g, disk, n)[c] == ClusterAt(g, disk, c)
    ensures c >= 2 ==> |Areas(g, disk, n)[c]| == g.spc
    decreases n
  {
    if c < n - 1 { AreasAt(g, disk, n - 1, c); }
  }

  lemma ViewsAt(g: Geometry, disk: seq<Sector>, c: nat)
    requires Fits(g, disk) && c < g.clusters + 2
    ensures Fat(g, disk)[c] == EntryAt(g, disk, c) && Data(g, disk)[c] == ClusterAt(g, disk, c)
  {
    EntriesAt(g, disk, g.clusters + 2, c);
    AreasAt(g, disk, g.clusters + 2, c);
  }

  /** All copies of the table are identical. */
  ghost predicate Mirrored(g: Geometry, disk: seq<Sector>)
    requires Fits(g, disk)
  {
    forall i: nat, r: nat :: i < g.fatCount && r < g.secPerFat ==> CopyAgrees(g, disk, i, r)
  }

  /** Sector `r` of copy `i` is sector `r` of the first table. */
  ghost predicate CopyAgrees(g: Geometry, disk: seq<Sector>, i: nat, r: nat) {
    CopyStart(g, i) + r < |disk| && g.fatStart + r < |disk| && disk[CopyStart(g, i) + r] == disk[g.fatStart + r]
  }

  datatype Slot = Slot(lba: nat, data: Sector)

  /** Every filled cache slot is the sector of the first table it stands for. */
  ghost predicate CacheOk(g: Geometry, disk: seq<Sector>, cache: seq<Slot>) {
    forall k :: 0 <= k < |cache| && cache[k].lba != 0 ==>
      && g.fatStart <= cache[k].lba < g.fatStart + g.secPerFat
      && cache[k].lba < |disk| && cache[k].data == disk[cache[k].lba]
  }

  /** Sector `s` is the one holding entry `c` in one of the first `n` tables. */
  ghost predicate HoldsEntry(g: Geometry, n: nat, c: nat, s: nat) {
    exists i: nat :: i < n && s == CopyStart(g, i) + EntrySector(c)
  }

  /** `disk` with entry `c` set to `v` in the first `n` tables and nothing else changed. */
  ghost predicate EntrySet(g: Geometry, was: seq<Sector>, disk: seq<Sector>, n: nat, c: nat, v: U16) {
    && |disk| == |was|
    && forall s :: 0 <= s < |was| ==>
         disk[s] == if HoldsEntry(g, n, c, s) then PutU16(was[s], EntryOff(c), v) else was[s]
  }

  lemma MirrorKept(g: Geometry, was: seq<Sector>, disk: seq<Sector>, c: nat, v: U16, i: nat, r: nat)
    requires Fits(g, was) && Mirrored(g, was) && c < g.clusters + 2
    requires EntrySet(g, was, disk, g.fatCount, c, v) && i < g.fatCount && r < g.secPerFat
    ensures CopyAgrees(g, disk, i, r)
  {
    assert CopyAgrees(g, was, i, r);
    CopyInside(g, i, r);
    HoldsOwn(g, i, r, c);
    CopyInside(g, 0, r);
    HoldsOwn(g, 0, r, c);
    assert CopyStart(g, 0) + r == g.fatStart + r;
  }

  lemma EntryAfter(g: Geometry, was: seq<Sector>, disk: seq<Sector>, c: nat, v: U16, d: nat)
    requires Fits(g, was) && Fits(g, disk) && c < g.clusters + 2 && d < g.clusters + 2
    requires EntrySet(g, was, disk, g.fatCount, c, v)
    ensures EntryAt(g, disk, d) == if d == c then v else EntryAt(g, was, d)
  {
    CopyInside(g, 0, EntrySector(d));
    HoldsOwn(g, 0, EntrySector(d), c);
    var s := CopyStart(g, 0) + EntrySector(d);
    assert s == g.fatStart + EntrySector(d);
    PutThenRead(was[s], EntryOff(c), EntryOff(d), v);
    EntryPlace(c, d);
  }

  lemma ClusterAfter(g: Geometry, was: seq<Sector>, disk: seq<Sector>, c: nat, v: U16, d: nat)
    requires Fits(g, was) && Fits(g, disk) && c < g.clusters + 2 && 2 <= d < g.clusters + 2
    requires EntrySet(g, was, disk, g.fatCount, c, v)
    ensures ClusterAt(g, disk, d) == ClusterAt(g, was, d)
  {
    ClusterInside(g, d);
    var lo, hi := g.Lba(d), g.Lba(d) + g.spc;
    forall s: nat | lo <= s < hi
      ensures disk[s] == was[s]
    {
      OutsideTables(g, c, s);
    }
    assert disk[lo..hi] == was[lo..hi];
  }

  /** Setting an entry in every table changes that entry of the table, no cluster, and keeps the
      copies identical. */
  lemma EntrySetMeaning(g: Geometry, was: seq<Sector>, disk: seq<Sector>, c: nat, v: U16)
    requires Fits(g, was) && Mirrored(g, was) && c < g.clusters + 2
    requires EntrySet(g, was, disk, g.fatCount, c, v)
    ensures Fits(g, disk) && Mirrored(g, disk)
    ensures Fat(g, disk) == Fat(g, was)[c := v]
    ensures Data(g, disk) == Data(g, was)
  {
    forall i: nat, r: nat | i < g.fatCount && r < g.secPerFat
      ensures CopyAgrees(g, disk, i, r)
    {
      MirrorKept(g, was, disk, c, v, i, r);
    }
    forall d | 0 <= d < g.clusters + 2
      ensures Fat(g, disk)[d] == Fat(g, was)[c := v][d]
      ensures Data(g, disk)[d] == Data(g, was)[d]
    {
      ViewsAt(g, was, d);
      ViewsAt(g, disk, d);
      EntryAfter(g, was, disk, c, v, d);
      if d >= 2 { ClusterAfter(g, was, disk, c, v, d); }
    }
  }

  lemma HoldsOwn(g: Geometry, i: nat, r: nat, c: nat)
    requires g.Ok() && i < g.fatCount && r < g.secPerFat && c < g.clusters + 2
    ensures HoldsEntry(g, g.fatCount, c, CopyStart(g, i) + r) <==> r == EntrySector(c)
  {
    if HoldsEntry(g, g.fatCount, c, CopyStart(g, i) + r) {
      var j: nat :| j < g.fatCount && CopyStart(g, i) + r == CopyStart(g, j) + EntrySector(c);
      CopyUnique(g, i, r, j, EntrySector(c));
    }
  }

  // ---- the table as bytes ------------------------------------------------------------------------

  lemma CopyWhole(g: Geometry, disk: seq<Sector>, i: nat)
    requires Fits(g, disk) && i < g.fatCount
    ensures g.fatStart <= CopyStart(g, i) && CopyStart(g, i) + g.secPerFat <= g.rootStart <= |disk|
  {
    CopyInside(g, i, g.secPerFat - 1);
  }

  /** The bytes of copy `i` of the table: its sectors end to end. */
  ghost function CopyBytes(g: Geometry, disk: seq<Sector>, i: nat): seq<Byte>
    requires Fits(g, disk) && i < g.fatCount
  {
    CopyWhole(g, disk, i);
    Joined(disk[CopyStart(g, i)..CopyStart(g, i) + g.secPerFat])
  }

  /** Entry `c` of the table in `f` is `v`: two bytes, the low one first. */
  ghost predicate StoredAt(f: seq<Byte>, c: nat, v: int) {
    2 * c + 1 < |f| && var lo: int, hi: int := f[2 * c], f[2 * c + 1]; v == lo + 256 * hi
  }

  lemma EntryInTable(g: Geometry, c: nat)
    requires g.Ok() && c < g.clusters + 2
    ensures EntrySector(c) < g.secPerFat && 2 * c == EntrySector(c) * 512 + EntryOff(c)
  {
  }

  lemma SectorByte(cl: seq<Sector>, s: nat, k: nat)
    requires s < |cl| && k < SECTOR
    ensures s * 512 + k < |Joined(cl)| && Joined(cl)[s * 512 + k] == cl[s][k]
  {
    JoinedSector(cl, s);
    assert Joined(cl)[s * 512..s * 512 + SECTOR][k] == cl[s][k];
  }

  /** The table the volume holds is its first copy's bytes, read as words. */
  lemma TableIsBytes(g: Geometry, disk: seq<Sector>, c: nat)
    requires Fits(g, disk) && c < g.clusters + 2
    ensures StoredAt(CopyBytes(g, disk, 0), c, Fat(g, disk)[c])
  {
    CopyWhole(g, disk, 0);
    EntryInTable(g, c);
    ViewsAt(g, disk, c);
    var cl := disk[CopyStart(g, 0)..CopyStart(g, 0) + g.secPerFat];
    SectorByte(cl, EntrySector(c), EntryOff(c));
    SectorByte(cl, EntrySector(c), EntryOff(c) + 1);
  }

  lemma PutIsOverwrite(s: Sector, off: nat, v: U16)
    requires off + 1 < SECTOR
    ensures PutU16(s, off, v) == Overwrite(s, off, [v % 256, v / 256])
  {
  }

  /** Entry `c` is set to `v` in every copy: its two bytes change, and no sector outside the tables. */
  ghost predicate TwoBytesSet(g: Geometry, was: seq<Sector>, disk: seq<Sector>, c: nat, v: U16)
    requires Fits(g, was) && Fits(g, disk)
  {
    && |disk| == |was|
    && (forall i: nat :: i < g.fatCount ==> CopySet(CopyBytes(g, was, i), CopyBytes(g, disk, i), c, v))
    && forall s :: 0 <= s < |was| && !(g.fatStart <= s < g.rootStart) ==> disk[s] == was[s]
  }

  ghost predicate CopySet(f: seq<Byte>, f2: seq<Byte>, c: nat, v: U16) {
    2 * c + 1 < |f| && f2 == Overwrite(f, 2 * c, [v % 256, v / 256])
  }

  lemma CopySetAt(g: Geometry, was: seq<Sector>, disk: seq<Sector>, c: nat, v: U16, i: nat)
    requires Fits(g, was) && Fits(g, disk) && c < g.clusters + 2 && i < g.fatCount
    requires EntrySet(g, was, disk, g.fatCount, c, v)
    ensures CopySet(CopyBytes(g, was, i), CopyBytes(g, disk, i), c, v)
  {
    CopyWhole(g, was, i);
    EntryInTable(g, c);
    var lo, n, at := CopyStart(g, i), g.secPerFat, EntrySector(c);
    var a, b := was[lo..lo + n], disk[lo..lo + n];
    forall r: nat | r < n
      ensures b[r] == if r == at then PutU16(a[r], EntryOff(c), v) else a[r]
    {
      HoldsOwn(g, i, r, c);
    }
    assert b == SetSector(a, at, PutU16(a[at], EntryOff(c), v));
    PutIsOverwrite(a[at], EntryOff(c), v);
    JoinedOverwrite(a, at, EntryOff(c), [v % 256, v / 256]);
  }

  lemma EntrySetBytes(g: Geometry, was: seq<Sector>, disk: seq<Sector>, c: nat, v: U16)
    requires Fits(g, was) && Fits(g, disk) && c < g.clusters + 2 && EntrySet(g, was, disk, g.fatCount, c, v)
    ensures TwoBytesSet(g, was, disk, c, v)
  {
    forall i: nat | i < g.fatCount
      ensures CopySet(CopyBytes(g, was, i), CopyBytes(g, disk, i), c, v)
    {
      CopySetAt(g, was, disk, c, v, i);
    }
    forall s: nat | s < |was| && !(g.fatStart <= s < g.rootStart)
      ensures disk[s] == was[s]
    {
      OutsideTables(g, c, s);
    }
  }

  lemma OutsideTables(g: Geometry, c: nat, s: nat)
    requires g.Ok() && c < g.clusters + 2 && !(g.fatStart <= s < g.rootStart)
    ensures !HoldsEntry(g, g.fatCount, c, s)
  {
    if HoldsEntry(g, g.fatCount, c, s) {
      var j: nat :| j < g.fatCount && s == CopyStart(g, j) + EntrySector(c);
      CopyInside(g, j, EntrySector(c));
    }
  }

  // ---- data sectors --------------------------------------------------------------------------------

  function WithSector(data: seq<seq<Sector>>, c: nat, s: nat, sec: Sector): seq<seq<Sector>>
    requires c < |data| && s < |data[c]|
  {
    data[c := SetSector(data[c], s, sec)]
  }

  /** Rewriting a sector of the data area changes that sector of its cluster, and neither another
      cluster nor any table. */
  lemma DataWriteMeaning(g: Geometry, was: seq<Sector>, c: nat, s: nat, sec: Sector)
    requires Fits(g, was) && Mirrored(g, was) && 2 <= c < g.clusters + 2 && s < g.spc
    ensures g.Lba(c) + s < |was| && Fits(g, was[g.Lba(c) + s := sec])
    ensures Mirrored(g, was[g.Lba(c) + s := sec])
    ensures Fat(g, was[g.Lba(c) + s := sec]) == Fat(g, was)
    ensures |Data(g, was)[c]| == g.spc
    ensures Data(g, was[g.Lba(c) + s := sec]) == WithSector(Data(g, was), c, s, sec)
  {
    ClusterInside(g, c);
    ViewsAt(g, was, c);
    var lba := g.Lba(c) + s;
    var disk := was[lba := sec];
    forall i: nat, r: nat | i < g.fatCount && r < g.secPerFat
      ensures CopyAgrees(g, disk, i, r)
    {
      assert CopyAgrees(g, was, i, r);
      TableUntouched(g, was, lba, sec, i, r);
      TableUntouched(g, was, lba, sec, 0, r);
      assert CopyStart(g, 0) + r == g.fatStart + r;
    }
    forall d | 0 <= d < g.clusters + 2
      ensures Fat(g, disk)[d] == Fat(g, was)[d]
      ensures d != c ==> Data(g, disk)[d] == Data(g, was)[d]
    {
      ViewsAt(g, was, d);
      ViewsAt(g, disk, d);
      TableUntouched(g, was, lba, sec, 0, EntrySector(d));
      assert CopyStart(g, 0) == g.fatStart;
      if d >= 2 && d != c { ClusterUntouched(g, was, c, s, sec, d); }
    }
    ClusterRewritten(g, was, c, s, sec);
    ViewsAt(g, disk, c);
  }

  lemma TableUntouched(g: Geometry, was: seq<Sector>, lba: nat, sec: Sector, i: nat, r: nat)
    requires Fits(g, was) && g.dataStart <= lba < |was| && i < g.fatCount && r < g.secPerFat
    ensures CopyStart(g, i) + r < |was| && was[lba := sec][CopyStart(g, i) + r] == was[CopyStart(g, i) + r]
  {
    CopyInside(g, i, r);
  }

  lemma ClusterUntouched(g: Geometry, was: seq<Sector>, c: nat, s: nat, sec: Sector, d: nat)
    requires Fits(g, was) && 2 <= c < g.clusters + 2 && 2 <= d < g.clusters + 2 && c != d && s < g.spc
    requires g.Lba(c) + s < |was|
    ensures ClusterAt(g, was[g.Lba(c) + s := sec], d) == ClusterAt(g, was, d)
  {
    ClusterInside(g, d);
    var lba, lo := g.Lba(c) + s, g.Lba(d);
    if lo <= lba < lo + g.spc { ClusterApart(g, c, s, d, lba - lo); }
    assert was[lba := sec][lo..lo + g.spc] == was[lo..lo + g.spc];
  }

  lemma ClusterRewritten(g: Geometry, was: seq<Sector>, c: nat, s: nat, sec: Sector)
    requires Fits(g, was) && 2 <= c < g.clusters + 2 && s < g.spc && g.Lba(c) + s < |was|
    ensures ClusterAt(g, was[g.Lba(c) + s := sec], c) == SetSector(ClusterAt(g, was, c), s, sec)
  {
    ClusterInside(g, c);
    var lo := g.Lba(c);
    assert was[lo + s := sec][lo..lo + g.spc] == was[lo..lo + g.spc][s := sec];
  }

  // ---- the mounted volume ------------------------------------------------------------------------

  class Volume {
    const g: Geometry
    var disk: seq<Sector>
    var cache: seq<Slot>
    var next: nat

    ghost predicate Valid()
      reads this
    {
      && Fits(g, disk) && Mirrored(g, disk)
      && |cache| == CACHE_SLOTS && next < CACHE_SLOTS && CacheOk(g, disk, cache)
    }

    ghost function Table(): seq<U16>
      requires Valid()
      reads this
    {
      Fat(g, disk)
    }

    ghost function Clusters(): seq<seq<Sector>>
      requires Valid()
      reads this
    {
      Data(g, disk)
    }

    /** A freshly mounted volume: `fat_cache_invalidate` has emptied the cache. */
    constructor (g: Geometry, disk: seq<Sector>)
      requires Fits(g, disk) && Mirrored(g, disk)
      ensures Valid() && this.g == g && this.disk == disk
    {
      this.g, this.disk, this.next := g, disk, 0;
      this.cache := seq(CACHE_SLOTS, _ => Slot(0, Zeros(SECTOR)));
    }

    /** `fat_cache_get`: a hit, or the sector read into the next slot in turn. */
    method CacheGet(lba: nat) returns (sec: Sector)
      requires Valid() && g.fatStart <= lba < g.fatStart + g.secPerFat && lba < |disk|
      modifies this`cache, this`next
      ensures Valid() && sec == disk[lba]
    {
      for i := 0 to CACHE_SLOTS
        invariant cache == old(cache) && next == old(next)
      {
        if cache[i].lba == lba {
          return cache[i].data;
        }
      }
      var slot := next;
      next := (next + 1) % CACHE_SLOTS;
      cache := cache[slot := Slot(lba, disk[lba])];
      return disk[lba];
    }

    /** `fat_cache_evict` */
    method Evict(lba: nat)
      requires |cache| == CACHE_SLOTS
      modifies this`cache
      ensures |cache| == CACHE_SLOTS
      ensures forall k :: 0 <= k < CACHE_SLOTS ==>
                cache[k] == if old(cache)[k].lba == lba then old(cache)[k].(lba := 0) else old(cache)[k]
    {
      for i := 0 to CACHE_SLOTS
        invariant |cache| == CACHE_SLOTS
        invariant forall k :: 0 <= k < CACHE_SLOTS ==>
                    cache[k] == if k < i && old(cache)[k].lba == lba then old(cache)[k].(lba := 0) else old(cache)[k]
      {
        if cache[i].lba == lba {
          cache := cache[i := cache[i].(lba := 0)];
        }
      }
    }

    /** `fat16_get_entry`: always what an uncached read of the table would return. */
    method GetEntry(c: nat) returns (v: U16)
      requires Valid() && c < g.clusters + 2
      modifies this`cache, this`next
      ensures Valid() && v == Table()[c] && StoredAt(CopyBytes(g, disk, 0), c, v)
    {
      TableIsBytes(g, disk, c);
      CopyInside(g, 0, EntrySector(c));
      assert CopyStart(g, 0) == g.fatStart;
      ViewsAt(g, disk, c);
      var sec := CacheGet(g.fatStart + EntrySector(c));
      v := ReadU16(sec, EntryOff(c));
    }

    /** `fat16_set_entry`: read, modify and write the sector in every copy, evicting as it goes. */
    method SetEntry(c: nat, v: U16)
      requires Valid() && c < g.clusters + 2
      modifies this`disk, this`cache
      ensures Valid()
      ensures Table() == old(Table())[c := v] && Clusters() == old(Clusters())
      ensures TwoBytesSet(g, old(disk), disk, c, v)
    {
      for i := 0 to g.fatCount
        invariant EntrySet(g, old(disk), disk, i, c, v)
        invariant |cache| == CACHE_SLOTS && CacheOk(g, disk, cache)
      {
        CopyInside(g, i, EntrySector(c));
        var lba := CopyStart(g, i) + EntrySector(c);
        NextCopy(g, old(disk), disk, i, c, v);
        disk := disk[lba := PutU16(disk[lba], EntryOff(c), v)];
        Evict(lba);
      }
      EntrySetMeaning(g, old(disk), disk, c, v);
      EntrySetBytes(g, old(disk), disk, c, v);
    }

    method ReadSector(c: nat, s: nat) returns (sec: Sector)
      requires Valid() && 2 <= c < g.clusters + 2 && s < g.spc
      ensures |Clusters()[c]| == g.spc && sec == Clusters()[c][s]
    {
      ClusterInside(g, c);
      ViewsAt(g, disk, c);
      sec := disk[g.Lba(c) + s];
    }

    method WriteSector(c: nat, s: nat, sec: Sector)
      requires Valid() && 2 <= c < g.clusters + 2 && s < g.spc
      modifies this`disk
      ensures Valid() && Table() == old(Table()) && |old(Clusters()[c])| == g.spc
      ensures Clusters() == WithSector(old(Clusters()), c, s, sec)
    {
      DataWriteMeaning(g, disk, c, s, sec);
      ClusterInside(g, c);
      CacheSurvives(g, disk, cache, g.Lba(c) + s, sec);
      disk := disk[g.Lba(c) + s := sec];
    }

    /** One multi-sector `ata_pio_read` of a whole cluster. */
    method ReadCluster(c: nat) returns (bytes: seq<Byte>)
      requires Valid() && 2 <= c < g.clusters + 2
      ensures bytes == Joined(Clusters()[c])
    {
      ClusterInside(g, c);
      ViewsAt(g, disk, c);
      bytes := Joined(disk[g.Lba(c)..g.Lba(c) + g.spc]);
    }
  }

  /** Data sectors are never cached. */
  lemma CacheSurvives(g: Geometry, disk: seq<Sector>, cache: seq<Slot>, lba: nat, sec: Sector)
    requires g.Ok() && CacheOk(g, disk, cache) && g.dataStart <= lba < |disk|
    ensures CacheOk(g, disk[lba := sec], cache)
  {
    SpanBelow(0, g.fatCount, g.secPerFat);
  }

  lemma NextCopy(g: Geometry, was: seq<Sector>, disk: seq<Sector>, i: nat, c: nat, v: U16)
    requires g.Ok() && c < g.clusters + 2 && i < g.fatCount && EntrySet(g, was, disk, i, c, v)
    requires CopyStart(g, i) + EntrySector(c) < |was|
    ensures var lba := CopyStart(g, i) + EntrySector(c);
            EntrySet(g, was, disk[lba := PutU16(disk[lba], EntryOff(c), v)], i + 1, c, v)
  {
    var lba := CopyStart(g, i) + EntrySector(c);
    assert !HoldsEntry(g, i, c, lba) by {
      if HoldsEntry(g, i, c, lba) {
        var j: nat :| j < i && lba == CopyStart(g, j) + EntrySector(c);
        CopyUnique(g, i, EntrySector(c), j, EntrySector(c));
      }
    }
    forall s: nat
      ensures HoldsEntry(g, i + 1, c, s) <==> HoldsEntry(g, i, c, s) || s == lba
    {
      if HoldsEntry(g, i + 1, c, s) {
        var j: nat :| j < i + 1 && s == CopyStart(g, j) + EntrySector(c);
        assert j == i || HoldsEntry(g, i, c, s);
      }
    }
  }
}
