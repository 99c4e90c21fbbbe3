/** A newly formatted volume: the file system's invariant can be met on every geometry. */
module FatFormat {
  import opened Words
  import opened Options
  import opened Spans
  import opened FatSectors
  import opened FatVolume
  import opened FatChains
  import opened FatCore
  import opened FatFiles
  import opened FatView
  import opened FatFs

  ghost predicate IsBlank(disk: seq<Sector>) { forall s :: 0 <= s < |disk| ==> disk[s] == Zeros(SECTOR) }

  lemma BlankMirrored(g: Geometry, disk: seq<Sector>)
    requires Fits(g, disk) && IsBlank(disk)
    ensures Mirrored(g, disk)
  {
    forall i: nat, r: nat | i < g.fatCount && r < g.secPerFat
      ensures CopyAgrees(g, disk, i, r)
    {
      CopyInside(g, i, r);
      CopyInside(g, 0, r);
    }
  }

  lemma BlankTable(g: Geometry, disk: seq<Sector>, c: nat)
    requires Fits(g, disk) && IsBlank(disk) && c < g.clusters + 2
    ensures Fat(g, disk)[c] == 0
  {
    CopyInside(g, 0, EntrySector(c));
    ViewsAt(g, disk, c);
  }

  /** A table without entries belongs to no chain. */
  lemma NothingOwned(t: seq<U16>)
    requires forall c :: 0 <= c < |t| ==> t[c] == 0
    ensures Owns(t, map[])
  {
    forall c: nat | 2 <= c < |t|
      ensures Accounted(t, map[], c)
    {
      assert !Owned(map[], c);
    }
  }

  /** An empty file system on a blank disk of that geometry. */
  method Formatted(g: Geometry) returns (fs: FileSystem)
    requires g.Ok()
    ensures fresh(fs) && fresh(fs.vol) && fs.Valid() && fs.vol.g == g && fs.Files() == map[]
    ensures forall k :: 0 <= k < |fs.open| ==> !fs.open[k].inUse
  {
    var disk: seq<Sector> := seq(g.DiskSize(), _ => Zeros(SECTOR));
    BlankMirrored(g, disk);
    var vol := new Volume(g, disk);
    forall c: nat | c < g.clusters + 2
      ensures vol.Table()[c] == 0
    {
      BlankTable(g, disk, c);
    }
    NothingOwned(vol.Table());
    fs := new FileSystem(vol, map[], map[]);
  }

  /** There are such geometries: one table of sixteen sectors and 4085 clusters of one sector. */
  lemma SmallestVolume()
    ensures Geometry(1, 1, 16, 17, 18, 1, 4085).Ok()
  {
    SpanIsProduct(1, 16);
    SpanIsProduct(4085, 512);
  }

  /** What has been written stands at its position. */
  lemma StandsThere(was: seq<Byte>, start: nat, data: seq<Byte>)
    requires start <= |was|
    ensures start + |data| <= |WriteSpec(was, start, data)|
    ensures Slice(WriteSpec(was, start, data), start, |data|) == data
  {
  }

  /** The handle after a write through it, and what its file then holds there. */
  ghost predicate Holding(files: map<Loc, seq<Byte>>, f: Handle, start: nat, data: seq<Byte>) {
    && f.inUse && f.access == RDWR && f.loc in files && start <= |files[f.loc]| == f.size
    && Slice(files[f.loc], start, |data|) == data
  }

  lemma Wrote(files: map<Loc, seq<Byte>>, after: map<Loc, seq<Byte>>, was: seq<Handle>, now: seq<Handle>, h: nat,
              buf: seq<Byte>, r: int)
    requires WriteDone(files, after, was, now, h, buf, r) && h < |was| && was[h].inUse && was[h].access == RDWR
    requires !was[h].append && was[h].loc in files && was[h].pos <= |files[was[h].loc]| == was[h].size
    ensures 0 <= r <= |buf| && |now| == |was| && Holding(after, now[h], was[h].pos, buf[..r])
  {
    if buf != [] { StandsThere(files[was[h].loc], was[h].pos, buf[..r]); }
  }

  lemma Sought(was: seq<Handle>, now: seq<Handle>, h: nat, start: nat, r: int)
    requires SeekDone(was, now, h, start, Whence.Set, r) && h < |was| && was[h].inUse
    requires start <= was[h].size < 0x8000_0000
    ensures |now| == |was| && now[h] == was[h].(pos := start)
  {
  }

  lemma ReadThere(files: map<Loc, seq<Byte>>, was: seq<Handle>, now: seq<Handle>, h: nat, start: nat, data: seq<Byte>,
                  r: Option<seq<Byte>>)
    requires h < |was| && Holding(files, was[h], start, data) && was[h].pos == start
    requires ReadDone(files, was, now, h, |data|, r)
    ensures r == Some(data)
  {
  }

  /** What a write stores, all of it unless the volume is full, is what a read from the same place returns. */
  method ReadBack(fs: FileSystem, h: nat, buf: seq<Byte>, haveBuffer: bool) returns (n: int, back: seq<Byte>)
    requires fs.Valid() && h < |fs.open| && fs.open[h].inUse && fs.open[h].access == RDWR && !fs.open[h].append
    modifies fs, fs.vol
    ensures fs.Valid() && 0 <= n <= |buf| && back == buf[..n] && (n < |buf| ==> Full(fs.vol.Table()))
  {
    ghost var files, was := fs.Files(), fs.open;
    OpenFits(fs, h);
    var start := fs.open[h].pos;
    n := fs.Write(h, buf);
    Wrote(files, fs.Files(), was, fs.open, h, buf, n);
    ghost var after, wrote := fs.Files(), fs.open;
    OpenFits(fs, h);
    var at := fs.Seek(h, start, Whence.Set);
    Sought(wrote, fs.open, h, start, at);
    ghost var sought := fs.open;
    var r := fs.Read(h, n, haveBuffer);
    ReadThere(after, sought, fs.open, h, start, buf[..n], r);
    back := r.value;
  }

  lemma OpenFits(fs: FileSystem, h: nat)
    requires fs.Valid() && h < |fs.open| && fs.open[h].inUse
    ensures var f := fs.open[h];
            f.loc in fs.Files() && f.pos <= |fs.Files()[f.loc]| == f.size < 0x8000_0000
  {
    assert HandleOk(fs.open[h], fs.dir);
    fs.FileFits(fs.open[h].loc);
    fs.SizeBound(fs.open[h].loc);
  }
}
