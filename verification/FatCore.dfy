/** Cluster allocation, chain walking and cluster I/O on a mounted volume. */
module FatCore {
  import opened Words
  import opened Spans
  import opened FatSectors
  import opened FatVolume
  import opened FatChains
  import opened FatBytes

  /** First cluster field of a file with chain `ch`; 0 or 1 when it has none. */
  ghost predicate Heads(first: nat, ch: seq<nat>) {
    if ch == [] then first < 2 else first == ch[0]
  }

  function ClusterSize(g: Geometry): nat { 512 * g.spc }

  ghost function VolumeBytes(vol: Volume): (b: seq<seq<Byte>>)
    requires vol.Valid()
    reads vol
    ensures |b| == vol.g.clusters + 2
  {
    Bytes(vol.Clusters())
  }

  /** Every data cluster has the cluster size. */
  lemma ClustersSized(vol: Volume, c: nat)
    requires vol.Valid() && 2 <= c < vol.g.clusters + 2
    ensures |VolumeBytes(vol)[c]| == ClusterSize(vol.g)
  {
    JoinedLength(vol.Clusters()[c]);
    BytesAt(vol.Clusters(), c);
    ViewsAt(vol.g, vol.disk, c);
  }

  /** Cluster `c` is the bytes of its own sectors, end to end. */
  lemma ClusterIsBytes(vol: Volume, c: nat)
    requires vol.Valid() && 2 <= c < vol.g.clusters + 2
    ensures vol.g.Lba(c) + vol.g.spc <= |vol.disk|
    ensures VolumeBytes(vol)[c] == Joined(vol.disk[vol.g.Lba(c)..vol.g.Lba(c) + vol.g.spc])
  {
    ClusterInside(vol.g, c);
    BytesAt(vol.Clusters(), c);
    ViewsAt(vol.g, vol.disk, c);
  }

  lemma ChainSized(vol: Volume, ch: seq<nat>)
    requires vol.Valid() && IsChain(vol.Table(), ch)
    ensures Sized(VolumeBytes(vol), ch, ClusterSize(vol.g))
  {
    forall i | 0 <= i < |ch|
      ensures ch[i] < |VolumeBytes(vol)| && |VolumeBytes(vol)[ch[i]]| == ClusterSize(vol.g)
    {
      ClustersSized(vol, ch[i]);
    }
  }

  /** Read, modify and write one sector of cluster `c` from byte `at` on. */
  method PutBytes(vol: Volume, c: nat, at: nat, chunk: seq<Byte>)
    requires vol.Valid() && 2 <= c < vol.g.clusters + 2
    requires at < ClusterSize(vol.g) && at % 512 + |chunk| <= SECTOR
    modifies vol`disk
    ensures vol.Valid() && vol.Table() == old(vol.Table())
    ensures at + |chunk| <= |old(VolumeBytes(vol))[c]|
    ensures VolumeBytes(vol) == old(VolumeBytes(vol))[c := Overwrite(old(VolumeBytes(vol))[c], at, chunk)]
  {
    var s, off := at / 512, at % 512;
    SectorInCluster(at, vol.g.spc);
    var sec := vol.ReadSector(c, s);
    ghost var was := vol.Clusters();
    JoinedOverwrite(was[c], s, off, chunk);
    BytesAt(was, c);
    vol.WriteSector(c, s, sec[..off] + chunk + sec[off + |chunk|..]);
    BytesUpdate(was, c, vol.Clusters()[c]);
  }

  lemma SectorInCluster(at: nat, spc: nat)
    requires at < spc * 512
    ensures at / 512 < spc && at == at / 512 * 512 + at % 512
  {
  }

  /** The zeroing loop of `fat16_alloc_cluster`. */
  method ZeroCluster(vol: Volume, c: nat)
    requires vol.Valid() && 2 <= c < vol.g.clusters + 2
    modifies vol`disk
    ensures vol.Valid() && vol.Table() == old(vol.Table())
    ensures VolumeBytes(vol) == old(VolumeBytes(vol))[c := Zeros(ClusterSize(vol.g))]
  {
    ghost var was := vol.Clusters();
    ViewsAt(vol.g, vol.disk, c);
    for s := 0 to vol.g.spc
      invariant vol.Valid() && vol.Table() == old(vol.Table())
      invariant |vol.Clusters()| == |was| && vol.Clusters() == was[c := vol.Clusters()[c]]
      invariant |vol.Clusters()[c]| == vol.g.spc && forall t :: 0 <= t < s ==> vol.Clusters()[c][t] == Zeros(SECTOR)
    {
      vol.WriteSector(c, s, Zeros(SECTOR));
    }
    JoinedZeros(vol.Clusters()[c]);
    BytesUpdate(was, c, vol.Clusters()[c]);
  }

  lemma {:induction false} JoinedZeros(cl: seq<Sector>)
    requires forall t :: 0 <= t < |cl| ==> cl[t] == Zeros(SECTOR)
    ensures Joined(cl) == Zeros(|cl| * 512)
    decreases |cl|
  {
    if cl != [] { JoinedZeros(cl[1..]); }
  }

  /** `fat16_alloc_cluster`: the lowest free cluster, marked as an end and zeroed; 0 when the volume is full. */
  method AllocCluster(vol: Volume) returns (c: nat)
    requires vol.Valid()
    modifies vol
    ensures vol.Valid()
    ensures c == 0 ==> vol.disk == old(vol.disk) && forall x :: 2 <= x < |vol.Table()| ==> vol.Table()[x] != 0
    ensures c != 0 ==>
              && 2 <= c < |old(vol.Table())| && old(vol.Table())[c] == 0
              && (forall x :: 2 <= x < c ==> old(vol.Table())[x] != 0)
              && vol.Table() == old(vol.Table())[c := EOC]
              && VolumeBytes(vol) == old(VolumeBytes(vol))[c := Zeros(ClusterSize(vol.g))]
  {
    ghost var t := vol.Table();
    for i := 2 to vol.g.clusters + 2
      invariant vol.Valid() && vol.disk == old(vol.disk) && vol.Table() == t
      invariant forall x :: 2 <= x < i ==> t[x] != 0
    {
      var v := vol.GetEntry(i);
      if v == 0 {
        ClaimCluster(vol, i);
        return i;
      }
    }
    c := 0;
  }

  method ClaimCluster(vol: Volume, c: nat)
    requires vol.Valid() && 2 <= c < vol.g.clusters + 2
    modifies vol
    ensures vol.Valid() && vol.Table() == old(vol.Table())[c := EOC]
    ensures VolumeBytes(vol) == old(VolumeBytes(vol))[c := Zeros(ClusterSize(vol.g))]
  {
    vol.SetEntry(c, EOC);
    ZeroCluster(vol, c);
  }

  /** `fat16_free_chain`: walk from `first`, clearing each entry after reading its successor. */
  method FreeChain(vol: Volume, first: nat, ghost ch: seq<nat>)
    requires vol.Valid() && IsChain(vol.Table(), ch) && Heads(first, ch)
    modifies vol
    ensures vol.Valid() && vol.Clusters() == old(vol.Clusters())
    ensures Freed(old(vol.Table()), vol.Table(), ch)
  {
    var c, iter := first, 0;
    ghost var t := vol.Table();
    ChainLength(t, ch);
    while c >= 2 && c < 0xFFF8 && iter < vol.g.clusters + 2
      invariant vol.Valid() && vol.Clusters() == old(vol.Clusters())
      invariant iter <= |ch| && Freed(t, vol.Table(), ch[..iter])
      invariant if iter < |ch| then c == ch[iter] else !(c >= 2 && c < 0xFFF8)
      decreases |ch| - iter
    {
      var next := vol.GetEntry(c);
      vol.SetEntry(c, 0);
      FreeStep(t, ch, iter);
      if next == c {
        break;
      }
      c := next;
      iter := iter + 1;
    }
    assert ch[..|ch|] == ch;
  }

  /** The entry about to be cleared still links to the rest of the chain. */
  lemma FreeStep(t: seq<U16>, ch: seq<nat>, i: nat)
    requires IsChain(t, ch) && i < |ch|
    ensures ch[i] !in ch[..i]
    ensures i + 1 < |ch| ==> t[ch[i]] == ch[i + 1] != ch[i]
    ensures i + 1 == |ch| ==> IsEnd(t[ch[i]])
    ensures forall c :: c in ch[..i + 1] <==> c in ch[..i] || c == ch[i]
  {
    DistinctAll(ch);
    assert i + 1 < |ch| ==> Link(t, ch, i);
    assert forall k :: 0 <= k < i ==> ch[..i][k] == ch[k] != ch[i];
    assert ch[..i + 1] == ch[..i] + [ch[i]];
  }

  // ---- reading ---------------------------------------------------------------------------------

  /** One cluster's share of a read: `need` bytes from offset `at`, or up to the end of the cluster,
      by whole-cluster transfer, by a bulk transfer and a copy, or sector by sector. */
  method ReadPart(vol: Volume, c: nat, at: nat, need: nat, bulk: bool) returns (part: seq<Byte>)
    requires vol.Valid() && 2 <= c < vol.g.clusters + 2 && at < ClusterSize(vol.g) && need > 0
    ensures |VolumeBytes(vol)[c]| == ClusterSize(vol.g)
    ensures var take := if ClusterSize(vol.g) - at < need then ClusterSize(vol.g) - at else need;
            part == VolumeBytes(vol)[c][at..at + take]
  {
    var size := ClusterSize(vol.g);
    ClustersSized(vol, c);
    BytesAt(vol.Clusters(), c);
    if bulk && at == 0 && need >= size {
      part := vol.ReadCluster(c);
    } else if bulk {
      var buf := vol.ReadCluster(c);
      var take := if size - at < need then size - at else need;
      part := buf[at..at + take];
    } else {
      part := ReadBySector(vol, c, at, need);
    }
  }

  /** The per-sector loop, used for large clusters and when no buffer could be had. */
  method ReadBySector(vol: Volume, c: nat, at: nat, need: nat) returns (part: seq<Byte>)
    requires vol.Valid() && 2 <= c < vol.g.clusters + 2 && at < ClusterSize(vol.g) && need > 0
    ensures |VolumeBytes(vol)[c]| == ClusterSize(vol.g)
    ensures var take := if ClusterSize(vol.g) - at < need then ClusterSize(vol.g) - at else need;
            part == VolumeBytes(vol)[c][at..at + take]
  {
    ghost var whole := VolumeBytes(vol)[c];
    ClustersSized(vol, c);
    BytesAt(vol.Clusters(), c);
    ViewsAt(vol.g, vol.disk, c);
    part := [];
    var s, base := 0, 0;
    while s < vol.g.spc && |part| < need
      invariant 0 <= s <= vol.g.spc && base == s * 512 <= |whole|
      invariant PartRead(whole, at, need, base, part)
    {
      if at < base + SECTOR {
        JoinedSector(vol.Clusters()[c], s);
        var sec := vol.ReadSector(c, s);
        var start := if at > base then at - base else 0;
        var take := if SECTOR - start < need - |part| then SECTOR - start else need - |part|;
        PartStep(whole, at, need, base, part, sec, start, take);
        part := part + sec[start..start + take];
      }
      s, base := s + 1, base + SECTOR;
    }
  }

  /** What the per-sector loop has copied once it reaches offset `base`. */
  ghost predicate PartRead(whole: seq<Byte>, at: nat, need: nat, base: nat, part: seq<Byte>) {
    && |part| <= need && at + |part| <= |whole| && part == whole[at..at + |part|]
    && (base <= at ==> part == [])
    && (|part| < need && base > at ==> at + |part| == base)
  }

  lemma PartStep(whole: seq<Byte>, at: nat, need: nat, base: nat, part: seq<Byte>, sec: Sector, start: nat, take: nat)
    requires PartRead(whole, at, need, base, part) && |part| < need && at < base + SECTOR <= |whole|
    requires whole[base..base + SECTOR] == sec
    requires start == (if at > base then at - base else 0)
    requires take == (if SECTOR - start < need - |part| then SECTOR - start else need - |part|)
    ensures start + take <= SECTOR
    ensures PartRead(whole, at, need, base + SECTOR, part + sec[start..start + take])
  {
    assert at + |part| == base + start && start + take <= SECTOR;
    SliceInSlice(whole, base, base + SECTOR, start, start + take);
    SlicesJoin(whole, at, base + start, base + start + take);
  }

  lemma SliceInSlice(s: seq<Byte>, lo: nat, hi: nat, i: nat, j: nat)
    requires i <= j && lo + j <= hi <= |s|
    ensures s[lo..hi][i..j] == s[lo + i..lo + j]
  {
    var a, b := s[lo..hi][i..j], s[lo + i..lo + j];
    assert |a| == |b|;
    forall k | 0 <= k < |a|
      ensures a[k] == b[k]
    {
      assert a[k] == s[lo..hi][i + k] == s[lo + i + k];
    }
  }

  /** The chain continues, or ends, as the table says. */
  lemma NextInChain(t: seq<U16>, ch: seq<nat>, i: nat)
    requires IsChain(t, ch) && i < |ch| && |t| <= 0xFFF8
    ensures 2 <= ch[i] < 0xFFF8
    ensures if i + 1 < |ch| then t[ch[i]] == ch[i + 1] else IsEnd(t[ch[i]])
  {
    assert i + 1 < |ch| ==> Link(t, ch, i);
  }

  /** Follow the chain from its first cluster to cluster number `idx`, which it has. */
  method WalkTo(vol: Volume, first: nat, idx: nat, ghost ch: seq<nat>) returns (c: nat)
    requires vol.Valid() && IsChain(vol.Table(), ch) && Heads(first, ch) && idx < |ch|
    modifies vol`cache, vol`next
    ensures vol.Valid() && c == ch[idx]
  {
    c := first;
    for i := 0 to idx
      invariant vol.Valid() && c == ch[i]
    {
      NextInChain(vol.Table(), ch, i);
      c := vol.GetEntry(c);
    }
  }

  /** The part read from cluster `i` continues the file's bytes. */
  lemma PartOfFile(bytes: seq<seq<Byte>>, ch: seq<nat>, size: nat, i: nat, at: nat, take: nat)
    requires Sized(bytes, ch, size) && i < |ch| && at + take <= size
    ensures |FileBytes(bytes, ch)| == Span(|ch|, size) && Span(i, size) + size <= Span(|ch|, size)
    ensures FileBytes(bytes, ch)[Span(i, size) + at..Span(i, size) + at + take] == bytes[ch[i]][at..at + take]
  {
    FileCluster(bytes, ch, size, i);
    var f := FileBytes(bytes, ch);
    assert f[Span(i, size)..Span(i, size) + size][at..at + take] == f[Span(i, size) + at..Span(i, size) + at + take];
  }

  /** What the cluster loop of a read has collected when it stands at offset `at` of cluster `i`. */
  ghost predicate ReadSoFar(file: seq<Byte>, ch: seq<nat>, size: nat, pos: nat, len: nat, i: nat, at: nat, c: nat,
                            out: seq<Byte>) {
    && |out| <= len && pos + len <= |file| && out == file[pos..pos + |out|]
    && (|out| < len ==> i < |ch| && c == ch[i] && at < size && Span(i, size) + at == pos + |out|)
  }

  /** `fat16_read_file`: `len` bytes of the file from `pos`, whichever way each cluster is read. */
  method ReadFile(vol: Volume, first: nat, pos: nat, len: nat, haveBuffer: bool,
                  ghost ch: seq<nat>) returns (out: seq<Byte>)
    requires vol.Valid() && IsChain(vol.Table(), ch) && Heads(first, ch)
    requires pos + len <= Span(|ch|, ClusterSize(vol.g))
    modifies vol`cache, vol`next
    ensures vol.Valid() && vol.Table() == old(vol.Table()) && VolumeBytes(vol) == old(VolumeBytes(vol))
    ensures |old(FileBytes(VolumeBytes(vol), ch))| == Span(|ch|, ClusterSize(vol.g))
    ensures out == old(FileBytes(VolumeBytes(vol), ch))[pos..pos + len]
  {
    var size := ClusterSize(vol.g);
    ChainSized(vol, ch);
    FileLength(VolumeBytes(vol), ch, size);
    if len == 0 || first < 2 {
      return [];
    }
    SpanIndex(pos, |ch|, size);
    var c := WalkTo(vol, first, pos / size, ch);
    out := ReadOn(vol, c, pos, len, pos % size, haveBuffer, ch, pos / size);
  }

  /** The cluster loop of `fat16_read_file`, entered at the cluster holding `pos`. */
  method ReadOn(vol: Volume, start: nat, pos: nat, len: nat, offset: nat, haveBuffer: bool, ghost ch: seq<nat>,
                ghost idx: nat)
    returns (out: seq<Byte>)
    requires vol.Valid() && IsChain(vol.Table(), ch) && Sized(VolumeBytes(vol), ch, ClusterSize(vol.g)) && len > 0
    requires ReadSoFar(FileBytes(VolumeBytes(vol), ch), ch, ClusterSize(vol.g), pos, len, idx, offset, start, [])
    modifies vol`cache, vol`next
    ensures vol.Valid()
    ensures pos + len <= |FileBytes(VolumeBytes(vol), ch)|
    ensures out == FileBytes(VolumeBytes(vol), ch)[pos..pos + len]
  {
    ghost var t, bytes, size := vol.Table(), VolumeBytes(vol), ClusterSize(vol.g);
    var c: nat, at: nat := start, offset;
    var bulk := vol.g.spc <= 8 && haveBuffer;
    ghost var i: nat := idx;
    out := [];
    while |out| < len && c >= 2 && c < 0xFFF8
      invariant vol.Valid() && vol.Table() == t && VolumeBytes(vol) == bytes
      invariant ReadSoFar(FileBytes(bytes, ch), ch, size, pos, len, i, at, c, out)
      decreases len - |out|
    {
      NextInChain(t, ch, i);
      var part := ReadPart(vol, c, at, len - |out|, bulk);
      ReadStep(bytes, ch, size, pos, len, i, at, out, part);
      out, at, i := out + part, 0, i + 1;
      c := vol.GetEntry(c);
    }
    if |out| < len { NextInChain(t, ch, i); }
  }

  lemma SlicesJoin(s: seq<Byte>, i: nat, j: nat, k: nat)
    requires i <= j <= k <= |s|
    ensures s[i..j] + s[j..k] == s[i..k]
  {
  }

  lemma ReadStep(bytes: seq<seq<Byte>>, ch: seq<nat>, size: nat, pos: nat, len: nat, i: nat, at: nat, out: seq<Byte>,
                 part: seq<Byte>)
    requires Sized(bytes, ch, size) && i < |ch| && |out| < len
    requires ReadSoFar(FileBytes(bytes, ch), ch, size, pos, len, i, at, ch[i], out)
    requires var take := if size - at < len - |out| then size - at else len - |out|; part == bytes[ch[i]][at..at + take]
    ensures |part| > 0
    ensures var c := if i + 1 < |ch| then ch[i + 1] else 0;
            ReadSoFar(FileBytes(bytes, ch), ch, size, pos, len, i + 1, 0, c, out + part)
  {
    var file := FileBytes(bytes, ch);
    PartOfFile(bytes, ch, size, i, at, |part|);
    SlicesJoin(file, pos, pos + |out|, pos + |out| + |part|);
    if |out| + |part| < len {
      FileLength(bytes, ch, size);
      SpanOrder(i + 1, |ch|, size);
    }
  }

  /** What lies from `pos` on, at most `len` bytes of it. */
  function Slice(text: seq<Byte>, pos: nat, len: nat): (r: seq<Byte>)
    requires pos <= |text|
    ensures |r| == if len < |text| - pos then len else |text| - pos
  {
    if len < |text| - pos then text[pos..pos + len] else text[pos..]
  }

  lemma SliceOfPrefix(s: seq<Byte>, size: nat, pos: nat, len: nat)
    requires pos <= size <= |s|
    ensures var n := if len > size - pos then size - pos else len; Slice(s[..size], pos, len) == s[pos..pos + n]
  {
  }

  /** A read clipped to the file's size. */
  method ReadText(vol: Volume, first: nat, size: nat, pos: nat, len: nat, haveBuffer: bool,
                  ghost ch: seq<nat>) returns (out: seq<Byte>)
    requires vol.Valid() && IsChain(vol.Table(), ch) && Heads(first, ch)
    requires pos <= size <= |FileBytes(VolumeBytes(vol), ch)| == Span(|ch|, ClusterSize(vol.g))
    modifies vol`cache, vol`next
    ensures vol.Valid() && vol.Table() == old(vol.Table()) && VolumeBytes(vol) == old(VolumeBytes(vol))
    ensures out == Slice(old(FileBytes(VolumeBytes(vol), ch))[..size], pos, len)
  {
    SliceOfPrefix(FileBytes(VolumeBytes(vol), ch), size, pos, len);
    if pos >= size {
      return [];
    }
    out := ReadFile(vol, first, pos, if len > size - pos then size - pos else len, haveBuffer, ch);
  }
}
