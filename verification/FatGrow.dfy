/** Growing a file with `ftruncate`: extending its chain, and clearing what the last cluster held behind
    the old end. */
module FatGrow {
  import opened Words
  import opened Spans
  import opened FatSectors
  import opened FatVolume
  import opened FatChains
  import opened FatBytes
  import opened FatCore
  import opened FatFiles
  import opened FatView

  // ---- free clusters -----------------------------------------------------------------------------

  /** Free entries from `i` on. */
  ghost function FreeFrom(t: seq<U16>, i: nat): nat
    decreases |t| - i
  {
    if i >= |t| then 0 else (if t[i] == 0 then 1 else 0) + FreeFrom(t, i + 1)
  }

  lemma {:induction false} FullExactly(t: seq<U16>, i: nat)
    requires 2 <= i
    ensures FreeFrom(t, i) == 0 <==> forall x :: i <= x < |t| ==> t[x] != 0
    decreases |t| - i
  {
    if i < |t| { FullExactly(t, i + 1); }
  }

  /** One entry taken is one free entry less. */
  lemma {:induction false} FreeTaken(t: seq<U16>, t2: seq<U16>, n: nat, i: nat)
    requires |t2| == |t| && n < |t| && t[n] == 0 && t2[n] != 0
    requires forall x :: 0 <= x < |t| && x != n ==> (t[x] == 0 <==> t2[x] == 0)
    ensures FreeFrom(t, i) == FreeFrom(t2, i) + (if i <= n then 1 else 0)
    decreases |t| - i
  {
    if i < |t| { FreeTaken(t, t2, n, i + 1); }
  }

  lemma AppendTakes(t: seq<U16>, ch: seq<nat>, n: nat)
    requires IsChain(t, ch) && 2 <= n < |t| < 0x1_0000 && t[n] == 0 && n !in ch
    ensures FreeFrom(t, 2) == FreeFrom(Appended(t, ch, n), 2) + 1
  {
    assert ch != [] ==> IsEnd(t[ch[|ch| - 1]]);
    FreeTaken(t, Appended(t, ch, n), n, 2);
  }

  // ---- extending the chain -----------------------------------------------------------------------

  /** Chain `to` is `ch` with zeroed clusters behind it, all of them free before. */
  ghost predicate Reached(t: seq<U16>, b: seq<seq<Byte>>, t2: seq<U16>, b2: seq<seq<Byte>>, j: Job, ch: seq<nat>,
                          head: nat, to: seq<nat>, cs: nat) {
    && Linked(t2, b2, j.chains, j.loc, head, to, cs) && OthersKept(j.chains, j.loc, j.start, b2)
    && ch <= to && (forall i :: 0 <= i < |ch| ==> ch[i] < |b|)
    && FileBytes(b2, to) == FileBytes(b, ch) + Zeros(Span(|to| - |ch|, cs))
    && FreeFrom(t2, 2) + |to| == FreeFrom(t, 2) + |ch|
  }

  lemma ReachedMore(t: seq<U16>, b: seq<seq<Byte>>, t2: seq<U16>, b2: seq<seq<Byte>>, t3: seq<U16>, b3: seq<seq<Byte>>,
                    j: Job, ch: seq<nat>, head: nat, head3: nat, to: seq<nat>, cs: nat, n: nat)
    requires Reached(t, b, t2, b2, j, ch, head, to, cs) && Grown(t2, b2, t3, b3, cs, to, n) && Heads(head3, to + [n])
    ensures Reached(t, b, t3, b3, j, ch, head3, to + [n], cs)
  {
    GrowKeeps(t2, b2, t3, b3, j.chains, j.loc, head, head3, to, n, cs);
    GrowChain(t2, j.chains, j.loc, to, n);
    AppendTakes(t2, to, n);
    NotOthers(t2, j.chains, j.loc, to, n);
    OthersAfter(j.chains, j.loc, j.start, b2, n, Zeros(cs));
    MoreZeros(FileBytes(b, ch), Span(|to| - |ch|, cs), cs);
  }

  lemma MoreZeros(f: seq<Byte>, m: nat, n: nat)
    ensures (f + Zeros(m)) + Zeros(n) == f + Zeros(m + n)
  {
  }

  lemma ReachedStart(t: seq<U16>, b: seq<seq<Byte>>, j: Job, ch: seq<nat>, head: nat, cs: nat)
    requires Linked(t, b, j.chains, j.loc, head, ch, cs) && OthersKept(j.chains, j.loc, j.start, b)
    ensures Reached(t, b, t, b, j, ch, head, ch, cs)
  {
    assert FileBytes(b, ch) + Zeros(0) == FileBytes(b, ch);
  }

  /** Append one cluster to a chain being extended. */
  method AppendOne(vol: Volume, head: nat, last: nat, ghost j: Job, ghost t: seq<U16>, ghost b: seq<seq<Byte>>,
                   ghost ch: seq<nat>, ghost to: seq<nat>)
    returns (n: nat)
    requires vol.Valid() && Reached(t, b, vol.Table(), VolumeBytes(vol), j, ch, head, to, ClusterSize(vol.g))
    requires (to != [] ==> last == to[|to| - 1] >= 2) && (to == [] ==> last < 2)
    modifies vol
    ensures vol.Valid()
    ensures n == 0 ==> Full(vol.Table())
    ensures n == 0 ==> Reached(t, b, vol.Table(), VolumeBytes(vol), j, ch, head, to, ClusterSize(vol.g))
    ensures n != 0 ==> n >= 2
    ensures n != 0 ==>
              Reached(t, b, vol.Table(), VolumeBytes(vol), j, ch, if to == [] then n else head, to + [n],
                      ClusterSize(vol.g))
  {
    ghost var t2, b2 := vol.Table(), VolumeBytes(vol);
    n := AppendCluster(vol, to, last);
    if n != 0 {
      ReachedMore(t, b, t2, b2, vol.Table(), VolumeBytes(vol), j, ch, head, if to == [] then n else head, to,
                  ClusterSize(vol.g), n);
    }
  }

  /** The cluster behind cluster `i`, appended if that is the last; 0 when the volume is full. */
  method NextOrNew(vol: Volume, head: nat, c: nat, i: nat, ghost j: Job, ghost t: seq<U16>, ghost b: seq<seq<Byte>>,
                   ghost ch: seq<nat>, ghost to: seq<nat>)
    returns (next: nat, ghost to2: seq<nat>)
    requires vol.Valid() && Reached(t, b, vol.Table(), VolumeBytes(vol), j, ch, head, to, ClusterSize(vol.g))
    requires i < |to| && c == to[i]
    modifies vol
    ensures vol.Valid() && Reached(t, b, vol.Table(), VolumeBytes(vol), j, ch, head, to2, ClusterSize(vol.g))
    ensures next == 0 ==> to2 == to && i + 1 == |to| && Full(vol.Table())
    ensures next != 0 ==> i + 1 < |to2| && next == to2[i + 1] && |to2| == Max(|to|, i + 2)
  {
    to2 := to;
    NextInChain(vol.Table(), to, i);
    next := vol.GetEntry(c);
    if next >= 0xFFF8 || next < 2 {
      next := AppendOne(vol, head, c, j, t, b, ch, to);
      if next != 0 {
        to2 := to + [next];
      }
    }
  }

  /** The file's first cluster, taken if it has none; 0 when the volume is full. */
  method FirstOrNew(vol: Volume, first: nat, ghost j: Job, ghost ch: seq<nat>)
    returns (c: nat, ghost to: seq<nat>)
    requires vol.Valid() && Linked(vol.Table(), VolumeBytes(vol), j.chains, j.loc, first, ch, ClusterSize(vol.g))
    requires OthersKept(j.chains, j.loc, j.start, VolumeBytes(vol))
    modifies vol
    ensures vol.Valid()
    ensures Reached(old(vol.Table()), old(VolumeBytes(vol)), vol.Table(), VolumeBytes(vol), j, ch,
                    if c == 0 then first else c, to, ClusterSize(vol.g))
    ensures c == 0 ==> to == ch == [] && Full(vol.Table())
    ensures c != 0 ==> |to| == Max(|ch|, 1) && c == to[0]
  {
    ghost var t, b := vol.Table(), VolumeBytes(vol);
    c, to := first, ch;
    ReachedStart(t, b, j, ch, first, ClusterSize(vol.g));
    if first < 2 {
      c := AppendOne(vol, first, first, j, t, b, ch, ch);
      if c != 0 {
        to := ch + [c];
      }
    }
  }

  /** `fat16_ensure_cluster_for_index` for any index: the chain is extended cluster by cluster until it
      has that one; when the volume runs full on the way, what was appended stays. */
  method ExtendTo(vol: Volume, first: nat, idx: nat, ghost j: Job, ghost ch: seq<nat>)
    returns (c: nat, head: nat, ghost to: seq<nat>)
    requires vol.Valid() && Linked(vol.Table(), VolumeBytes(vol), j.chains, j.loc, first, ch, ClusterSize(vol.g))
    requires OthersKept(j.chains, j.loc, j.start, VolumeBytes(vol))
    modifies vol
    ensures vol.Valid()
    ensures Reached(old(vol.Table()), old(VolumeBytes(vol)), vol.Table(), VolumeBytes(vol), j, ch, head, to,
                    ClusterSize(vol.g))
    ensures c == 0 ==> |to| <= idx && Full(vol.Table())
    ensures c != 0 ==> |to| == Max(|ch|, idx + 1) && c == to[idx]
  {
    ghost var t, b := vol.Table(), VolumeBytes(vol);
    c, to := FirstOrNew(vol, first, j, ch);
    if c == 0 {
      return 0, first, to;
    }
    head := c;
    for i := 0 to idx
      invariant vol.Valid() && Reached(t, b, vol.Table(), VolumeBytes(vol), j, ch, head, to, ClusterSize(vol.g))
      invariant i < |to| == Max(|ch|, i + 1) && c == to[i]
    {
      c, to := NextOrNew(vol, head, c, i, j, t, b, ch, to);
      if c == 0 {
        return 0, head, to;
      }
    }
  }

  // ---- clearing behind the old end ---------------------------------------------------------------

  /** Sector `sec` counted from the start of cluster `c` lies in cluster `c + sec / spc`. */
  lemma SectorOwner(g: Geometry, c: nat, sec: nat)
    requires g.spc >= 1 && c >= 2
    ensures g.Lba(c) + sec == g.Lba(c + sec / g.spc) + sec % g.spc
  {
    SpanOf(sec, g.spc);
    SpanIsProduct(c - 2, g.spc);
    SpanIsProduct(sec / g.spc, g.spc);
    SpanIsProduct(c - 2 + sec / g.spc, g.spc);
    assert (c - 2 + sec / g.spc) * g.spc == (c - 2) * g.spc + sec / g.spc * g.spc;
  }

  /** `b` with `m` bytes of cluster `w` from `at` on cleared, if there is such a cluster. */
  ghost function Cleared(b: seq<seq<Byte>>, w: nat, at: nat, m: nat): (r: seq<seq<Byte>>)
    ensures |r| == |b|
  {
    if w < |b| && at + m <= |b[w]| then b[w := Overwrite(b[w], at, Zeros(m))] else b
  }

  /** Clearing a cluster that starts at `base` from `from` to `pos`, then on to `stop`. */
  lemma ClearedMore(b: seq<seq<Byte>>, w: nat, base: nat, from: nat, pos: nat, stop: nat)
    requires base <= from <= pos <= stop && (w < |b| ==> stop - base <= |b[w]|)
    ensures Cleared(Cleared(b, w, from - base, pos - from), w, pos - base, stop - pos) ==
            Cleared(b, w, from - base, stop - from)
  {
    if w < |b| { OverwriteTwice(b[w], from - base, pos - from, stop - pos); }
  }

  lemma OverwriteTwice(s: seq<Byte>, at: nat, m: nat, n: nat)
    requires at + m + n <= |s|
    ensures Overwrite(Overwrite(s, at, Zeros(m)), at + m, Zeros(n)) == Overwrite(s, at, Zeros(m + n))
  {
  }

  /** The cluster of a file position, and the offset in it, from the position's sector. */
  lemma StalePlace(pos: nat, k: nat, spc: nat)
    requires spc >= 1 && Span(k, 512 * spc) <= pos < Span(k, 512 * spc) + 512 * spc
    ensures pos / 512 / spc == k && pos / 512 % spc * 512 + pos % 512 == pos - Span(k, 512 * spc)
  {
    SpanIsProduct(k, 512 * spc);
    SpanIsProduct(k, spc);
    var rest := pos - Span(k, 512 * spc);
    assert k * (512 * spc) == 512 * (k * spc);
    assert pos / 512 == k * spc + rest / 512 && pos % 512 == rest % 512;
    SpanOf(pos / 512, spc);
    SpanUnique(pos / 512 / spc, pos / 512 % spc, k, rest / 512, spc);
  }

  /** How far the sector of `pos` reaches below `end`. */
  function StopAt(pos: nat, end: nat): (stop: nat)
    requires pos < end
    ensures pos < stop <= end && stop <= pos / 512 * 512 + 512 && (stop == end || stop % 512 == 0)
  {
    if pos / 512 * 512 + 512 > end then end else pos / 512 * 512 + 512
  }

  /** The clearing loop.  It takes sectors by their number in the file, but counts them from the start of
      the file's last cluster, cluster `k` of the file.  What lies beyond the last cluster of the volume is not
      part of the volume. */
  method ClearStale(vol: Volume, last: nat, from: nat, end: nat, ghost k: nat, ghost base: nat)
    requires vol.Valid() && 2 <= last && base == Span(k, ClusterSize(vol.g))
    requires base <= from < end <= base + ClusterSize(vol.g)
    modifies vol`disk
    ensures vol.Valid() && vol.Table() == old(vol.Table())
    ensures VolumeBytes(vol) == Cleared(old(VolumeBytes(vol)), last + k, from - base, end - from)
  {
    ghost var b, w := VolumeBytes(vol), last + k;
    var pos := from;
    if w < |b| { ClustersSized(vol, w); }
    ClearedNothing(b, w, from - base);
    while pos < end
      invariant from <= pos <= end && vol.Valid() && vol.Table() == old(vol.Table())
      invariant VolumeBytes(vol) == Cleared(b, w, from - base, pos - from)
    {
      var stop := StopAt(pos, end);
      ClearSector(vol, last, pos, stop, k, base);
      ClearedMore(b, w, base, from, pos, stop);
      pos := stop;
    }
  }

  /** One turn of it: read, clear and write the sector. */
  method ClearSector(vol: Volume, last: nat, pos: nat, stop: nat, ghost k: nat, ghost base: nat)
    requires vol.Valid() && 2 <= last && pos < stop <= pos / 512 * 512 + 512
    requires base == Span(k, ClusterSize(vol.g)) && base <= pos && stop <= base + ClusterSize(vol.g)
    modifies vol`disk
    ensures vol.Valid() && vol.Table() == old(vol.Table())
    ensures VolumeBytes(vol) == Cleared(old(VolumeBytes(vol)), last + k, pos - base, stop - pos)
  {
    var sec := pos / 512;
    StalePlace(pos, k, vol.g.spc);
    var c, at := last + sec / vol.g.spc, sec % vol.g.spc * 512 + pos % 512;
    assert vol.g.Lba(last) + sec == vol.g.Lba(c) + sec % vol.g.spc by { SectorOwner(vol.g, last, sec); }
    if c < vol.g.clusters + 2 {
      InSector(pos, at, stop - pos, sec % vol.g.spc);
      PutBytes(vol, c, at, Zeros(stop - pos));
    }
  }

  lemma InSector(pos: nat, at: nat, m: nat, s: nat)
    requires at == s * 512 + pos % 512 && pos % 512 + m <= 512
    ensures at % 512 + m <= 512
  {
  }

  lemma ClearedNothing(b: seq<seq<Byte>>, w: nat, at: nat)
    ensures Cleared(b, w, at, 0) == b
  {
    if w < |b| && at <= |b[w]| { assert Overwrite(b[w], at, Zeros(0)) == b[w]; }
  }

  // ---- the whole operation -------------------------------------------------------------------------

  /** The number of clusters as computed: the sum is unsigned, and 0 counts as 1. */
  function NeedOf(length: Addr32, cs: nat): (n: nat)
    requires cs > 0
    ensures n > 0
  {
    var n := U32(length + cs - 1) / cs;
    if n == 0 then 1 else n
  }

  /** It is the number the length calls for exactly when the sum does not wrap. */
  lemma NeedExact(length: Addr32, cs: nat)
    requires 0 < cs < 0x8000_0000 && length > 0
    ensures length <= Span(NeedOf(length, cs), cs) && Span(NeedOf(length, cs) - 1, cs) < length <==>
            length + cs - 1 < TWO32
    ensures length + cs - 1 >= TWO32 ==> NeedOf(length, cs) == 1
  {
    var n := NeedOf(length, cs);
    if length + cs - 1 < TWO32 {
      assert U32(length + cs - 1) == length + cs - 1;
      SpanOf(length + cs - 1, cs);
      assert length >= 1;
      DivAtLeast(length + cs - 1, cs, 1);
    } else {
      assert U32(length + cs - 1) == length + cs - 1 - TWO32 < cs;
      SmallQuotient(U32(length + cs - 1), cs);
    }
  }

  /** The largest length asks for one cluster. */
  lemma NeedWraps(cs: nat)
    requires 2 <= cs < 0x8000_0000
    ensures NeedOf(0xFFFF_FFFF, cs) == 1 && Span(1, cs) < 0xFFFF_FFFF
  {
    NeedExact(0xFFFF_FFFF, cs);
    assert Span(1, cs) == cs;
  }

  lemma SmallQuotient(x: nat, cs: nat)
    requires x < cs
    ensures x / cs == 0
  {
    SpanOf(x, cs);
    SpanUnique(x / cs, x % cs, 0, x, cs);
  }

  /** Where the clearing stops: the end of the last cluster, which is computed unsigned, or the new end. */
  function ClearEnd(n: nat, length: Addr32, cs: nat): (end: nat)
    ensures end <= length && end <= Span(n, cs)
  {
    if U32(Span(n, cs)) < length then U32(Span(n, cs)) else length
  }

  lemma ClearEndExact(n: nat, size: nat, length: Addr32, cs: nat)
    requires n > 0 && Span(n - 1, cs) < size < length && length + cs - 1 < TWO32
    ensures ClearEnd(n, length, cs) == if Span(n, cs) < length then Span(n, cs) else length
  {
  }

  /** The bytes after the clearing, for a file that had `n` clusters: cleared is what lies behind the old end, but in
      the cluster whose number is the last cluster's plus its index in the file. */
  ghost function AfterClearing(b: seq<seq<Byte>>, to: seq<nat>, n: nat, size: nat, length: Addr32, cs: nat)
    : (r: seq<seq<Byte>>)
    requires n <= |to| && (n > 0 ==> Span(n - 1, cs) < size)
    ensures |r| == |b|
  {
    var end := ClearEnd(n, length, cs);
    if n == 0 || end <= size then b else Cleared(b, to[n - 1] + (n - 1), size - Span(n - 1, cs), end - size)
  }

  /** The last byte of a file lies in its last cluster. */
  lemma LastIndex(size: nat, ch: seq<nat>, cs: nat)
    requires size > 0 && cs > 0 && Tight(size, ch, cs)
    ensures ch != [] && (size - 1) / cs == |ch| - 1
  {
    SpanOf(size - 1, cs);
    SpanUnique((size - 1) / cs, (size - 1) % cs, |ch| - 1, size - 1 - Span(|ch| - 1, cs), cs);
  }

  /** The growing half of `fat16_vfs_ftruncate`, up to the recording of the new size. */
  method Grow(vol: Volume, first: nat, size: nat, length: Addr32, ghost j: Job, ghost ch: seq<nat>)
    returns (ok: bool, head: nat, ghost to: seq<nat>, ghost b1: seq<seq<Byte>>)
    requires vol.Valid() && Linked(vol.Table(), VolumeBytes(vol), j.chains, j.loc, first, ch, ClusterSize(vol.g))
    requires OthersKept(j.chains, j.loc, j.start, VolumeBytes(vol)) 
    requires Tight(size, ch, ClusterSize(vol.g)) && size < length
    modifies vol
    ensures vol.Valid()
    ensures Reached(old(vol.Table()), old(VolumeBytes(vol)), vol.Table(), b1, j, ch, head, to, ClusterSize(vol.g))
    ensures !ok ==> |to| < NeedOf(length, ClusterSize(vol.g)) && Full(vol.Table()) && VolumeBytes(vol) == b1
    ensures ok <==> NeedOf(length, ClusterSize(vol.g)) <= |ch| + FreeFrom(old(vol.Table()), 2)
    ensures ok ==> |to| == Max(|ch|, NeedOf(length, ClusterSize(vol.g)))
    ensures ok ==> VolumeBytes(vol) == AfterClearing(b1, to, |ch|, size, length, ClusterSize(vol.g))
  {
    var cs := ClusterSize(vol.g);
    var c;
    c, head, to := ExtendTo(vol, first, NeedOf(length, cs) - 1, j, ch);
    b1 := VolumeBytes(vol);
    ok := c != 0;
    FullExactly(vol.Table(), 2);
    if ok && size > 0 {
      LastIndex(size, ch, cs);
      ClearBehind(vol, head, size, length, cs, ch, to);
    }
  }

  method ClearBehind(vol: Volume, head: nat, size: nat, length: Addr32, cs: nat, ghost ch: seq<nat>, ghost to: seq<nat>)
    requires vol.Valid() && IsChain(vol.Table(), to) && Heads(head, to) && ch <= to && cs == ClusterSize(vol.g) > 0
    requires 0 < size < length && Tight(size, ch, cs)
    modifies vol
    ensures vol.Valid() && vol.Table() == old(vol.Table())
    ensures VolumeBytes(vol) == AfterClearing(old(VolumeBytes(vol)), to, |ch|, size, length, cs)
  {
    LastIndex(size, ch, cs);
    var idx := (size - 1) / cs;
    var end := ClearEnd(idx + 1, length, cs);
    if size < end {
      var last := WalkTo(vol, head, idx, to);
      ClearStale(vol, last, size, end, idx, Span(idx, cs));
    }
  }

  // ---- when the new bytes are zero -----------------------------------------------------------------

  /** The clearing hits, or has nothing to clear: the file ends in its first cluster, or with a cluster. */
  predicate ClearsRight(size: nat, cs: nat)
    requires cs > 0
  {
    size <= cs || size % cs == 0
  }

  /** The same in clusters. */
  lemma ClearsRightExactly(size: nat, ch: seq<nat>, cs: nat)
    requires cs > 0 && Tight(size, ch, cs)
    ensures ClearsRight(size, cs) <==> |ch| <= 1 || size == Span(|ch|, cs)
  {
    var n := |ch|;
    SpanOf(size, cs);
    assert Span(1, cs) == cs;
    if n >= 2 {
      SpanAtMost(1, n - 1, cs);
      if size == Span(n, cs) { SpanUnique(size / cs, size % cs, n, 0, cs); }
      if size % cs == 0 { WholeClusters(size, size / cs, n, cs); }
    }
  }

  lemma WholeClusters(size: nat, q: nat, n: nat, cs: nat)
    requires n > 0 && size == Span(q, cs) && Span(n - 1, cs) < size <= Span(n, cs)
    ensures q == n
  {
    SpanOrder(n - 1, q, cs);
    if q > n { SpanAtMost(n, q, cs); }
    if q > n && cs > 0 { SpanBelow(n, q, cs); }
  }

  /** A chain and its clusters' bytes, `b` before it was extended and `b1` after. */
  ghost predicate Extended(b: seq<seq<Byte>>, b1: seq<seq<Byte>>, ch: seq<nat>, to: seq<nat>, cs: nat) {
    && cs > 0 && Sized(b, ch, cs) && Sized(b1, to, cs) && Distinct(to) && ch <= to
    && FileBytes(b1, to) == FileBytes(b, ch) + Zeros(Span(|to| - |ch|, cs))
  }

  /** The file of `to` is that of `ch`, cut at `size`, with zeros up to `length`. */
  ghost predicate ZerosFollow(b: seq<seq<Byte>>, b2: seq<seq<Byte>>, ch: seq<nat>, to: seq<nat>, size: nat, length: nat,
                              cs: nat) {
    && Sized(b, ch, cs) && Sized(b2, to, cs) && size <= |FileBytes(b, ch)| && size <= length <= |FileBytes(b2, to)|
    && FileBytes(b2, to)[..length] == FileBytes(b, ch)[..size] + Zeros(length - size)
  }

  lemma FullFollows(b: seq<seq<Byte>>, b1: seq<seq<Byte>>, ch: seq<nat>, to: seq<nat>, length: nat, cs: nat)
    requires Extended(b, b1, ch, to, cs) && Span(|ch|, cs) <= length <= Span(|to|, cs)
    ensures ZerosFollow(b, b1, ch, to, Span(|ch|, cs), length, cs)
  {
    FileLength(b, ch, cs);
    FileLength(b1, to, cs);
    ZerosAppended(FileBytes(b, ch), FileBytes(b1, to), length);
  }

  lemma FirstFollows(b: seq<seq<Byte>>, b1: seq<seq<Byte>>, ch: seq<nat>, to: seq<nat>, size: nat, length: nat, cs: nat,
                     end: nat)
    requires Extended(b, b1, ch, to, cs) && |ch| == 1 && size <= end <= cs && length <= Span(|to|, cs)
    requires end == if cs < length then cs else length
    ensures ZerosFollow(b, Cleared(b1, to[0], size, end - size), ch, to, size, length, cs)
  {
    FileLength(b, ch, cs);
    assert Span(1, cs) == cs && Span(0, cs) == 0;
    ChainOverwrite(b1, to, cs, 0, size, Zeros(end - size));
    ZerosBehind(FileBytes(b, ch), FileBytes(b1, to), size, end, length);
  }

  lemma ZerosAppended(f: seq<Byte>, g: seq<Byte>, length: nat)
    requires |f| <= length <= |g| && g == f + Zeros(|g| - |f|)
    ensures g[..length] == f + Zeros(length - |f|) && f[..|f|] == f
  {
  }

  lemma ZerosBehind(f: seq<Byte>, g: seq<Byte>, size: nat, end: nat, length: nat)
    requires |f| <= |g| && g == f + Zeros(|g| - |f|) && size <= end <= length <= |g| && end <= |f|
    requires end == |f| || end == length
    ensures Overwrite(g, size, Zeros(end - size))[..length] == f[..size] + Zeros(length - size)
  {
  }

  /** Nothing is cleared behind a file that fills its clusters. */
  lemma FullUncleared(b1: seq<seq<Byte>>, to: seq<nat>, n: nat, length: Addr32, cs: nat)
    requires n <= |to| && cs > 0 && (n > 0 ==> Span(n - 1, cs) < Span(n, cs))
    ensures AfterClearing(b1, to, n, Span(n, cs), length, cs) == b1
  {
  }

  lemma FirstCleared(b1: seq<seq<Byte>>, to: seq<nat>, size: nat, length: Addr32, cs: nat, end: nat)
    requires to != [] && 0 < size < cs && size < length && length + cs - 1 < TWO32
    requires end == if cs < length then cs else length
    ensures AfterClearing(b1, to, 1, size, length, cs) == Cleared(b1, to[0], size, end - size)
  {
    assert Span(1, cs) == cs && Span(0, cs) == 0;
    ClearEndExact(1, size, length, cs);
  }

  /** What the clearing is for. */
  lemma RightFollows(b: seq<seq<Byte>>, b1: seq<seq<Byte>>, ch: seq<nat>, to: seq<nat>, size: nat, length: Addr32,
                     cs: nat)
    requires Extended(b, b1, ch, to, cs) && Tight(size, ch, cs) && size < length <= Span(|to|, cs)
    requires length + cs - 1 < TWO32 && ClearsRight(size, cs)
    ensures ZerosFollow(b, AfterClearing(b1, to, |ch|, size, length, cs), ch, to, size, length, cs)
  {
    ClearsRightExactly(size, ch, cs);
    if size == Span(|ch|, cs) {
      FullFollows(b, b1, ch, to, length, cs);
      FullUncleared(b1, to, |ch|, length, cs);
    } else {
      OneCluster(size, ch, cs);
      var end := if cs < length then cs else length;
      FirstFollows(b, b1, ch, to, size, length, cs, end);
      FirstCleared(b1, to, size, length, cs, end);
    }
  }

  lemma OneCluster(size: nat, ch: seq<nat>, cs: nat)
    requires Tight(size, ch, cs) && |ch| <= 1 && size != Span(|ch|, cs)
    ensures |ch| == 1 && 0 < size < cs
  {
    assert Span(1, cs) == cs && Span(0, cs) == 0;
  }

  /** Otherwise the byte behind the old end stays. */
  lemma StaleStays(b: seq<seq<Byte>>, b1: seq<seq<Byte>>, ch: seq<nat>, to: seq<nat>, size: nat, length: Addr32,
                   cs: nat)
    requires Extended(b, b1, ch, to, cs) && |ch| >= 2 && Span(|ch| - 1, cs) < size < Span(|ch|, cs)
    ensures var b2 := AfterClearing(b1, to, |ch|, size, length, cs);
            && Sized(b2, to, cs) && size < |FileBytes(b, ch)| && size < |FileBytes(b2, to)|
            && FileBytes(b2, to)[size] == FileBytes(b, ch)[size]
  {
    var b2, n := AfterClearing(b1, to, |ch|, size, length, cs), |ch|;
    FileLength(b, ch, cs);
    ByteOf(b1, to, cs, n - 1, size);
    ByteOf(b2, to, cs, n - 1, size);
  }

  lemma ByteOf(b: seq<seq<Byte>>, ch: seq<nat>, cs: nat, i: nat, p: nat)
    requires Sized(b, ch, cs) && i < |ch| && Span(i, cs) <= p < Span(i, cs) + cs
    ensures p < |FileBytes(b, ch)| && FileBytes(b, ch)[p] == b[ch[i]][p - Span(i, cs)]
  {
    FileCluster(b, ch, cs, i);
    assert FileBytes(b, ch)[p] == FileBytes(b, ch)[Span(i, cs)..Span(i, cs) + cs][p - Span(i, cs)];
  }

  /** A file that has a byte other than zero behind its end grows by zeros exactly when it ends in its first
      cluster or with a cluster. */
  lemma GrowthExact(b: seq<seq<Byte>>, b1: seq<seq<Byte>>, ch: seq<nat>, to: seq<nat>, size: nat, length: Addr32,
                    cs: nat)
    requires Extended(b, b1, ch, to, cs) && Tight(size, ch, cs) && size < length <= Span(|to|, cs)
    requires length + cs - 1 < TWO32 && (size < |FileBytes(b, ch)| ==> FileBytes(b, ch)[size] != 0)
    ensures ZerosFollow(b, AfterClearing(b1, to, |ch|, size, length, cs), ch, to, size, length, cs) <==>
            ClearsRight(size, cs)
  {
    ClearsRightExactly(size, ch, cs);
    if ClearsRight(size, cs) {
      RightFollows(b, b1, ch, to, size, length, cs);
    } else {
      WrongStays(b, b1, ch, to, size, length, cs);
    }
  }

  lemma WrongStays(b: seq<seq<Byte>>, b1: seq<seq<Byte>>, ch: seq<nat>, to: seq<nat>, size: nat, length: Addr32,
                   cs: nat)
    requires Extended(b, b1, ch, to, cs) && |ch| >= 2 && Span(|ch| - 1, cs) < size < Span(|ch|, cs) && size < length
    requires size < |FileBytes(b, ch)| ==> FileBytes(b, ch)[size] != 0
    ensures !ZerosFollow(b, AfterClearing(b1, to, |ch|, size, length, cs), ch, to, size, length, cs)
  {
    StaleStays(b, b1, ch, to, size, length, cs);
    NotZero(b, AfterClearing(b1, to, |ch|, size, length, cs), ch, to, size, length, cs);
  }

  lemma NotZero(b: seq<seq<Byte>>, b2: seq<seq<Byte>>, ch: seq<nat>, to: seq<nat>, size: nat, length: nat, cs: nat)
    requires Sized(b, ch, cs) && Sized(b2, to, cs) && size < |FileBytes(b2, to)| && FileBytes(b2, to)[size] != 0
    requires size < length
    ensures !ZerosFollow(b, b2, ch, to, size, length, cs)
  {
    if length <= |FileBytes(b2, to)| && size <= |FileBytes(b, ch)| {
      assert FileBytes(b2, to)[..length][size] != 0;
      assert (FileBytes(b, ch)[..size] + Zeros(length - size))[size] == 0;
    }
  }

  /** The extended chain is as long as the new size calls for. */
  lemma ReachedTight(size: nat, length: Addr32, ch: seq<nat>, to: seq<nat>, cs: nat)
    requires 0 < cs < 0x8000_0000 && Tight(size, ch, cs) && size < length && length + cs - 1 < TWO32
    requires |to| == Max(|ch|, NeedOf(length, cs))
    ensures Tight(length, to, cs)
  {
    NeedExact(length, cs);
    if ch != [] { SpanOrder(|ch| - 1, NeedOf(length, cs), cs); }
  }

  lemma ReachedExtended(t: seq<U16>, b: seq<seq<Byte>>, t2: seq<U16>, b1: seq<seq<Byte>>, j: Job, ch: seq<nat>,
                        head: nat, to: seq<nat>, cs: nat)
    requires Reached(t, b, t2, b1, j, ch, head, to, cs) && Sized(b, ch, cs)
    ensures Extended(b, b1, ch, to, cs)
  {
  }

  /** A clearing that hits touches no other file. */
  lemma RightKeepsOthers(t: seq<U16>, b: seq<seq<Byte>>, t2: seq<U16>, b1: seq<seq<Byte>>, j: Job, ch: seq<nat>,
                         head: nat, to: seq<nat>, size: nat, length: Addr32, cs: nat)
    requires Reached(t, b, t2, b1, j, ch, head, to, cs) && Tight(size, ch, cs) && ClearsRight(size, cs)
    ensures OthersKept(j.chains, j.loc, j.start, AfterClearing(b1, to, |ch|, size, length, cs))
  {
    ClearsRightExactly(size, ch, cs);
    if |ch| == 1 {
      NotOthers(t2, j.chains, j.loc, to, to[0]);
      var end := ClearEnd(1, length, cs);
      if size <= end && end - Span(0, cs) <= |b1[to[0]]| {
        OthersAfter(j.chains, j.loc, j.start, b1, to[0], Overwrite(b1[to[0]], size, Zeros(end - size)));
      }
    }
  }

  /** With the condition met, growing a file appends zeros to it and changes no other file. */
  lemma GrownView(t: seq<U16>, b: seq<seq<Byte>>, t2: seq<U16>, b1: seq<seq<Byte>>, j: Job, ch: seq<nat>, head: nat,
                  to: seq<nat>, size: nat, length: Addr32, cs: nat, dir: map<Loc, Dirent>, e: Dirent)
    requires Reached(t, b, t2, b1, j, ch, head, to, cs) && |to| == Max(|ch|, NeedOf(length, cs)) && cs < 0x8000_0000
    requires Tight(size, ch, cs) && Sized(b, ch, cs) && j.start == b && size < length
    requires dir.Keys == j.chains.Keys && j.loc in dir && j.chains[j.loc] == ch && dir[j.loc].size == size
    requires e.size == length && length + cs - 1 < TWO32 && ClearsRight(size, cs)
    ensures Tight(length, to, cs) && Owns(t2, j.chains[j.loc := to]) && Heads(head, to)
    ensures dir[j.loc := e].Keys == j.chains[j.loc := to].Keys
    ensures View(AfterClearing(b1, to, |ch|, size, length, cs), j.chains[j.loc := to], dir[j.loc := e]) ==
            var files := View(b, j.chains, dir); files[j.loc := files[j.loc] + Zeros(length - size)]
  {
    var b2, files := AfterClearing(b1, to, |ch|, size, length, cs), View(b, j.chains, dir);
    ReachedTight(size, length, ch, to, cs);
    ReachedExtended(t, b, t2, b1, j, ch, head, to, cs);
    RightFollows(b, b1, ch, to, size, length, cs);
    RightKeepsOthers(t, b, t2, b1, j, ch, head, to, size, length, cs);
    FollowsText(b, b2, ch, to, size, length, cs);
    ViewUpdate(b, b2, j.chains, dir, j.loc, to, e, j.chains[j.loc := to], dir[j.loc := e], files, Text(b2, to, length));
  }

  lemma FollowsText(b: seq<seq<Byte>>, b2: seq<seq<Byte>>, ch: seq<nat>, to: seq<nat>, size: nat, length: nat, cs: nat)
    requires ZerosFollow(b, b2, ch, to, size, length, cs)
    ensures Text(b2, to, length) == Text(b, ch, size) + Zeros(length - size)
  {
  }

  /** A file in clusters 2 and 3, the cluster behind it another file's: growing the first by a byte inside its last
      cluster clears a byte of the other. */
  lemma ClearsNeighbour(b: seq<seq<Byte>>, cs: nat)
    requires 2 <= cs && |b| == 5 && cs + cs < TWO32 && forall i :: 2 <= i < 5 ==> |b[i]| == cs
    ensures var b2 := AfterClearing(b, [2, 3], 2, cs + 1, cs + 2, cs); b2[2] == b[2] && b2[3] == b[3] && b2[4][1] == 0
  {
    assert Span(1, cs) == cs && Span(2, cs) == cs + cs;
  }
}
