/** Extending, writing and cutting one file's chain. */
module FatFiles {
  import opened Words
  import opened Spans
  import opened FatSectors
  import opened FatVolume
  import opened FatChains
  import opened FatBytes
  import opened FatCore

  /** No cluster is free. */
  ghost predicate Full(t: seq<U16>) { forall x :: 2 <= x < |t| ==> t[x] != 0 }

  /** The clusters of `ch` hold the same bytes in both. */
  ghost predicate Untouched(a: seq<seq<Byte>>, b: seq<seq<Byte>>, ch: seq<nat>) {
    |a| == |b| && forall i :: 0 <= i < |ch| ==> ch[i] < |a| && a[ch[i]] == b[ch[i]]
  }

  /** No chain but `loc`'s has been written to. */
  ghost predicate OthersKept(chains: map<Loc, seq<nat>>, loc: Loc, a: seq<seq<Byte>>, b: seq<seq<Byte>>) {
    forall l :: l in chains && l != loc ==> Untouched(a, b, chains[l])
  }

  /** Take a free cluster and link it behind `ch`. */
  method AppendCluster(vol: Volume, ghost ch: seq<nat>, last: nat) returns (n: nat)
    requires vol.Valid() && IsChain(vol.Table(), ch) && (ch != [] ==> last == ch[|ch| - 1])
    requires ch == [] <==> last < 2
    modifies vol
    ensures vol.Valid()
    ensures n == 0 ==> vol.Table() == old(vol.Table()) && VolumeBytes(vol) == old(VolumeBytes(vol)) && Full(vol.Table())
    ensures n != 0 ==>
              && 2 <= n < |old(vol.Table())| && old(vol.Table())[n] == 0
              && vol.Table() == Appended(old(vol.Table()), ch, n)
              && VolumeBytes(vol) == old(VolumeBytes(vol))[n := Zeros(ClusterSize(vol.g))]
  {
    n := AllocCluster(vol);
    if n != 0 && last >= 2 {
      vol.SetEntry(last, n);
      vol.SetEntry(n, EOC);
    }
  }

  /** Table and bytes after cluster `n`, free before, has been linked behind `ch`, zeroed. */
  ghost predicate Grown(t: seq<U16>, b: seq<seq<Byte>>, t2: seq<U16>, b2: seq<seq<Byte>>, size: nat, ch: seq<nat>,
                        n: nat) {
    && IsChain(t, ch) && 2 <= n < |t| < 0x1_0000 && t[n] == 0 && n < |b|
    && t2 == Appended(t, ch, n) && b2 == b[n := Zeros(size)]
  }

  /** `fat16_ensure_cluster_for_index`, for an index at most one past the chain: the cluster with
      that index, appended if need be; 0, and nothing changed, when the volume is full. */
  method EnsureCluster(vol: Volume, first: nat, idx: nat, ghost ch: seq<nat>) returns (c: nat, head: nat,
                                                                                       ghost to: seq<nat>)
    requires vol.Valid() && IsChain(vol.Table(), ch) && Heads(first, ch) && idx <= |ch|
    modifies vol
    ensures vol.Valid()
    ensures c == 0 || idx < |ch| ==>
              vol.Table() == old(vol.Table()) && VolumeBytes(vol) == old(VolumeBytes(vol)) && head == first && to == ch
    ensures c == 0 ==> idx == |ch| && Full(vol.Table())
    ensures c != 0 ==> Heads(head, to) && idx < |to| && c == to[idx]
    ensures c != 0 && idx == |ch| ==>
              && to == ch + [c]
              && Grown(old(vol.Table()), old(VolumeBytes(vol)), vol.Table(), VolumeBytes(vol),
                       ClusterSize(vol.g), ch, c)
  {
    head, to := first, ch;
    ghost var t, b, size := vol.Table(), VolumeBytes(vol), ClusterSize(vol.g);
    if first < 2 {
      var n := AppendCluster(vol, ch, first);
      if n == 0 {
        return 0, first, ch;
      }
      return n, n, [n];
    }
    c := head;
    for i := 0 to idx
      invariant vol.Valid() && 2 <= c
      invariant i < |ch| ==> vol.Table() == t && VolumeBytes(vol) == b && to == ch && c == ch[i]
      invariant i == |ch| ==> to == ch + [c] && Grown(t, b, vol.Table(), VolumeBytes(vol), size, ch, c)
    {
      NextInChain(t, ch, i);
      var next: nat := vol.GetEntry(c);
      if next >= 0xFFF8 || next < 2 {
        next := AppendCluster(vol, ch, c);
        if next == 0 {
          return 0, first, ch;
        }
        to := ch + [next];
      }
      c := next;
    }
  }

  // ---- writing ---------------------------------------------------------------------------------

  function Max(a: nat, b: nat): nat { if a < b then b else a }

  /** A byte sequence after `data` has been written at `pos`, growing it if need be. */
  function WriteSpec(s: seq<Byte>, pos: nat, data: seq<Byte>): (r: seq<Byte>)
    requires pos <= |s|
    ensures |r| == Max(|s|, pos + |data|)
  {
    s[..pos] + data + (if pos + |data| < |s| then s[pos + |data|..] else [])
  }

  /** Writing twice in a row is writing the concatenation. */
  lemma WriteSpecStep(s: seq<Byte>, pos: nat, data: seq<Byte>, chunk: seq<Byte>, f: seq<Byte>)
    requires pos <= |s| && WriteSpec(s, pos, data) <= f && pos + |data| + |chunk| <= |f|
    ensures WriteSpec(s, pos, data + chunk) <= Overwrite(f, pos + |data|, chunk)
  {
    var w, o := WriteSpec(s, pos, data + chunk), Overwrite(f, pos + |data|, chunk);
    assert forall i :: 0 <= i < |WriteSpec(s, pos, data)| ==> WriteSpec(s, pos, data)[i] == f[i];
    forall i | 0 <= i < |w|
      ensures w[i] == o[i]
    {
    }
    assert o[..|w|] == w;
  }

  /** A file has exactly the clusters its size calls for. */
  ghost predicate Tight(size: nat, ch: seq<nat>, cs: nat) {
    size <= Span(|ch|, cs) && (ch != [] ==> Span(|ch| - 1, cs) < size)
  }

  /** Chain `ch` of `loc` in the current table and clusters. */
  ghost predicate Linked(t: seq<U16>, b: seq<seq<Byte>>, chains: map<Loc, seq<nat>>, loc: Loc, head: nat, ch: seq<nat>,
                         cs: nat) {
    && Owns(t, chains[loc := ch]) && IsChain(t, ch) && Heads(head, ch)
    && |b| == |t| < 0x1_0000 && Sized(b, ch, cs) && cs > 0
  }

  /** The file of chain `ch` is `was` with `data` written at `pos`. */
  ghost predicate Holds(b: seq<seq<Byte>>, ch: seq<nat>, was: seq<Byte>, pos: nat, data: seq<Byte>)
    requires forall i :: 0 <= i < |ch| ==> ch[i] < |b|
  {
    pos <= |was| && WriteSpec(was, pos, data) <= FileBytes(b, ch)
  }

  lemma OthersAfter(chains: map<Loc, seq<nat>>, loc: Loc, a: seq<seq<Byte>>, b: seq<seq<Byte>>, c: nat, cl: seq<Byte>)
    requires OthersKept(chains, loc, a, b) && c < |b| && forall l :: l in chains && l != loc ==> c !in chains[l]
    ensures OthersKept(chains, loc, a, b[c := cl])
  {
    forall l | l in chains && l != loc
      ensures Untouched(a, b[c := cl], chains[l])
    {
      assert Untouched(a, b, chains[l]);
    }
  }

  /** A cluster of this chain, or a free one, is in no other chain. */
  lemma NotOthers(t: seq<U16>, chains: map<Loc, seq<nat>>, loc: Loc, ch: seq<nat>, c: nat)
    requires Owns(t, chains[loc := ch]) && 2 <= c < |t| && (c in ch || t[c] == 0)
    ensures forall l :: l in chains && l != loc ==> c !in chains[l]
  {
    var all := chains[loc := ch];
    forall l | l in chains && l != loc
      ensures c !in chains[l]
    {
      assert l in all && all[l] == chains[l] && loc in all;
      if c in ch {
        assert Apart(all[l], all[loc]);
      } else {
        UnownedFree(t, all, c);
      }
    }
  }

  lemma GrowOwns(t: seq<U16>, chains: map<Loc, seq<nat>>, loc: Loc, ch: seq<nat>, n: nat)
    requires Owns(t, chains[loc := ch]) && IsChain(t, ch) && 2 <= n < |t| < 0x1_0000 && t[n] == 0
    ensures Owns(Appended(t, ch, n), chains[loc := ch + [n]])
  {
    OwnsAppend(t, chains[loc := ch], loc, n);
    assert chains[loc := ch][loc := ch + [n]] == chains[loc := ch + [n]];
  }

  lemma GrowChain(t: seq<U16>, chains: map<Loc, seq<nat>>, loc: Loc, ch: seq<nat>, n: nat)
    requires Owns(t, chains[loc := ch]) && IsChain(t, ch) && 2 <= n < |t| < 0x1_0000 && t[n] == 0
    ensures n !in ch && IsChain(Appended(t, ch, n), ch + [n])
  {
    UnownedFree(t, chains[loc := ch], n);
    assert chains[loc := ch][loc] == ch;
    ChainAppends(t, ch, n);
  }

  lemma GrowBytes(b: seq<seq<Byte>>, ch: seq<nat>, n: nat, cs: nat)
    requires Sized(b, ch, cs) && n < |b| && n !in ch
    ensures Sized(b[n := Zeros(cs)], ch + [n], cs)
    ensures FileBytes(b[n := Zeros(cs)], ch + [n]) == FileBytes(b, ch) + Zeros(cs)
  {
    var b2 := b[n := Zeros(cs)];
    FileConcat(b2, ch, [n]);
    FileSame(b, b2, ch);
    assert FileBytes(b2, [n]) == b2[n];
  }

  /** Appending a zeroed cluster keeps the picture and leaves the file a prefix of what it is now. */
  lemma GrowKeeps(t: seq<U16>, b: seq<seq<Byte>>, t2: seq<U16>, b2: seq<seq<Byte>>, chains: map<Loc, seq<nat>>,
                  loc: Loc, head: nat, head2: nat, ch: seq<nat>, n: nat, cs: nat)
    requires Linked(t, b, chains, loc, head, ch, cs) && Grown(t, b, t2, b2, cs, ch, n) && Heads(head2, ch + [n])
    ensures Linked(t2, b2, chains, loc, head2, ch + [n], cs)
    ensures FileBytes(b2, ch + [n]) == FileBytes(b, ch) + Zeros(cs)
  {
    GrowOwns(t, chains, loc, ch, n);
    GrowChain(t, chains, loc, ch, n);
    GrowBytes(b, ch, n, cs);
  }

  /** Between two rounds of the write loop: `data` is in the file. */
  ghost predicate Written(t: seq<U16>, b: seq<seq<Byte>>, chains: map<Loc, seq<nat>>, loc: Loc, head: nat,
                          ch: seq<nat>, cs: nat, was: seq<Byte>, pos: nat, data: seq<Byte>) {
    && Linked(t, b, chains, loc, head, ch, cs) && Holds(b, ch, was, pos, data)
    && Tight(Max(|was|, pos + |data|), ch, cs)
  }

  /** Once the cluster for the next byte is there: it is number `idx`, and the last if it is new. */
  ghost predicate Ready(t: seq<U16>, b: seq<seq<Byte>>, chains: map<Loc, seq<nat>>, loc: Loc, head: nat, ch: seq<nat>,
                        cs: nat, was: seq<Byte>, pos: nat, data: seq<Byte>, idx: nat) {
    && Linked(t, b, chains, loc, head, ch, cs) && Holds(b, ch, was, pos, data) && idx < |ch|
    && Max(|was|, pos + |data|) <= Span(|ch|, cs)
    && (Span(|ch| - 1, cs) < Max(|was|, pos + |data|) || idx == |ch| - 1)
  }

  lemma EnsureStep(t: seq<U16>, b: seq<seq<Byte>>, t2: seq<U16>, b2: seq<seq<Byte>>, chains: map<Loc, seq<nat>>,
                   loc: Loc,
                   head: nat, head2: nat, ch: seq<nat>, cs: nat, was: seq<Byte>, pos: nat, data: seq<Byte>, n: nat)
    requires Written(t, b, chains, loc, head, ch, cs, was, pos, data) && Heads(head2, ch + [n])
    requires Grown(t, b, t2, b2, cs, ch, n)
    ensures Ready(t2, b2, chains, loc, head2, ch + [n], cs, was, pos, data, |ch|)
  {
    GrowKeeps(t, b, t2, b2, chains, loc, head, head2, ch, n, cs);
  }

  lemma PutTight(was: nat, end: nat, take: nat, ch: seq<nat>, idx: nat, at: nat, cs: nat)
    requires idx < |ch| && end == Span(idx, cs) + at && at + take <= cs && take > 0
    requires Max(was, end) <= Span(|ch|, cs) && (Span(|ch| - 1, cs) < Max(was, end) || idx == |ch| - 1)
    ensures Tight(Max(was, end + take), ch, cs)
  {
    SpanBelow(idx, |ch|, cs);
  }

  lemma ChainOverwrite(b: seq<seq<Byte>>, ch: seq<nat>, cs: nat, idx: nat, at: nat, chunk: seq<Byte>)
    requires Sized(b, ch, cs) && Distinct(ch) && idx < |ch| && at + |chunk| <= cs
    ensures |FileBytes(b, ch)| == Span(|ch|, cs) && Span(idx, cs) + cs <= Span(|ch|, cs)
    ensures Sized(b[ch[idx] := Overwrite(b[ch[idx]], at, chunk)], ch, cs)
    ensures FileBytes(b[ch[idx] := Overwrite(b[ch[idx]], at, chunk)], ch) == Overwrite(FileBytes(b, ch),
                                                                                       Span(idx, cs) + at, chunk)
  {
    DistinctAll(ch);
    FileOverwrite(b, ch, cs, idx, at, chunk);
  }

  lemma PutHolds(b: seq<seq<Byte>>, ch: seq<nat>, cs: nat, was: seq<Byte>, pos: nat, data: seq<Byte>, idx: nat,
                 at: nat, chunk: seq<Byte>)
    requires Sized(b, ch, cs) && Distinct(ch) && Holds(b, ch, was, pos, data) && idx < |ch|
    requires pos + |data| == Span(idx, cs) + at && at + |chunk| <= cs
    ensures Sized(b[ch[idx] := Overwrite(b[ch[idx]], at, chunk)], ch, cs)
    ensures Holds(b[ch[idx] := Overwrite(b[ch[idx]], at, chunk)], ch, was, pos, data + chunk)
  {
    ChainOverwrite(b, ch, cs, idx, at, chunk);
    WriteSpecStep(was, pos, data, chunk, FileBytes(b, ch));
  }

  lemma StillLinked(t: seq<U16>, b: seq<seq<Byte>>, b2: seq<seq<Byte>>, chains: map<Loc, seq<nat>>, loc: Loc,
                    head: nat, ch: seq<nat>, cs: nat)
    requires Linked(t, b, chains, loc, head, ch, cs) && |b2| == |b| && Sized(b2, ch, cs)
    ensures Linked(t, b2, chains, loc, head, ch, cs)
  {
  }

  lemma ReadySize(t: seq<U16>, b: seq<seq<Byte>>, chains: map<Loc, seq<nat>>, loc: Loc, head: nat, ch: seq<nat>,
                  cs: nat, was: seq<Byte>, pos: nat, data: seq<Byte>, idx: nat)
    requires Ready(t, b, chains, loc, head, ch, cs, was, pos, data, idx)
    ensures Linked(t, b, chains, loc, head, ch, cs) && idx < |ch|
    ensures Max(|was|, pos + |data|) <= Span(|ch|, cs)
    ensures Span(|ch| - 1, cs) < Max(|was|, pos + |data|) || idx == |ch| - 1
  {
  }

  lemma IsWritten(t: seq<U16>, b: seq<seq<Byte>>, chains: map<Loc, seq<nat>>, loc: Loc, head: nat, ch: seq<nat>,
                  cs: nat, was: seq<Byte>, pos: nat, data: seq<Byte>)
    requires Linked(t, b, chains, loc, head, ch, cs) && Holds(b, ch, was, pos, data)
    requires Tight(Max(|was|, pos + |data|), ch, cs)
    ensures Written(t, b, chains, loc, head, ch, cs, was, pos, data)
  {
  }

  /** Rewriting inside the cluster for the next byte adds to what is written. */
  lemma PutStep(t: seq<U16>, b: seq<seq<Byte>>, b2: seq<seq<Byte>>, chains: map<Loc, seq<nat>>, loc: Loc, head: nat,
                ch: seq<nat>, cs: nat, was: seq<Byte>, pos: nat, data: seq<Byte>, idx: nat, at: nat, more: seq<Byte>)
    requires Ready(t, b, chains, loc, head, ch, cs, was, pos, data, idx) && |b2| == |b| && Sized(b2, ch, cs)
    requires pos + |data| == Span(idx, cs) + at && |data| < |more| && at + |more| - |data| <= cs
    requires Holds(b2, ch, was, pos, more)
    ensures Written(t, b2, chains, loc, head, ch, cs, was, pos, more)
  {
    ReadySize(t, b, chains, loc, head, ch, cs, was, pos, data, idx);
    PutTight(|was|, pos + |data|, |more| - |data|, ch, idx, at, cs);
    StillLinked(t, b, b2, chains, loc, head, ch, cs);
    IsWritten(t, b2, chains, loc, head, ch, cs, was, pos, more);
  }

  lemma AllKept(t: seq<U16>, chains: map<Loc, seq<nat>>, loc: Loc, b: seq<seq<Byte>>)
    requires Owns(t, chains) && |b| == |t|
    ensures OthersKept(chains, loc, b, b)
  {
    forall l | l in chains && l != loc
      ensures Untouched(b, b, chains[l])
    {
      assert IsChain(t, chains[l]);
    }
  }

  lemma NothingTouched(t: seq<U16>, chains: map<Loc, seq<nat>>, loc: Loc, b: seq<seq<Byte>>)
    requires loc in chains && Owns(t, chains[loc := chains[loc]]) && |b| == |t|
    ensures OthersKept(chains, loc, b, b)
  {
    forall l | l in chains && l != loc
      ensures Untouched(b, b, chains[l])
    {
      assert chains[loc := chains[loc]][l] == chains[l];
      assert IsChain(t, chains[l]);
    }
  }

  /** What a write leaves alone: the chains and bytes it started from, and which file it is for. */
  datatype Job = Job(chains: map<Loc, seq<nat>>, loc: Loc, was: seq<Byte>, start: seq<seq<Byte>>)

  /** `EnsureCluster` inside the write loop. */
  method ReadyCluster(vol: Volume, first: nat, idx: nat, ghost j: Job, ghost ch: seq<nat>, ghost pos: nat,
                      ghost data: seq<Byte>)
    returns (c: nat, head: nat, ghost to: seq<nat>)
    requires vol.Valid() && idx <= |ch| && OthersKept(j.chains, j.loc, j.start, VolumeBytes(vol))
    requires Written(vol.Table(), VolumeBytes(vol), j.chains, j.loc, first, ch, ClusterSize(vol.g), j.was, pos, data)
    modifies vol
    ensures vol.Valid() && OthersKept(j.chains, j.loc, j.start, VolumeBytes(vol))
    ensures c == 0 ==> head == first && to == ch && Full(vol.Table())
    ensures var t, b, cs := vol.Table(), VolumeBytes(vol), ClusterSize(vol.g);
            && (c == 0 ==> Written(t, b, j.chains, j.loc, head, to, cs, j.was, pos, data))
            && (c != 0 ==> Ready(t, b, j.chains, j.loc, head, to, cs, j.was, pos, data, idx) && c == to[idx])
  {
    ghost var t, b, cs := vol.Table(), VolumeBytes(vol), ClusterSize(vol.g);
    c, head, to := EnsureCluster(vol, first, idx, ch);
    if c != 0 && idx == |ch| {
      EnsureStep(t, b, vol.Table(), VolumeBytes(vol), j.chains, j.loc, first, head, ch, cs, j.was, pos, data, c);
      NotOthers(t, j.chains, j.loc, ch, c);
      OthersAfter(j.chains, j.loc, j.start, b, c, Zeros(cs));
    }
  }

  /** Store one sector's share of the data. */
  method WriteChunk(vol: Volume, c: nat, at: nat, chunk: seq<Byte>, ghost j: Job, ghost head: nat, ghost ch: seq<nat>,
                    ghost pos: nat, ghost data: seq<Byte>, ghost idx: nat, ghost more: seq<Byte>)
    requires vol.Valid() && more == data + chunk && at < ClusterSize(vol.g) && at % 512 + |chunk| <= SECTOR
    requires |chunk| > 0
    requires Ready(vol.Table(), VolumeBytes(vol), j.chains, j.loc, head, ch, ClusterSize(vol.g), j.was, pos, data, idx)
    requires c == ch[idx]
    requires pos + |data| == Span(idx, ClusterSize(vol.g)) + at
    requires OthersKept(j.chains, j.loc, j.start, VolumeBytes(vol))
    modifies vol`disk
    ensures vol.Valid() && OthersKept(j.chains, j.loc, j.start, VolumeBytes(vol))
    ensures Written(vol.Table(), VolumeBytes(vol), j.chains, j.loc, head, ch, ClusterSize(vol.g), j.was, pos, more)
  {
    ghost var t, b := vol.Table(), VolumeBytes(vol);
    PutBytes(vol, c, at, chunk);
    PutHolds(b, ch, ClusterSize(vol.g), j.was, pos, data, idx, at, chunk);
    PutStep(t, b, VolumeBytes(vol), j.chains, j.loc, head, ch, ClusterSize(vol.g), j.was, pos, data, idx, at, more);
    NotOthers(t, j.chains, j.loc, ch, c);
    OthersAfter(j.chains, j.loc, j.start, b, c, Overwrite(b[c], at, chunk));
  }

  /** The cluster number and the offset in it of a file position inside, or at the end of, `n` clusters. */
  method Place(p: nat, size: nat, ghost n: nat) returns (idx: nat, at: nat)
    requires size > 0 && p <= Span(n, size)
    ensures idx <= n && at < size && p == Span(idx, size) + at
  {
    SpanIndexAtMost(p, n, size);
    return p / size, p % size;
  }

  lemma WrittenRoom(t: seq<U16>, b: seq<seq<Byte>>, chains: map<Loc, seq<nat>>, loc: Loc, head: nat, ch: seq<nat>,
                    cs: nat, was: seq<Byte>, pos: nat, data: seq<Byte>)
    requires Written(t, b, chains, loc, head, ch, cs, was, pos, data)
    ensures pos + |data| <= Span(|ch|, cs) && cs > 0
  {
  }

  /** What fits between `at` and the end of its sector. */
  method SectorShare(at: nat, need: nat) returns (take: nat)
    requires need > 0
    ensures 0 < take <= need && at % 512 + take <= 512 && (take == need || (at + take) % 512 == 0)
  {
    var space := 512 - at % 512;
    return if space < need then space else need;
  }

  lemma PrefixGrows(s: seq<Byte>, i: nat, j: nat)
    requires i <= j <= |s|
    ensures s[..j] == s[..i] + s[i..j]
  {
  }

  /** One round of the write loop; no progress only when the volume is full. */
  method WriteRound(vol: Volume, first: nat, pos: nat, buf: seq<Byte>, from: nat, ghost j: Job, ghost ch: seq<nat>)
    returns (done: nat, head: nat, ghost to: seq<nat>)
    requires vol.Valid() && from < |buf| && OthersKept(j.chains, j.loc, j.start, VolumeBytes(vol))
    requires Written(vol.Table(), VolumeBytes(vol), j.chains, j.loc, first, ch, ClusterSize(vol.g), j.was, pos,
                     buf[..from])
    modifies vol
    ensures vol.Valid() && from <= done <= |buf| && OthersKept(j.chains, j.loc, j.start, VolumeBytes(vol))
    ensures Written(vol.Table(), VolumeBytes(vol), j.chains, j.loc, head, to, ClusterSize(vol.g), j.was, pos,
                    buf[..done])
    ensures done == from ==> head == first && to == ch && Full(vol.Table())
  {
    var size := ClusterSize(vol.g);
    WrittenRoom(vol.Table(), VolumeBytes(vol), j.chains, j.loc, first, ch, size, j.was, pos, buf[..from]);
    var idx, at := Place(pos + from, size, |ch|);
    var c: nat;
    c, head, to := ReadyCluster(vol, first, idx, j, ch, pos, buf[..from]);
    done := from;
    if c != 0 {
      var take := SectorShare(at, |buf| - from);
      done := from + take;
      PrefixGrows(buf, from, done);
      WriteChunk(vol, c, at, buf[from..done], j, head, to, pos, buf[..from], idx, buf[..done]);
    }
  }

  /** The loop of `fat16_vfs_write`: sector by sector, extending the chain as it goes.  Stops early
      only when the volume is full; the bytes stored are then exactly the ones counted. */
  method WriteClusters(vol: Volume, first: nat, pos: nat, buf: seq<Byte>, ghost chains: map<Loc, seq<nat>>,
                       ghost loc: Loc, ghost was: seq<Byte>)
    returns (done: nat, head: nat, ghost to: seq<nat>)
    requires vol.Valid() && loc in chains
    requires Written(vol.Table(), VolumeBytes(vol), chains, loc, first, chains[loc], ClusterSize(vol.g), was, pos, [])
    modifies vol
    ensures vol.Valid() && done <= |buf|
    ensures Written(vol.Table(), VolumeBytes(vol), chains, loc, head, to, ClusterSize(vol.g), was, pos, buf[..done])
    ensures OthersKept(chains, loc, old(VolumeBytes(vol)), VolumeBytes(vol))
    ensures done < |buf| ==> Full(vol.Table())
    ensures done == 0 ==> head == first && to == chains[loc]
  {
    done, head, to := 0, first, chains[loc];
    ghost var start := VolumeBytes(vol);
    NothingTouched(vol.Table(), chains, loc, start);
    while done < |buf|
      invariant vol.Valid() && done <= |buf| && OthersKept(chains, loc, start, VolumeBytes(vol))
      invariant Written(vol.Table(), VolumeBytes(vol), chains, loc, head, to, ClusterSize(vol.g), was, pos, buf[..done])
      invariant done == 0 ==> head == first && to == chains[loc]
    {
      var before := done;
      done, head, to := WriteRound(vol, head, pos, buf, done, Job(chains, loc, was, start), to);
      if done == before {
        return;
      }
    }
  }

  // ---- giving clusters back ----------------------------------------------------------------------

  /** What is behind cluster `k - 1` is still a chain after that cluster has become the last. */
  lemma TailChain(t: seq<U16>, ch: seq<nat>, k: nat)
    requires IsChain(t, ch) && 0 < k <= |ch|
    ensures IsChain(t[ch[k - 1] := EOC], ch[k..])
  {
    DistinctAll(ch);
    DistinctAll(ch[k..]);
    assert forall i :: 0 <= i < |ch| - k ==> ch[k..][i] == ch[k + i] != ch[k - 1];
    var after, rest := t[ch[k - 1] := EOC], ch[k..];
    forall i: nat | i + 1 < |rest|
      ensures Link(after, rest, i)
    {
      assert Link(t, ch, k + i);
    }
  }

  /** Free a whole chain: truncation to nothing, `O_TRUNC`, unlink and rmdir. */
  method FreeAll(vol: Volume, first: nat, ghost chains: map<Loc, seq<nat>>, ghost loc: Loc)
    requires vol.Valid() && Owns(vol.Table(), chains) && loc in chains && Heads(first, chains[loc])
    modifies vol
    ensures vol.Valid() && VolumeBytes(vol) == old(VolumeBytes(vol))
    ensures Owns(vol.Table(), chains[loc := []])
  {
    ghost var t, ch := vol.Table(), chains[loc];
    assert IsChain(t, ch);
    if first >= 2 {
      FreeChain(vol, first, ch);
      assert ch[0..] == ch && ch[..0] == [];
      OwnsCut(t, chains, loc, 0, vol.Table());
    } else {
      assert chains[loc := []] == chains;
    }
  }

  /** The shrinking half of `fat16_vfs_ftruncate`. */
  method Shrink(vol: Volume, first: nat, length: nat, ghost chains: map<Loc, seq<nat>>, ghost loc: Loc, ghost size: nat)
    returns (head: nat, ghost to: seq<nat>)
    requires vol.Valid() && Owns(vol.Table(), chains) && loc in chains && Heads(first, chains[loc])
    requires Tight(size, chains[loc], ClusterSize(vol.g)) && length < size
    modifies vol
    ensures vol.Valid() && VolumeBytes(vol) == old(VolumeBytes(vol))
    ensures Owns(vol.Table(), chains[loc := to]) && Heads(head, to)
    ensures to <= chains[loc] && Tight(length, to, ClusterSize(vol.g))
  {
    if length == 0 {
      FreeAll(vol, first, chains, loc);
      return 0, [];
    }
    var keep, at := Place(length - 1, ClusterSize(vol.g), |chains[loc]|);
    KeptInside(length, size, keep, at, chains[loc], ClusterSize(vol.g));
    CutAfter(vol, first, keep, chains, loc);
    return first, chains[loc][..keep + 1];
  }

  /** The cluster holding the last byte kept is one of the chain's. */
  lemma KeptInside(length: nat, size: nat, keep: nat, at: nat, ch: seq<nat>, cs: nat)
    requires 0 < length < size && Tight(size, ch, cs) && length - 1 == Span(keep, cs) + at && at < cs
    ensures keep < |ch| && Tight(length, ch[..keep + 1], cs)
  {
    SpanOrder(keep, |ch|, cs);
  }

  /** Make cluster `keep` the last one and free the rest. */
  method CutAfter(vol: Volume, first: nat, keep: nat, ghost chains: map<Loc, seq<nat>>, ghost loc: Loc)
    requires vol.Valid() && Owns(vol.Table(), chains) && loc in chains && Heads(first, chains[loc])
    requires keep < |chains[loc]|
    modifies vol
    ensures vol.Valid() && VolumeBytes(vol) == old(VolumeBytes(vol))
    ensures Owns(vol.Table(), chains[loc := chains[loc][..keep + 1]])
  {
    ghost var t, ch, k := vol.Table(), chains[loc], keep + 1;
    assert IsChain(t, ch);
    var c := WalkKept(vol, first, keep, ch);
    NextInChain(t, ch, keep);
    var next := vol.GetEntry(c);
    vol.SetEntry(c, EOC);
    TailChain(t, ch, k);
    if next >= 2 && next < 0xFFF8 {
      FreeChain(vol, next, ch[k..]);
    } else {
      assert ch[k..] == [];
    }
    OwnsCut(t, chains, loc, k, vol.Table());
  }

  /** The walk of `fat16_vfs_ftruncate`, which would stop at an end mark. */
  method WalkKept(vol: Volume, first: nat, keep: nat, ghost ch: seq<nat>) returns (c: nat)
    requires vol.Valid() && IsChain(vol.Table(), ch) && Heads(first, ch) && keep < |ch|
    modifies vol`cache, vol`next
    ensures vol.Valid() && c == ch[keep]
  {
    c := first;
    for i := 0 to keep
      invariant vol.Valid() && c == ch[i]
    {
      NextInChain(vol.Table(), ch, i);
      NextInChain(vol.Table(), ch, i + 1);
      var next := vol.GetEntry(c);
      if next >= 0xFFF8 || next < 2 {
        break;
      }
      c := next;
    }
  }
}
