/** Cluster chains in the allocation table, and who owns which cluster. */
module FatChains {
  import opened FatVolume

  /** A directory entry's place. */
  type Loc = nat

  // The conditions on pairs and on neighbours are predicates of their own so that each use names
  // the indices it is about.
  ghost predicate Differ(ch: seq<nat>, i: nat, j: nat)
    requires i < |ch| && j < |ch|
  {
    ch[i] != ch[j]
  }

  ghost predicate Distinct(ch: seq<nat>) {
    forall i: nat, j: nat :: i < j < |ch| ==> Differ(ch, i, j)
  }

  ghost predicate Link(fat: seq<U16>, ch: seq<nat>, i: nat)
    requires i + 1 < |ch|
  {
    ch[i] < |fat| && fat[ch[i]] == ch[i + 1]
  }

  /** `ch` is a finished chain: in range, linked, ended, and without a cycle. */
  ghost predicate IsChain(fat: seq<U16>, ch: seq<nat>) {
    && (forall i :: 0 <= i < |ch| ==> 2 <= ch[i] < |fat|)
    && (forall i: nat :: i + 1 < |ch| ==> Link(fat, ch, i))
    && (ch != [] ==> IsEnd(fat[ch[|ch| - 1]]))
    && Distinct(ch)
  }

  lemma DistinctAt(ch: seq<nat>, i: nat, j: nat)
    requires Distinct(ch) && i < |ch| && j < |ch| && i != j
    ensures ch[i] != ch[j]
  {
    assert if i < j then Differ(ch, i, j) else Differ(ch, j, i);
  }

  /** The pairwise condition written out. */
  lemma DistinctAll(ch: seq<nat>)
    ensures Distinct(ch) <==> forall i, j :: 0 <= i < j < |ch| ==> ch[i] != ch[j]
  {
    if Distinct(ch) {
      forall i, j | 0 <= i < j < |ch|
        ensures ch[i] != ch[j]
      {
        DistinctAt(ch, i, j);
      }
    }
  }

  ghost predicate Apart(a: seq<nat>, b: seq<nat>) {
    forall i, j :: 0 <= i < |a| && 0 <= j < |b| ==> a[i] != b[j]
  }

  ghost predicate Owned(chains: map<Loc, seq<nat>>, c: nat) {
    exists l :: l in chains && c in chains[l]
  }

  ghost predicate Intact(fat: seq<U16>, chains: map<Loc, seq<nat>>) {
    forall l {:trigger IsChain(fat, chains[l])} :: l in chains ==> IsChain(fat, chains[l])
  }

  ghost predicate Unshared(chains: map<Loc, seq<nat>>) {
    forall l, m {:trigger Apart(chains[l], chains[m])} :: l in chains && m in chains && l != m ==>
      Apart(chains[l], chains[m])
  }

  /** Entry `c` is in use just when its cluster is owned. */
  ghost predicate Accounted(fat: seq<U16>, chains: map<Loc, seq<nat>>, c: nat)
    requires c < |fat|
  {
    fat[c] != 0 <==> Owned(chains, c)
  }

  ghost predicate Exact(fat: seq<U16>, chains: map<Loc, seq<nat>>) {
    forall c: nat :: 2 <= c < |fat| ==> Accounted(fat, chains, c)
  }

  /** The table is exactly these chains: each is finished, no two share a cluster, and an entry is
      in use just when some chain owns its cluster. */
  ghost predicate Owns(fat: seq<U16>, chains: map<Loc, seq<nat>>) {
    Intact(fat, chains) && Unshared(chains) && Exact(fat, chains)
  }

  /** `after` is `before` with the clusters of `s` freed. */
  ghost predicate Freed(before: seq<U16>, after: seq<U16>, s: seq<nat>) {
    && |after| == |before|
    && forall c :: 0 <= c < |before| ==> after[c] == if c in s then 0 else before[c]
  }

  lemma UnownedFree(fat: seq<U16>, chains: map<Loc, seq<nat>>, n: nat)
    requires Owns(fat, chains) && 2 <= n < |fat| && fat[n] == 0
    ensures forall l :: l in chains ==> n !in chains[l]
  {
    assert Accounted(fat, chains, n);
    assert !Owned(chains, n);
  }

  /** The table after `n` has been appended to chain `ch`. */
  function Appended(fat: seq<U16>, ch: seq<nat>, n: nat): (r: seq<U16>)
    requires 2 <= n < |fat| < 0x1_0000 && forall i :: 0 <= i < |ch| ==> ch[i] < |fat|
    ensures |r| == |fat|
  {
    if ch == [] then fat[n := EOC] else fat[n := EOC][ch[|ch| - 1] := n][n := EOC]
  }

  lemma ChainAppends(fat: seq<U16>, ch: seq<nat>, n: nat)
    requires IsChain(fat, ch) && 2 <= n < |fat| < 0x1_0000 && n !in ch
    ensures IsChain(Appended(fat, ch, n), ch + [n])
  {
    var after, to := Appended(fat, ch, n), ch + [n];
    DistinctAll(ch);
    DistinctAll(to);
    forall i: nat | i + 1 < |to|
      ensures Link(after, to, i)
    {
      if i + 1 < |ch| { assert Link(fat, ch, i); }
    }
  }

  lemma ChainUntouched(before: seq<U16>, after: seq<U16>, ch: seq<nat>)
    requires IsChain(before, ch) && |after| == |before| && forall i :: 0 <= i < |ch| ==> after[ch[i]] == before[ch[i]]
    ensures IsChain(after, ch)
  {
    forall i: nat | i + 1 < |ch|
      ensures Link(after, ch, i)
    {
      assert Link(before, ch, i);
    }
  }

  lemma AppendIntact(fat: seq<U16>, chains: map<Loc, seq<nat>>, loc: Loc, n: nat, l: Loc)
    requires Intact(fat, chains) && Unshared(chains) && loc in chains && l in chains && 2 <= n < |fat| < 0x1_0000
    requires IsChain(fat, chains[loc]) && IsChain(fat, chains[l]) && n !in chains[loc] && n !in chains[l]
    ensures IsChain(Appended(fat, chains[loc], n), chains[loc := chains[loc] + [n]][l])
  {
    if l == loc {
      ChainAppends(fat, chains[loc], n);
    } else {
      assert Apart(chains[l], chains[loc]);
      ChainUntouched(fat, Appended(fat, chains[loc], n), chains[l]);
    }
  }

  lemma AppendUnshared(chains: map<Loc, seq<nat>>, loc: Loc, n: nat)
    requires Unshared(chains) && loc in chains && forall l :: l in chains ==> n !in chains[l]
    ensures Unshared(chains[loc := chains[loc] + [n]])
  {
    var to := chains[loc := chains[loc] + [n]];
    forall l, m | l in to && m in to && l != m
      ensures Apart(to[l], to[m])
    {
      assert Apart(chains[l], chains[m]);
    }
  }

  /** Appending a free cluster to one chain keeps the ownership picture exact. */
  lemma OwnsAppend(fat: seq<U16>, chains: map<Loc, seq<nat>>, loc: Loc, n: nat)
    requires Owns(fat, chains) && loc in chains && IsChain(fat, chains[loc]) && 2 <= n < |fat| < 0x1_0000 && fat[n] == 0
    ensures Owns(Appended(fat, chains[loc], n), chains[loc := chains[loc] + [n]])
  {
    var ch := chains[loc];
    var after, to := Appended(fat, ch, n), chains[loc := ch + [n]];
    UnownedFree(fat, chains, n);
    forall l | l in to
      ensures IsChain(after, to[l])
    {
      assert IsChain(fat, chains[l]);
      AppendIntact(fat, chains, loc, n, l);
    }
    AppendUnshared(chains, loc, n);
    forall c: nat | 2 <= c < |after|
      ensures Accounted(after, to, c)
    {
      assert Accounted(fat, chains, c);
      OwnedAfterAppend(chains, loc, n, c);
      AppendedEntry(fat, chains, loc, n, c);
    }
  }

  lemma AppendedEntry(fat: seq<U16>, chains: map<Loc, seq<nat>>, loc: Loc, n: nat, c: nat)
    requires Owns(fat, chains) && loc in chains && IsChain(fat, chains[loc]) && 2 <= n < |fat| < 0x1_0000
    requires 2 <= c < |fat|
    ensures Appended(fat, chains[loc], n)[c] != 0 <==> Owned(chains, c) || c == n
  {
    var ch := chains[loc];
    assert Accounted(fat, chains, c);
    if ch != [] && c == ch[|ch| - 1] { assert c in chains[loc]; }
  }

  lemma OwnedAfterAppend(chains: map<Loc, seq<nat>>, loc: Loc, n: nat, c: nat)
    requires loc in chains
    ensures Owned(chains[loc := chains[loc] + [n]], c) <==> Owned(chains, c) || c == n
  {
    var to := chains[loc := chains[loc] + [n]];
    if Owned(to, c) {
      var l :| l in to && c in to[l];
      if c != n { assert l in chains && c in chains[l]; }
    }
    if Owned(chains, c) {
      var l :| l in chains && c in chains[l];
      assert l in to && c in to[l];
    }
    if c == n { assert loc in to && c in to[loc]; }
  }

  /** The table after a chain has been cut to its first `k` clusters. */
  ghost predicate IsCut(fat: seq<U16>, after: seq<U16>, ch: seq<nat>, k: nat)
    requires k <= |ch| && forall i :: 0 <= i < |ch| ==> ch[i] < |fat|
  {
    Freed(if k == 0 then fat else fat[ch[k - 1] := EOC], after, ch[k..])
  }

  lemma ChainCut(fat: seq<U16>, after: seq<U16>, ch: seq<nat>, k: nat)
    requires IsChain(fat, ch) && k <= |ch| && IsCut(fat, after, ch, k)
    ensures IsChain(after, ch[..k])
  {
    DistinctAll(ch);
    DistinctAll(ch[..k]);
    assert forall i :: 0 <= i < k ==> ch[i] !in ch[k..];
    forall i: nat | i + 1 < k
      ensures Link(after, ch[..k], i)
    {
      assert Link(fat, ch, i);
    }
  }

  lemma CutElsewhere(fat: seq<U16>, after: seq<U16>, ch: seq<nat>, k: nat, other: seq<nat>)
    requires IsChain(fat, ch) && k <= |ch| && IsCut(fat, after, ch, k) && IsChain(fat, other) && Apart(other, ch)
    ensures IsChain(after, other)
  {
    assert forall i :: 0 <= i < |other| ==> other[i] !in ch[k..];
    ChainUntouched(fat, after, other);
  }

  lemma CutUnshared(chains: map<Loc, seq<nat>>, loc: Loc, k: nat)
    requires Unshared(chains) && loc in chains && k <= |chains[loc]|
    ensures Unshared(chains[loc := chains[loc][..k]])
  {
    var to := chains[loc := chains[loc][..k]];
    forall l, m | l in to && m in to && l != m
      ensures Apart(to[l], to[m])
    {
      assert Apart(chains[l], chains[m]);
    }
  }

  /** Cutting a chain keeps the ownership picture exact: what was freed belongs to nobody. */
  lemma OwnsCut(fat: seq<U16>, chains: map<Loc, seq<nat>>, loc: Loc, k: nat, after: seq<U16>)
    requires Owns(fat, chains) && loc in chains && k <= |chains[loc]|
    requires IsChain(fat, chains[loc]) && IsCut(fat, after, chains[loc], k)
    ensures Owns(after, chains[loc := chains[loc][..k]])
  {
    var ch := chains[loc];
    var to := chains[loc := ch[..k]];
    forall l | l in to
      ensures IsChain(after, to[l])
    {
      if l == loc {
        ChainCut(fat, after, ch, k);
      } else {
        assert IsChain(fat, chains[l]) && Apart(chains[l], chains[loc]);
        CutElsewhere(fat, after, ch, k, chains[l]);
      }
    }
    CutUnshared(chains, loc, k);
    forall c: nat | 2 <= c < |after|
      ensures Accounted(after, to, c)
    {
      assert Accounted(fat, chains, c);
      OwnedAfterCut(chains, loc, k, c);
      if k > 0 && c == ch[k - 1] { assert c in chains[loc]; }
    }
  }

  lemma OwnedAfterCut(chains: map<Loc, seq<nat>>, loc: Loc, k: nat, c: nat)
    requires Unshared(chains) && loc in chains && k <= |chains[loc]| && Distinct(chains[loc])
    ensures Owned(chains[loc := chains[loc][..k]], c) <==> Owned(chains, c) && c !in chains[loc][k..]
  {
    var ch, to := chains[loc], chains[loc := chains[loc][..k]];
    if Owned(to, c) {
      var l :| l in to && c in to[l];
      StillOwned(chains, loc, k, c, l);
    }
    if Owned(chains, c) && c !in ch[k..] {
      var l :| l in chains && c in chains[l];
      if l == loc { InFront(ch, k, c); }
      assert l in to && c in to[l];
    }
  }

  lemma InFront(ch: seq<nat>, k: nat, c: nat)
    requires k <= |ch| && c in ch && c !in ch[k..]
    ensures c in ch[..k]
  {
    assert ch == ch[..k] + ch[k..];
  }

  lemma StillOwned(chains: map<Loc, seq<nat>>, loc: Loc, k: nat, c: nat, l: Loc)
    requires Unshared(chains) && loc in chains && k <= |chains[loc]| && Distinct(chains[loc]) && l in chains
    requires c in chains[loc := chains[loc][..k]][l]
    ensures c in chains[l] && c !in chains[loc][k..]
  {
    DistinctAll(chains[loc]);
    assert l != loc ==> Apart(chains[l], chains[loc]);
  }

  /** Giving or taking an entry without clusters leaves the other chains finished and apart. */
  lemma RestOwned(fat: seq<U16>, chains: map<Loc, seq<nat>>, to: map<Loc, seq<nat>>, loc: Loc)
    requires Intact(fat, chains) && Unshared(chains)
    requires forall l :: l in to ==> if l == loc then to[l] == [] else l in chains && to[l] == chains[l]
    ensures Intact(fat, to) && Unshared(to)
  {
    forall l | l in to
      ensures IsChain(fat, to[l])
    {
      if l != loc { assert IsChain(fat, chains[l]); }
    }
    forall l, m | l in to && m in to && l != m
      ensures Apart(to[l], to[m])
    {
      if l != loc && m != loc { assert Apart(chains[l], chains[m]); }
    }
  }

  /** An entry without clusters owns nothing. */
  lemma OwnsEmpty(fat: seq<U16>, chains: map<Loc, seq<nat>>, loc: Loc)
    requires Owns(fat, chains) && loc !in chains
    ensures Owns(fat, chains[loc := []])
  {
    var to := chains[loc := []];
    RestOwned(fat, chains, to, loc);
    forall c: nat | 2 <= c < |fat|
      ensures Accounted(fat, to, c)
    {
      assert Accounted(fat, chains, c);
      if Owned(chains, c) {
        var l :| l in chains && c in chains[l];
        assert l in to && c in to[l];
      }
    }
  }

  lemma OwnsDrop(fat: seq<U16>, chains: map<Loc, seq<nat>>, loc: Loc)
    requires Owns(fat, chains) && loc in chains && chains[loc] == []
    ensures Owns(fat, chains - {loc})
  {
    var to := chains - {loc};
    RestOwned(fat, chains, to, loc);
    forall c: nat | 2 <= c < |fat|
      ensures Accounted(fat, to, c)
    {
      assert Accounted(fat, chains, c);
      if Owned(chains, c) {
        var l :| l in chains && c in chains[l];
        assert l in to && c in to[l];
      }
    }
  }

  // ---- a chain is no longer than the table ----------------------------------------------------

  /** Distinct numbers from `lo` up to `hi` are at most `hi - lo`. */
  lemma {:induction false} Pigeonhole(ch: seq<nat>, lo: nat, hi: nat)
    requires Distinct(ch) && lo <= hi && forall i :: 0 <= i < |ch| ==> lo <= ch[i] < hi
    ensures |ch| <= hi - lo
    decreases hi
  {
    if |ch| > 0 {
      assert lo <= ch[0] < hi;
      if hi - 1 in ch {
        var k :| 0 <= k < |ch| && ch[k] == hi - 1;
        DistinctAll(ch);
        DistinctAll(ch[..k] + ch[k + 1..]);
        Pigeonhole(ch[..k] + ch[k + 1..], lo, hi - 1);
      } else {
        Pigeonhole(ch, lo, hi - 1);
      }
    }
  }

  lemma ChainLength(fat: seq<U16>, ch: seq<nat>)
    requires IsChain(fat, ch) && |fat| >= 2
    ensures |ch| <= |fat| - 2
  {
    Pigeonhole(ch, 2, |fat|);
  }
}
