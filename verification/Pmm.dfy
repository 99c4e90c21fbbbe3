/** The physical frame allocator (src/proc/pmm.c).  The bitmap is a sequence of booleans, one per
    managed frame. */
module Pmm {
  import opened Words
  import opened Options

  const PMM_START: nat := 0x80_0000
  const FRAME_SIZE: nat := 0x1000

  function FrameAddr(i: nat): nat { PMM_START + i * FRAME_SIZE }

  /** The address is that of managed frame `i`. */
  ghost predicate IsFrame(n: nat, addr: nat, i: nat) { i < n && addr == FrameAddr(i) }

  /** Distinct frames have distinct, non-overlapping addresses. */
  lemma FrameAddrInjective(i: nat, j: nat)
    ensures FrameAddr(i) == FrameAddr(j) <==> i == j
    ensures i < j ==> FrameAddr(i) + FRAME_SIZE <= FrameAddr(j)
  {
  }

  /** Some frame of the run of `count` frames at `i` is taken. */
  ghost predicate Blocked(used: seq<bool>, i: nat, count: nat) {
    exists j :: i <= j < i + count && j < |used| && used[j]
  }

  /** The last start `pmm_alloc_frames` tries, `PMM_FRAME_COUNT - count` in unsigned arithmetic. */
  function LastStart(frames: Addr32, count: Addr32): Addr32 { U32(frames - count) }

  /** The run at the last start ends among the managed frames exactly when there are `count` frames at all. */
  lemma LastStartExact(frames: Addr32, count: Addr32)
    ensures count <= frames ==> LastStart(frames, count) == frames - count
    ensures count > frames ==> LastStart(frames, count) > frames
  {
  }

  /** Frames in use. */
  function UsedCount(used: seq<bool>): nat {
    if used == [] then 0 else (if used[0] then 1 else 0) + UsedCount(used[1..])
  }

  lemma {:induction false} UsedCountUpdate(used: seq<bool>, i: nat, b: bool)
    requires i < |used|
    ensures UsedCount(used[i := b]) == UsedCount(used) - (if used[i] then 1 else 0) + (if b then 1 else 0)
    decreases |used|
  {
    if i > 0 {
      UsedCountUpdate(used[1..], i - 1, b);
      assert used[i := b][1..] == used[1..][i - 1 := b];
    } else {
      assert used[0 := b][1..] == used[1..];
    }
  }

  /** Frame `j` is the `k`-th of a run that starts at `addr`. */
  ghost predicate Hits(addr: int, k: int, j: nat) { U32(addr + k * FRAME_SIZE) == FrameAddr(j) }

  class FrameAllocator {
    var used: seq<bool>

    constructor (frames: nat)
      ensures used == seq(frames, _ => false)
    {
      used := seq(frames, _ => false);
    }

    /** `pmm_alloc_frame`: the lowest free frame, or 0 when every frame is taken. */
    method AllocFrame() returns (addr: nat, ghost index: nat)
      modifies this
      ensures addr == 0 ==> used == old(used) && forall i :: 0 <= i < |used| ==> used[i]
      ensures addr != 0 ==>
                && IsFrame(|old(used)|, addr, index) && !old(used)[index] && addr == 0x80_0000 + 0x1000 * index
                && (forall i :: 0 <= i < index ==> old(used)[i])
                && used == old(used)[index := true] && UsedCount(used) == UsedCount(old(used)) + 1
    {
      index := 0;
      for i := 0 to |used|
        invariant used == old(used) && forall k :: 0 <= k < i ==> used[k]
      {
        if !used[i] {
          UsedCountUpdate(used, i, true);
          used := used[i := true];
          return FrameAddr(i), i;
        }
      }
      addr := 0;
    }

    /** `pmm_free_frame`: foreign, unaligned and already free addresses are ignored. */
    method FreeFrame(addr: nat)
      modifies this
      ensures forall i: nat :: IsFrame(|old(used)|, addr, i) ==>
                && used == old(used)[i := false]
                && UsedCount(used) == UsedCount(old(used)) - (if old(used)[i] then 1 else 0)
      ensures (forall i: nat :: !IsFrame(|old(used)|, addr, i)) ==> used == old(used)
    {
      if addr < PMM_START || addr >= FrameAddr(|used|) || (addr - PMM_START) % FRAME_SIZE != 0 {
        assert forall i: nat :: !IsFrame(|used|, addr, i);
        return;
      }
      var i := (addr - PMM_START) / FRAME_SIZE;
      assert IsFrame(|used|, addr, i);
      if !used[i] {
        assert used == used[i := false];
        return;
      }
      UsedCountUpdate(used, i, false);
      used := used[i := false];
    }

    /** `pmm_alloc_frames`: the first run of `count` free frames, or 0.  The search leaves the managed
        frames exactly when more are asked for than there are. */
    method AllocFrames(count: Addr32) returns (r: Attempt<nat>, ghost first: nat)
      requires |used| < TWO32
      modifies this
      ensures !r.Refused? && (r.Stray? <==> count > |old(used)|)
      ensures r == Done(0) || r.Stray? ==> used == old(used)
      ensures r == Done(0) && count > 0 ==> forall i :: 0 <= i <= |used| - count ==> Blocked(used, i, count)
      ensures r.Done? && r.value != 0 ==>
                && count > 0 && r.value == FrameAddr(first) && first + count <= |old(used)|
                && (forall j :: first <= j < first + count ==> !old(used)[j])
                && |used| == |old(used)| && UsedCount(used) == UsedCount(old(used)) + count
                && forall j :: 0 <= j < |used| ==> used[j] == (old(used)[j] || first <= j < first + count)
    {
      first := 0;
      if count == 0 {
        return Done(0), 0;
      }
      LastStartExact(|used|, count);
      var i, last := 0, LastStart(|used|, count);
      while i <= last
        invariant 0 <= i <= last + 1 && used == old(used) && i <= |used|
        invariant count <= |used| ==> i + count <= |used| + 1
        invariant forall k :: 0 <= k < i ==> Blocked(used, k, count)
        decreases last + 1 - i
      {
        var j := 0;
        while j < count && i + j < |used| && !used[i + j]
          invariant 0 <= j <= count && i + j <= |used|
          invariant forall m :: i <= m < i + j ==> !used[m]
        {
          j := j + 1;
        }
        if j == count {
          MarkRun(i, count);
          return Done(FrameAddr(i)), i;
        }
        if i + j >= |used| {
          return Stray, 0;
        }
        assert used[i + j] && Blocked(used, i, count);
        i := i + 1;
      }
      r := Done(0);
    }

    method MarkRun(first: nat, count: nat)
      requires first + count <= |used| && forall j :: first <= j < first + count ==> !used[j]
      modifies this
      ensures |used| == |old(used)| && UsedCount(used) == UsedCount(old(used)) + count
      ensures forall j :: 0 <= j < |used| ==> used[j] == (old(used)[j] || first <= j < first + count)
    {
      for k := 0 to count
        invariant |used| == |old(used)| && UsedCount(used) == UsedCount(old(used)) + k
        invariant forall j :: 0 <= j < |used| ==> used[j] == (old(used)[j] || first <= j < first + k)
      {
        UsedCountUpdate(used, first + k, true);
        used := used[first + k := true];
      }
    }

    /** `pmm_get_stats` */
    method GetStats() returns (total: nat, taken: nat, free: nat)
      ensures total == |used| && taken == UsedCount(used) && taken + free == total
    {
      taken := 0;
      for i := 0 to |used|
        invariant taken <= i && taken + UsedCount(used[i..]) == UsedCount(used)
      {
        assert used[i..][1..] == used[i + 1..];
        if used[i] {
          taken := taken + 1;
        }
      }
      assert used[|used|..] == [];
      return |used|, taken, |used| - taken;
    }

    /** `pmm_free_frames`: frees the frames at the addresses of the run; what is not a frame is passed over. */
    method FreeFrames(addr: Addr32, count: Addr32)
      modifies this
      ensures |used| == |old(used)|
      ensures forall j :: 0 <= j < |used| ==>
                used[j] == (old(used)[j] && !exists k :: 0 <= k < count && Hits(addr, k, j))
    {
      for k := 0 to count
        invariant |used| == |old(used)|
        invariant forall j :: 0 <= j < |used| ==>
                    used[j] == (old(used)[j] && !exists i :: 0 <= i < k && Hits(addr, i, j))
      {
        ghost var before := used;
        var at := U32(addr + k * FRAME_SIZE);
        FreeFrame(at);
        forall j: nat | j < |used|
          ensures used[j] == (before[j] && !Hits(addr, k, j))
        {
          if i: nat :| IsFrame(|used|, at, i) { FrameAddrInjective(i, j); }
        }
      }
    }
  }

  /** One frame more than there are: the search leaves the managed frames. */
  method OneTooMany(frames: Addr32) returns (r: Attempt<nat>)
    requires frames + 1 < TWO32
    ensures r.Stray?
  {
    var a := new FrameAllocator(frames);
    ghost var first;
    r, first := a.AllocFrames(frames + 1);
  }
}
