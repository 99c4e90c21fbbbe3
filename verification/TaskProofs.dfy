/** Every step keeps the invariant of the task table. */
module TaskProofs {
  import opened Tasks

  // ---- links, ids and status apart --------------------------------------------------------------------

  ghost predicate SameNext(a: seq<Task>, b: seq<Task>) {
    |a| == |b| && forall i :: 0 <= i < |a| ==> b[i].next == a[i].next
  }

  ghost predicate SameIds(a: seq<Task>, b: seq<Task>) {
    |a| == |b| && forall i :: 0 <= i < |a| ==> b[i].id == a[i].id && b[i].kernel == a[i].kernel
  }

  lemma RingFrame(a: seq<Task>, b: seq<Task>, ring: seq<nat>)
    requires IsRing(a, ring) && SameNext(a, b)
    ensures IsRing(b, ring)
  {
    forall i: nat | i < |ring|
      ensures Linked(b, ring, i)
    {
      assert Linked(a, ring, i);
    }
  }

  lemma FindUnique(tasks: seq<Task>, id: nat, k: nat)
    requires k < |tasks| && tasks[k].id == id && forall i :: 0 <= i < k ==> tasks[i].id != id
    ensures FindId(tasks, id) == k
  {
  }

  lemma FindFrame(a: seq<Task>, b: seq<Task>, id: nat)
    requires SameIds(a, b)
    ensures FindId(a, id) == FindId(b, id)
  {
    var k := FindId(a, id);
    if k < |a| { FindUnique(b, id, k); }
  }

  /** A nonzero id names one slot. */
  lemma FindsOwn(tasks: seq<Task>, k: nat)
    requires IdsUnique(tasks) && k < |tasks| && tasks[k].id != 0
    ensures FindId(tasks, tasks[k].id) == k
  {
    var f := FindId(tasks, tasks[k].id);
    assert f < k ==> IdsDiffer(tasks, f, k);
  }

  lemma IdsFrame(a: seq<Task>, b: seq<Task>)
    requires SameIds(a, b) && IdsUnique(a)
    ensures IdsUnique(b)
  {
    forall i: nat, j: nat | i < j < |b|
      ensures IdsDiffer(b, i, j)
    {
      assert IdsDiffer(a, i, j);
    }
  }

  lemma RingMember(tasks: seq<Task>, ring: seq<nat>, i: nat)
    requires IsRing(tasks, ring) && i < |ring|
    ensures ring[i] < |tasks|
  {
    assert Linked(tasks, ring, i);
  }

  lemma CurrentOnTable(s: State, ring: seq<nat>)
    requires Inv(s, ring)
    ensures s.current < |s.tasks| && s.current in ring
  {
    RingMember(s.tasks, ring, |ring| - 1);
  }

  // ---- waking ---------------------------------------------------------------------------------------

  /** A waiter for another id keeps its target when only slot `k` has ended or detached. */
  lemma StillAwaited(a: seq<Task>, b: seq<Task>, k: nat, id: nat)
    requires SameIds(a, b) && k < |a| && id != a[k].id && Awaited(a, id)
    requires forall i :: 0 <= i < |a| && i != k ==>
               (a[i].status == Terminated <==> b[i].status == Terminated) && a[i].detached == b[i].detached
    ensures Awaited(b, id)
  {
    FindFrame(a, b, id);
  }

  /** Once the waiters for `k` are awake nobody waits in vain. */
  lemma WakeKeeps(a: seq<Task>, b: seq<Task>, k: nat)
    requires k < |a| && SameIds(a, b) && NoLostWakeup(a)
    requires forall i :: 0 <= i < |a| && i != k ==> a[i] == b[i]
    requires b[k].status != Blocked || (a[k].status == Blocked && b[k].waitingFor == a[k].waitingFor)
    ensures NoLostWakeup(Woken(b, a[k].id))
  {
    var c := Woken(b, a[k].id);
    forall i | 0 <= i < |c| && c[i].status == Blocked
      ensures Awaited(c, c[i].waitingFor)
    {
      assert a[i].status == Blocked && c[i].waitingFor == a[i].waitingFor != a[k].id;
      StillAwaited(a, c, k, a[i].waitingFor);
    }
  }

  /** Ending slot `k` while `i` waits: `i` wakes exactly when `k` is the slot it waits for. */
  lemma EndWakes(s: State, ring: seq<nat>, k: nat, code: int, i: nat)
    requires Inv(s, ring) && k < |s.tasks| && i < |s.tasks| && i != k && s.tasks[i].status == Blocked
    requires s.tasks[k].id != 0 && s.tasks[k].status != Terminated
    ensures var f := FindId(s.tasks, s.tasks[i].waitingFor);
            && f < |s.tasks| && Ended(s, k, code).tasks[i].status == (if f == k then Ready else Blocked)
            && (f != k ==> Ended(s, k, code).tasks[i] == s.tasks[i])
            && (Ended(s, k, code).tasks[f].status == Terminated <==> f == k)
            && Ended(s, k, code).tasks[f].detached == s.tasks[f].detached
  {
    assert Awaited(s.tasks, s.tasks[i].waitingFor);
    FindsOwn(s.tasks, k);
  }

  lemma KillWakes(s: State, ring: seq<nat>, id: nat, code: int, i: nat)
    requires Inv(s, ring) && i < |s.tasks| && s.tasks[i].status == Blocked
    ensures var r, f := Killed(s, id, code), FindId(s.tasks, s.tasks[i].waitingFor);
            && f < |s.tasks|
            && var gone := r.tasks[f].status == Terminated || r.tasks[f].detached;
            && (r.tasks[i].status != Terminated ==> r.tasks[i].status == if gone then Ready else Blocked)
            && (r.tasks[i].status == Blocked ==> r.tasks[i].waitingFor == s.tasks[i].waitingFor)
            && (r.tasks[i].status == Terminated ==> FindId(s.tasks, id) == i)
  {
    var k := FindId(s.tasks, id);
    assert Awaited(s.tasks, s.tasks[i].waitingFor);
    if k < |s.tasks| && s.tasks[k].id != 0 && !s.tasks[k].kernel && s.tasks[k].status != Terminated && k != i {
      EndWakes(s, ring, k, code, i);
    }
  }

  lemma DetachWakes(s: State, ring: seq<nat>, i: nat)
    requires Inv(s, ring) && s.tasks[s.current].status == Running && !s.tasks[s.current].kernel
    requires i < |s.tasks| && s.tasks[i].status == Blocked
    ensures var f := FindId(s.tasks, s.tasks[i].waitingFor);
            && f < |s.tasks| && Detached(s).tasks[i].status == (if f == s.current then Ready else Blocked)
            && (f != s.current ==> Detached(s).tasks[i] == s.tasks[i])
            && (Detached(s).tasks[f].detached <==> f == s.current)
            && (Detached(s).tasks[f].status == Terminated <==> s.tasks[f].status == Terminated)
  {
    assert Awaited(s.tasks, s.tasks[i].waitingFor);
    CurrentOnTable(s, ring);
    FindsOwn(s.tasks, s.current);
  }

  // ---- the steps that keep the ring --------------------------------------------------------------------

  lemma EndKeeps(s: State, ring: seq<nat>, k: nat, code: int)
    requires Inv(s, ring) && k < |s.tasks| && s.tasks[s.current].status == Running
    ensures Inv(Ended(s, k, code), ring)
  {
    var t := s.tasks[k];
    if t.id != 0 && t.status != Terminated {
      var mid := s.tasks[k := t.(status := Terminated, exitCode := code)];
      WakeKeeps(s.tasks, mid, k);
      RingFrame(s.tasks, Woken(mid, t.id), ring);
      IdsFrame(s.tasks, Woken(mid, t.id));
    }
  }

  lemma KillKeeps(s: State, ring: seq<nat>, id: nat, code: int)
    requires Inv(s, ring) && s.tasks[s.current].status == Running
    ensures Inv(Killed(s, id, code), ring)
  {
    var k := FindId(s.tasks, id);
    if k < |s.tasks| { EndKeeps(s, ring, k, code); }
  }

  lemma DetachKeeps(s: State, ring: seq<nat>)
    requires Inv(s, ring) && s.current < |s.tasks| && s.tasks[s.current].status == Running && !s.tasks[s.current].kernel
    ensures Inv(Detached(s), ring)
  {
    var t := s.tasks[s.current];
    var mid := s.tasks[s.current := t.(detached := true)];
    CurrentOnTable(s, ring);
    assert t.id != 0;
    WakeKeeps(s.tasks, mid, s.current);
    RingFrame(s.tasks, Woken(mid, t.id), ring);
    IdsFrame(s.tasks, Woken(mid, t.id));
  }

  lemma WaitKeeps(s: State, ring: seq<nat>, id: nat)
    requires Inv(s, ring) && s.current < |s.tasks| && s.tasks[s.current].status == Running && !s.tasks[s.current].kernel
    ensures Inv(Waiting(s, id), ring)
  {
    var r := Waiting(s, id);
    RingFrame(s.tasks, r.tasks, ring);
    IdsFrame(s.tasks, r.tasks);
    forall i | 0 <= i < |r.tasks| && r.tasks[i].status == Blocked
      ensures Awaited(r.tasks, r.tasks[i].waitingFor)
    {
      FindFrame(s.tasks, r.tasks, r.tasks[i].waitingFor);
      if i != s.current { assert Awaited(s.tasks, s.tasks[i].waitingFor); }
    }
  }

  // ---- scheduling -----------------------------------------------------------------------------------

  /** The visiting order after the task at index `k` has been dispatched. */
  function Turned(ring: seq<nat>, k: nat): (r: seq<nat>)
    requires k < |ring|
    ensures |r| == |ring| && r[|ring| - 1] == ring[k]
  {
    ring[k + 1..] + ring[..k + 1]
  }

  /** Element `i` of the old order stands `k + 1` places earlier, or wrapped around. */
  lemma TurnedAt(ring: seq<nat>, k: nat, i: nat)
    requires k < |ring| && i < |ring|
    ensures Turned(ring, k)[i] == if i + k + 1 < |ring| then ring[i + k + 1] else ring[i + k + 1 - |ring|]
  {
  }

  lemma TurnedIn(ring: seq<nat>, k: nat, x: nat)
    requires k < |ring|
    ensures x in Turned(ring, k) <==> x in ring
  {
    assert ring == ring[..k + 1] + ring[k + 1..];
  }

  lemma TurnedRing(tasks: seq<Task>, ring: seq<nat>, k: nat)
    requires IsRing(tasks, ring) && k < |ring|
    ensures IsRing(tasks, Turned(ring, k))
  {
    var to, n := Turned(ring, k), |ring|;
    forall i: nat | i < n
      ensures Linked(tasks, to, i)
    {
      TurnedAt(ring, k, i);
      TurnedAt(ring, k, if i + 1 < n then i + 1 else 0);
      assert Linked(tasks, ring, if i + k + 1 < n then i + k + 1 else i + k + 1 - n);
    }
    forall i: nat, j: nat | i < j < n
      ensures Differ(to, i, j)
    {
      TurnedAt(ring, k, i);
      TurnedAt(ring, k, j);
      var a := if i + k + 1 < n then i + k + 1 else i + k + 1 - n;
      var b := if j + k + 1 < n then j + k + 1 else j + k + 1 - n;
      assert if a < b then Differ(ring, a, b) else Differ(ring, b, a);
    }
  }

  /** Task 0 is always found ready: the fallback is never taken. */
  lemma SomeoneReady(s: State, ring: seq<nat>)
    requires Inv(s, ring)
    ensures s.current < |s.tasks| && forall i :: 0 <= i < |ring| ==> ring[i] < |s.tasks|
    ensures FirstReady(Yielded(s), ring) < |ring|
  {
    CurrentOnTable(s, ring);
    forall i | 0 <= i < |ring|
      ensures ring[i] < |s.tasks|
    {
      RingMember(s.tasks, ring, i);
    }
    var z :| 0 <= z < |ring| && ring[z] == 0;
    assert Yielded(s)[ring[z]].status == Ready;
  }

  lemma ScheduleKeeps(s: State, ring: seq<nat>)
    requires Inv(s, ring) && s.current < |s.tasks| && forall i :: 0 <= i < |ring| ==> ring[i] < |s.tasks|
    requires FirstReady(Yielded(s), ring) < |ring|
    ensures Inv(Scheduled(s, ring), Turned(ring, FirstReady(Yielded(s), ring)))
  {
    var k, r := FirstReady(Yielded(s), ring), Scheduled(s, ring);
    var to := Turned(ring, k);
    RingFrame(s.tasks, r.tasks, ring);
    TurnedRing(r.tasks, ring, k);
    forall x
      ensures x in to <==> x in ring
    {
      TurnedIn(ring, k, x);
    }
    StatusKeeps(s.tasks, r.tasks);
    IdsFrame(s.tasks, r.tasks);
  }

  /** Passing between ready and running leaves waiters and their targets alone. */
  lemma StatusKeeps(a: seq<Task>, b: seq<Task>)
    requires SameIds(a, b) && NoLostWakeup(a)
    requires forall i :: 0 <= i < |a| ==> b[i] == a[i].(status := b[i].status)
    requires forall i :: 0 <= i < |a| ==>
               b[i].status == a[i].status || (b[i].status in {Ready, Running} && a[i].status in {Ready, Running})
    ensures NoLostWakeup(b)
  {
    forall i | 0 <= i < |b| && b[i].status == Blocked
      ensures Awaited(b, b[i].waitingFor)
    {
      assert Awaited(a, a[i].waitingFor);
      FindFrame(a, b, a[i].waitingFor);
    }
  }

  // ---- spawning -------------------------------------------------------------------------------------

  /** The next id can be given out: it is not 0, which marks an unused slot, and no slot but the one to
      be taken has it. */
  ghost predicate FreshId(s: State)
    requires 0 < |s.tasks|
  {
    s.nextId != 0 && forall i :: 0 <= i < |s.tasks| && i != FreeSlot(s.tasks, 1) ==> s.tasks[i].id != s.nextId
  }

  /** The slot is linked into the ring: it was never used and nothing failed. */
  predicate Links(s: State, prepared: bool, kernel: bool, fdOk: bool)
    requires 0 < |s.tasks|
  {
    var k := FreeSlot(s.tasks, 1);
    k < |s.tasks| && prepared && (kernel || fdOk) && s.tasks[k].status != Terminated
  }

  function SpawnRing(s: State, ring: seq<nat>, prepared: bool, kernel: bool, fdOk: bool): seq<nat>
    requires 0 < |s.tasks|
  {
    if Links(s, prepared, kernel, fdOk) then [FreeSlot(s.tasks, 1)] + ring else ring
  }

  /** A slot that may be taken is nobody's target. */
  lemma TakenNotAwaited(a: seq<Task>, b: seq<Task>, k: nat, id: nat)
    requires 0 < k < |a| && |b| == |a| && a[0].id == 0 && Takeable(a[k]) && Awaited(a, id) && b[k].id != id
    requires forall i :: 0 <= i < |a| && i != k ==>
               b[i].id == a[i].id && b[i].status == a[i].status && b[i].detached == a[i].detached
    ensures Awaited(b, id)
  {
    var f := FindId(a, id);
    assert f != k;
    FindUnique(b, id, f);
  }

  /** Taking a slot for a new task leaves every waiter its target. */
  lemma TakeKeeps(s: State, b: seq<Task>, k: nat)
    requires |b| == |s.tasks| > 0 && s.tasks[0].id == 0 && NoLostWakeup(s.tasks) && FreshId(s)
    requires k == FreeSlot(s.tasks, 1) < |s.tasks|
    requires b[k].id == s.nextId && b[k].status != Blocked
    requires forall i :: 0 <= i < |b| && i != k ==> b[i] == s.tasks[i].(next := b[i].next)
    ensures NoLostWakeup(b)
  {
    forall i | 0 <= i < |b| && b[i].status == Blocked
      ensures Awaited(b, b[i].waitingFor)
    {
      var w := s.tasks[i].waitingFor;
      assert Awaited(s.tasks, w);
      assert w != s.nextId;
      TakenNotAwaited(s.tasks, b, k, w);
    }
  }

  lemma InsertedRing(a: seq<Task>, b: seq<Task>, ring: seq<nat>, k: nat, current: nat)
    requires IsRing(a, ring) && |ring| > 0 && ring[|ring| - 1] == current < |a| && k < |a| && k !in ring && |b| == |a|
    requires b[k].next == a[current].next && b[current].next == k
    requires forall i :: 0 <= i < |a| && i != k && i != current ==> b[i].next == a[i].next
    ensures IsRing(b, [k] + ring)
  {
    var to, n := [k] + ring, |ring|;
    assert Linked(a, ring, n - 1);
    forall i: nat | i < n + 1
      ensures Linked(b, to, i)
    {
      if 0 < i {
        assert Linked(a, ring, i - 1);
        if i < n { assert Differ(ring, i - 1, n - 1); }
      }
    }
    forall i: nat, j: nat | i < j < n + 1
      ensures Differ(to, i, j)
    {
      if 0 < i { assert Differ(ring, i - 1, j - 1); }
    }
  }

  lemma IdsAfterSpawn(a: seq<Task>, b: seq<Task>, k: nat, id: nat)
    requires IdsUnique(a) && k < |a| == |b| && b[k].id == id
    requires forall i :: 0 <= i < |a| && i != k ==> b[i].id == a[i].id != id
    ensures IdsUnique(b)
  {
    forall i: nat, j: nat | i < j < |b|
      ensures IdsDiffer(b, i, j)
    {
      assert IdsDiffer(a, i, j);
    }
  }

  /** A slot taken without being linked: reused, or left terminated. */
  lemma SpawnInPlace(s: State, ring: seq<nat>, kernel: bool, fdOk: bool)
    requires Inv(s, ring) && FreshId(s) && s.tasks[s.current].status == Running && !Links(s, true, kernel, fdOk)
    ensures Inv(Spawned(s, true, kernel, fdOk), ring)
  {
    var k, r := FreeSlot(s.tasks, 1), Spawned(s, true, kernel, fdOk);
    if k < |s.tasks| {
      CurrentOnTable(s, ring);
      assert k != s.current;
      TakeKeeps(s, r.tasks, k);
      IdsAfterSpawn(s.tasks, r.tasks, k, s.nextId);
      RingFrame(s.tasks, r.tasks, ring);
    }
  }

  /** A slot never used before, linked in behind the current task. */
  lemma SpawnLinked(s: State, ring: seq<nat>, kernel: bool, fdOk: bool)
    requires Inv(s, ring) && FreshId(s) && s.tasks[s.current].status == Running && Links(s, true, kernel, fdOk)
    ensures Inv(Spawned(s, true, kernel, fdOk), [FreeSlot(s.tasks, 1)] + ring)
  {
    var k, r := FreeSlot(s.tasks, 1), Spawned(s, true, kernel, fdOk);
    CurrentOnTable(s, ring);
    assert k != s.current;
    TakeKeeps(s, r.tasks, k);
    IdsAfterSpawn(s.tasks, r.tasks, k, s.nextId);
    InsertedRing(s.tasks, r.tasks, ring, k, s.current);
  }

  lemma SpawnKeeps(s: State, ring: seq<nat>, prepared: bool, kernel: bool, fdOk: bool)
    requires Inv(s, ring) && FreshId(s) && s.tasks[s.current].status == Running
    ensures Inv(Spawned(s, prepared, kernel, fdOk), SpawnRing(s, ring, prepared, kernel, fdOk))
  {
    if prepared {
      if Links(s, prepared, kernel, fdOk) {
        SpawnLinked(s, ring, kernel, fdOk);
      } else {
        SpawnInPlace(s, ring, kernel, fdOk);
      }
    }
  }

  /** A spawn takes a slot: there is one, and stack, address space and program could be had. */
  ghost predicate Takes(s: State, prepared: bool)
    requires 0 < |s.tasks|
  {
    prepared && FreeSlot(s.tasks, 1) < |s.tasks|
  }

  /** The invariant holds after a spawn, and a slot it took is marked as used. */
  ghost predicate SpawnedWell(s: State, ring: seq<nat>, prepared: bool, kernel: bool, fdOk: bool)
    requires 0 < |s.tasks| && s.current < |s.tasks|
  {
    var r := Spawned(s, prepared, kernel, fdOk);
    && Inv(r, SpawnRing(s, ring, prepared, kernel, fdOk))
    && (Takes(s, prepared) ==> r.tasks[FreeSlot(s.tasks, 1)].id != 0)
  }

  /** A spawn goes well exactly when it takes no slot or the next id can be given out. */
  lemma SpawnExact(s: State, ring: seq<nat>, prepared: bool, kernel: bool, fdOk: bool)
    requires Inv(s, ring) && s.tasks[s.current].status == Running
    ensures SpawnedWell(s, ring, prepared, kernel, fdOk) <==> (Takes(s, prepared) ==> FreshId(s))
  {
    var k, r := FreeSlot(s.tasks, 1), Spawned(s, prepared, kernel, fdOk);
    CurrentOnTable(s, ring);
    if !Takes(s, prepared) {
      assert r == s;
    } else if FreshId(s) {
      SpawnKeeps(s, ring, prepared, kernel, fdOk);
    } else if s.nextId != 0 {
      var i :| 0 <= i < |s.tasks| && i != k && s.tasks[i].id == s.nextId;
      assert r.tasks[k].id == s.nextId && r.tasks[i].id == s.nextId;
      assert !(if i < k then IdsDiffer(r.tasks, i, k) else IdsDiffer(r.tasks, k, i));
    }
  }
}
