/** Whole runs of the task table: safety in every reachable state, and bounded fairness. */
module TaskRuns {
  import opened Words
  import opened Tasks
  import opened TaskProofs

  datatype Event =
    | Spawn(prepared: bool, kernel: bool, fdOk: bool)
    | Tick
    | Exit(code: int)
    | Kill(id: nat, code: int)
    | Wait(id: nat)
    | Detach

  /** The timer may strike at any time; everything else is done by the running task, and only user
      tasks wait or detach. */
  ghost predicate Possible(s: State, e: Event)
    requires s.current < |s.tasks|
  {
    && (e.Tick? || s.tasks[s.current].status == Running)
    && (e.Wait? || e.Detach? ==> !s.tasks[s.current].kernel)
  }

  /** A possible event that does not give out an id in use. */
  ghost predicate Enabled(s: State, e: Event)
    requires s.current < |s.tasks|
  {
    Possible(s, e) && (e.Spawn? ==> FreshId(s))
  }

  ghost function After(s: State, ring: seq<nat>, e: Event): State
    requires Inv(s, ring)
  {
    match e
    case Spawn(prepared, kernel, fdOk) => Spawned(s, prepared, kernel, fdOk)
    case Tick => SomeoneReady(s, ring); Scheduled(s, ring)
    case Exit(code) => Ended(s, s.current, code)
    case Kill(id, code) => Killed(s, id, code)
    case Wait(id) => Waiting(s, id)
    case Detach => Detached(s)
  }

  ghost function RingAfter(s: State, ring: seq<nat>, e: Event): seq<nat>
    requires Inv(s, ring)
  {
    match e
    case Spawn(prepared, kernel, fdOk) => SpawnRing(s, ring, prepared, kernel, fdOk)
    case Tick => SomeoneReady(s, ring); Turned(ring, FirstReady(Yielded(s), ring))
    case _ => ring
  }

  lemma StepKeeps(s: State, ring: seq<nat>, e: Event)
    requires Inv(s, ring) && Enabled(s, e)
    ensures Inv(After(s, ring, e), RingAfter(s, ring, e))
  {
    match e
    case Spawn(prepared, kernel, fdOk) => SpawnKeeps(s, ring, prepared, kernel, fdOk);
    case Tick => SomeoneReady(s, ring); ScheduleKeeps(s, ring);
    case Exit(code) => EndKeeps(s, ring, s.current, code);
    case Kill(id, code) => KillKeeps(s, ring, id, code);
    case Wait(id) => WaitKeeps(s, ring, id);
    case Detach => DetachKeeps(s, ring);
  }

  /** The events `es`, each enabled when it happens, lead from one state to the other. */
  ghost predicate Leads(s: State, ring: seq<nat>, es: seq<Event>, s2: State, ring2: seq<nat>)
    requires Inv(s, ring)
    decreases |es|
  {
    if es == [] then s2 == s && ring2 == ring
    else
      && Enabled(s, es[0])
      && (StepKeeps(s, ring, es[0]);
          Leads(After(s, ring, es[0]), RingAfter(s, ring, es[0]), es[1..], s2, ring2))
  }

  /** Every reachable state keeps the invariant. */
  lemma {:induction false} RunKeeps(s: State, ring: seq<nat>, es: seq<Event>, s2: State, ring2: seq<nat>)
    requires Inv(s, ring) && Leads(s, ring, es, s2, ring2)
    ensures Inv(s2, ring2)
    decreases |es|
  {
    if es != [] {
      StepKeeps(s, ring, es[0]);
      RunKeeps(After(s, ring, es[0]), RingAfter(s, ring, es[0]), es[1..], s2, ring2);
    }
  }

  // ---- waking ---------------------------------------------------------------------------------------

  /** A task that waits is woken by the very step after which its target is terminated or detached, and
      by no other; only being killed itself ends the wait otherwise. */
  lemma WakesExactly(s: State, ring: seq<nat>, e: Event, i: nat)
    requires Inv(s, ring) && Enabled(s, e) && i < |s.tasks| && s.tasks[i].status == Blocked
    ensures var r, f := After(s, ring, e), FindId(s.tasks, s.tasks[i].waitingFor);
            && f < |s.tasks| == |r.tasks|
            && var gone := r.tasks[f].status == Terminated || r.tasks[f].detached;
            && (r.tasks[i].status != Terminated ==> r.tasks[i].status == if gone then Ready else Blocked)
            && (r.tasks[i].status == Blocked ==> r.tasks[i].waitingFor == s.tasks[i].waitingFor)
            && (r.tasks[i].status == Terminated ==> e.Kill? && FindId(s.tasks, e.id) == i)
  {
    assert Awaited(s.tasks, s.tasks[i].waitingFor);
    match e
    case Spawn(_, _, _) =>
    case Tick => SomeoneReady(s, ring);
    case Exit(code) => if s.tasks[s.current].id != 0 { EndWakes(s, ring, s.current, code, i); }
    case Kill(id, code) => KillWakes(s, ring, id, code, i);
    case Wait(_) =>
    case Detach => DetachWakes(s, ring, i);
  }

  // ---- ids -----------------------------------------------------------------------------------------

  ghost predicate Young(s: State) {
    s.nextId > 0 && forall i :: 0 <= i < |s.tasks| ==> s.tasks[i].id < s.nextId
  }

  /** How many ids an event can use up. */
  function Cost(e: Event): nat { if e.Spawn? then 1 else 0 }

  ghost function Spawns(es: seq<Event>): nat
    decreases |es|
  {
    if es == [] then 0 else Cost(es[0]) + Spawns(es[1..])
  }

  lemma YoungSpawn(s: State, prepared: bool, kernel: bool, fdOk: bool)
    requires |s.tasks| > 0 && s.current < |s.tasks| && Young(s) && s.nextId + 1 < TWO32
    ensures Young(Spawned(s, prepared, kernel, fdOk)) && Spawned(s, prepared, kernel, fdOk).nextId <= s.nextId + 1
  {
  }

  ghost predicate KeepsIds(s: State, r: State) { SameIds(s.tasks, r.tasks) && r.nextId == s.nextId }

  lemma IdsEnded(s: State, k: nat, code: int)
    requires k < |s.tasks|
    ensures KeepsIds(s, Ended(s, k, code))
  {
  }

  lemma IdsScheduled(s: State, ring: seq<nat>)
    requires 0 < |s.tasks| && s.current < |s.tasks| && forall i :: 0 <= i < |ring| ==> ring[i] < |s.tasks|
    ensures KeepsIds(s, Scheduled(s, ring))
  {
  }

  lemma IdsKept(s: State, ring: seq<nat>, e: Event)
    requires Inv(s, ring) && !e.Spawn?
    ensures KeepsIds(s, After(s, ring, e))
  {
    match e
    case Tick =>
      SomeoneReady(s, ring);
      IdsScheduled(s, ring);
    case Exit(code) => IdsEnded(s, s.current, code);
    case Kill(id, code) => if FindId(s.tasks, id) < |s.tasks| { IdsEnded(s, FindId(s.tasks, id), code); }
    case Wait(_) =>
    case Detach =>
  }

  lemma YoungStep(s: State, ring: seq<nat>, e: Event)
    requires Inv(s, ring) && Young(s) && s.nextId + Cost(e) < TWO32
    ensures FreshId(s) && Young(After(s, ring, e)) && After(s, ring, e).nextId <= s.nextId + Cost(e)
  {
    if e.Spawn? {
      YoungSpawn(s, e.prepared, e.kernel, e.fdOk);
    } else {
      IdsKept(s, ring, e);
    }
  }

  /** Ids that have not wrapped around can be given out whatever happens. */
  lemma YoungEnabled(s: State, ring: seq<nat>, e: Event)
    requires Inv(s, ring) && Young(s) && s.nextId + Cost(e) < TWO32 && Possible(s, e)
    ensures Inv(After(s, ring, e), RingAfter(s, ring, e))
    ensures Young(After(s, ring, e)) && After(s, ring, e).nextId <= s.nextId + Cost(e)
  {
    YoungStep(s, ring, e);
    StepKeeps(s, ring, e);
  }

  /** Any possible events, with room left in the id counter, lead from one state to the other. */
  ghost predicate Runs(s: State, ring: seq<nat>, es: seq<Event>, s2: State, ring2: seq<nat>)
    requires Inv(s, ring) && Young(s) && s.nextId + Spawns(es) < TWO32
    decreases |es|
  {
    if es == [] then s2 == s && ring2 == ring
    else
      && Possible(s, es[0])
      && (YoungEnabled(s, ring, es[0]);
          Runs(After(s, ring, es[0]), RingAfter(s, ring, es[0]), es[1..], s2, ring2))
  }

  lemma {:induction false} RunsKeep(s: State, ring: seq<nat>, es: seq<Event>, s2: State, ring2: seq<nat>)
    requires Inv(s, ring) && Young(s) && s.nextId + Spawns(es) < TWO32 && Runs(s, ring, es, s2, ring2)
    ensures Inv(s2, ring2) && Young(s2)
    decreases |es|
  {
    if es != [] {
      YoungEnabled(s, ring, es[0]);
      RunsKeep(After(s, ring, es[0]), RingAfter(s, ring, es[0]), es[1..], s2, ring2);
    }
  }

  /** From boot, every run with fewer than 2^32 - 1 spawns keeps the invariant at every point and can
      always give out the next id. */
  lemma EveryRun(es: seq<Event>, s: State, ring: seq<nat>)
    requires Spawns(es) < TWO32 - 1 && Inv(Initial(), [0]) && Runs(Initial(), [0], es, s, ring)
    ensures Inv(s, ring) && FreshId(s)
  {
    RunsKeep(Initial(), [0], es, s, ring);
  }

  /** One more event at the end of a run. */
  lemma {:induction false} LeadsOn(s: State, ring: seq<nat>, es: seq<Event>, s1: State, ring1: seq<nat>, e: Event)
    requires Inv(s, ring) && Leads(s, ring, es, s1, ring1) && Inv(s1, ring1) && Enabled(s1, e)
    ensures Leads(s, ring, es + [e], After(s1, ring1, e), RingAfter(s1, ring1, e))
    decreases |es|
  {
    var all := es + [e];
    if es == [] {
      assert all == [e] && all[1..] == [];
    } else {
      StepKeeps(s, ring, es[0]);
      LeadsOn(After(s, ring, es[0]), RingAfter(s, ring, es[0]), es[1..], s1, ring1, e);
      assert all[0] == es[0] && all[1..] == es[1..] + [e];
    }
  }

  /** The table after `n` user tasks have been started and killed one after the other, all in slot 1. */
  function Churned(n: nat): State
    requires 1 <= n
  {
    var boot := Initial().tasks;
    State(boot[1 := Task(n, Terminated, 0, false, 0, false, 0)][0 := boot[0].(next := 1)], 0, n + 1)
  }

  /** The same while the last of them is ready. */
  function Started(n: nat): State
    requires 1 <= n
  {
    var boot := Initial().tasks;
    State(boot[1 := Task(n, Ready, 0, false, 0, false, 0)][0 := boot[0].(next := 1)], 0, n + 1)
  }

  function Churn(n: nat): seq<Event> {
    if n == 0 then [] else Churn(n - 1) + [Spawn(true, false, true)] + [Kill(n, 0)]
  }

  lemma StartsOne(n: nat)
    requires 1 <= n && n + 1 < TWO32
    ensures Spawned(if n == 1 then Initial() else Churned(n - 1), true, false, true) == Started(n)
  {
    var s := if n == 1 then Initial() else Churned(n - 1);
    assert FreeSlot(s.tasks, 1) == 1;
    assert Spawned(s, true, false, true).tasks == Started(n).tasks;
  }

  lemma KillsOne(n: nat)
    requires 1 <= n
    ensures Killed(Started(n), n, 0) == Churned(n)
  {
    var s := Started(n);
    FindUnique(s.tasks, n, 1);
    assert Killed(s, n, 0).tasks == Churned(n).tasks;
  }

  lemma TableRing(tasks: seq<Task>)
    requires |tasks| > 1 && tasks[0].next == 1 && tasks[1].next == 0
    ensures IsRing(tasks, [1, 0])
  {
    assert Linked(tasks, [1, 0], 0) && Linked(tasks, [1, 0], 1) && Differ([1, 0], 0, 1);
  }

  lemma ChurnKeeps(n: nat)
    requires 1 <= n && n + 1 < TWO32
    ensures Inv(Churned(n), [1, 0]) && Inv(Started(n), [1, 0])
  {
    TableRing(Churned(n).tasks);
    TableRing(Started(n).tasks);
  }

  /** Starting and killing one more task. */
  lemma ChurnOnce(n: nat, es: seq<Event>, s: State, ring: seq<nat>)
    requires 1 <= n && n + 1 < TWO32 && Inv(Initial(), [0]) && Inv(s, ring) && Leads(Initial(), [0], es, s, ring)
    requires s == (if n == 1 then Initial() else Churned(n - 1)) && ring == if n == 1 then [0] else [1, 0]
    ensures Leads(Initial(), [0], es + [Spawn(true, false, true)] + [Kill(n, 0)], Churned(n), [1, 0])
  {
    var e, k := Spawn(true, false, true), Kill(n, 0);
    StartsOne(n);
    ChurnKeeps(n);
    assert FreeSlot(s.tasks, 1) == 1;
    assert RingAfter(s, ring, e) == [1, 0];
    LeadsOn(Initial(), [0], es, s, ring, e);
    KillsOne(n);
    LeadsOn(Initial(), [0], es + [e], Started(n), [1, 0], k);
  }

  lemma ChurnFurther(n: nat, s: State)
    requires 2 <= n && n + 1 < TWO32 && s == Churned(n - 1)
    requires Inv(Initial(), [0]) && Leads(Initial(), [0], Churn(n - 1), s, [1, 0])
    ensures Leads(Initial(), [0], Churn(n), Churned(n), [1, 0])
  {
    ChurnKeeps(n - 1);
    ChurnOnce(n, Churn(n - 1), s, [1, 0]);
  }

  /** Each of these tables is reached from boot. */
  lemma {:induction false} ChurnReached(n: nat)
    requires 1 <= n && n + 1 < TWO32
    ensures Inv(Initial(), [0]) && Leads(Initial(), [0], Churn(n), Churned(n), [1, 0])
    decreases n
  {
    InitialInv();
    if n == 1 {
      assert Churn(0) == [];
      ChurnOnce(1, [], Initial(), [0]);
    } else {
      ChurnReached(n - 1);
      ChurnFurther(n, Churned(n - 1));
    }
  }

  /** The id counter does wrap around: a run from boot leads to a table with one id left.  The spawn
      that takes it leaves the counter at 0, and the one after that puts a task with id 0 on the ring. */
  lemma IdCounterWraps()
    ensures var last := Churned(TWO32 - 2);
            && Inv(Initial(), [0]) && Leads(Initial(), [0], Churn(TWO32 - 2), last, [1, 0]) && Inv(last, [1, 0])
            && var s := Spawned(last, true, true, true);
            && s.nextId == 0 && Inv(s, [1, 0]) && !FreshId(s)
            && !Inv(Spawned(s, true, true, true), SpawnRing(s, [1, 0], true, true, true))
  {
    ChurnReached(TWO32 - 2);
    LastId(Churned(TWO32 - 2));
  }

  lemma LastId(last: State)
    requires Inv(last, [1, 0]) && last.nextId == TWO32 - 1 && last.tasks == Churned(TWO32 - 2).tasks
    requires last.current == 0
    ensures var s := Spawned(last, true, true, true);
            && s.nextId == 0 && Inv(s, [1, 0]) && !FreshId(s)
            && !Inv(Spawned(s, true, true, true), SpawnRing(s, [1, 0], true, true, true))
  {
    var s := Spawned(last, true, true, true);
    assert FreeSlot(last.tasks, 1) == 1;
    SpawnKeeps(last, [1, 0], true, true, true);
    assert FreeSlot(s.tasks, 1) == FreeSlot(s.tasks, 2) == 2;
    var r, to := Spawned(s, true, true, true), SpawnRing(s, [1, 0], true, true, true);
    assert to[0] == 2 && 2 in to && r.tasks[2].id == 0;
  }

  // ---- fairness --------------------------------------------------------------------------------------

  /** Index of `t` in the visiting order, or its length. */
  function Pos(ring: seq<nat>, t: nat): (p: nat)
    ensures p <= |ring| && (p < |ring| <==> t in ring) && (p < |ring| ==> ring[p] == t)
  {
    if ring == [] then 0 else if ring[0] == t then 0 else 1 + Pos(ring[1..], t)
  }

  lemma PosIs(tasks: seq<Task>, ring: seq<nat>, t: nat, p: nat)
    requires IsRing(tasks, ring) && p < |ring| && ring[p] == t
    ensures Pos(ring, t) == p
  {
    var q := Pos(ring, t);
    assert q < p ==> Differ(ring, q, p);
    assert p < q < |ring| ==> Differ(ring, p, q);
  }

  /** Ring distance from the current task, plus the slots not on the ring. */
  function Rank(ring: seq<nat>, t: nat): int {
    Pos(ring, t) + 1 + MAX_TASKS - |ring|
  }

  lemma {:induction false} RingFits(ring: seq<nat>, n: nat)
    requires (forall i: nat :: i < |ring| ==> ring[i] < n)
    requires (forall i: nat, j: nat :: i < j < |ring| ==> Differ(ring, i, j))
    ensures |ring| <= n
    decreases n
  {
    if |ring| > 0 {
      assert ring[0] < n;
      if n - 1 in ring {
        var k :| 0 <= k < |ring| && ring[k] == n - 1;
        var rest := ring[..k] + ring[k + 1..];
        forall i: nat | i < |rest|
          ensures rest[i] < n - 1
        {
          var j := if i < k then i else i + 1;
          assert if j < k then Differ(ring, j, k) else Differ(ring, k, j);
        }
        forall i: nat, j: nat | i < j < |rest|
          ensures Differ(rest, i, j)
        {
          assert Differ(ring, if i < k then i else i + 1, if j < k then j else j + 1);
        }
        RingFits(rest, n - 1);
      } else {
        RingFits(ring, n - 1);
      }
    }
  }

  /** A ready task on the ring has rank 1 to 15. */
  lemma RankRange(s: State, ring: seq<nat>, t: nat)
    requires Inv(s, ring) && t in ring && t < |s.tasks| && s.tasks[t].status == Ready
    ensures 1 <= Rank(ring, t) <= MAX_TASKS - 1
  {
    forall i: nat | i < |ring|
      ensures ring[i] < MAX_TASKS
    {
      RingMember(s.tasks, ring, i);
    }
    RingFits(ring, MAX_TASKS);
    assert Pos(ring, t) != |ring| - 1;
  }

  /** A scheduling call dispatches the task or brings it nearer. */
  lemma TickRank(s: State, ring: seq<nat>, t: nat)
    requires Inv(s, ring) && t in ring && t < |s.tasks| && s.tasks[t].status == Ready
    ensures After(s, ring, Tick).current == t || Rank(RingAfter(s, ring, Tick), t) < Rank(ring, t)
    ensures t in RingAfter(s, ring, Tick)
  {
    SomeoneReady(s, ring);
    var k, p := FirstReady(Yielded(s), ring), Pos(ring, t);
    assert t != s.current;
    assert Yielded(s)[ring[p]].status == Ready;
    TurnedIn(ring, k, t);
    if k < p {
      TurnedRing(s.tasks, ring, k);
      TurnedAt(ring, k, p - k - 1);
      PosIs(s.tasks, Turned(ring, k), t, p - k - 1);
    }
  }

  /** No other step takes it further away. */
  lemma OtherRank(s: State, ring: seq<nat>, t: nat, e: Event)
    requires Inv(s, ring) && Enabled(s, e) && t in ring && !e.Tick?
    ensures t in RingAfter(s, ring, e) && Rank(RingAfter(s, ring, e), t) == Rank(ring, t)
  {
    if e.Spawn? && Links(s, e.prepared, e.kernel, e.fdOk) {
      var k := FreeSlot(s.tasks, 1);
      assert k != t;
      assert ([k] + ring)[1..] == ring;
    }
  }

  ghost function Ticks(es: seq<Event>): nat
    decreases |es|
  {
    if es == [] then 0 else (if es[0].Tick? then 1 else 0) + Ticks(es[1..])
  }

  /** Task `t` is ready, and not dispatched, throughout. */
  ghost predicate StaysReady(s: State, ring: seq<nat>, es: seq<Event>, t: nat)
    requires Inv(s, ring)
    decreases |es|
  {
    && t < |s.tasks| && s.tasks[t].status == Ready
    && (es != [] ==>
          && Enabled(s, es[0])
          && (StepKeeps(s, ring, es[0]);
              StaysReady(After(s, ring, es[0]), RingAfter(s, ring, es[0]), es[1..], t)))
  }

  lemma {:induction false} RankFalls(s: State, ring: seq<nat>, es: seq<Event>, t: nat)
    requires Inv(s, ring) && StaysReady(s, ring, es, t) && t in ring
    ensures Ticks(es) + 1 <= Rank(ring, t)
    decreases |es|
  {
    if es == [] {
      RankRange(s, ring, t);
    } else {
      var e := es[0];
      StepKeeps(s, ring, e);
      var s1, r1 := After(s, ring, e), RingAfter(s, ring, e);
      assert s1.tasks[t].status == Ready;
      if e.Tick? {
        TickRank(s, ring, t);
      } else {
        OtherRank(s, ring, t, e);
      }
      RankFalls(s1, r1, es[1..], t);
    }
  }

  /** Bounded fairness: a task on the ring that stays ready sees at most 14 scheduling calls that pass
      it over; the fifteenth dispatches it. */
  lemma Fair(s: State, ring: seq<nat>, es: seq<Event>, t: nat)
    requires Inv(s, ring) && StaysReady(s, ring, es, t) && t in ring
    ensures Ticks(es) <= MAX_TASKS - 2
  {
    RankFalls(s, ring, es, t);
    RankRange(s, ring, t);
  }

  // ---- slots off the ring -----------------------------------------------------------------------------

  /** Every slot ever used is on the ring. */
  ghost predicate AllLinked(tasks: seq<Task>, ring: seq<nat>) {
    forall i :: 0 <= i < |tasks| && tasks[i].id != 0 ==> i in ring
  }

  /** The one step that leaves a slot off the ring: a descriptor table that cannot be had for a task
      in a slot never used before. */
  ghost predicate Strands(s: State, e: Event)
    requires 0 < |s.tasks|
  {
    && e.Spawn? && e.prepared && !e.kernel && !e.fdOk
    && var k := FreeSlot(s.tasks, 1);
    && k < |s.tasks| && s.tasks[k].status != Terminated
  }

  lemma LinkedExact(s: State, ring: seq<nat>, e: Event)
    requires Inv(s, ring) && Enabled(s, e) && AllLinked(s.tasks, ring)
    ensures AllLinked(After(s, ring, e).tasks, RingAfter(s, ring, e)) <==> !Strands(s, e)
  {
    var r, to := After(s, ring, e), RingAfter(s, ring, e);
    if e.Tick? {
      SomeoneReady(s, ring);
      forall x
        ensures x in to <==> x in ring
      {
        TurnedIn(ring, FirstReady(Yielded(s), ring), x);
      }
    }
    if Strands(s, e) { assert r.tasks[FreeSlot(s.tasks, 1)].id != 0; }
  }

  /** A used slot off the ring stays off it and never runs. */
  lemma {:induction false} StrandedForever(s: State, ring: seq<nat>, es: seq<Event>, s2: State, ring2: seq<nat>, t: nat)
    requires Inv(s, ring) && Leads(s, ring, es, s2, ring2) && t < |s.tasks| && s.tasks[t].id != 0 && t !in ring
    ensures t !in ring2 && s2.current != t
    decreases |es|
  {
    if es != [] {
      StepKeeps(s, ring, es[0]);
      StrandedStep(s, ring, es[0], t);
      StrandedForever(After(s, ring, es[0]), RingAfter(s, ring, es[0]), es[1..], s2, ring2, t);
    }
  }

  lemma StrandedStep(s: State, ring: seq<nat>, e: Event, t: nat)
    requires Inv(s, ring) && Enabled(s, e) && t < |s.tasks| && s.tasks[t].id != 0 && t !in ring
    ensures var r := After(s, ring, e); t < |r.tasks| && r.tasks[t].id != 0 && t !in RingAfter(s, ring, e)
  {
    if e.Tick? {
      SomeoneReady(s, ring);
      TurnedIn(ring, FirstReady(Yielded(s), ring), t);
    }
  }

  /** Such a slot can be had: a failed spawn strands slot 1, and the next spawn takes it, ready but unreachable. */
  lemma StrandedTask()
    ensures var s1 := Spawned(Initial(), true, false, false);
            var s2 := Spawned(s1, true, false, true);
            && s2.tasks[1].id == 2 && s2.tasks[1].status == Ready
            && 1 !in SpawnRing(s1, SpawnRing(Initial(), [0], true, false, false), true, false, true)
  {
    var s1 := Spawned(Initial(), true, false, false);
    assert FreeSlot(Initial().tasks, 1) == 1;
    assert FreeSlot(s1.tasks, 1) == 1;
  }
}
