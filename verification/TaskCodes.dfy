/** Exit codes and task records over whole runs. */
module TaskCodes {
  import opened Words
  import opened Tasks
  import opened TaskProofs
  import opened TaskRuns

  // ---- one step ------------------------------------------------------------------------------------

  /** Ending a task records its code in its own slot, wakes those who wait for it, and changes nothing else. */
  lemma EndRecords(s: State, k: nat, code: int, i: nat)
    requires k < |s.tasks| && i < |s.tasks|
    ensures var t, u, r := s.tasks[i], s.tasks[k], Ended(s, k, code);
            && r.current == s.current && r.nextId == s.nextId && |r.tasks| == |s.tasks|
            && r.tasks[i] ==
               if u.id == 0 || u.status == Terminated then t
               else if i == k then t.(status := Terminated, exitCode := code)
               else if t.status == Blocked && t.waitingFor == u.id then t.(status := Ready, waitingFor := 0)
               else t
  {
  }

  /** The event ends the task called `id` with `code`. */
  ghost predicate Ends(s: State, e: Event, id: nat, code: int)
    requires s.current < |s.tasks|
  {
    var k := FindId(s.tasks, id);
    && id != 0 && k < |s.tasks| && s.tasks[k].status != Terminated
    && ((e == Exit(code) && s.tasks[s.current].id == id) || (e == Kill(id, code) && !s.tasks[k].kernel))
  }

  /** The task called `id` is over: whichever slot still has the id is terminated, with `code`. */
  ghost predicate Over(s: State, id: nat, code: int) {
    && 0 < id < s.nextId
    && forall k :: 0 <= k < |s.tasks| && s.tasks[k].id == id ==>
         s.tasks[k].status == Terminated && s.tasks[k].exitCode == code
  }

  lemma EndedSlot(s: State, ring: seq<nat>, e: Event, id: nat, code: int, k: nat)
    requires Inv(s, ring) && Possible(s, e) && Ends(s, e, id, code) && k == FindId(s.tasks, id)
    ensures After(s, ring, e) == Ended(s, k, code)
  {
    FindUnique2(s.tasks, s.current, k);
  }

  lemma FindUnique2(tasks: seq<Task>, i: nat, k: nat)
    requires IdsUnique(tasks) && i < |tasks| && k < |tasks|
    ensures tasks[i].id == tasks[k].id != 0 ==> i == k
  {
    if i < k { assert IdsDiffer(tasks, i, k); }
    if k < i { assert IdsDiffer(tasks, k, i); }
  }

  lemma EndsOver(s: State, ring: seq<nat>, e: Event, id: nat, code: int)
    requires Inv(s, ring) && Young(s) && Possible(s, e) && Ends(s, e, id, code)
    ensures Over(After(s, ring, e), id, code)
  {
    var k := FindId(s.tasks, id);
    EndedSlot(s, ring, e, id, code, k);
    forall i | 0 <= i < |s.tasks| && Ended(s, k, code).tasks[i].id == id
      ensures Ended(s, k, code).tasks[i].status == Terminated && Ended(s, k, code).tasks[i].exitCode == code
    {
      EndRecords(s, k, code, i);
      FindUnique2(s.tasks, i, k);
    }
  }

  /** A terminated slot is touched by nothing but a spawn that takes it. */
  lemma TerminatedKept(s: State, ring: seq<nat>, e: Event, i: nat)
    requires Inv(s, ring) && Possible(s, e) && i < |s.tasks| && s.tasks[i].status == Terminated
    ensures |After(s, ring, e).tasks| == |s.tasks|
    ensures After(s, ring, e).tasks[i] == s.tasks[i] || (e.Spawn? && After(s, ring, e).tasks[i].id == s.nextId)
  {
    match e
    case Spawn(prepared, kernel, fdOk) =>
    case Tick => SomeoneReady(s, ring);
    case Exit(code) => EndRecords(s, s.current, code, i);
    case Kill(id, code) => if FindId(s.tasks, id) < |s.tasks| { EndRecords(s, FindId(s.tasks, id), code, i); }
    case Wait(_) =>
    case Detach =>
  }

  lemma OverStep(s: State, ring: seq<nat>, e: Event, id: nat, code: int)
    requires Inv(s, ring) && Young(s) && s.nextId + Cost(e) < TWO32 && Possible(s, e) && Over(s, id, code)
    ensures Over(After(s, ring, e), id, code)
  {
    var r := After(s, ring, e);
    NextIdGrows(s, ring, e);
    forall i | 0 <= i < |r.tasks| && r.tasks[i].id == id
      ensures r.tasks[i].status == Terminated && r.tasks[i].exitCode == code
    {
      IdsStay(s, ring, e, i);
      TerminatedKept(s, ring, e, i);
    }
  }

  lemma NextIdGrows(s: State, ring: seq<nat>, e: Event)
    requires Inv(s, ring) && s.nextId + Cost(e) < TWO32
    ensures s.nextId <= After(s, ring, e).nextId
  {
    if !e.Spawn? { IdsKept(s, ring, e); }
  }

  /** A slot keeps its id, or a spawn gives it the next one. */
  lemma IdsStay(s: State, ring: seq<nat>, e: Event, i: nat)
    requires Inv(s, ring) && i < |After(s, ring, e).tasks|
    ensures |After(s, ring, e).tasks| == |s.tasks|
    ensures After(s, ring, e).tasks[i].id == s.tasks[i].id || (e.Spawn? && After(s, ring, e).tasks[i].id == s.nextId)
  {
    if !e.Spawn? { IdsKept(s, ring, e); }
  }

  // ---- whole runs ----------------------------------------------------------------------------------

  lemma {:induction false} OverRuns(s: State, ring: seq<nat>, es: seq<Event>, s2: State, ring2: seq<nat>, id: nat,
                                    code: int)
    requires Inv(s, ring) && Young(s) && s.nextId + Spawns(es) < TWO32 && Runs(s, ring, es, s2, ring2)
    requires Over(s, id, code)
    ensures Over(s2, id, code)
    decreases |es|
  {
    if es != [] {
      YoungEnabled(s, ring, es[0]);
      OverStep(s, ring, es[0], id, code);
      OverRuns(After(s, ring, es[0]), RingAfter(s, ring, es[0]), es[1..], s2, ring2, id, code);
    }
  }

  /** A task that has ended stays ended: in every later state, whatever happened in between, a slot that still has its
      id is terminated with its code, and waiting for it answers that code unless it had detached. */
  lemma CodeKept(s: State, ring: seq<nat>, e: Event, es: seq<Event>, s2: State, ring2: seq<nat>, id: nat, code: int)
    requires Inv(s, ring) && Young(s) && s.nextId + Spawns([e] + es) < TWO32 && Runs(s, ring, [e] + es, s2, ring2)
    requires Ends(s, e, id, code)
    ensures forall k :: 0 <= k < |s2.tasks| && s2.tasks[k].id == id ==>
              s2.tasks[k].status == Terminated && s2.tasks[k].exitCode == code
    ensures var k := FindId(s2.tasks, id);
            !Awaited(s2.tasks, id) && Answer(s2.tasks, id) ==
              if k == |s2.tasks| then -1 else if s2.tasks[k].detached then -3 else code
  {
    assert ([e] + es)[1..] == es;
    YoungEnabled(s, ring, e);
    EndsOver(s, ring, e, id, code);
    OverRuns(After(s, ring, e), RingAfter(s, ring, e), es, s2, ring2, id, code);
  }

  /** So a task that blocked in a wait for `id`, found in slot `k`, answers with its code when it resumes while the slot
      still has the id. */
  lemma ResumedAnswer(s: State, ring: seq<nat>, e: Event, es: seq<Event>, s2: State, ring2: seq<nat>, id: nat,
                      code: int, k: nat)
    requires Inv(s, ring) && Young(s) && s.nextId + Spawns([e] + es) < TWO32 && Runs(s, ring, [e] + es, s2, ring2)
    requires Ends(s, e, id, code) && k < |s2.tasks| && s2.tasks[k].id == id
    ensures Resumed(s2.tasks[k]) == if s2.tasks[k].detached then -3 else code
  {
    CodeKept(s, ring, e, es, s2, ring2, id, code);
  }

  // ---- a slot taken again before the waiter runs -----------------------------------------------------

  /** The first three slots used, the kernel in slot 0. */
  function Table(status: Status, next: nat, one: Task, two: Task): seq<Task> {
    [Task(0, status, next, true, 0, false, 0), one, two] +
    seq(MAX_TASKS - 3, _ => Task(0, Ready, MAX_TASKS, false, 0, false, 0))
  }

  function Unused(): Task { Task(0, Ready, MAX_TASKS, false, 0, false, 0) }

  function User(id: nat, status: Status, next: nat, waitingFor: nat, code: int): Task {
    Task(id, status, next, false, waitingFor, false, code)
  }

  /** The states the run goes through: two user tasks start, the second waits for the first, which exits with 3; the
      kernel then starts a third task, in the slot of the first, and kills it with 5. */
  function Stage(n: nat): State {
    match n
    case 0 => State(Table(Running, 0, Unused(), Unused()), 0, 1)
    case 1 => State(Table(Running, 1, User(1, Ready, 0, 0, 0), Unused()), 0, 2)
    case 2 => State(Table(Running, 2, User(1, Ready, 0, 0, 0), User(2, Ready, 1, 0, 0)), 0, 3)
    case 3 => State(Table(Ready, 2, User(1, Ready, 0, 0, 0), User(2, Running, 1, 0, 0)), 2, 3)
    case 4 => State(Table(Ready, 2, User(1, Ready, 0, 0, 0), User(2, Blocked, 1, 1, 0)), 2, 3)
    case 5 => State(Table(Ready, 2, User(1, Running, 0, 0, 0), User(2, Blocked, 1, 1, 0)), 1, 3)
    case 6 => State(Table(Ready, 2, User(1, Terminated, 0, 0, 3), User(2, Ready, 1, 0, 0)), 1, 3)
    case 7 => State(Table(Running, 2, User(1, Terminated, 0, 0, 3), User(2, Ready, 1, 0, 0)), 0, 3)
    case 8 => State(Table(Running, 2, User(3, Ready, 0, 0, 3), User(2, Ready, 1, 0, 0)), 0, 4)
    case 9 => State(Table(Running, 2, User(3, Terminated, 0, 0, 5), User(2, Ready, 1, 0, 0)), 0, 4)
    case _ => State(Table(Ready, 2, User(3, Terminated, 0, 0, 5), User(2, Running, 1, 0, 0)), 2, 4)
  }

  function StageRing(n: nat): seq<nat> {
    match n
    case 0 => [0]
    case 1 => [1, 0]
    case 2 => [2, 1, 0]
    case 3 => [1, 0, 2]
    case 4 => [1, 0, 2]
    case 5 => [0, 2, 1]
    case 6 => [0, 2, 1]
    case 7 => [2, 1, 0]
    case 8 => [2, 1, 0]
    case 9 => [2, 1, 0]
    case _ => [1, 0, 2]
  }

  function StageEvent(n: nat): Event {
    match n
    case 0 => Spawn(true, false, true)
    case 1 => Spawn(true, false, true)
    case 2 => Tick
    case 3 => Wait(1)
    case 4 => Tick
    case 5 => Exit(3)
    case 6 => Tick
    case 7 => Spawn(true, false, true)
    case 8 => Kill(3, 5)
    case _ => Tick
  }

  lemma StageSpawns(n: nat)
    requires n == 0 || n == 1 || n == 7
    ensures Spawned(Stage(n), true, false, true) == Stage(n + 1)
    ensures SpawnRing(Stage(n), StageRing(n), true, false, true) == StageRing(n + 1)
  {
    var s := Stage(n);
    assert FreeSlot(s.tasks, 1) == if n == 1 then 2 else 1;
    assert Spawned(s, true, false, true).tasks == Stage(n + 1).tasks;
  }

  lemma StageTicks(n: nat)
    requires n == 2 || n == 4 || n == 6 || n == 9
    ensures FirstReady(Yielded(Stage(n)), StageRing(n)) == 0
    ensures Scheduled(Stage(n), StageRing(n)) == Stage(n + 1)
    ensures Turned(StageRing(n), 0) == StageRing(n + 1)
  {
    assert Scheduled(Stage(n), StageRing(n)).tasks == Stage(n + 1).tasks;
  }

  lemma StageWaits()
    ensures FindId(Stage(3).tasks, 1) == 1 && Waiting(Stage(3), 1) == Stage(4)
  {
    SecondSlot(Stage(3).tasks, 1);
    assert Waiting(Stage(3), 1).tasks == Stage(4).tasks;
  }

  lemma SecondSlot(tasks: seq<Task>, id: nat)
    requires |tasks| > 1 && tasks[0].id != id && tasks[1].id == id
    ensures FindId(tasks, id) == 1
  {
    assert tasks[1..][0] == tasks[1];
  }

  lemma StageEnds(n: nat, code: int)
    requires (n == 5 && code == 3) || (n == 8 && code == 5)
    ensures Ended(Stage(n), 1, code) == Stage(n + 1)
  {
    var r := Ended(Stage(n), 1, code);
    forall i | 0 <= i < MAX_TASKS
      ensures r.tasks[i] == Stage(n + 1).tasks[i]
    {
      EndRecords(Stage(n), 1, code, i);
    }
    assert r.tasks == Stage(n + 1).tasks;
  }

  lemma StageKills(s: State)
    requires s == Stage(8)
    ensures Killed(s, 3, 5) == Ended(s, 1, 5)
  {
    SecondSlot(s.tasks, 3);
  }

  /** The event leads from one state and ring to the next. */
  ghost predicate Hop(s: State, ring: seq<nat>, e: Event, s1: State, ring1: seq<nat>) {
    Inv(s, ring) ==> Possible(s, e) && After(s, ring, e) == s1 && RingAfter(s, ring, e) == ring1
  }

  lemma SpawnHop(s: State, ring: seq<nat>, s1: State, ring1: seq<nat>)
    requires s.current < |s.tasks| && s.tasks[s.current].status == Running
    requires Spawned(s, true, false, true) == s1 && SpawnRing(s, ring, true, false, true) == ring1
    ensures Hop(s, ring, Spawn(true, false, true), s1, ring1)
  {
  }

  lemma TickHop(s: State, ring: seq<nat>, s1: State, ring1: seq<nat>)
    requires s.current < |s.tasks| && ring != [] && forall i :: 0 <= i < |ring| ==> ring[i] < |s.tasks|
    requires FirstReady(Yielded(s), ring) == 0 && Scheduled(s, ring) == s1 && Turned(ring, 0) == ring1
    ensures Hop(s, ring, Tick, s1, ring1)
  {
  }

  lemma ActHop(s: State, ring: seq<nat>, e: Event, s1: State)
    requires s.current < |s.tasks| && s.tasks[s.current].status == Running
    requires (e.Wait? && !s.tasks[s.current].kernel && Waiting(s, e.id) == s1)
             || (e.Exit? && Ended(s, s.current, e.code) == s1) || (e.Kill? && Killed(s, e.id, e.code) == s1)
    ensures Hop(s, ring, e, s1, ring)
  {
  }

  lemma StageHops(n: nat)
    requires n < 10
    ensures Hop(Stage(n), StageRing(n), StageEvent(n), Stage(n + 1), StageRing(n + 1))
  {
    if n == 0 || n == 1 || n == 7 {
      StageSpawns(n);
      SpawnHop(Stage(n), StageRing(n), Stage(n + 1), StageRing(n + 1));
    } else if n == 3 || n == 5 || n == 8 {
      StageActs(n);
      ActHop(Stage(n), StageRing(n), StageEvent(n), Stage(n + 1));
    } else {
      StageTicks(n);
      TickHop(Stage(n), StageRing(n), Stage(n + 1), StageRing(n + 1));
    }
  }

  lemma StageActs(n: nat)
    requires n == 3 || n == 5 || n == 8
    ensures n == 3 ==> Waiting(Stage(3), 1) == Stage(4)
    ensures n == 5 ==> Ended(Stage(5), 1, 3) == Stage(6)
    ensures n == 8 ==> Killed(Stage(8), 3, 5) == Stage(9)
  {
    if n == 3 {
      StageWaits();
    } else if n == 5 {
      StageEnds(5, 3);
    } else {
      StageKills(Stage(8));
      StageEnds(8, 5);
    }
  }

  ghost predicate Hops(states: seq<State>, rings: seq<seq<nat>>, es: seq<Event>) {
    && |states| == |rings| == |es| + 1
    && forall i :: 0 <= i < |es| ==> Hop(states[i], rings[i], es[i], states[i + 1], rings[i + 1])
  }

  lemma {:induction false} FewSpawns(es: seq<Event>)
    ensures Spawns(es) <= |es|
    decreases |es|
  {
    if es != [] { FewSpawns(es[1..]); }
  }

  /** States each an event after the one before are a run. */
  lemma {:induction false} HopsRun(states: seq<State>, rings: seq<seq<nat>>, es: seq<Event>)
    requires Hops(states, rings, es) && Inv(states[0], rings[0]) && Young(states[0])
    requires states[0].nextId + |es| < TWO32
    ensures states[0].nextId + Spawns(es) < TWO32
    ensures Runs(states[0], rings[0], es, states[|es|], rings[|es|])
    decreases |es|
  {
    FewSpawns(es);
    if es != [] {
      assert Hop(states[0], rings[0], es[0], states[1], rings[1]);
      YoungEnabled(states[0], rings[0], es[0]);
      HopsTail(states, rings, es);
      HopsRun(states[1..], rings[1..], es[1..]);
    }
  }

  lemma HopsTail(states: seq<State>, rings: seq<seq<nat>>, es: seq<Event>)
    requires Hops(states, rings, es) && es != []
    ensures Hops(states[1..], rings[1..], es[1..])
  {
    forall i | 0 <= i < |es[1..]|
      ensures Hop(states[1..][i], rings[1..][i], es[1..][i], states[1..][i + 1], rings[1..][i + 1])
    {
      assert Hop(states[i + 1], rings[i + 1], es[i + 1], states[i + 2], rings[i + 2]);
    }
  }

  lemma StageBoot()
    ensures Stage(0) == Initial() && StageRing(0) == [0]
  {
    assert Initial().tasks == Stage(0).tasks;
  }

  /** What the run shows: task 2, in slot 2, waits for task 1, which it found in slot 1; task 1 exits; at the end task
      2 runs again and slot 1 has another task's code. */
  ghost predicate Story(waits: State, blocked: State, exits: State, end: State) {
    && |waits.tasks| > 2 && waits.current == 2 && waits.tasks[2].id == 2 && FindId(waits.tasks, 1) == 1
    && blocked == Waiting(waits, 1) && |blocked.tasks| > 2 && blocked.tasks[2].status == Blocked
    && exits.current < |exits.tasks| && exits.tasks[exits.current].id == 1
    && |end.tasks| > 2 && end.current == 2 && end.tasks[2].id == 2
    && end.tasks[1].id == 3 && Resumed(end.tasks[1]) == 5
  }

  lemma StageFacts()
    ensures Story(Stage(3), Stage(4), Stage(5), Stage(10))
    ensures StageEvent(3) == Wait(1) && StageEvent(5) == Exit(3) && forall n :: 5 <= n < 10 ==> Stage(n).current != 2
  {
    StageWaits();
  }

  /** A wait can answer with another task's code.  In a run from boot task 2 waits for task 1, which exits with 3; when
      task 2 runs again, its target's slot has been taken by task 3, which was killed with 5. */
  lemma StaleAnswer(es: seq<Event>)
    requires es == seq(10, n requires 0 <= n < 10 => StageEvent(n))
    ensures Inv(Initial(), [0]) && Young(Initial()) && 1 + Spawns(es) < TWO32
    ensures Runs(Initial(), [0], es, Stage(10), StageRing(10)) && Story(Stage(3), Stage(4), Stage(5), Stage(10))
    ensures es[3] == Wait(1) && es[5] == Exit(3) && forall n :: 5 <= n < 10 ==> Stage(n).current != 2
  {
    InitialInv();
    StageBoot();
    var states, rings := seq(11, n requires 0 <= n < 11 => Stage(n)), seq(11, n requires 0 <= n < 11 => StageRing(n));
    forall i | 0 <= i < 10
      ensures Hop(states[i], rings[i], es[i], states[i + 1], rings[i + 1])
    {
      StageHops(i);
    }
    HopsRun(states, rings, es);
    StageFacts();
  }

  // ---- records -------------------------------------------------------------------------------------

  /** A kernel task is ended by nobody but itself. */
  lemma KernelEndsItself(s: State, ring: seq<nat>, e: Event, i: nat)
    requires Inv(s, ring) && Possible(s, e) && i < |s.tasks| && s.tasks[i].kernel && s.tasks[i].status != Terminated
    requires s.tasks[i].id != 0
    ensures |After(s, ring, e).tasks| == |s.tasks|
    ensures After(s, ring, e).tasks[i].kernel && After(s, ring, e).tasks[i].id == s.tasks[i].id
    ensures After(s, ring, e).tasks[i].status == Terminated ==> e.Exit? && i == s.current
  {
    match e
    case Spawn(prepared, kernel, fdOk) =>
    case Tick => SomeoneReady(s, ring);
    case Exit(code) => EndRecords(s, s.current, code, i);
    case Kill(id, code) => if FindId(s.tasks, id) < |s.tasks| { KillSpares(s, id, code, i); }
    case Wait(_) =>
    case Detach =>
  }

  lemma KillSpares(s: State, id: nat, code: int, i: nat)
    requires i < |s.tasks| && s.tasks[i].kernel && FindId(s.tasks, id) < |s.tasks|
    ensures var r := Killed(s, id, code).tasks;
            |r| == |s.tasks| && r[i].kernel && r[i].id == s.tasks[i].id &&
            (r[i].status == Terminated ==> s.tasks[i].status == Terminated)
  {
    EndRecords(s, FindId(s.tasks, id), code, i);
  }

  /** A wait blocks its caller for that id, or changes nothing; a detach marks its caller and wakes who waits for it. */
  lemma WaitRecords(s: State, id: nat, i: nat)
    requires s.current < |s.tasks| && i < |s.tasks|
    ensures var r := Waiting(s, id);
            && r.current == s.current && r.nextId == s.nextId && |r.tasks| == |s.tasks|
            && r.tasks[i] == if Awaited(s.tasks, id) && i == s.current
                             then s.tasks[i].(status := Blocked, waitingFor := id) else s.tasks[i]
  {
  }

  lemma DetachRecords(s: State, i: nat)
    requires s.current < |s.tasks| && i < |s.tasks| && s.tasks[s.current].status == Running
    ensures var t, r := s.tasks[i], Detached(s);
            && r.current == s.current && r.nextId == s.nextId && |r.tasks| == |s.tasks|
            && r.tasks[i] ==
               if i == s.current then t.(detached := true)
               else if t.status == Blocked && t.waitingFor == s.tasks[s.current].id
               then t.(status := Ready, waitingFor := 0) else t
  {
  }

  /** A spawn that takes a slot makes one task there, of the kind asked for and ready, or terminated for want of a
      descriptor table; no other record changes but the running task's link. */
  lemma SpawnRecords(s: State, prepared: bool, kernel: bool, fdOk: bool, i: nat)
    requires 0 < |s.tasks| && s.current < |s.tasks| && i < |s.tasks| && s.tasks[s.current].status != Terminated
    requires s.current == 0 || s.tasks[s.current].id != 0
    ensures var k, r := FreeSlot(s.tasks, 1), Spawned(s, prepared, kernel, fdOk);
            && (r == s <==> k == |s.tasks| || !prepared)
            && (r != s ==>
                  && r.nextId == U32(s.nextId + 1) && r.current == s.current
                  && r.tasks[k].id == s.nextId && r.tasks[k].kernel == kernel && !r.tasks[k].detached
                  && r.tasks[k].status == (if kernel || fdOk then Ready else Terminated)
                  && (i != k && i != s.current ==> r.tasks[i] == s.tasks[i])
                  && (i != k ==> r.tasks[i] == s.tasks[i].(next := r.tasks[i].next)))
  {
    U32Apart(s.nextId);
  }

  lemma U32Apart(n: nat)
    ensures U32(n + 1) != n
  {
  }
}
