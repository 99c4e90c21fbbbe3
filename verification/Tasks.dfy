/** The task table as a state machine: what each kernel entry does to the sixteen slots and the ring
    of `next` links. */
module Tasks {
  import opened Words

  const MAX_TASKS: nat := 16

  datatype Status = Ready | Running | Blocked | Terminated

  /** The scheduling fields of `task_t`.  A slot never used has id 0 and status Ready. */
  datatype Task = Task(id: nat, status: Status, next: nat, kernel: bool, waitingFor: nat, detached: bool, exitCode: int)

  datatype State = State(tasks: seq<Task>, current: nat, nextId: nat)

  // ---- the steps ---------------------------------------------------------------------------------

  /** `task_get_by_id`: the first slot with that id, or the number of slots. */
  function FindId(tasks: seq<Task>, id: nat): (k: nat)
    ensures k <= |tasks|
    ensures k < |tasks| ==> tasks[k].id == id
    ensures forall i :: 0 <= i < k ==> tasks[i].id != id
  {
    if tasks == [] then 0 else if tasks[0].id == id then 0 else 1 + FindId(tasks[1..], id)
  }

  predicate Takeable(t: Task) { t.status == Terminated || t.id == 0 }

  /** The slot search: the first slot but 0 that is terminated or was never used. */
  function FreeSlot(tasks: seq<Task>, from: nat): (k: nat)
    requires from <= |tasks|
    ensures from <= k <= |tasks|
    ensures k < |tasks| ==> Takeable(tasks[k])
    ensures forall i :: from <= i < k ==> !Takeable(tasks[i])
    decreases |tasks| - from
  {
    if from == |tasks| || Takeable(tasks[from]) then from else FreeSlot(tasks, from + 1)
  }

  /** `task_create` and `task_create_user_elf`.  `prepared`: stack, address space and program could be
      had; `fdOk`: so could the descriptor table of a user task. */
  function Spawned(s: State, prepared: bool, kernel: bool, fdOk: bool): State
    requires 0 < |s.tasks| && s.current < |s.tasks|
  {
    var k := FreeSlot(s.tasks, 1);
    if k == |s.tasks| || !prepared then s
    else
      var t := s.tasks[k].(id := s.nextId, kernel := kernel, detached := false);
      var id := U32(s.nextId + 1);
      if !kernel && !fdOk then
        State(s.tasks[k := t.(status := Terminated)], s.current, id)
      else if s.tasks[k].status == Terminated then
        State(s.tasks[k := t.(status := Ready)], s.current, id)
      else
        var linked := s.tasks[k := t.(status := Ready, next := s.tasks[s.current].next)];
        State(linked[s.current := linked[s.current].(next := k)], s.current, id)
  }

  function WokenTask(t: Task, id: nat): Task {
    if t.status == Blocked && t.waitingFor == id then t.(status := Ready, waitingFor := 0) else t
  }

  /** Every task waiting for `id` becomes ready. */
  function Woken(tasks: seq<Task>, id: nat): (r: seq<Task>)
    ensures |r| == |tasks| && forall i :: 0 <= i < |tasks| ==> r[i] == WokenTask(tasks[i], id)
  {
    if tasks == [] then [] else [WokenTask(tasks[0], id)] + Woken(tasks[1..], id)
  }

  /** `task_terminate` */
  function Ended(s: State, k: nat, code: int): State
    requires k < |s.tasks|
  {
    var t := s.tasks[k];
    if t.id == 0 || t.status == Terminated then s
    else s.(tasks := Woken(s.tasks[k := t.(status := Terminated, exitCode := code)], t.id))
  }

  /** `task_kill` */
  function Killed(s: State, id: nat, code: int): State {
    var k := FindId(s.tasks, id);
    if k == |s.tasks| || s.tasks[k].id == 0 || s.tasks[k].kernel || s.tasks[k].status == Terminated then s
    else Ended(s, k, code)
  }

  /** `sys_do_wait` up to its yield. */
  function Waiting(s: State, id: nat): State
    requires s.current < |s.tasks|
  {
    var k := FindId(s.tasks, id);
    if k == |s.tasks| || s.tasks[k].detached || s.tasks[k].status == Terminated then s
    else s.(tasks := s.tasks[s.current := s.tasks[s.current].(waitingFor := id, status := Blocked)])
  }

  /** What `sys_do_wait` answers at once, given the table: no such task, a detached one, or an exit code. */
  function Answer(tasks: seq<Task>, id: nat): int {
    var k := FindId(tasks, id);
    if k == |tasks| then -1 else if tasks[k].detached then -3 else tasks[k].exitCode
  }

  /** What a wait that blocked answers from its target's slot when it resumes. */
  function Resumed(t: Task): int { if t.detached then -3 else t.exitCode }

  /** `sys_do_detach` */
  function Detached(s: State): State
    requires s.current < |s.tasks|
  {
    var t := s.tasks[s.current];
    s.(tasks := Woken(s.tasks[s.current := t.(detached := true)], t.id))
  }

  /** The first ready task in visiting order, or the number of tasks visited. */
  function FirstReady(tasks: seq<Task>, order: seq<nat>): (k: nat)
    requires forall i :: 0 <= i < |order| ==> order[i] < |tasks|
    ensures k <= |order|
    ensures k < |order| ==> tasks[order[k]].status == Ready
    ensures forall i :: 0 <= i < k ==> tasks[order[i]].status != Ready
    decreases |order|
  {
    if order == [] || tasks[order[0]].status == Ready then 0 else 1 + FirstReady(tasks, order[1..])
  }

  /** The current task gives up the processor. */
  function Yielded(s: State): (r: seq<Task>)
    requires s.current < |s.tasks|
    ensures |r| == |s.tasks|
  {
    if s.tasks[s.current].status == Running then s.tasks[s.current := s.tasks[s.current].(status := Ready)] else s.tasks
  }

  /** `schedule`, visiting in ring order from behind the current task; task 0 if nobody is ready. */
  function Scheduled(s: State, ring: seq<nat>): State
    requires 0 < |s.tasks| && s.current < |s.tasks| && forall i :: 0 <= i < |ring| ==> ring[i] < |s.tasks|
  {
    var tasks := Yielded(s);
    var k := FirstReady(tasks, ring);
    var to := if k < |ring| then ring[k] else 0;
    State(tasks[to := tasks[to].(status := Running)], to, s.nextId)
  }

  // ---- what every state keeps ----------------------------------------------------------------------

  ghost predicate Differ(ring: seq<nat>, i: nat, j: nat)
    requires i < |ring| && j < |ring|
  {
    ring[i] != ring[j]
  }

  ghost predicate Linked(tasks: seq<Task>, ring: seq<nat>, i: nat)
    requires i < |ring|
  {
    ring[i] < |tasks| && tasks[ring[i]].next == if i + 1 < |ring| then ring[i + 1] else ring[0]
  }

  /** The `next` links run once around `ring`, which lists the tasks in visiting order and ends with
      the current one. */
  ghost predicate IsRing(tasks: seq<Task>, ring: seq<nat>) {
    && (forall i: nat :: i < |ring| ==> Linked(tasks, ring, i))
    && (forall i: nat, j: nat :: i < j < |ring| ==> Differ(ring, i, j))
  }

  /** Whom a waiter waits for: a slot neither terminated nor detached. */
  ghost predicate Awaited(tasks: seq<Task>, id: nat) {
    var k := FindId(tasks, id);
    k < |tasks| && tasks[k].status != Terminated && !tasks[k].detached
  }

  ghost predicate NoLostWakeup(tasks: seq<Task>) {
    forall i :: 0 <= i < |tasks| && tasks[i].status == Blocked ==> Awaited(tasks, tasks[i].waitingFor)
  }

  ghost predicate IdsDiffer(tasks: seq<Task>, i: nat, j: nat)
    requires i < |tasks| && j < |tasks|
  {
    tasks[i].id != tasks[j].id || tasks[i].id == 0
  }

  /** Nonzero ids are unique. */
  ghost predicate IdsUnique(tasks: seq<Task>) {
    forall i: nat, j: nat :: i < j < |tasks| ==> IdsDiffer(tasks, i, j)
  }

  ghost predicate OneRunning(s: State) {
    forall i :: 0 <= i < |s.tasks| && s.tasks[i].status == Running ==> i == s.current
  }

  /** Task 0 is the kernel, ready or running; an unused slot is not on the ring. */
  ghost predicate Slots(tasks: seq<Task>, ring: seq<nat>) {
    && |tasks| == MAX_TASKS && 0 in ring
    && tasks[0].id == 0 && tasks[0].kernel && (tasks[0].status == Ready || tasks[0].status == Running)
    && forall i :: 1 <= i < |tasks| && tasks[i].id == 0 ==> i !in ring && tasks[i].status == Ready
  }

  ghost predicate Inv(s: State, ring: seq<nat>) {
    && Slots(s.tasks, ring) && IsRing(s.tasks, ring) && |ring| > 0 && ring[|ring| - 1] == s.current
    && s.current < |s.tasks| && s.tasks[s.current].status != Ready
    && OneRunning(s) && IdsUnique(s.tasks) && NoLostWakeup(s.tasks)
  }

  function Initial(): State {
    State(seq(MAX_TASKS, i => Task(0, if i == 0 then Running else Ready, if i == 0 then 0 else MAX_TASKS,
                                   i == 0, 0, false, 0)), 0, 1)
  }

  lemma InitialInv()
    ensures Inv(Initial(), [0])
  {
    assert Linked(Initial().tasks, [0], 0);
  }
}
