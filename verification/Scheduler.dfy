/** The kernel's task functions, on the table they change in place. */
module Scheduler {
  import opened Words
  import opened Tasks
  import opened TaskProofs

  class Kernel {
    const tasks: array<Task>
    var current: nat
    var nextId: nat

    ghost function St(): State
      reads this, tasks
    {
      State(tasks[..], current, nextId)
    }

    /** `task_init` */
    constructor ()
      ensures St() == Initial() && fresh(tasks)
    {
      tasks := new Task[MAX_TASKS](i => Task(0, Ready, MAX_TASKS, false, 0, false, 0));
      current, nextId := 0, 1;
      new;
      tasks[0] := Task(0, Running, 0, true, 0, false, 0);
      assert tasks[..] == Initial().tasks;
    }

    /** `task_get_by_id` */
    method GetById(id: nat) returns (k: nat)
      ensures k == FindId(tasks[..], id)
    {
      k := 0;
      while k < tasks.Length
        invariant k <= tasks.Length && forall i :: 0 <= i < k ==> tasks[i].id != id
      {
        if tasks[k].id == id {
          FindUnique(tasks[..], id, k);
          return;
        }
        k := k + 1;
      }
    }

    /** The slot search of both creation functions. */
    method FindSlot() returns (k: nat)
      requires tasks.Length > 0
      ensures k == FreeSlot(tasks[..], 1)
    {
      k := 1;
      while k < tasks.Length && !Takeable(tasks[k])
        invariant 1 <= k <= tasks.Length && FreeSlot(tasks[..], 1) == FreeSlot(tasks[..], k)
      {
        k := k + 1;
      }
    }

    /** `task_create` (kernel) and `task_create_user_elf` (user); the new id, or 0 on failure. */
    method Create(prepared: bool, kernel: bool, fdOk: bool) returns (id: nat)
      requires tasks.Length == MAX_TASKS && current < tasks.Length
      modifies this`nextId, tasks
      ensures St() == old(Spawned(St(), prepared, kernel, fdOk))
      ensures id == if old(nextId) != nextId && (kernel || fdOk) then old(nextId) else 0
    {
      var k := FindSlot();
      if k == tasks.Length || !prepared {
        return 0;
      }
      var reusing := tasks[k].status == Terminated;
      tasks[k] := tasks[k].(id := nextId, status := Ready, kernel := kernel, detached := false);
      id := nextId;
      nextId := U32(nextId + 1);
      if !kernel && !fdOk {
        tasks[k] := tasks[k].(status := Terminated);
        return 0;
      }
      if !reusing {
        tasks[k] := tasks[k].(next := tasks[current].next);
        tasks[current] := tasks[current].(next := k);
      }
    }

    /** The waking loop of `task_terminate` and `sys_do_detach`. */
    method Wake(id: nat)
      modifies tasks
      ensures tasks[..] == Woken(old(tasks[..]), id)
    {
      for i := 0 to tasks.Length
        invariant forall j :: 0 <= j < i ==> tasks[j] == WokenTask(old(tasks[j]), id)
        invariant forall j :: i <= j < tasks.Length ==> tasks[j] == old(tasks[j])
      {
        if tasks[i].status == Blocked && tasks[i].waitingFor == id {
          tasks[i] := tasks[i].(status := Ready, waitingFor := 0);
        }
      }
    }

    /** `task_terminate` */
    method Terminate(k: nat, code: int)
      requires k < tasks.Length
      modifies tasks
      ensures St() == old(Ended(St(), k, code))
    {
      if tasks[k].id == 0 || tasks[k].status == Terminated {
        return;
      }
      ghost var was := tasks[..];
      tasks[k] := tasks[k].(status := Terminated, exitCode := code);
      assert tasks[..] == was[k := was[k].(status := Terminated, exitCode := code)];
      Wake(tasks[k].id);
    }

    /** `task_kill` */
    method Kill(id: nat, code: int) returns (r: int)
      modifies tasks
      ensures St() == old(Killed(St(), id, code))
      ensures var k := old(FindId(tasks[..], id));
              r == if k == tasks.Length || old(tasks[..])[k].id == 0 || old(tasks[..])[k].kernel then -1
                   else if old(tasks[..])[k].status == Terminated then -2 else 0
    {
      var k := GetById(id);
      if k == tasks.Length || tasks[k].id == 0 || tasks[k].kernel {
        return -1;
      }
      if tasks[k].status == Terminated {
        return -2;
      }
      Terminate(k, code);
      r := 0;
    }

    /** `task_exit_with_code`, up to its yield. */
    method Exit(code: int)
      requires current < tasks.Length
      modifies tasks
      ensures St() == old(Ended(St(), current, code))
    {
      if tasks[current].id != 0 {
        Terminate(current, code);
      }
    }

    /** `sys_do_wait`, up to its yield: an answer at once, or the caller blocks. */
    method Wait(id: nat) returns (blocked: bool, r: int)
      requires current < tasks.Length
      modifies tasks
      ensures St() == old(Waiting(St(), id))
      ensures blocked <==> old(Awaited(tasks[..], id))
      ensures !blocked ==> r == old(Answer(tasks[..], id))
    {
      var k := GetById(id);
      if k == tasks.Length {
        return false, -1;
      }
      if tasks[k].detached {
        return false, -3;
      }
      if tasks[k].status == Terminated {
        return false, tasks[k].exitCode;
      }
      tasks[current] := tasks[current].(waitingFor := id, status := Blocked);
      return true, 0;
    }

    /** The rest of `sys_do_wait`, once the caller runs again; `k` is the slot it found before. */
    method WaitResumes(k: nat) returns (r: int)
      requires current < tasks.Length && k < tasks.Length
      modifies tasks
      ensures St() == old(St()).(tasks := old(tasks[..])[current := old(tasks[current]).(waitingFor := 0)])
      ensures r == Resumed(old(tasks[k]))
    {
      tasks[current] := tasks[current].(waitingFor := 0);
      if tasks[k].detached {
        return -3;
      }
      return tasks[k].exitCode;
    }

    /** `sys_do_detach` */
    method Detach()
      requires current < tasks.Length
      modifies tasks
      ensures St() == old(Detached(St()))
    {
      ghost var was := tasks[..];
      tasks[current] := tasks[current].(detached := true);
      assert tasks[..] == was[current := was[current].(detached := true)];
      Wake(tasks[current].id);
    }

    /** `schedule`: hand the processor to the next ready task around the ring.  It finds one before it
        is back where it started, so the fallback to task 0 is never needed. */
    method Schedule(ghost ring: seq<nat>)
      requires Inv(St(), ring)
      modifies this`current, tasks
      ensures forall i :: 0 <= i < |ring| ==> ring[i] < |old(St()).tasks|
      ensures St() == Scheduled(old(St()), ring)
      ensures FirstReady(Yielded(old(St())), ring) < |ring|
      ensures Inv(St(), Turned(ring, FirstReady(Yielded(old(St())), ring)))
    {
      ghost var s := St();
      SomeoneReady(s, ring);
      ScheduleKeeps(s, ring);
      if tasks[current].status == Running {
        tasks[current] := tasks[current].(status := Ready);
      }
      assert tasks[..] == Yielded(s);
      RingFrame(s.tasks, tasks[..], ring);
      var next := NextReady(ring);
      if tasks[next].status != Ready {
        next := 0;
      }
      current := next;
      tasks[next] := tasks[next].(status := Running);
      assert tasks[..] == Scheduled(s, ring).tasks;
    }

    /** The do-while walk of `schedule`. */
    method NextReady(ghost ring: seq<nat>) returns (next: nat)
      requires IsRing(tasks[..], ring) && |ring| > 0 && ring[|ring| - 1] == current
      requires forall i :: 0 <= i < |ring| ==> ring[i] < tasks.Length
      ensures next < tasks.Length
      ensures FirstReady(tasks[..], ring) < |ring| ==> next == ring[FirstReady(tasks[..], ring)]
    {
      RingMember(tasks[..], ring, |ring| - 1);
      assert Linked(tasks[..], ring, |ring| - 1);
      next := tasks[current].next;
      var start := next;
      ghost var i := 0;
      while tasks[next].status != Ready
        invariant i < |ring| && next == ring[i] && start == ring[0]
        invariant forall j :: 0 <= j < i ==> tasks[ring[j]].status != Ready
        decreases |ring| - i
      {
        assert Linked(tasks[..], ring, i);
        assert i + 1 < |ring| ==> Differ(ring, 0, i + 1);
        next := tasks[next].next;
        if next == start {
          return;
        }
        i := i + 1;
      }
    }
  }
}
