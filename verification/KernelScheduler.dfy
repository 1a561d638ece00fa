/** scheduler.c: the global task list, pointers and counters, changed in place by each call. */
module KernelScheduler {
  import opened Words
  import opened SchedulerModel

  class Scheduler {
    var tasks: seq<Task>
    var current: int
    var last: int
    var totalTasks: int
    var tickCounter: int
    var totalDispatches: int
    var totalYields: int
    var ready: bool
    var pending: bool
    var inThread: bool

    /** The state of the machine in SchedulerModel. */
    ghost function View(): Sched
      reads this
    {
      Sched(tasks, current, last, tickCounter, totalDispatches, totalYields, pending, inThread)
    }

    ghost predicate Valid()
      reads this
    {
      ready && totalTasks == |tasks| && Inv(View())
    }

    /** scheduler_init */
    constructor ()
      ensures Valid() && View() == Initial()
    {
      tasks := [NewTask(true)];
      current, last := 0, 0;
      totalTasks := 1;
      tickCounter, totalDispatches, totalYields := 0, 0, 0;
      inThread := false;
      pending := true;
      ready := true;
      new;
      InitialInv();
    }

    /** scheduler_next_task_after */
    function NextTaskAfter(i: int): int
      reads this
    {
      if i + 1 < |tasks| then i + 1 else 0
    }

    /** scheduler_stack_guard_ok: the idle task has no stack of its own. */
    predicate StackGuardOk(i: int)
      requires 0 <= i < |tasks|
      reads this
    {
      tasks[i].isIdle || tasks[i].guardOk
    }

    /** scheduler_has_ready_non_idle_task */
    method HasReadyNonIdle() returns (found: bool)
      requires totalTasks == |tasks|
      ensures found <==> HasReady(tasks)
    {
      var i := 0;
      while i < |tasks| && i < totalTasks
        invariant 0 <= i <= |tasks|
        invariant forall j :: 0 <= j < i ==> !Runnable(tasks[j])
      {
        if !tasks[i].isIdle && tasks[i].state == Ready {
          assert Runnable(tasks[i]);
          return true;
        }
        i := i + 1;
      }
      return false;
    }

    /** scheduler_pick_next_task */
    method PickNextTask() returns (p: int)
      requires Valid()
      ensures p == Pick(View())
    {
      PickIsNext(View());
      var preferNonIdle := HasReadyNonIdle();
      var i := NextTaskAfter(last);
      var count := 0;
      while count < totalTasks
        invariant 0 <= i < |tasks| && 0 <= count <= |tasks|
        invariant preferNonIdle ==> Pick(View()) == Scan(tasks, i, |tasks| - count)
        decreases totalTasks - count
      {
        if tasks[i].state == Ready {
          if !preferNonIdle || !tasks[i].isIdle {
            assert !preferNonIdle ==> !Runnable(tasks[i]);
            return i;
          }
        }
        i := NextTaskAfter(i);
        count := count + 1;
      }
      return 0;
    }

    /** scheduler_create_kernel_thread: fails without a name, an entry point or memory for task and stack. */
    method CreateKernelThread(hasName: bool, hasEntry: bool, taskMemory: bool, stackMemory: bool) returns (created: bool)
      requires ready ==> Valid()
      modifies this
      ensures ready == old(ready) && (ready ==> Valid())
      ensures created <==> ready && hasName && hasEntry && taskMemory && stackMemory
      ensures View() == if ready then Step(old(View()), Create(created)) else old(View())
    {
      if !ready || !hasName || !hasEntry || !taskMemory || !stackMemory {
        return false;
      }
      StepInv(View(), Create(true));
      tasks := tasks + [NewTask(false)];
      totalTasks := totalTasks + 1;
      pending := true;
      return true;
    }

    /** scheduler_handle_tick */
    method HandleTick()
      requires ready ==> Valid()
      modifies this
      ensures ready == old(ready) && (ready ==> Valid())
      ensures View() == if ready then Step(old(View()), Tick) else old(View())
    {
      if !ready {
        return;
      }
      StepInv(View(), Tick);
      tickCounter := Inc(tickCounter);
      var t := tasks[current];
      t := t.(ticks := Inc(t.ticks));
      t := t.(slice := Inc(t.slice));
      if t.slice >= TIMESLICE {
        t := t.(slice := 0);
        pending := true;
      }
      tasks := tasks[current := t];
    }

    /** scheduler_mark_task_corrupt */
    method MarkTaskCorrupt(i: int)
      requires 0 <= i < |tasks|
      modifies `tasks, `pending
      ensures old(tasks[i].state) == Exited ==> tasks == old(tasks) && pending == old(pending)
      ensures old(tasks[i].state) != Exited ==> tasks == old(tasks)[i := old(tasks)[i].(state := Exited)] && pending
    {
      if tasks[i].state == Exited {
        return;
      }
      tasks := tasks[i := tasks[i].(state := Exited)];
      pending := true;
    }

    /** scheduler_dispatch up to the context switch; `switched` says whether it is reached. */
    method DispatchTask() returns (switched: bool)
      requires ready ==> Valid()
      modifies this
      ensures ready == old(ready) && (ready ==> Valid())
      ensures View() == if ready then Step(old(View()), Dispatch) else old(View())
      ensures switched <==> !old(inThread) && inThread
    {
      if !ready || inThread || !pending {
        return false;
      }
      StepInv(View(), Dispatch);
      PickIsNext(View());
      var next := PickNextTask();
      if tasks[next].isIdle {
        current := 0;
        pending := false;
        return false;
      }
      if !StackGuardOk(next) {
        MarkTaskCorrupt(next);
        return false;
      }
      last := next;
      current := next;
      var t := tasks[current];
      tasks := tasks[current := t.(state := Running, slice := 0, dispatchCount := Inc(t.dispatchCount))];
      totalDispatches := Inc(totalDispatches);
      pending := false;
      inThread := true;
      return true;
    }

    /** scheduler_dispatch after the context switch back to the kernel. */
    method ResumeInKernel()
      requires Valid() && !inThread
      modifies this
      ensures Valid() && View() == old(View())
    {
      ResumesChangeNothing(View());
      inThread := false;
      current := 0;
      var any := HasReadyNonIdle();
      if any {
        pending := true;
      }
    }

    /** scheduler_exit_current_task up to the context switch. */
    method ExitCurrentTask()
      requires 0 < current < |tasks|
      modifies this
      ensures ready == old(ready) && totalTasks == old(totalTasks) && View() == Retire(old(View()))
    {
      var t := tasks[current];
      tasks := tasks[current := t.(state := Exited, slice := 0, exitCount := Inc(t.exitCount))];
      pending := true;
      inThread := false;
      current := 0;
    }

    /** The end of scheduler_task_bootstrap: the entry function has returned. */
    method TaskReturned()
      requires Valid() && inThread
      modifies this
      ensures Valid() && View() == Step(old(View()), Exit)
    {
      StepInv(View(), Exit);
      ExitCurrentTask();
    }

    /** scheduler_yield up to the context switch. */
    method YieldCurrent()
      requires ready ==> Valid()
      modifies this
      ensures ready == old(ready) && (ready ==> Valid())
      ensures View() == if ready then Step(old(View()), Yield) else old(View())
    {
      if !ready || !inThread {
        return;
      }
      StepInv(View(), Yield);
      if !StackGuardOk(current) {
        ghost var s := View();
        MarkTaskCorrupt(current);
        ExitCurrentTask();
        assert tasks == Retire(s).tasks;
        return;
      }
      var t := tasks[current];
      totalYields := Inc(totalYields);
      tasks := tasks[current := t.(state := Ready, slice := 0, yieldCount := Inc(t.yieldCount))];
      pending := true;
      inThread := false;
      current := 0;
    }

    /** scheduler_yield after the context switch back to task `i`. */
    method ResumeInTask(i: int)
      requires Valid() && inThread && i == current
      modifies this
      ensures Valid() && View() == old(View())
    {
      ResumesChangeNothing(View());
      inThread := true;
      current := i;
      if tasks[i].state != Exited {
        tasks := tasks[i := tasks[i].(state := Running)];
      }
    }
  }
}
