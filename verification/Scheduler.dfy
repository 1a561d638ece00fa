/**
 The cooperative scheduler as a state machine over its steps.

 Tasks are numbered in list order; task 0 is the idle task, which
 scheduler_init links first.  A context switch ends one step and begins the next.
 Counters are 32-bit and wrap.
 */
module SchedulerModel {
  import opened Words

  const TIMESLICE: int := 5

  datatype RunState = Ready | Running | Exited

  datatype Task = Task(state: RunState, slice: int, ticks: int, dispatchCount: int, yieldCount: int, exitCount: int, isIdle: bool, guardOk: bool)

  datatype Sched = Sched(tasks: seq<Task>, current: int, last: int, tickCounter: int,
                         totalDispatches: int, totalYields: int, pending: bool, inThread: bool)

  /** What can happen: kernel calls, timer ticks, a stack overrun, and the code after each switch. */
  datatype Event =
    | Create(granted: bool)
    | Tick
    | Dispatch
    | Yield
    | Exit
    | ResumeKernel
    | ResumeTask
    | Smash(task: int)

  function NewTask(idle: bool): Task {
    Task(Ready, 0, 0, 0, 0, 0, idle, true)
  }

  /** The state scheduler_init leaves. */
  function Initial(): Sched {
    Sched([NewTask(true)], 0, 0, 0, 0, 0, true, false)
  }

  predicate Runnable(t: Task) {
    t.state == Ready && !t.isIdle
  }

  predicate HasReady(tasks: seq<Task>) {
    exists i :: 0 <= i < |tasks| && Runnable(tasks[i])
  }

  /** `i` is met before `t` when the list is scanned round from the one after `last`. */
  predicate Ahead(last: int, t: int, i: int) {
    i != t && if last < t then last < i < t else i > last || i < t
  }

  /** `p` is the first runnable task in that scan. */
  ghost predicate IsNext(s: Sched, p: int) {
    && 0 <= p < |s.tasks| && Runnable(s.tasks[p])
    && forall i :: 0 <= i < |s.tasks| && Runnable(s.tasks[i]) ==> !Ahead(s.last, p, i)
  }

  /** Index of the first runnable task from `i` on, scanning round, within `k` tasks; 0 if there is none. */
  function Scan(tasks: seq<Task>, i: int, k: nat): (p: int)
    requires 0 <= i < |tasks|
    ensures 0 <= p < |tasks|
    decreases k
  {
    if k == 0 then 0
    else if Runnable(tasks[i]) then i
    else Scan(tasks, After(tasks, i), k - 1)
  }

  function After(tasks: seq<Task>, i: int): int {
    if i + 1 < |tasks| then i + 1 else 0
  }

  /** scheduler_pick_next_task */
  function Pick(s: Sched): int
    requires 0 <= s.last < |s.tasks|
  {
    Scan(s.tasks, After(s.tasks, s.last), |s.tasks|)
  }

  function Retire(s: Sched): Sched
    requires 0 <= s.current < |s.tasks|
  {
    var t := s.tasks[s.current];
    s.(tasks := s.tasks[s.current := t.(state := Exited, slice := 0, exitCount := Inc(t.exitCount))],
       pending := true, inThread := false, current := 0)
  }

  function StepTick(s: Sched): Sched
    requires 0 <= s.current < |s.tasks|
  {
    var t := s.tasks[s.current];
    var expired := Inc(t.slice) >= TIMESLICE;
    s.(tickCounter := Inc(s.tickCounter),
       tasks := s.tasks[s.current := t.(ticks := Inc(t.ticks), slice := if expired then 0 else Inc(t.slice))],
       pending := s.pending || expired)
  }

  function StepDispatch(s: Sched): Sched
    requires 0 <= s.last < |s.tasks|
  {
    if s.inThread || !s.pending then s
    else
      var p := Pick(s);
      var t := s.tasks[p];
      if t.isIdle then s.(current := 0, pending := false)
      else if !t.guardOk then s.(tasks := s.tasks[p := t.(state := Exited)], pending := true)
      else s.(last := p, current := p,
              tasks := s.tasks[p := t.(state := Running, slice := 0, dispatchCount := Inc(t.dispatchCount))],
              totalDispatches := Inc(s.totalDispatches), pending := false, inThread := true)
  }

  function StepYield(s: Sched): Sched
    requires 0 <= s.current < |s.tasks|
  {
    var t := s.tasks[s.current];
    if !s.inThread || t.isIdle then s
    else if !t.guardOk then Retire(s)
    else s.(tasks := s.tasks[s.current := t.(state := Ready, slice := 0, yieldCount := Inc(t.yieldCount))],
            totalYields := Inc(s.totalYields), pending := true, inThread := false, current := 0)
  }

  function Step(s: Sched, e: Event): Sched
    requires 0 <= s.current < |s.tasks| && 0 <= s.last < |s.tasks|
  {
    match e
    case Create(granted) => if granted then s.(tasks := s.tasks + [NewTask(false)], pending := true) else s
    case Tick => StepTick(s)
    case Dispatch => StepDispatch(s)
    case Yield => StepYield(s)
    case Exit => if s.inThread && !s.tasks[s.current].isIdle then Retire(s) else s
    case ResumeKernel => if s.inThread then s else s.(current := 0, pending := s.pending || HasReady(s.tasks))
    case ResumeTask =>
      if !s.inThread then s
      else
        var t := s.tasks[s.current];
        s.(tasks := s.tasks[s.current := if t.state != Exited then t.(state := Running) else t])
    case Smash(i) => if 0 < i < |s.tasks| then s.(tasks := s.tasks[i := s.tasks[i].(guardOk := false)]) else s
  }

  // ----- safety -----

  function SumTicks(tasks: seq<Task>): int {
    if tasks == [] then 0 else tasks[0].ticks + SumTicks(tasks[1..])
  }

  function SumExits(tasks: seq<Task>): int {
    if tasks == [] then 0 else tasks[0].exitCount + SumExits(tasks[1..])
  }

  ghost predicate Shape(s: Sched) {
    && 0 <= s.current < |s.tasks| && 0 <= s.last < |s.tasks|
    && s.tasks[0].isIdle && s.tasks[0].state == Ready
    && forall i :: 0 < i < |s.tasks| ==> !s.tasks[i].isIdle
  }

  /** A running task exists exactly in thread context, is unique and is the current one. */
  ghost predicate OneRunner(s: Sched)
    requires Shape(s)
  {
    && (if s.inThread then s.current > 0 && s.tasks[s.current].state == Running else s.current == 0)
    && forall i :: 0 <= i < |s.tasks| && s.tasks[i].state == Running ==> s.inThread && i == s.current
  }

  /** A ready task outside thread context never waits without a pending reschedule. */
  ghost predicate NoLostWakeup(s: Sched) {
    !s.inThread && HasReady(s.tasks) ==> s.pending
  }

  /** Every dispatch of a task ended in a yield or an exit, or it is running now. */
  ghost predicate TaskLaw(s: Sched, i: int)
    requires 0 <= i < |s.tasks|
  {
    var t := s.tasks[i];
    Same32(t.dispatchCount, t.yieldCount + t.exitCount + if s.inThread && i == s.current then 1 else 0)
  }

  ghost predicate Counts(s: Sched) {
    && Same32(s.tickCounter, SumTicks(s.tasks))
    && Same32(s.totalDispatches, s.totalYields + SumExits(s.tasks) + if s.inThread then 1 else 0)
    && forall i :: 0 <= i < |s.tasks| ==> TaskLaw(s, i)
  }

  ghost predicate Inv(s: Sched) {
    Shape(s) && OneRunner(s) && NoLostWakeup(s) && Counts(s)
  }

  lemma {:induction false} SumSet(tasks: seq<Task>, i: nat, t: Task)
    requires i < |tasks|
    ensures SumTicks(tasks[i := t]) == SumTicks(tasks) - tasks[i].ticks + t.ticks
    ensures SumExits(tasks[i := t]) == SumExits(tasks) - tasks[i].exitCount + t.exitCount
  {
    if i == 0 {
      assert tasks[0 := t][1..] == tasks[1..];
    } else {
      SumSet(tasks[1..], i - 1, t);
      assert tasks[i := t][1..] == tasks[1..][i - 1 := t];
    }
  }

  lemma {:induction false} SumAppend(tasks: seq<Task>, t: Task)
    ensures SumTicks(tasks + [t]) == SumTicks(tasks) + t.ticks
    ensures SumExits(tasks + [t]) == SumExits(tasks) + t.exitCount
  {
    if tasks == [] {
      assert [t][1..] == [] && tasks + [t] == [t];
    } else {
      SumAppend(tasks[1..], t);
      assert (tasks + [t])[1..] == tasks[1..] + [t];
    }
  }

  /** Adding one to both sides, wrapping on either, keeps them equal modulo 2^32. */
  lemma {:induction false} SameSwap(x: int, sum: int, a: int)
    requires Same32(x, sum)
    ensures Same32(x, sum - a + Inc(a) - 1)
    ensures Same32(Inc(x), sum - a + Inc(a))
  {
    assert Inc(a) - a - 1 == -WORD * ((a + 1) / WORD);
    MultipleOfWord((a + 1) / WORD);
    assert (x - (sum - a + Inc(a) - 1)) == (x - sum) + WORD * ((a + 1) / WORD);
    AddMultiple(x - sum, (a + 1) / WORD);
    SameInc(x, sum - a + Inc(a) - 1);
  }

  lemma {:induction false} MultipleOfWord(k: int)
    ensures (WORD * k) % WORD == 0
  {
  }

  // ----- picking -----

  /** Tasks still to be looked at when the scan has reached `i`. */
  function Left(n: int, last: int, i: int): int {
    if i > last then n - i + last + 1 else last - i + 1
  }

  lemma {:induction false} ScanNext(s: Sched, i: int, k: nat)
    requires Shape(s) && 0 <= i < |s.tasks| && k == Left(|s.tasks|, s.last, i)
    requires forall j :: 0 <= j < |s.tasks| && Ahead(s.last, i, j) ==> !Runnable(s.tasks[j])
    ensures var p := Scan(s.tasks, i, k);
            if HasReady(s.tasks) then IsNext(s, p) else p == 0
    decreases k
  {
    if !Runnable(s.tasks[i]) {
      if i == s.last {
        assert Scan(s.tasks, i, k) == 0;
        assert !HasReady(s.tasks);
      } else {
        ScanNext(s, After(s.tasks, i), k - 1);
      }
    }
  }

  /** The pick is round robin: the first runnable task after the last one dispatched, or idle. */
  lemma {:induction false} PickIsNext(s: Sched)
    requires Shape(s)
    ensures if HasReady(s.tasks) then IsNext(s, Pick(s)) && Pick(s) > 0 else Pick(s) == 0
  {
    ScanNext(s, After(s.tasks, s.last), |s.tasks|);
  }

  // ----- every step keeps the invariant -----

  lemma {:induction false} InvCreate(s: Sched)
    requires Inv(s)
    ensures Inv(Step(s, Create(true)))
  {
    var s' := Step(s, Create(true));
    SumAppend(s.tasks, NewTask(false));
    assert forall i :: 0 <= i < |s.tasks| ==> s'.tasks[i] == s.tasks[i];
    forall i | 0 <= i < |s'.tasks| ensures TaskLaw(s', i) {
      if i < |s.tasks| {
        assert TaskLaw(s, i);
      }
    }
  }

  lemma {:induction false} InvTick(s: Sched)
    requires Inv(s)
    ensures Inv(Step(s, Tick))
  {
    var s' := StepTick(s);
    var t := s.tasks[s.current];
    SumSet(s.tasks, s.current, s'.tasks[s.current]);
    SameSwap(s.tickCounter, SumTicks(s.tasks), t.ticks);
    ReadyKept(s.tasks, s'.tasks);
    forall i | 0 <= i < |s'.tasks| ensures TaskLaw(s', i) {
      assert TaskLaw(s, i);
    }
  }

  /** Steps that leave every state and idle flag alone leave the ready tasks alone. */
  lemma {:induction false} ReadyKept(a: seq<Task>, b: seq<Task>)
    requires |a| == |b| && forall i :: 0 <= i < |a| ==> Runnable(b[i]) ==> Runnable(a[i])
    ensures HasReady(b) ==> HasReady(a)
  {
  }

  lemma {:induction false} InvDispatch(s: Sched)
    requires Inv(s)
    ensures Inv(Step(s, Dispatch))
  {
    if !s.inThread && s.pending {
      PickIsNext(s);
      var p := Pick(s);
      if HasReady(s.tasks) {
        DispatchKeeps(s, p);
      } else {
        assert forall i :: 0 <= i < |s.tasks| ==> TaskLaw(s, i) ==> TaskLaw(StepDispatch(s), i);
      }
    }
  }

  lemma {:induction false} DispatchKeeps(s: Sched, p: int)
    requires Inv(s) && !s.inThread && s.pending && p == Pick(s) && 0 < p && Runnable(s.tasks[p])
    ensures Inv(StepDispatch(s))
  {
    var s' := StepDispatch(s);
    var t := s.tasks[p];
    SumSet(s.tasks, p, s'.tasks[p]);
    SameInc(s.totalDispatches, s.totalYields + SumExits(s.tasks));
    assert TaskLaw(s, p);
    SameInc(t.dispatchCount, t.yieldCount + t.exitCount);
    forall i | 0 <= i < |s'.tasks| ensures TaskLaw(s', i) {
      assert TaskLaw(s, i);
    }
  }

  lemma {:induction false} InvRetire(s: Sched)
    requires Inv(s) && s.inThread
    ensures Inv(Retire(s))
  {
    var s' := Retire(s);
    var t := s.tasks[s.current];
    SumSet(s.tasks, s.current, s'.tasks[s.current]);
    SameSwap(s.totalDispatches, s.totalYields + SumExits(s.tasks) + 1, t.exitCount);
    assert TaskLaw(s, s.current);
    SameSwap(t.dispatchCount, t.yieldCount + t.exitCount + 1, t.exitCount);
    forall i | 0 <= i < |s'.tasks| ensures TaskLaw(s', i) {
      assert TaskLaw(s, i);
    }
  }

  lemma {:induction false} InvYield(s: Sched)
    requires Inv(s)
    ensures Inv(Step(s, Yield))
  {
    var t := s.tasks[s.current];
    if s.inThread && !t.guardOk {
      InvRetire(s);
    } else if s.inThread {
      var s' := StepYield(s);
      SumSet(s.tasks, s.current, s'.tasks[s.current]);
      SameSwap(s.totalDispatches, s.totalYields + SumExits(s.tasks) + 1, s.totalYields);
      assert TaskLaw(s, s.current);
      SameSwap(t.dispatchCount, t.yieldCount + t.exitCount + 1, t.yieldCount);
      forall i | 0 <= i < |s'.tasks| ensures TaskLaw(s', i) {
        assert TaskLaw(s, i);
      }
    }
  }

  lemma {:induction false} InvSmash(s: Sched, k: int)
    requires Inv(s)
    ensures Inv(Step(s, Smash(k)))
  {
    if 0 < k < |s.tasks| {
      var s' := Step(s, Smash(k));
      SumSet(s.tasks, k, s'.tasks[k]);
      ReadyKept(s.tasks, s'.tasks);
      forall i | 0 <= i < |s'.tasks| ensures TaskLaw(s', i) {
        assert TaskLaw(s, i);
      }
    }
  }

  /** The code after each context switch finds everything already as it would set it. */
  lemma {:induction false} ResumesChangeNothing(s: Sched)
    requires Inv(s)
    ensures Step(s, ResumeKernel) == s && Step(s, ResumeTask) == s
  {
    if s.inThread {
      assert s.tasks[s.current := s.tasks[s.current]] == s.tasks;
    }
  }

  lemma {:induction false} StepInv(s: Sched, e: Event)
    requires Inv(s)
    ensures Inv(Step(s, e))
  {
    match e {
      case Create(granted) => if granted { InvCreate(s); }
      case Tick => InvTick(s);
      case Dispatch => InvDispatch(s);
      case Yield => InvYield(s);
      case Exit => if s.inThread { InvRetire(s); }
      case ResumeKernel => ResumesChangeNothing(s);
      case ResumeTask => ResumesChangeNothing(s);
      case Smash(k) => InvSmash(s, k);
    }
  }

  /** An exited task stays exited. */
  lemma {:induction false} ExitedStays(s: Sched, e: Event, i: nat)
    requires Inv(s) && i < |s.tasks| && s.tasks[i].state == Exited
    ensures i < |Step(s, e).tasks| && Step(s, e).tasks[i].state == Exited
  {
    PickIsNext(s);
  }

  // ----- runs -----

  ghost function Run(s: Sched, es: seq<Event>): Sched
    requires Inv(s)
    decreases |es|
  {
    if es == [] then s
    else
      StepInv(s, es[0]);
      Run(Step(s, es[0]), es[1..])
  }

  /** The invariant holds after every run from scheduler_init. */
  lemma {:induction false} RunInv(s: Sched, es: seq<Event>)
    requires Inv(s)
    ensures Inv(Run(s, es))
    decreases |es|
  {
    if es != [] {
      StepInv(s, es[0]);
      RunInv(Step(s, es[0]), es[1..]);
    }
  }

  lemma {:induction false} InitialInv()
    ensures Inv(Initial())
  {
    assert [NewTask(true)][1..] == [];
    assert TaskLaw(Initial(), 0);
  }

  // ----- bounded waiting -----

  /** Task dispatched by a step, or 0. */
  ghost function Dispatched(s: Sched, e: Event): int
    requires Inv(s)
  {
    if e.Dispatch? && !s.inThread && s.pending && s.tasks[Pick(s)].guardOk then Pick(s) else 0
  }

  /** A dispatch call that is not turned away because a thread is running. */
  ghost predicate Effective(s: Sched, e: Event) {
    e.Dispatch? && !s.inThread
  }

  /** `t` is ready before and after every event. */
  ghost predicate Waits(s: Sched, es: seq<Event>, t: int)
    requires Inv(s)
    decreases |es|
  {
    && 0 < t < |s.tasks| && s.tasks[t].state == Ready
    && (es != [] ==> (StepInv(s, es[0]); Waits(Step(s, es[0]), es[1..], t)))
  }

  /** How often task `i` is dispatched in a run. */
  ghost function TimesDispatched(s: Sched, es: seq<Event>, i: int): nat
    requires Inv(s)
    decreases |es|
  {
    if es == [] then 0
    else
      StepInv(s, es[0]);
      (if Dispatched(s, es[0]) == i then 1 else 0) + TimesDispatched(Step(s, es[0]), es[1..], i)
  }

  ghost function EffectiveCalls(s: Sched, es: seq<Event>): nat
    requires Inv(s)
    decreases |es|
  {
    if es == [] then 0
    else
      StepInv(s, es[0]);
      (if Effective(s, es[0]) then 1 else 0) + EffectiveCalls(Step(s, es[0]), es[1..])
  }

  /** While `t` is passed over, a dispatched task was ahead of `t` and is behind it afterwards. */
  lemma {:induction false} DispatchPasses(s: Sched, e: Event, t: int)
    requires Inv(s) && 0 < t < |s.tasks| && s.tasks[t].state == Ready
    requires Step(s, e).tasks[t].state == Ready
    ensures var p := Dispatched(s, e);
            p != 0 ==> p != t && Ahead(s.last, t, p) && Step(s, e).last == p && !Ahead(p, t, p)
    ensures Dispatched(s, e) == 0 ==> Step(s, e).last == s.last
  {
    PickIsNext(s);
  }

  /** What is not ahead of a waiting task does not come to be ahead of it. */
  lemma {:induction false} BehindStays(s: Sched, e: Event, t: int, i: int)
    requires Inv(s) && 0 < t < |s.tasks| && s.tasks[t].state == Ready
    requires Step(s, e).tasks[t].state == Ready
    requires !Ahead(s.last, t, i)
    ensures !Ahead(Step(s, e).last, t, i)
  {
    DispatchPasses(s, e, t);
  }

  /** While a task waits, every other task is dispatched at most once, and only if it was ahead. */
  lemma {:induction false} OthersOnce(s: Sched, es: seq<Event>, t: int, i: int)
    requires Inv(s) && Waits(s, es, t) && 0 < i
    ensures TimesDispatched(s, es, i) <= if Ahead(s.last, t, i) then 1 else 0
    decreases |es|
  {
    if es != [] {
      StepInv(s, es[0]);
      OthersOnce(Step(s, es[0]), es[1..], t, i);
      assert Waits(Step(s, es[0]), es[1..], t);
      DispatchPasses(s, es[0], t);
      if !Ahead(s.last, t, i) {
        BehindStays(s, es[0], t, i);
      }
    }
  }

  // ----- a bound in dispatch calls, for a fixed task set -----

  /** Tasks that can still be picked before `t`, among the first `n`. */
  ghost function InTheWay(s: Sched, t: int, n: nat): nat
    requires n <= |s.tasks|
  {
    if n == 0 then 0 else InTheWay(s, t, n - 1) + if Blocks(s, t, n - 1) then 1 else 0
  }

  ghost predicate Blocks(s: Sched, t: int, i: int)
    requires 0 <= i < |s.tasks|
  {
    i > 0 && Ahead(s.last, t, i) && s.tasks[i].state != Exited
  }

  lemma {:induction false} InTheWayBound(s: Sched, t: int, n: nat)
    requires 0 < t && n <= |s.tasks|
    ensures InTheWay(s, t, n) <= (if n == 0 then 0 else n - 1)
    ensures t < n ==> InTheWay(s, t, n) <= n - 2
  {
    if n > 0 {
      InTheWayBound(s, t, n - 1);
    }
  }

  lemma {:induction false} InTheWayShrinks(s: Sched, s': Sched, t: int, n: nat, p: int)
    requires n <= |s.tasks| == |s'.tasks|
    requires forall i :: 0 <= i < |s.tasks| && Blocks(s', t, i) ==> Blocks(s, t, i)
    requires 0 <= p < |s.tasks| ==> Blocks(s, t, p) && !Blocks(s', t, p)
    ensures InTheWay(s', t, n) + (if 0 <= p < n then 1 else 0) <= InTheWay(s, t, n)
  {
    if n > 0 {
      InTheWayShrinks(s, s', t, n - 1, p);
    }
  }

  /** One event of a run without creations: the tasks in the way never grow, and an effective dispatch takes one away. */
  lemma {:induction false} WayStep(s: Sched, e: Event, t: int)
    requires Inv(s) && !e.Create? && 0 < t < |s.tasks| && s.tasks[t].state == Ready
    requires Step(s, e).tasks[t].state == Ready
    ensures |Step(s, e).tasks| == |s.tasks|
    ensures InTheWay(Step(s, e), t, |s.tasks|) + (if Effective(s, e) then 1 else 0) <= InTheWay(s, t, |s.tasks|)
  {
    var s' := Step(s, e);
    forall i | 0 <= i < |s.tasks| && Blocks(s', t, i) ensures Blocks(s, t, i) {
      if !Ahead(s.last, t, i) {
        BehindStays(s, e, t, i);
      }
      if s.tasks[i].state == Exited {
        ExitedStays(s, e, i);
      }
    }
    if Effective(s, e) {
      PickBlocks(s, t);
      InTheWayShrinks(s, s', t, |s.tasks|, Pick(s));
    } else {
      InTheWayShrinks(s, s', t, |s.tasks|, -1);
    }
  }

  /** An effective dispatch that leaves `t` ready removes what it picks from `t`'s way. */
  lemma {:induction false} PickBlocks(s: Sched, t: int)
    requires Inv(s) && !s.inThread && 0 < t < |s.tasks| && s.tasks[t].state == Ready
    requires StepDispatch(s).tasks[t].state == Ready
    ensures 0 <= Pick(s) < |s.tasks| && Blocks(s, t, Pick(s)) && !Blocks(StepDispatch(s), t, Pick(s))
  {
    PickIsNext(s);
    assert Runnable(s.tasks[t]);
  }

  ghost predicate NoCreations(es: seq<Event>) {
    forall e :: e in es ==> !e.Create?
  }

  lemma {:induction false} WayBound(s: Sched, es: seq<Event>, t: int)
    requires Inv(s) && Waits(s, es, t) && NoCreations(es)
    ensures EffectiveCalls(s, es) <= InTheWay(s, t, |s.tasks|)
    decreases |es|
  {
    if es != [] {
      StepInv(s, es[0]);
      assert Waits(Step(s, es[0]), es[1..], t);
      WayStep(s, es[0], t);
      WayBound(Step(s, es[0]), es[1..], t);
    }
  }

  /**
   Bounded waiting: with a fixed task set, a ready task is dispatched, or retired for a
   broken guard, before there have been as many effective dispatch calls as tasks.
   */
  lemma {:induction false} BoundedWaiting(s: Sched, es: seq<Event>, t: int)
    requires Inv(s) && 0 < t < |s.tasks| && s.tasks[t].state == Ready && NoCreations(es)
    ensures Waits(s, es, t) ==> EffectiveCalls(s, es) <= |s.tasks| - 2
  {
    if Waits(s, es, t) {
      WayBound(s, es, t);
      InTheWayBound(s, t, |s.tasks|);
    }
  }
}
