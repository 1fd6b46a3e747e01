/** The udev notification cookie of libdm-common.c: a System V semaphore that counts
    the tasks whose udev processing is still to come. Every process takes one atomic
    step at a time and the steps of all processes interleave freely. */
module UdevCookie {
  import opened Options

  datatype Sem = NotMade | Made(value: nat) | Gone

  /** A task between dm_task_set_cookie and dm_udev_complete. Refused: its assignment
      failed; Lost: its completion failed. */
  datatype Task = Assigning | Assigned | Completing | Completed | Refused | Lost {
    predicate Counted() { this == Assigned || this == Completing }
  }

  /** The process in _udev_wait. Done(r): it has returned r. */
  datatype Waiter = Idle | Found(nowait: bool) | Waiting | AtZero | Done(ok: bool) {
    predicate Undecremented() { Idle? || Found? }
  }

  datatype State = State(sem: Sem, tasks: map<nat, Task>, waiter: Waiter)

  const START := State(NotMade, map[], Idle)

  datatype Step =
    | Create                   // dm_udev_create_cookie
    | Find(task: nat)          // dm_task_set_cookie: finds the semaphore, or makes it
    | Inc(task: nat)           // dm_task_set_cookie: _udev_notify_sem_inc
    | FindDone(task: nat)      // dm_udev_complete: finds the semaphore
    | Dec(task: nat)           // dm_udev_complete: _udev_notify_sem_dec
    | FindWait(nowait: bool)   // _udev_wait: finds the semaphore
    | Sample                   // _udev_wait: reads the value if *nowait
    | DecWait                  // _udev_wait: _udev_notify_sem_dec
    | WaitZero                 // _udev_wait: the semop that waits for zero
    | Destroy                  // _udev_wait: _udev_notify_sem_destroy

  function Set(s: State, t: nat, to: Task): State { s.(tasks := s.tasks[t := to]) }

  predicate Is(s: State, t: nat, at: Task) { t in s.tasks && s.tasks[t] == at }

  /** The state behind a step, if the step can be taken. */
  function Next(s: State, step: Step): Option<State> {
    match step
    case Create => if s.sem == NotMade then Some(s.(sem := Made(1))) else None
    case Find(t) =>
      if t in s.tasks then None
      else if s.sem == Gone then Some(Set(s, t, Refused))
      else Some(Set(s.(sem := if s.sem == NotMade then Made(1) else s.sem), t, Assigning))
    case Inc(t) =>
      if !Is(s, t, Assigning) then None
      else if s.sem.Made? then Some(Set(s.(sem := Made(s.sem.value + 1)), t, Assigned))
      else Some(Set(s, t, Refused))
    case FindDone(t) =>
      if !Is(s, t, Assigned) then None
      else Some(Set(s, t, if s.sem.Made? then Completing else Lost))
    case Dec(t) =>
      if !Is(s, t, Completing) then None
      else if s.sem.Made? && s.sem.value > 0 then Some(Set(s.(sem := Made(s.sem.value - 1)), t, Completed))
      else Some(Set(s, t, Lost))
    case FindWait(nowait) =>
      if s.waiter != Idle || s.sem == NotMade then None
      else Some(s.(waiter := if s.sem.Made? then Found(nowait) else Done(false)))
    case Sample =>
      if s.waiter != Found(true) then None
      else if !s.sem.Made? then Some(s.(waiter := Done(false)))
      else Some(s.(waiter := if s.sem.value > 1 then Idle else Found(false)))
    case DecWait =>
      if s.waiter != Found(false) then None
      else if s.sem.Made? && s.sem.value > 0 then Some(s.(sem := Made(s.sem.value - 1), waiter := Waiting))
      else Some(s.(sem := Gone, waiter := Done(false)))
    case WaitZero =>
      if s.waiter != Waiting then None
      else if s.sem == Made(0) then Some(s.(waiter := AtZero))
      else if s.sem == Gone then Some(s.(waiter := Done(true)))
      else None
    case Destroy =>
      if s.waiter != AtZero then None
      else Some(s.(sem := Gone, waiter := Done(s.sem.Made?)))
  }

  /** The state behind a run, or None if some step could not be taken. */
  function After(steps: seq<Step>): Option<State> {
    if steps == [] then Some(START)
    else
      var s := After(steps[..|steps| - 1]);
      if s.None? then None else Next(s.value, steps[|steps| - 1])
  }

  /** The tasks that have been counted in and not yet counted out. */
  function Outstanding(s: State): set<nat> {
    set t | t in s.tasks && s.tasks[t].Counted()
  }

  // ---- what every interleaving keeps ----

  /** The semaphore is the number of outstanding tasks, plus one until the waiter
      decrements it; it is destroyed by a waiter that succeeds and by nothing else. */
  ghost predicate Counts(s: State) {
    && (s.sem == NotMade ==> s.waiter == Idle && s.tasks == map[])
    && (s.sem.Made? ==> s.sem.value == |Outstanding(s)| + (if s.waiter.Undecremented() then 1 else 0))
    && (s.sem.Made? ==> !s.waiter.Done?)
    && (s.sem == Gone ==> s.waiter == Done(true))
  }

  lemma SetOutstanding(s: State, t: nat, to: Task)
    ensures Outstanding(Set(s, t, to)) == if to.Counted() then Outstanding(s) + {t} else Outstanding(s) - {t}
  {
  }

  predicate OfTask(step: Step) { step.Find? || step.Inc? || step.FindDone? || step.Dec? }

  /** What a task step does to the outstanding tasks. */
  lemma TaskStepOutstanding(s: State, step: Step)
    requires OfTask(step) && Next(s, step).Some?
    ensures var t, n := step.task, Next(s, step).value;
            && (s.tasks == map[] ==> Outstanding(s) == {})
            && (t in Outstanding(s) <==> step.FindDone? || step.Dec?)
            && t in n.tasks
            && Outstanding(n) == if n.tasks[t].Counted() then Outstanding(s) + {t} else Outstanding(s) - {t}
  {
    var t, n := step.task, Next(s, step).value;
    SetOutstanding(s, t, n.tasks[t]);
    assert n.tasks == Set(s, t, n.tasks[t]).tasks;
  }

  /** What it does to the semaphore. */
  lemma TaskStepSem(s: State, step: Step)
    requires OfTask(step) && Next(s, step).Some?
    ensures var t, n := step.task, Next(s, step).value;
            && t in n.tasks && (t in s.tasks <==> !step.Find?)
            && n.waiter == s.waiter
            && n.tasks == s.tasks[t := n.tasks[t]]
            && (step.Find? ==> !n.tasks[t].Counted() && n.sem == if s.sem == NotMade then Made(1) else s.sem)
            && (step.Inc? ==> n.tasks[t].Counted() == s.sem.Made? &&
                              n.sem == if s.sem.Made? then Made(s.sem.value + 1) else s.sem)
            && (step.FindDone? ==> n.sem == s.sem && n.tasks[t].Counted() == s.sem.Made?)
            && (step.Dec? ==> !n.tasks[t].Counted() &&
                              n.sem == if s.sem.Made? && s.sem.value > 0 then Made(s.sem.value - 1) else s.sem)
            && (n.tasks[t] == Lost <==>
                (step.FindDone? && !s.sem.Made?) || (step.Dec? && !(s.sem.Made? && s.sem.value > 0)))
  {
  }

  lemma SetSizes(a: set<nat>, t: nat)
    ensures t in a ==> |a| > 0 && |a - {t}| == |a| - 1 && a + {t} == a
    ensures t !in a ==> |a + {t}| == |a| + 1 && a - {t} == a
  {
  }

  /** A task step moves the count with the semaphore. */
  lemma TaskStepCounts(s: State, step: Step)
    requires Counts(s) && OfTask(step) && Next(s, step).Some?
    ensures Counts(Next(s, step).value)
  {
    hide Outstanding, Next;
    TaskStepOutstanding(s, step);
    TaskStepSem(s, step);
    SetSizes(Outstanding(s), step.task);
  }

  lemma StepCounts(s: State, step: Step)
    requires Counts(s) && Next(s, step).Some?
    ensures Counts(Next(s, step).value)
  {
    if OfTask(step) {
      TaskStepCounts(s, step);
    } else {
      assert Outstanding(Next(s, step).value) == Outstanding(s);
      hide Outstanding;
    }
  }

  /** The count holds in every state that any interleaving reaches. */
  lemma {:induction false} RunCounts(steps: seq<Step>)
    requires After(steps).Some?
    ensures Counts(After(steps).value)
  {
    if steps == [] {
      assert Outstanding(START) == {};
    } else {
      RunCounts(steps[..|steps| - 1]);
      StepCounts(After(steps[..|steps| - 1]).value, steps[|steps| - 1]);
    }
  }

  /** The waiter's decrement never fails. */
  lemma WaiterDecrements(steps: seq<Step>)
    requires After(steps).Some? && After(steps).value.waiter == Found(false)
    ensures Next(After(steps).value, DecWait).Some?
    ensures Next(After(steps).value, DecWait).value.waiter == Waiting
  {
    RunCounts(steps);
  }

  /** dm_udev_wait_immediate reports not ready, leaving the semaphore alone, exactly if
      a task is outstanding when it samples the value. */
  lemma SampleIsExact(steps: seq<Step>)
    requires After(steps).Some? && After(steps).value.waiter == Found(true)
    ensures Next(After(steps).value, Sample).Some?
    ensures var s, n := After(steps).value, Next(After(steps).value, Sample).value;
            n.sem == s.sem && n.waiter == if Outstanding(s) != {} then Idle else Found(false)
  {
    RunCounts(steps);
    var s := After(steps).value;
    hide Outstanding, After;
    assert |Outstanding(s)| == 0 <==> Outstanding(s) == {};
  }

  /** A waiter that has decremented can go on exactly when no task is outstanding. */
  lemma WaiterIsWoken(steps: seq<Step>)
    requires After(steps).Some? && After(steps).value.waiter == Waiting
    ensures Next(After(steps).value, WaitZero).Some? <==> Outstanding(After(steps).value) == {}
  {
    RunCounts(steps);
    var s := After(steps).value;
    hide Outstanding, After;
    assert |Outstanding(s)| == 0 <==> Outstanding(s) == {};
  }

  // ---- what holds when no task is assigned too late ----

  /** No task is counted in between the moment the waiter sees zero and the moment it
      destroys the semaphore. Assigning every task before the wait is a special case. */
  ghost predicate Timely(steps: seq<Step>) {
    forall i :: 0 <= i < |steps| && steps[i].Inc? && After(steps[..i]).Some? ==>
      After(steps[..i]).value.waiter != AtZero
  }

  /** No task is outstanding once zero has been seen, and no completion has failed. */
  ghost predicate Settled(s: State) {
    && (s.waiter == AtZero || s.waiter.Done? ==> Outstanding(s) == {})
    && forall t :: t in s.tasks ==> s.tasks[t] != Lost
  }

  lemma TaskStepSettles(s: State, step: Step)
    requires Counts(s) && Settled(s) && OfTask(step) && Next(s, step).Some?
    requires step.Inc? ==> s.waiter != AtZero
    ensures Settled(Next(s, step).value)
  {
    hide Outstanding, Next;
    TaskStepOutstanding(s, step);
    TaskStepSem(s, step);
    SetSizes(Outstanding(s), step.task);
  }

  lemma StepSettles(s: State, step: Step)
    requires Counts(s) && Settled(s) && Next(s, step).Some?
    requires step.Inc? ==> s.waiter != AtZero
    ensures Settled(Next(s, step).value)
  {
    if OfTask(step) {
      TaskStepSettles(s, step);
    } else {
      assert Outstanding(Next(s, step).value) == Outstanding(s);
      hide Outstanding;
      assert |Outstanding(s)| == 0 <==> Outstanding(s) == {};
    }
  }

  /** Under every timely interleaving a wait returns only with success and with no task
      outstanding, and no completion ever fails. */
  lemma {:induction false} RunSettles(steps: seq<Step>)
    requires After(steps).Some? && Timely(steps)
    ensures Settled(After(steps).value)
    ensures After(steps).value.waiter != Done(false)
  {
    RunCounts(steps);
    if steps != [] {
      var front := steps[..|steps| - 1];
      assert forall i :: 0 <= i < |front| ==> front[..i] == steps[..i];
      RunSettles(front);
      RunCounts(front);
      hide Settled, Counts, Outstanding;
      StepSettles(After(front).value, steps[|steps| - 1]);
    }
  }

  lemma {:induction false} AfterPrefix(steps: seq<Step>, k: nat)
    requires After(steps).Some? && k <= |steps|
    ensures After(steps[..k]).Some?
  {
    if k == |steps| {
      assert steps[..k] == steps;
    } else {
      assert steps[..|steps| - 1][..k] == steps[..k];
      AfterPrefix(steps[..|steps| - 1], k);
    }
  }

  lemma AfterNext(steps: seq<Step>, k: nat)
    requires k < |steps| && After(steps[..k]).Some?
    ensures After(steps[..k + 1]) == Next(After(steps[..k]).value, steps[k])
  {
    assert steps[..k + 1][..k] == steps[..k] && steps[..k + 1][k] == steps[k];
  }

  /** A task that is counted in after zero has been seen is outstanding at once. */
  lemma LateIsUnsettled(s: State, step: Step)
    requires Counts(s) && s.waiter == AtZero && step.Inc? && Next(s, step).Some?
    ensures !Settled(Next(s, step).value)
  {
    hide Outstanding, Next;
    TaskStepOutstanding(s, step);
    TaskStepSem(s, step);
  }

  /** Timely runs are exactly those in which every state is settled. */
  lemma TimelyIsExact(steps: seq<Step>)
    requires After(steps).Some?
    ensures Timely(steps) <==>
            forall k :: 0 <= k <= |steps| ==> After(steps[..k]).Some? && Settled(After(steps[..k]).value)
  {
    hide After, Next, Settled, Counts;
    forall k | 0 <= k <= |steps| ensures After(steps[..k]).Some? {
      AfterPrefix(steps, k);
    }
    if Timely(steps) {
      forall k | 0 <= k <= |steps| ensures Settled(After(steps[..k]).value) {
        assert forall i :: 0 <= i < k ==> steps[..k][..i] == steps[..i] && steps[..k][i] == steps[i];
        RunSettles(steps[..k]);
      }
    } else {
      var i :| 0 <= i < |steps| && steps[i].Inc? && After(steps[..i]).value.waiter == AtZero;
      RunCounts(steps[..i]);
      AfterNext(steps, i);
      LateIsUnsettled(After(steps[..i]).value, steps[i]);
      assert !Settled(After(steps[..i + 1]).value);
    }
  }

  /** A wait that has seen zero returns with success, and then no task is outstanding
      exactly if the semaphore is still zero when it is destroyed. */
  lemma DestroyIsExact(steps: seq<Step>)
    requires After(steps).Some? && After(steps).value.waiter == AtZero
    ensures Next(After(steps).value, Destroy).Some?
    ensures var s, n := After(steps).value, Next(After(steps).value, Destroy).value;
            n.waiter == Done(true) && (Outstanding(n) == {} <==> s.sem == Made(0))
  {
    RunCounts(steps);
    var s := After(steps).value;
    assert Outstanding(Next(s, Destroy).value) == Outstanding(s);
    hide Outstanding, After;
    assert |Outstanding(s)| == 0 <==> Outstanding(s) == {};
  }

  /** A task that is outstanding when the wait has returned is lost: its completion can
      only fail. */
  lemma OutstandingIsLost(steps: seq<Step>, t: nat)
    requires After(steps).Some? && After(steps).value.waiter.Done? && t in Outstanding(After(steps).value)
    ensures var s := After(steps).value;
            var completion := if s.tasks[t] == Assigned then FindDone(t) else Dec(t);
            Next(s, completion).Some? && Is(Next(s, completion).value, t, Lost)
  {
    RunCounts(steps);
    hide After;
  }

  /** The run of a task that is assigned after the waiter has seen zero. */
  const LATE: seq<Step> := [Create, FindWait(false), DecWait, WaitZero, Find(7), Inc(7), Destroy, FindDone(7)]

  lemma LateWait()
    ensures After(LATE[..4]) == Some(State(Made(0), map[], AtZero))
  {
    assert After(LATE[..0]) == Some(START);
    hide After;
    AfterNext(LATE, 0);
    AfterNext(LATE, 1);
    AfterNext(LATE, 2);
    AfterNext(LATE, 3);
  }

  /** The late task is outstanding when the wait returns, and its completion fails. */
  lemma LateTaskIsLost()
    ensures After(LATE[..7]).Some? && After(LATE).Some?
    ensures After(LATE[..7]).value.waiter == Done(true) && 7 in Outstanding(After(LATE[..7]).value)
    ensures Is(After(LATE).value, 7, Lost)
  {
    hide After;
    LateWait();
    AfterNext(LATE, 4);
    AfterNext(LATE, 5);
    AfterNext(LATE, 6);
    AfterNext(LATE, 7);
    assert LATE[..8] == LATE;
  }
}
