/** The completion protocol of a request: one thread enqueues tasks and waits, backend threads work them off.
    The shared status holds a counter, a return code, a mutex and a condition variable.
    A backend without threads works off its tasks in the enqueuing thread, which is one of the interleavings. */
module Completion {
  datatype Code = Success | Failed(error: nat)

  /** Where the work on a task stands; from Locked to Signalled the backend thread holds the mutex. */
  datatype Progress =
    | Announced                        // counted, not yet handed to a thread
    | Queued
    | Operated(ret: Code)              // load or commit done
    | CalledBack(ret: Code)            // callback done
    | Locked(ret: Code)
    | Subtracted(ret: Code, last: bool)
    | Recorded(ret: Code, last: bool)
    | Signalled(ret: Code)
    | Done(ret: Code)

  datatype Waiter = Enqueueing | WantsLock | Checking | Asleep | Leaving | Returned | Finalized

  datatype Owner = Free | ByWaiter | ByTask(i: nat)

  datatype State = State(tasks: seq<Progress>, pending: int, code: Code, mutex: Owner, waiter: Waiter)

  datatype Step =
    | Announce(count: nat)             // raise the counter before handing out tasks
    | Push(i: nat)
    | Operate(i: nat, ret: Code)
    | Callback(i: nat)
    | Lock(i: nat)
    | Subtract(i: nat)
    | Record(i: nat)
    | Signal(i: nat)
    | Unlock(i: nat)
    | BeginWait                        // all tasks have been handed out
    | WaiterLock
    | Check                            // leave if the counter is zero, else release the mutex and sleep
    | WaiterUnlock
    | Finalize
    | Spurious                         // a condition variable may wake up without a signal

  const INITIAL := State([], 0, Success, Free, Enqueueing)

  predicate Enabled(s: State, step: Step) {
    match step
    case Announce(n) => s.waiter == Enqueueing
    case Push(i) => s.waiter == Enqueueing && i < |s.tasks| && s.tasks[i] == Announced
    case Operate(i, _) => i < |s.tasks| && s.tasks[i] == Queued
    case Callback(i) => i < |s.tasks| && s.tasks[i].Operated?
    case Lock(i) => i < |s.tasks| && s.tasks[i].CalledBack? && s.mutex == Free
    case Subtract(i) => i < |s.tasks| && s.tasks[i].Locked?
    case Record(i) => i < |s.tasks| && s.tasks[i].Subtracted?
    case Signal(i) => i < |s.tasks| && s.tasks[i].Recorded?
    case Unlock(i) => i < |s.tasks| && s.tasks[i].Signalled?
    case BeginWait => s.waiter == Enqueueing && Announced !in s.tasks
    case WaiterLock => s.waiter == WantsLock && s.mutex == Free
    case Check => s.waiter == Checking
    case WaiterUnlock => s.waiter == Leaving
    case Finalize => s.waiter == Returned
    case Spurious => s.waiter == Asleep
  }

  function Do(s: State, step: Step): State
    requires Enabled(s, step)
  {
    match step
    case Announce(n) => s.(tasks := s.tasks + seq(n, _ => Announced), pending := s.pending + n)
    case Push(i) => s.(tasks := s.tasks[i := Queued])
    case Operate(i, ret) => s.(tasks := s.tasks[i := Operated(ret)])
    case Callback(i) => s.(tasks := s.tasks[i := CalledBack(s.tasks[i].ret)])
    case Lock(i) => s.(tasks := s.tasks[i := Locked(s.tasks[i].ret)], mutex := ByTask(i))
    case Subtract(i) => s.(tasks := s.tasks[i := Subtracted(s.tasks[i].ret, s.pending == 1)], pending := s.pending - 1)
    case Record(i) =>
      s.(tasks := s.tasks[i := Recorded(s.tasks[i].ret, s.tasks[i].last)],
         code := if s.tasks[i].ret == Success then s.code else s.tasks[i].ret)
    case Signal(i) =>
      s.(tasks := s.tasks[i := Signalled(s.tasks[i].ret)],
         waiter := if s.tasks[i].last && s.waiter == Asleep then WantsLock else s.waiter)
    case Unlock(i) => s.(tasks := s.tasks[i := Done(s.tasks[i].ret)], mutex := Free)
    case BeginWait => s.(waiter := WantsLock)
    case WaiterLock => s.(waiter := Checking, mutex := ByWaiter)
    case Check => if s.pending == 0 then s.(waiter := Leaving) else s.(waiter := Asleep, mutex := Free)
    case WaiterUnlock => s.(waiter := Returned, mutex := Free)
    case Finalize => s.(waiter := Finalized)
    case Spurious => s.(waiter := WantsLock)
  }

  // ----- the invariant

  predicate Counted(p: Progress) {
    p.Announced? || p.Queued? || p.Operated? || p.CalledBack? || p.Locked?
  }

  predicate InSection(p: Progress) {
    p.Locked? || p.Subtracted? || p.Recorded? || p.Signalled?
  }

  predicate HasRecorded(p: Progress) {
    p.Recorded? || p.Signalled? || p.Done?
  }

  predicate WillSignal(p: Progress) {
    (p.Subtracted? || p.Recorded?) && p.last
  }

  function CountCounted(tasks: seq<Progress>): nat {
    if tasks == [] then 0 else CountCounted(tasks[..|tasks| - 1]) + if Counted(tasks[|tasks| - 1]) then 1 else 0
  }

  lemma {:induction false} CountUpdate(tasks: seq<Progress>, i: nat, p: Progress)
    requires i < |tasks|
    ensures CountCounted(tasks[i := p]) == CountCounted(tasks) - (if Counted(tasks[i]) then 1 else 0) + (if Counted(p) then 1 else 0)
  {
    var l := |tasks| - 1;
    if i == l {
      assert tasks[i := p][..l] == tasks[..l];
    } else {
      assert tasks[i := p][..l] == tasks[..l][i := p];
      CountUpdate(tasks[..l], i, p);
    }
  }

  lemma {:induction false} CountGrow(tasks: seq<Progress>, n: nat)
    ensures CountCounted(tasks + seq(n, _ => Announced)) == CountCounted(tasks) + n
  {
    var t := tasks + seq(n, _ => Announced);
    if n == 0 {
      assert t == tasks;
    } else {
      assert t[..|t| - 1] == tasks + seq(n - 1, _ => Announced);
      CountGrow(tasks, n - 1);
    }
  }

  lemma {:induction false} CountZero(tasks: seq<Progress>, i: nat)
    requires i < |tasks| && CountCounted(tasks) == 0
    ensures !Counted(tasks[i])
  {
    if i < |tasks| - 1 { CountZero(tasks[..|tasks| - 1], i); }
  }

  lemma {:induction false} CountPositive(tasks: seq<Progress>) returns (i: nat)
    requires CountCounted(tasks) > 0
    ensures i < |tasks| && Counted(tasks[i])
  {
    if Counted(tasks[|tasks| - 1]) { i := |tasks| - 1; } else { i := CountPositive(tasks[..|tasks| - 1]); }
  }

  ghost predicate MutexOk(s: State) {
    && (forall i :: 0 <= i < |s.tasks| ==> (InSection(s.tasks[i]) <==> s.mutex == ByTask(i)))
    && (s.mutex.ByTask? ==> s.mutex.i < |s.tasks|)
    && (s.mutex == ByWaiter <==> s.waiter == Checking || s.waiter == Leaving)
  }

  ghost predicate WaiterOk(s: State) {
    && (s.waiter != Enqueueing ==> Announced !in s.tasks)
    && (s.waiter == Leaving || s.waiter == Returned || s.waiter == Finalized ==> forall i :: 0 <= i < |s.tasks| ==> s.tasks[i].Done?)
    && (s.waiter == Asleep ==> s.pending > 0 || exists i :: 0 <= i < |s.tasks| && WillSignal(s.tasks[i]))
  }

  /** The code is a failure exactly when a recorded task failed, and then it is the code of one of them. */
  ghost predicate CodeOk(s: State) {
    && (forall i :: 0 <= i < |s.tasks| && HasRecorded(s.tasks[i]) && s.tasks[i].ret != Success ==> s.code != Success)
    && (s.code != Success ==> exists i :: 0 <= i < |s.tasks| && HasRecorded(s.tasks[i]) && s.tasks[i].ret == s.code)
  }

  ghost predicate Inv(s: State) {
    s.pending == CountCounted(s.tasks) && MutexOk(s) && WaiterOk(s) && CodeOk(s)
  }

  lemma StepKeepsPending(s: State, step: Step)
    requires Inv(s) && Enabled(s, step)
    ensures Do(s, step).pending == CountCounted(Do(s, step).tasks)
  {
    var t := Do(s, step);
    if step.Announce? { CountGrow(s.tasks, step.count); }
    else if step.Push? || step.Operate? || step.Callback? || step.Lock? || step.Subtract? || step.Record? || step.Signal? || step.Unlock? {
      CountUpdate(s.tasks, step.i, t.tasks[step.i]);
    }
  }

  lemma StepKeepsMutex(s: State, step: Step)
    requires Inv(s) && Enabled(s, step)
    ensures MutexOk(Do(s, step))
  {}

  lemma StepKeepsCode(s: State, step: Step)
    requires Inv(s) && Enabled(s, step)
    ensures CodeOk(Do(s, step))
  {
    var t := Do(s, step);
    if t.code != Success {
      if step.Record? && s.tasks[step.i].ret != Success {
        assert HasRecorded(t.tasks[step.i]);
      } else {
        var i :| 0 <= i < |s.tasks| && HasRecorded(s.tasks[i]) && s.tasks[i].ret == s.code;
        assert HasRecorded(t.tasks[i]) && t.tasks[i].ret == t.code;
      }
    }
  }

  /** A waiter that sees zero while it holds the mutex finds every task done: nobody else is inside the section. */
  lemma ZeroMeansDone(s: State)
    requires Inv(s) && s.waiter == Checking && s.pending == 0
    ensures forall i :: 0 <= i < |s.tasks| ==> s.tasks[i].Done?
  {
    forall i | 0 <= i < |s.tasks| ensures s.tasks[i].Done? { CountZero(s.tasks, i); }
  }

  lemma StepKeepsWaiter(s: State, step: Step)
    requires Inv(s) && Enabled(s, step)
    ensures WaiterOk(Do(s, step))
  {
    var t := Do(s, step);
    if step.Check? && s.pending == 0 { ZeroMeansDone(s); }
    if s.waiter == Asleep && t.waiter == Asleep && t.pending <= 0 {
      if step.Subtract? {
        assert WillSignal(t.tasks[step.i]);
      } else {
        var i :| 0 <= i < |s.tasks| && WillSignal(s.tasks[i]);
        assert WillSignal(t.tasks[i]);
      }
    }
  }

  lemma StepKeepsInv(s: State, step: Step)
    requires Inv(s) && Enabled(s, step)
    ensures Inv(Do(s, step))
  {
    StepKeepsPending(s, step);
    StepKeepsMutex(s, step);
    StepKeepsCode(s, step);
    StepKeepsWaiter(s, step);
  }

  // ----- runs

  ghost predicate IsRun(states: seq<State>, steps: seq<Step>) {
    && |states| == |steps| + 1 && states[0] == INITIAL
    && forall n :: 0 <= n < |steps| ==> Enabled(states[n], steps[n]) && states[n + 1] == Do(states[n], steps[n])
  }

  lemma {:induction false} RunKeepsInv(states: seq<State>, steps: seq<Step>, n: nat)
    requires IsRun(states, steps) && n < |states|
    ensures Inv(states[n])
  {
    if n == 0 {
    } else {
      RunKeepsInv(states, steps, n - 1);
      assert Enabled(states[n - 1], steps[n - 1]) && states[n - 1 + 1] == Do(states[n - 1], steps[n - 1]);
      StepKeepsInv(states[n - 1], steps[n - 1]);
    }
  }

  predicate IsTaskStep(step: Step) {
    step.Operate? || step.Callback? || step.Lock? || step.Subtract? || step.Record? || step.Signal? || step.Unlock?
  }

  // ----- what a state tells about the steps that led to it

  /** The number of tasks that were announced. */
  function Announcements(steps: seq<Step>): nat {
    if steps == [] then 0
    else Announcements(steps[..|steps| - 1]) + if steps[|steps| - 1].Announce? then steps[|steps| - 1].count else 0
  }

  /** How often the operation of task i was carried out. */
  function Operations(steps: seq<Step>, i: nat): nat {
    if steps == [] then 0
    else Operations(steps[..|steps| - 1], i) + if steps[|steps| - 1].Operate? && steps[|steps| - 1].i == i then 1 else 0
  }

  /** How often the callback of task i was called. */
  function Callbacks(steps: seq<Step>, i: nat): nat {
    if steps == [] then 0
    else Callbacks(steps[..|steps| - 1], i) + if steps[|steps| - 1].Callback? && steps[|steps| - 1].i == i then 1 else 0
  }

  predicate HasOperated(p: Progress) { !p.Announced? && !p.Queued? }

  predicate HasCalledBack(p: Progress) { HasOperated(p) && !p.Operated? }

  /** The tasks have the results of the operations that were carried out ... */
  ghost predicate KeepsResults(s: State, steps: seq<Step>) {
    && (forall k :: 0 <= k < |steps| && steps[k].Operate? ==> steps[k].i < |s.tasks| && HasOperated(s.tasks[steps[k].i]) && s.tasks[steps[k].i].ret == steps[k].ret)
    && (forall i :: 0 <= i < |s.tasks| && HasOperated(s.tasks[i]) ==> Operate(i, s.tasks[i].ret) in steps)
  }

  /** ... each of them once, and each with one callback. */
  ghost predicate KeepsCounts(s: State, steps: seq<Step>) {
    && |s.tasks| == Announcements(steps)
    && (forall i: nat :: Operations(steps, i) == if i < |s.tasks| && HasOperated(s.tasks[i]) then 1 else 0)
    && (forall i: nat :: Callbacks(steps, i) == if i < |s.tasks| && HasCalledBack(s.tasks[i]) then 1 else 0)
  }

  lemma StepKeepsResults(s: State, steps: seq<Step>, step: Step)
    requires KeepsResults(s, steps) && Enabled(s, step)
    ensures KeepsResults(Do(s, step), steps + [step])
  {
    var t, more := Do(s, step), steps + [step];
    forall k | 0 <= k < |more| && more[k].Operate?
      ensures more[k].i < |t.tasks| && HasOperated(t.tasks[more[k].i]) && t.tasks[more[k].i].ret == more[k].ret
    {
      if k < |steps| { assert more[k] == steps[k]; }
    }
    forall i | 0 <= i < |t.tasks| && HasOperated(t.tasks[i]) ensures Operate(i, t.tasks[i].ret) in more {
      if i < |s.tasks| && HasOperated(s.tasks[i]) {
        assert t.tasks[i].ret == s.tasks[i].ret && Operate(i, s.tasks[i].ret) in steps;
      } else {
        assert step == Operate(i, t.tasks[i].ret) && more[|steps|] == step;
      }
    }
  }

  lemma StepKeepsCounts(s: State, steps: seq<Step>, step: Step)
    requires KeepsCounts(s, steps) && Enabled(s, step)
    ensures KeepsCounts(Do(s, step), steps + [step])
  {
    var more := steps + [step];
    assert more[..|more| - 1] == steps;
    forall i: nat ensures Operations(more, i) == Operations(steps, i) + if step.Operate? && step.i == i then 1 else 0 {}
    forall i: nat ensures Callbacks(more, i) == Callbacks(steps, i) + if step.Callback? && step.i == i then 1 else 0 {}
  }

  lemma {:induction false} RunKeepsHistory(states: seq<State>, steps: seq<Step>, n: nat)
    requires IsRun(states, steps) && n < |states|
    ensures KeepsResults(states[n], steps[..n]) && KeepsCounts(states[n], steps[..n])
  {
    if n > 0 {
      RunKeepsHistory(states, steps, n - 1);
      var s, step := states[n - 1], steps[n - 1];
      assert Enabled(s, step) && states[n - 1 + 1] == Do(s, step);
      assert steps[..n] == steps[..n - 1] + [step];
      StepKeepsResults(s, steps[..n - 1], step);
      StepKeepsCounts(s, steps[..n - 1], step);
    }
  }

  /** From the moment at which an operation was carried out, its task has its result. */
  lemma ResultIsKept(states: seq<State>, steps: seq<Step>, k: nat, n: nat)
    requires IsRun(states, steps) && k < n < |states| && steps[k].Operate?
    ensures steps[k].i < |states[n].tasks| && HasOperated(states[n].tasks[steps[k].i]) && states[n].tasks[steps[k].i].ret == steps[k].ret
  {
    RunKeepsHistory(states, steps, n);
    assert steps[..n][k] == steps[k];
  }

  /** A callback runs after its operation. */
  lemma CallbackFollows(states: seq<State>, steps: seq<Step>, k: nat)
    requires IsRun(states, steps) && k < |steps| && steps[k].Callback?
    ensures exists l :: 0 <= l < k && steps[l].Operate? && steps[l].i == steps[k].i
  {
    RunKeepsHistory(states, steps, k);
    var task := states[k].tasks[steps[k].i];
    assert Operate(steps[k].i, task.ret) in steps[..k];
    var l :| 0 <= l < k && steps[..k][l] == Operate(steps[k].i, task.ret);
    assert steps[l].i == steps[k].i;
  }

  // ----- which failure the code is of

  /** Step m records the failure of a task. */
  ghost predicate FailedAt(s: State, steps: seq<Step>, m: nat) {
    m < |steps| && steps[m].Record? && steps[m].i < |s.tasks| && HasRecorded(s.tasks[steps[m].i]) && s.tasks[steps[m].i].ret != Success
  }

  ghost predicate LastFailedAt(s: State, steps: seq<Step>, m: nat) {
    FailedAt(s, steps, m) && s.tasks[steps[m].i].ret == s.code && forall l: nat :: m < l ==> !FailedAt(s, steps, l)
  }

  ghost predicate KeepsLast(s: State, steps: seq<Step>) {
    && (forall m :: 0 <= m < |steps| && steps[m].Record? ==> steps[m].i < |s.tasks| && HasRecorded(s.tasks[steps[m].i]))
    && (if s.code == Success then forall m: nat :: !FailedAt(s, steps, m) else exists m: nat :: LastFailedAt(s, steps, m))
  }

  lemma RecordIsKept(s: State, step: Step, i: nat)
    requires Enabled(s, step) && i < |s.tasks| && HasRecorded(s.tasks[i])
    ensures i < |Do(s, step).tasks| && HasRecorded(Do(s, step).tasks[i]) && Do(s, step).tasks[i].ret == s.tasks[i].ret
  {}

  lemma StepKeepsLast(s: State, steps: seq<Step>, step: Step)
    requires KeepsLast(s, steps) && Enabled(s, step)
    ensures KeepsLast(Do(s, step), steps + [step])
  {
    var t, more := Do(s, step), steps + [step];
    forall m: nat | m < |steps| ensures more[m] == steps[m] && (FailedAt(t, more, m) <==> FailedAt(s, steps, m)) {
      if steps[m].Record? { RecordIsKept(s, step, steps[m].i); }
    }
    if FailedAt(t, more, |steps|) {
      assert LastFailedAt(t, more, |steps|);
    } else if s.code != Success {
      var m: nat :| LastFailedAt(s, steps, m);
      assert LastFailedAt(t, more, m);
    }
  }

  lemma {:induction false} RunKeepsLast(states: seq<State>, steps: seq<Step>, n: nat)
    requires IsRun(states, steps) && n < |states|
    ensures KeepsLast(states[n], steps[..n])
  {
    if n > 0 {
      RunKeepsLast(states, steps, n - 1);
      assert Enabled(states[n - 1], steps[n - 1]) && states[n - 1 + 1] == Do(states[n - 1], steps[n - 1]);
      assert steps[..n] == steps[..n - 1] + [steps[n - 1]];
      StepKeepsLast(states[n - 1], steps[..n - 1], steps[n - 1]);
    }
  }

  /** The tasks that are recorded from step m on, before step n, have succeeded. */
  ghost predicate AllSucceed(steps: seq<Step>, m: nat, n: nat)
    requires n <= |steps|
  {
    forall l :: m <= l < n && steps[l].Record? ==> Operate(steps[l].i, Success) in steps[..n]
  }

  /** At any time, the code is that of the failure that was recorded last: the tasks that were recorded later succeeded. */
  lemma LastFailureWins(states: seq<State>, steps: seq<Step>, n: nat)
    requires IsRun(states, steps) && n < |states| && states[n].code != Success
    ensures exists m :: 0 <= m < n && steps[m].Record? && Operate(steps[m].i, states[n].code) in steps[..n] && AllSucceed(steps, m + 1, n)
  {
    RunKeepsLast(states, steps, n);
    RunKeepsHistory(states, steps, n);
    var s, done := states[n], steps[..n];
    var m: nat :| LastFailedAt(s, done, m);
    assert done[m] == steps[m];
    forall l | m < l < n && steps[l].Record? ensures Operate(steps[l].i, Success) in done {
      assert done[l] == steps[l] && !FailedAt(s, done, l);
    }
    assert AllSucceed(steps, m + 1, n);
  }

  ghost predicate WaitIsOver(states: seq<State>, steps: seq<Step>, n: nat) {
    IsRun(states, steps) && n < |states| && (states[n].waiter == Returned || states[n].waiter == Finalized)
  }

  /** Once the wait has returned, the return code is success exactly if all operations of the run succeeded, and otherwise
      the code of one that failed. */
  lemma CodeTellsFailure(states: seq<State>, steps: seq<Step>, n: nat)
    requires WaitIsOver(states, steps, n)
    ensures states[n].code == Success <==> forall k :: 0 <= k < n && steps[k].Operate? ==> steps[k].ret == Success
    ensures states[n].code != Success ==> exists k :: 0 <= k < n && steps[k].Operate? && steps[k].ret == states[n].code
  {
    RunKeepsInv(states, steps, n);
    var s := states[n];
    forall k | 0 <= k < n && steps[k].Operate? ensures s.code == Success ==> steps[k].ret == Success {
      ResultIsKept(states, steps, k, n);
      assert HasRecorded(s.tasks[steps[k].i]);
    }
    if s.code != Success {
      var i :| 0 <= i < |s.tasks| && HasRecorded(s.tasks[i]) && s.tasks[i].ret == s.code;
      RunKeepsHistory(states, steps, n);
      assert Operate(i, s.code) in steps[..n];
      var k :| 0 <= k < n && steps[..n][k] == Operate(i, s.code);
      assert steps[k].ret == s.code;
    }
  }

  /** In every run: once the wait has returned, every announced task has been operated and called back once and is done,
      no backend thread has any step left, and the return code tells of failures. */
  lemma WaitReturnsLast(states: seq<State>, steps: seq<Step>, n: nat)
    requires WaitIsOver(states, steps, n)
    ensures |states[n].tasks| == Announcements(steps[..n])
    ensures forall i :: 0 <= i < |states[n].tasks| ==> states[n].tasks[i].Done? && Operations(steps[..n], i) == 1 && Callbacks(steps[..n], i) == 1
    ensures forall step :: IsTaskStep(step) ==> !Enabled(states[n], step)
    ensures states[n].code == Success <==> forall k :: 0 <= k < n && steps[k].Operate? ==> steps[k].ret == Success
    ensures states[n].code != Success ==> exists k :: 0 <= k < n && steps[k].Operate? && steps[k].ret == states[n].code
  {
    CodeTellsFailure(states, steps, n);
    AllTasksDone(states, steps, n);
  }

  lemma AllTasksDone(states: seq<State>, steps: seq<Step>, n: nat)
    requires WaitIsOver(states, steps, n)
    ensures |states[n].tasks| == Announcements(steps[..n])
    ensures forall i :: 0 <= i < |states[n].tasks| ==> states[n].tasks[i].Done? && Operations(steps[..n], i) == 1 && Callbacks(steps[..n], i) == 1
  {
    RunKeepsInv(states, steps, n);
    RunKeepsHistory(states, steps, n);
    forall i | 0 <= i < |states[n].tasks| ensures states[n].tasks[i].Done? && Operations(steps[..n], i) == 1 && Callbacks(steps[..n], i) == 1 {
      assert HasCalledBack(states[n].tasks[i]);
    }
  }

  /** No wakeup is lost, and nothing gets stuck: a state without an enabled step other than a spurious one is final. */
  lemma NoDeadlock(states: seq<State>, steps: seq<Step>, n: nat) returns (step: Step)
    requires IsRun(states, steps) && n < |states| && states[n].waiter != Finalized
    ensures Enabled(states[n], step) && !step.Spurious? && !step.Announce?
  {
    RunKeepsInv(states, steps, n);
    step := NextStep(states[n]);
  }

  lemma NextStep(s: State) returns (step: Step)
    requires Inv(s) && s.waiter != Finalized
    ensures Enabled(s, step) && !step.Spurious? && !step.Announce?
  {
    match s.mutex
    case ByTask(i) =>
      var p := s.tasks[i];
      assert InSection(p);
      step := if p.Locked? then Subtract(i) else if p.Subtracted? then Record(i) else if p.Recorded? then Signal(i) else Unlock(i);
    case ByWaiter =>
      step := if s.waiter == Checking then Check else WaiterUnlock;
    case Free =>
      if s.waiter == WantsLock {
        step := WaiterLock;
      } else if s.waiter == Returned {
        step := Finalize;
      } else if s.waiter == Enqueueing && Announced !in s.tasks {
        step := BeginWait;
      } else if s.waiter == Enqueueing {
        var i :| 0 <= i < |s.tasks| && s.tasks[i] == Announced;
        step := Push(i);
      } else {
        assert s.waiter == Asleep;
        forall i | 0 <= i < |s.tasks| ensures !WillSignal(s.tasks[i]) { assert InSection(s.tasks[i]) <==> s.mutex == ByTask(i); }
        var i := CountPositive(s.tasks);
        assert s.tasks[i] != Announced;
        step := if s.tasks[i].Queued? then Operate(i, Success) else if s.tasks[i].Operated? then Callback(i) else Lock(i);
      }
  }

  // ----- every wait comes to an end

  function Remaining(p: Progress): nat {
    match p
    case Announced => 8
    case Queued => 7
    case Operated(_) => 6
    case CalledBack(_) => 5
    case Locked(_) => 4
    case Subtracted(_, _) => 3
    case Recorded(_, _) => 2
    case Signalled(_) => 1
    case Done(_) => 0
  }

  function TotalRemaining(tasks: seq<Progress>): nat {
    if tasks == [] then 0 else TotalRemaining(tasks[..|tasks| - 1]) + Remaining(tasks[|tasks| - 1])
  }

  function WaiterRemaining(w: Waiter): nat {
    match w
    case Enqueueing => 6
    case WantsLock => 5
    case Checking => 4
    case Asleep => 3
    case Leaving => 2
    case Returned => 1
    case Finalized => 0
  }

  /** A bound on the number of steps that are still to come, unless the waiter wakes up without a signal. */
  function Bound(s: State): nat { 3 * TotalRemaining(s.tasks) + WaiterRemaining(s.waiter) }

  lemma {:induction false} RemainingUpdate(tasks: seq<Progress>, i: nat, p: Progress)
    requires i < |tasks|
    ensures TotalRemaining(tasks[i := p]) == TotalRemaining(tasks) - Remaining(tasks[i]) + Remaining(p)
  {
    var l := |tasks| - 1;
    if i == l {
      assert tasks[i := p][..l] == tasks[..l];
    } else {
      assert tasks[i := p][..l] == tasks[..l][i := p];
      RemainingUpdate(tasks[..l], i, p);
    }
  }

  lemma StepsRunOut(s: State, step: Step)
    requires Enabled(s, step) && !step.Spurious? && !step.Announce?
    ensures Bound(Do(s, step)) < Bound(s)
  {
    var t := Do(s, step);
    if step.Push? || IsTaskStep(step) {
      TaskGoesOn(s, step);
      RemainingUpdate(s.tasks, step.i, t.tasks[step.i]);
    }
  }

  lemma TaskGoesOn(s: State, step: Step)
    requires Enabled(s, step) && (step.Push? || IsTaskStep(step))
    ensures var t := Do(s, step);
      0 <= step.i < |s.tasks| && t.tasks == s.tasks[step.i := t.tasks[step.i]] && Remaining(t.tasks[step.i]) == Remaining(s.tasks[step.i]) - 1
      && WaiterRemaining(t.waiter) <= WaiterRemaining(s.waiter) + 2
  {}

  /** After the last announcement, a run without spurious wakeups has at most Bound more steps;
      by NoDeadlock it can only stop when the request is finalized. */
  lemma {:induction false} WaitTerminates(states: seq<State>, steps: seq<Step>, from: nat, n: nat)
    requires IsRun(states, steps) && from <= n < |states|
    requires forall k :: from <= k < n ==> !steps[k].Spurious? && !steps[k].Announce?
    ensures n - from + Bound(states[n]) <= Bound(states[from])
    decreases n - from
  {
    if from < n {
      assert Enabled(states[n - 1], steps[n - 1]) && states[n - 1 + 1] == Do(states[n - 1], steps[n - 1]);
      StepsRunOut(states[n - 1], steps[n - 1]);
      WaitTerminates(states, steps, from, n - 1);
    }
  }
}
