/** `ActionTask`: the Resting/Running/Success/Failure life cycle of an
    action, with its one-shot `latch` (a terminal status set by `EndAction`
    between two polls is reported once before the action restarts), its
    paused flag and its start/pause timestamps. `Time.time` is an integer
    clock `now` passed to every call that reads it. The code a concrete
    action runs in its `OnExecute`/`OnUpdate` hooks is abstracted as the one
    call it makes back into the task, if any; the hooks that ran are
    reported in order. */
module ActionTasks {
  import opened Common

  /** The task's private state; `isActive` is the inherited `Task` flag. */
  datatype Task = Task(
    isActive: bool,
    status: Status,
    startedTime: int,
    pausedTime: int,
    latch: bool,
    isPaused: bool)

  /** The overridable hooks of an action. */
  datatype Hook = OnExecuteHook | OnUpdateHook | OnStopHook | OnPauseHook

  /** What a concrete action's `OnExecute`/`OnUpdate` does to its own task:
      nothing, `EndAction(success)`, or `PauseAction()`. */
  datatype HookCall = NoCall | CallsEnd(success: Option<bool>) | CallsPause

  /** The task after a call and the hooks the call ran, in order. */
  datatype Effect = Effect(task: Task, hooks: seq<Hook>)

  /** The task after `ExecuteAction`, the status it returned and the hooks it ran. */
  datatype Step = Step(task: Task, result: Status, hooks: seq<Hook>)

  /** A task that has never run. */
  function NewTask(): Task {
    Task(true, Resting, 0, 0, false, false)
  }

  /** What holds of a task between calls: it is paused only while running,
      a latched status is terminal, and it never holds `Error`. */
  predicate TaskInv(t: Task) {
    && (t.isPaused ==> t.status == Running)
    && (t.latch ==> t.status == Success || t.status == Failure)
    && t.status != Error
  }

  /** `isRunning`. */
  predicate IsRunning(t: Task) {
    t.status == Running
  }

  /** `elapsedTime` at clock `now`. */
  function ElapsedTime(t: Task, now: int): (e: int)
    // running: the time since the (resume-adjusted) start
    ensures IsRunning(t) && !t.isPaused ==> e == now - t.startedTime
    // paused: frozen at the pause, whatever the clock says
    ensures t.isPaused ==> e == t.pausedTime - t.startedTime
    // a task that keeps the invariant and is not running has none
    ensures TaskInv(t) && !IsRunning(t) ==> e == 0
  {
    if t.isPaused then t.pausedTime - t.startedTime
    else if IsRunning(t) then now - t.startedTime
    else 0
  }

  /** `EndAction(success)`: `Some(true)` succeeds, `Some(false)` fails and
      `None` cancels (a failure that is not latched). */
  function EndAction(t: Task, success: Option<bool>): (r: Effect)
    ensures t.status != Running ==> r == Effect(t, [])
    ensures t.status == Running ==>
      && r.task.status == (if success == Some(true) then Success else Failure)
      && r.task.latch == success.Some?
      && !r.task.isPaused
      && r.hooks == [OnStopHook]
      && r.task.startedTime == t.startedTime && r.task.pausedTime == t.pausedTime
      && r.task.isActive == t.isActive
  {
    if t.status != Running then Effect(t, [])
    else
      var ended := t.(isPaused := false,
                      status := if success == Some(true) then Success else Failure,
                      latch := success.Some?);
      Effect(ended, [OnStopHook])
  }

  /** `PauseAction()` at clock `now`. */
  function PauseAction(t: Task, now: int): (r: Effect)
    ensures t.status != Running ==> r == Effect(t, [])
    ensures t.status == Running ==>
      && r.task.status == Running && r.task.isPaused && r.task.pausedTime == now
      && r.hooks == [OnPauseHook]
      && r.task.startedTime == t.startedTime && r.task.latch == t.latch && r.task.isActive == t.isActive
  {
    if t.status != Running then Effect(t, [])
    else Effect(t.(pausedTime := now, isPaused := true), [OnPauseHook])
  }

  /** The call a hook makes back into its task. */
  function RunHookCall(t: Task, call: HookCall, now: int): (r: Effect)
    ensures call == NoCall ==> r == Effect(t, [])
    ensures call.CallsEnd? ==> r == EndAction(t, call.success)
    ensures call == CallsPause ==> r == PauseAction(t, now)
  {
    match call
    case NoCall => Effect(t, [])
    case CallsEnd(success) => EndAction(t, success)
    case CallsPause => PauseAction(t, now)
  }

  /** The task as `ExecuteAction` sees it after resuming a pause: the start
      is moved forward by the length of the pause. */
  function Resumed(t: Task, now: int): Task {
    if t.isPaused then t.(startedTime := t.startedTime + (now - t.pausedTime), isPaused := false)
    else t
  }

  /** What the hook `hook` (`OnExecute` or `OnUpdate`) leaves behind when it
      makes the call `call` on a running, unpaused task: the status it
      reports, the hooks run, and the pause it may start. With no call the
      action is still running; `EndAction` reports its verdict after
      `OnStop`; `PauseAction` keeps it running, paused at `now`. */
  predicate HookOutcome(call: HookCall, now: int, hook: Hook, r: Step) {
    match call
    case NoCall =>
      r.result == Running && r.hooks == [hook] && !r.task.isPaused
    case CallsEnd(success) =>
      && r.result == (if success == Some(true) then Success else Failure)
      && r.hooks == [hook, OnStopHook] && !r.task.isPaused
    case CallsPause =>
      && r.result == Running && r.hooks == [hook, OnPauseHook]
      && r.task.isPaused && r.task.pausedTime == now
  }

  /** `ExecuteAction(agent, blackboard)` at clock `now`. `bindOk` is the
      outcome of `Set(agent, blackboard)`, `call` what the hook that runs
      does. */
  function ExecuteAction(t: Task, now: int, bindOk: bool, call: HookCall): (r: Step)
    // an inactive task fails and nothing changes
    ensures !t.isActive ==> r == Step(t, Failure, [])
    // a running task is updated, never restarted, and the latch is cleared
    ensures t.isActive && t.status == Running ==>
      && |r.hooks| > 0 && r.hooks[0] == OnUpdateHook && OnExecuteHook !in r.hooks
      && r.task.isActive && !r.task.latch && r.result == r.task.status
      && r.task.startedTime == Resumed(t, now).startedTime
      && HookOutcome(call, now, OnUpdateHook, r)
    // a latched terminal status is reported once, without running a hook
    ensures t.isActive && t.status != Running && t.latch ==>
      r == Step(Resumed(t, now).(latch := false), t.status, [])
    // a failed bind deactivates the task
    ensures t.isActive && t.status != Running && !t.latch && !bindOk ==>
      r == Step(Resumed(t, now).(isActive := false), Failure, [])
    // a fresh start: started now, OnExecute runs once and first, its verdict is returned
    ensures t.isActive && t.status != Running && !t.latch && bindOk ==>
      && |r.hooks| > 0 && r.hooks[0] == OnExecuteHook && OnExecuteHook !in r.hooks[1..]
      && r.task.startedTime == now
      && r.task.isActive && !r.task.latch && r.result == r.task.status
      && HookOutcome(call, now, OnExecuteHook, r)
  {
    if !t.isActive then Step(t, Failure, [])
    else
      var t1 := Resumed(t, now);
      if t1.status == Running then
        var e := RunHookCall(t1, call, now);
        Step(e.task.(latch := false), e.task.status, [OnUpdateHook] + e.hooks)
      else if t1.latch then
        Step(t1.(latch := false), t1.status, [])
      else if !bindOk then
        Step(t1.(isActive := false), Failure, [])
      else
        var started := t1.(startedTime := now, status := Running);
        var e := RunHookCall(started, call, now);
        Step(e.task.(latch := false), e.task.status, [OnExecuteHook] + e.hooks)
  }

  /** Every operation keeps the task invariant. */
  lemma OperationsKeepTaskInv(t: Task, now: int, bindOk: bool, call: HookCall, success: Option<bool>)
    requires TaskInv(t)
    ensures TaskInv(ExecuteAction(t, now, bindOk, call).task)
    ensures TaskInv(EndAction(t, success).task)
    ensures TaskInv(PauseAction(t, now).task)
  {
  }

  /** `ExecuteAction` never reports `Resting` or `Error`. */
  lemma ExecuteReportsNoRestOrError(t: Task, now: int, bindOk: bool, call: HookCall)
    requires TaskInv(t)
    ensures ExecuteAction(t, now, bindOk, call).result in {Running, Success, Failure}
  {
  }

  /** An `EndAction(true)` inside `OnExecute` makes that very call report
      `Success`; `EndAction(false)` or a cancel makes it report `Failure`. */
  lemma EndInsideOnExecute(t: Task, now: int, success: Option<bool>)
    requires t.isActive && t.status != Running && !t.latch
    ensures var r := ExecuteAction(t, now, true, CallsEnd(success));
      && r.result == (if success == Some(true) then Success else Failure)
      && r.hooks == [OnExecuteHook, OnStopHook]
      && !r.task.latch
  {
  }

  /** The latch: after an external `EndAction(true)` or `EndAction(false)`
      on a running task, the next `ExecuteAction` reports that terminal
      status without running any hook, and the one after restarts the task
      (when the bind succeeds) whatever the first was told. */
  lemma LatchedEndReportedOnce(t: Task, success: bool, now1: int, now2: int, bind1: bool, bind2: bool,
                               call1: HookCall, call2: HookCall)
    requires t.isActive && t.status == Running
    ensures var ended := EndAction(t, Some(success)).task;
      var first := ExecuteAction(ended, now1, bind1, call1);
      var second := ExecuteAction(first.task, now2, bind2, call2);
      && first.result == (if success then Success else Failure)
      && first.hooks == []
      && (bind2 ==> second.hooks[0] == OnExecuteHook && second.task.startedTime == now2)
  {
  }

  /** A cancel (`EndAction(null)`) is not latched: the next `ExecuteAction`
      restarts the task at once (when the bind succeeds). */
  lemma CancelRestartsAtOnce(t: Task, now: int, call: HookCall)
    requires t.isActive && t.status == Running
    ensures var ended := EndAction(t, None).task;
      var next := ExecuteAction(ended, now, true, call);
      && ended.status == Failure && !ended.latch
      && next.hooks[0] == OnExecuteHook && next.task.startedTime == now
  {
  }

  /** The difference between a cancel and a failure is observable on the
      next poll: after `EndAction(false)` it reports `Failure` without
      restarting, after `EndAction(null)` it restarts and the hook decides. */
  lemma CancelAndFailureDiffer(t: Task, now: int)
    requires t.isActive && t.status == Running
    ensures ExecuteAction(EndAction(t, Some(false)).task, now, true, NoCall).result == Failure
    ensures ExecuteAction(EndAction(t, None).task, now, true, NoCall).result == Running
  {
  }

  /** While paused, the elapsed time is frozen at the moment of the pause. */
  lemma PauseFreezesElapsedTime(t: Task, now: int, later: int)
    requires TaskInv(t) && t.status == Running && !t.isPaused
    ensures var p := PauseAction(t, now).task;
      IsRunning(p) && ElapsedTime(p, later) == ElapsedTime(t, now)
  {
  }

  /** Resuming moves the start forward by the pause: once running again, the
      elapsed time counts only the time not spent paused. */
  lemma ResumeExcludesPause(t: Task, pausedAt: int, resumedAt: int, later: int)
    requires TaskInv(t) && t.isActive && t.status == Running && !t.isPaused
    ensures var p := PauseAction(t, pausedAt).task;
      var r := ExecuteAction(p, resumedAt, true, NoCall).task;
      && IsRunning(r) && !r.isPaused
      && ElapsedTime(r, later) == (later - t.startedTime) - (resumedAt - pausedAt)
  {
  }

  /** A task that is neither paused nor running has no elapsed time. */
  lemma IdleTaskHasNoElapsedTime(t: Task, now: int)
    requires !t.isPaused && !IsRunning(t)
    ensures ElapsedTime(t, now) == 0
  {
  }
}
