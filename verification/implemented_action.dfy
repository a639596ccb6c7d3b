/** `ImplementedAction_Multiplatform`: an action whose `OnExecute` and
    `OnUpdate` both call a user method returning a `Status` and forward it:
    `Success` ends the action with `EndAction(true)`, `Failure` with
    `EndAction(false)`, anything else leaves it running. The reflected method
    call is abstracted as the `Status` it returns on this invocation. */
module ImplementedActions {
  import opened Common
  import opened ActionTasks

  /** The action: its task state and the last status the method returned
      (`actionStatus`, reset to `Resting` by `OnStop`). */
  datatype Implemented = Implemented(task: Task, actionStatus: Status)

  /** `Forward()`'s call back into the task for a method result. */
  function Forward(methodResult: Status): (call: HookCall)
    ensures methodResult == Success <==> call == CallsEnd(Some(true))
    ensures methodResult == Failure <==> call == CallsEnd(Some(false))
    ensures methodResult != Success && methodResult != Failure <==> call == NoCall
  {
    if methodResult == Success then CallsEnd(Some(true))
    else if methodResult == Failure then CallsEnd(Some(false))
    else NoCall
  }

  /** `actionStatus` after the hooks `hooks` ran in order: `OnExecute` and
      `OnUpdate` store the method result, `OnStop` resets it. */
  function TrackActionStatus(actionStatus: Status, hooks: seq<Hook>, methodResult: Status): (r: Status)
    ensures hooks == [] ==> r == actionStatus
    ensures |hooks| > 0 && hooks[|hooks| - 1] == OnStopHook ==> r == Resting
    ensures |hooks| > 0 && (hooks[|hooks| - 1] == OnExecuteHook || hooks[|hooks| - 1] == OnUpdateHook) ==> r == methodResult
    decreases |hooks|
  {
    if hooks == [] then actionStatus
    else
      var before := TrackActionStatus(actionStatus, hooks[..|hooks| - 1], methodResult);
      match hooks[|hooks| - 1]
      case OnExecuteHook => methodResult
      case OnUpdateHook => methodResult
      case OnStopHook => Resting
      case OnPauseHook => before
  }

  /** `ExecuteAction` on this action at clock `now`, with the user method
      returning `methodResult` if it is called. */
  function ExecuteImplemented(a: Implemented, now: int, bindOk: bool, methodResult: Status): (r: (Implemented, Status))
    // an inactive action fails and nothing changes
    ensures !a.task.isActive ==> r == (a, Failure)
    // when OnExecute or OnUpdate runs, the method's verdict is what the call reports
    ensures a.task.isActive && (a.task.status == Running || (!a.task.latch && bindOk)) ==>
      && (methodResult == Success || methodResult == Failure ==> r.1 == methodResult)
      && (methodResult != Success && methodResult != Failure ==>
            r.1 == Running && r.0.task.status == Running && r.0.actionStatus == methodResult)
    // when no hook runs, the stored method result is kept
    ensures a.task.isActive && a.task.status != Running && (a.task.latch || !bindOk) ==>
      r.0.actionStatus == a.actionStatus
  {
    var step := ExecuteAction(a.task, now, bindOk, Forward(methodResult));
    (Implemented(step.task, TrackActionStatus(a.actionStatus, step.hooks, methodResult)), step.result)
  }

  /** An external `EndAction` on this action; `OnStop` resets `actionStatus`
      when the task was running. */
  function EndImplemented(a: Implemented, success: Option<bool>): (r: Implemented)
    ensures a.task.status == Running ==> r.actionStatus == Resting && r.task == EndAction(a.task, success).task
    ensures a.task.status != Running ==> r == a
  {
    var e := EndAction(a.task, success);
    Implemented(e.task, TrackActionStatus(a.actionStatus, e.hooks, Resting))
  }

  /** `OnInit()`: an error message exactly when no target method resolves. */
  function OnInit(methodResolved: bool): (error: Option<string>)
    ensures error.None? <==> methodResolved
  {
    if !methodResolved then Some("ImplementedAction Error") else None
  }

  /** On a fresh start (`OnExecute`), a `Success` or `Failure` from the
      method ends the action on that very call, and `OnStop` leaves
      `actionStatus` resting. */
  lemma FreshStartForwardsEnd(a: Implemented, now: int, methodResult: Status)
    requires a.task.isActive && a.task.status != Running && !a.task.latch
    requires methodResult == Success || methodResult == Failure
    ensures var (b, result) := ExecuteImplemented(a, now, true, methodResult);
      result == methodResult && b.task.status == methodResult && b.actionStatus == Resting
  {
    var step := ExecuteAction(a.task, now, true, Forward(methodResult));
    assert step.hooks == [OnExecuteHook, OnStopHook];
  }

  /** On a fresh start, any other verdict keeps the action running with the
      verdict stored. */
  lemma FreshStartForwardsRunning(a: Implemented, now: int, methodResult: Status)
    requires a.task.isActive && a.task.status != Running && !a.task.latch
    requires methodResult != Success && methodResult != Failure
    ensures var (b, result) := ExecuteImplemented(a, now, true, methodResult);
      result == Running && b.task.status == Running && b.actionStatus == methodResult
  {
    var step := ExecuteAction(a.task, now, true, Forward(methodResult));
    assert step.hooks == [OnExecuteHook];
  }

  /** While running (`OnUpdate`), the method's verdict is forwarded the same way. */
  lemma UpdateForwards(a: Implemented, now: int, bindOk: bool, methodResult: Status)
    requires a.task.isActive && a.task.status == Running
    ensures var (b, result) := ExecuteImplemented(a, now, bindOk, methodResult);
      && (methodResult == Success ==> result == Success && b.actionStatus == Resting)
      && (methodResult == Failure ==> result == Failure && b.actionStatus == Resting)
      && (methodResult != Success && methodResult != Failure ==>
            result == Running && b.task.status == Running && b.actionStatus == methodResult)
  {
    var step := ExecuteAction(a.task, now, bindOk, Forward(methodResult));
    if methodResult == Success || methodResult == Failure {
      assert step.hooks == [OnUpdateHook, OnStopHook];
    } else {
      assert step.hooks == [OnUpdateHook];
    }
  }

  /** A verdict that ends the action is not latched: the task ended inside
      its own hook, so the next poll starts it again. */
  lemma EndingVerdictRestartsNextPoll(a: Implemented, now: int, later: int, first: Status, second: Status)
    requires a.task.isActive && a.task.status != Running && !a.task.latch
    requires first == Success || first == Failure
    ensures var (b, _) := ExecuteImplemented(a, now, true, first);
      var step := ExecuteAction(b.task, later, true, Forward(second));
      step.hooks[0] == OnExecuteHook
  {
  }
}
