/** `Node.Execute`: the recursion guard turns a re-entrant call into an
    `Error`, a breakpoint on a resting node pauses the graph (editor builds
    only), and otherwise the node-type-specific `OnExecute` hook decides the
    node's new status. */
module NodeExecution {
  import opened Common
  import opened Graphs

  /** A node type's `OnExecute(agent, blackboard)` hook, with the agent and
      blackboard abstracted away: given the node and its current status, the
      status the hook returns. */
  type ExecuteHook = (nat, Status) -> Status

  /** The hook of a node type that does not override `OnExecute`. */
  function DefaultHook(n: nat, current: Status): Status {
    current
  }

  /** The state after a call and the status the call returned. */
  datatype Outcome = Outcome(state: RunState, result: Status)

  /** `Execute(agent, blackboard)` on node `n`. `editor` says whether the
      breakpoint branch, compiled only into editor builds, is present. */
  function Execute(t: Topology, s: RunState, n: nat, editor: bool, onExecute: ExecuteHook): (r: Outcome)
    requires Valid(t) && Fits(t, s) && n < |t.nodes|
    ensures Fits(t, r.state)
    // every guard is as the call found it
    ensures r.state.checked == s.checked
    // only node n's status and the paused flag can change
    ensures r.state == s.(status := r.state.status, paused := r.state.paused)
    ensures forall j :: 0 <= j < |t.nodes| && j != n ==> r.state.status[j] == s.status[j]
    // re-entry: Error, nothing changes
    ensures s.checked[n] ==> r == Outcome(s, Error)
    // breakpoint on a resting node: Running, graph paused, node Running
    ensures !s.checked[n] && editor && t.nodes[n].isBreakpoint && s.status[n] == Resting ==>
      r.result == Running && r.state.status[n] == Running && r.state.paused
    // otherwise: the hook's verdict becomes the node's status and is returned
    ensures !s.checked[n] && !(editor && t.nodes[n].isBreakpoint && s.status[n] == Resting) ==>
      && r.result == onExecute(n, s.status[n])
      && r.state.status[n] == r.result
      && r.state.paused == s.paused
  {
    if s.checked[n] then
      Outcome(s, Error)
    else if editor && t.nodes[n].isBreakpoint && s.status[n] == Resting then
      Outcome(s.(status := s.status[n := Running], paused := true), Running)
    else
      var guarded := s.(checked := s.checked[n := true]);
      var st := onExecute(n, guarded.status[n]);
      Outcome(guarded.(status := guarded.status[n := st], checked := guarded.checked[n := false]), st)
  }

  /** A breakpoint stops the call before the hook runs: the outcome is the
      same whatever the hook would have done. */
  lemma BreakpointSkipsHook(t: Topology, s: RunState, n: nat, h1: ExecuteHook, h2: ExecuteHook)
    requires Valid(t) && Fits(t, s) && n < |t.nodes|
    requires !s.checked[n] && t.nodes[n].isBreakpoint && s.status[n] == Resting
    ensures Execute(t, s, n, true, h1) == Execute(t, s, n, true, h2)
    ensures Execute(t, s, n, true, h1).state == s.(status := s.status[n := Running], paused := true)
  {
  }

  /** A node type without its own hook leaves the graph unchanged and
      reports the status it already had. */
  lemma DefaultHookIsPassThrough(t: Topology, s: RunState, n: nat)
    requires Valid(t) && Fits(t, s) && n < |t.nodes|
    requires !s.checked[n] && !t.nodes[n].isBreakpoint
    ensures Execute(t, s, n, true, DefaultHook) == Outcome(s, s.status[n])
  {
    assert s.status[n := s.status[n]] == s.status;
  }

  /** The call along `path` re-enters a node: one is guarded before the call,
      or one occurs twice. */
  ghost predicate Reentrant(s: RunState, path: seq<nat>)
    requires forall i :: 0 <= i < |path| ==> path[i] < |s.checked|
  {
    exists i :: 0 <= i < |path| && (s.checked[path[i]] || path[i] in path[..i])
  }

  /** Executing `path[0]` where every node of `path` but the last has an
      `OnExecute` hook that executes the next node of `path` and returns its
      status, and the last node's hook is `leaf` (non-editor build). This is
      how a cycle of the graph is followed within one tick. */
  function ExecuteChain(t: Topology, s: RunState, path: seq<nat>, leaf: ExecuteHook): (r: Outcome)
    requires Valid(t) && Fits(t, s)
    requires |path| > 0 && forall i :: 0 <= i < |path| ==> path[i] < |t.nodes|
    ensures Fits(t, r.state)
    // every guard is restored, whatever happened on the way
    ensures r.state.checked == s.checked
    // a re-entrant call surfaces as Error
    ensures Reentrant(s, path) ==> r.result == Error
    // otherwise the leaf's verdict is returned, and every node of the path holds it
    ensures !Reentrant(s, path) ==> r.result == leaf(path[|path| - 1], s.status[path[|path| - 1]])
    ensures !Reentrant(s, path) ==> forall i :: 0 <= i < |path| ==> r.state.status[path[i]] == r.result
    // only statuses change, only of nodes on the path, and each to the returned status
    ensures r.state == s.(status := r.state.status)
    ensures forall j :: 0 <= j < |t.nodes| && r.state.status[j] != s.status[j] ==> j in path && r.state.status[j] == r.result
    decreases |path|
  {
    var n := path[0];
    if s.checked[n] then
      Outcome(s, Error)
    else
      var guarded := s.(checked := s.checked[n := true]);
      var inner := if |path| == 1 then Outcome(guarded, leaf(n, guarded.status[n]))
                   else ExecuteChain(t, guarded, path[1..], leaf);
      var st := inner.result;
      var r := Outcome(inner.state.(status := inner.state.status[n := st],
                                    checked := inner.state.checked[n := false]), st);
      if |path| == 1 then r
      else
        ReentrantStep(s, guarded, path);
        ChainFrameStep(t, s, guarded, inner, r, path);
        r
  }

  /** The frame of one chain step: the rest of the chain changed only
      statuses of its own nodes, each to its result, and the head takes that
      result too. */
  lemma ChainFrameStep(t: Topology, s: RunState, guarded: RunState, inner: Outcome, r: Outcome, path: seq<nat>)
    requires Valid(t) && Fits(t, s)
    requires |path| > 1 && forall i :: 0 <= i < |path| ==> path[i] < |t.nodes|
    requires !s.checked[path[0]] && guarded == s.(checked := s.checked[path[0] := true])
    requires Fits(t, inner.state) && inner.state == guarded.(status := inner.state.status)
    requires forall j :: 0 <= j < |t.nodes| && inner.state.status[j] != guarded.status[j] ==>
      j in path[1..] && inner.state.status[j] == inner.result
    requires Reentrant(s, path) <==> Reentrant(guarded, path[1..])
    requires !Reentrant(guarded, path[1..]) ==>
      forall i :: 0 <= i < |path[1..]| ==> inner.state.status[path[1..][i]] == inner.result
    requires r == Outcome(inner.state.(status := inner.state.status[path[0] := inner.result],
                                       checked := inner.state.checked[path[0] := false]), inner.result)
    ensures r.state == s.(status := r.state.status)
    ensures forall j :: 0 <= j < |t.nodes| && r.state.status[j] != s.status[j] ==> j in path && r.state.status[j] == r.result
    ensures !Reentrant(s, path) ==> forall i :: 0 <= i < |path| ==> r.state.status[path[i]] == r.result
  {
    assert s.checked[path[0] := true][path[0] := false] == s.checked;
    forall j | 0 <= j < |t.nodes| && r.state.status[j] != s.status[j]
      ensures j in path && r.state.status[j] == r.result
    {
      if j != path[0] {
        var i :| 0 <= i < |path[1..]| && path[1..][i] == j;
        assert path[i + 1] == j;
      }
    }
    if !Reentrant(s, path) {
      forall i | 0 <= i < |path|
        ensures r.state.status[path[i]] == r.result
      {
        if i > 0 && path[i] != path[0] {
          assert path[1..][i - 1] == path[i];
        }
      }
    }
  }

  /** One step of the chain is `Execute` on its head node (non-editor
      build), whose hook reports what the rest of the chain reported: a
      guarded head is `Execute`'s re-entry error, a single node is `Execute`
      with the leaf hook, and otherwise the rest of the chain runs with the
      head guarded and `Execute` stores and returns its result. */
  lemma ChainStepIsExecute(t: Topology, s: RunState, path: seq<nat>, leaf: ExecuteHook)
    requires Valid(t) && Fits(t, s)
    requires |path| > 0 && forall i :: 0 <= i < |path| ==> path[i] < |t.nodes|
    ensures s.checked[path[0]] ==> ExecuteChain(t, s, path, leaf) == Execute(t, s, path[0], false, leaf)
    ensures |path| == 1 ==> ExecuteChain(t, s, path, leaf) == Execute(t, s, path[0], false, leaf)
    ensures |path| > 1 && !s.checked[path[0]] ==>
      var inner := ExecuteChain(t, s.(checked := s.checked[path[0] := true]), path[1..], leaf);
      ExecuteChain(t, s, path, leaf) == Execute(t, inner.state.(checked := s.checked), path[0], false, (m, st) => inner.result)
  {
    var n := path[0];
    if |path| > 1 && !s.checked[n] {
      var guarded := s.(checked := s.checked[n := true]);
      var inner := ExecuteChain(t, guarded, path[1..], leaf);
      var unguarded := inner.state.(checked := s.checked);
      assert unguarded.checked[n := true] == inner.state.checked;
      assert inner.state.checked[n := false] == s.checked;
    }
  }

  /** Re-entrancy of a path is re-entrancy of its tail once the head is guarded. */
  lemma ReentrantStep(s: RunState, guarded: RunState, path: seq<nat>)
    requires |path| > 1 && forall i :: 0 <= i < |path| ==> path[i] < |s.checked|
    requires !s.checked[path[0]]
    requires guarded.checked == s.checked[path[0] := true]
    ensures Reentrant(s, path) <==> Reentrant(guarded, path[1..])
  {
    var tail := path[1..];
    if Reentrant(s, path) {
      var i :| 0 <= i < |path| && (s.checked[path[i]] || path[i] in path[..i]);
      assert i > 0;
      if s.checked[path[i]] {
        assert tail[i - 1] == path[i] && guarded.checked[tail[i - 1]];
      } else if path[i] == path[0] {
        assert guarded.checked[tail[i - 1]];
      } else {
        var j :| 0 <= j < i && path[j] == path[i];
        assert j > 0;
        assert tail[j - 1] == path[i];
        assert tail[i - 1] in tail[..i - 1];
      }
    }
    if Reentrant(guarded, tail) {
      var i :| 0 <= i < |tail| && (guarded.checked[tail[i]] || tail[i] in tail[..i]);
      assert tail[i] == path[i + 1];
      if guarded.checked[tail[i]] {
        if tail[i] == path[0] {
          assert path[i + 1] in path[..i + 1];
        } else {
          assert s.checked[path[i + 1]];
        }
      } else {
        var j :| 0 <= j < i && tail[j] == tail[i];
        assert path[j + 1] == path[i + 1];
        assert path[i + 1] in path[..i + 1];
      }
    }
  }

  /** Following a cycle within one tick: the call that comes back to the
      start node reports Error, and afterwards no guard is left set. */
  lemma CycleReportsError(t: Topology, s: RunState, path: seq<nat>, leaf: ExecuteHook)
    requires Valid(t) && Fits(t, s)
    requires |path| > 1 && forall i :: 0 <= i < |path| ==> path[i] < |t.nodes|
    requires path[|path| - 1] == path[0]
    requires forall j :: 0 <= j < |t.nodes| ==> !s.checked[j]
    ensures ExecuteChain(t, s, path, leaf).result == Error
    ensures forall j :: 0 <= j < |t.nodes| ==> !ExecuteChain(t, s, path, leaf).state.checked[j]
  {
    assert path[|path| - 1] in path[..|path| - 1];
  }
}
