/** `AnyState`: a state-machine node that takes no incoming transitions and
    whose outgoing transitions are polled every frame; the first active one
    whose condition holds enters its target state. A transition's condition
    is abstracted as `conds[k]` for the node's `k`-th outgoing connection:
    `None` when it has no condition, otherwise what `CheckCondition` returns
    on this poll. `FSM.EnterState` is reported as the node entered. */
module AnyStates {
  import opened Common
  import opened Graphs

  /** The connection bounds of an `AnyState`: no incoming connection, any
      number of outgoing ones, never the prime node. */
  predicate IsAnyStateShape(shape: NodeShape) {
    shape.maxIn == 0 && shape.maxOut == -1 && !shape.allowAsPrime
  }

  /** No connection is ever admitted into an `AnyState`. */
  lemma AnyStateAdmitsNoIncoming(t: Topology, target: nat, source: nat)
    requires target < |t.nodes| && source < |t.nodes|
    requires IsAnyStateShape(t.nodes[target])
    ensures !IsNewConnectionAllowed(t, target, source)
  {
  }

  /** The poll inputs fit node `n`: one condition per outgoing connection. */
  predicate PollFits(t: Topology, s: RunState, n: nat, conds: seq<Option<bool>>) {
    Valid(t) && Fits(t, s) && n < |t.nodes| && |conds| == |t.nodes[n].outs|
  }

  /** The `k`-th outgoing transition is evaluated: it is active and has a condition. */
  predicate Evaluated(t: Topology, n: nat, conds: seq<Option<bool>>, k: nat)
    requires Valid(t) && n < |t.nodes| && |conds| == |t.nodes[n].outs| && k < |conds|
  {
    t.conns[OutConn(t, n, k)].isActive && conds[k].Some?
  }

  /** The `k`-th outgoing transition fires: it is evaluated and its condition holds. */
  predicate Fires(t: Topology, n: nat, conds: seq<Option<bool>>, k: nat)
    requires Valid(t) && n < |t.nodes| && |conds| == |t.nodes[n].outs| && k < |conds|
  {
    Evaluated(t, n, conds, k) && conds[k].value
  }

  /** The first transition at or after `k` that fires, or the number of
      outgoing transitions if none does. */
  function FirstFiring(t: Topology, n: nat, conds: seq<Option<bool>>, k: nat): (f: nat)
    requires Valid(t) && n < |t.nodes| && |conds| == |t.nodes[n].outs| && k <= |conds|
    ensures k <= f <= |conds|
    ensures forall j :: k <= j < f ==> !Fires(t, n, conds, j)
    ensures f < |conds| ==> Fires(t, n, conds, f)
    decreases |conds| - k
  {
    if k == |conds| then k
    else if Fires(t, n, conds, k) then k
    else FirstFiring(t, n, conds, k + 1)
  }

  /** The loop of `Update` from the `k`-th outgoing connection on: skipped
      transitions are left alone, a failing one is marked `Failure`, the
      first holding one is marked `Success` and its target entered. */
  function Scan(t: Topology, s: RunState, n: nat, conds: seq<Option<bool>>, k: nat): (r: (RunState, Option<nat>))
    requires PollFits(t, s, n, conds) && k <= |conds|
    decreases |conds| - k
  {
    if k == |conds| then (s, None)
    else
      var c := OutConn(t, n, k);
      if !Evaluated(t, n, conds, k) then Scan(t, s, n, conds, k + 1)
      else if conds[k].value then (s.(connStatus := s.connStatus[c := Success]), Some(Child(t, n, k)))
      else Scan(t, s.(connStatus := s.connStatus[c := Failure]), n, conds, k + 1)
  }

  /** `Update()`: the run state after the poll and the state entered, if any. */
  function Update(t: Topology, s: RunState, n: nat, conds: seq<Option<bool>>): (r: (RunState, Option<nat>))
    requires PollFits(t, s, n, conds)
  {
    if |conds| == 0 then (s, None)
    else Scan(t, s.(status := s.status[n := Running]), n, conds, 0)
  }

  /** The status the poll leaves on the `j`-th outgoing connection, given
      the first firing transition `f` and the status `before` it had. */
  function TransitionOutcome(t: Topology, n: nat, conds: seq<Option<bool>>, f: nat, j: nat, before: Status): Status
    requires Valid(t) && n < |t.nodes| && |conds| == |t.nodes[n].outs| && j < |conds|
  {
    if j == f then Success
    else if j < f && Evaluated(t, n, conds, j) then Failure
    else before
  }

  /** What the scan from `k` does, stated against `FirstFiring`: only
      connection statuses change; each transition from `k` on ends as
      `TransitionOutcome` says; every other connection keeps its status;
      the target of the first firing transition is entered, if there is one. */
  ghost predicate ScanEffect(t: Topology, s: RunState, n: nat, conds: seq<Option<bool>>, k: nat,
                             r: RunState, entered: Option<nat>)
    requires PollFits(t, s, n, conds) && k <= |conds|
  {
    var f := FirstFiring(t, n, conds, k);
    var outs := t.nodes[n].outs;
    && r == s.(connStatus := r.connStatus)
    && |r.connStatus| == |s.connStatus|
    && entered == (if f < |conds| then Some(Child(t, n, f)) else None)
    && (forall j :: k <= j < |conds| ==>
          r.connStatus[OutConn(t, n, j)] == TransitionOutcome(t, n, conds, f, j, s.connStatus[OutConn(t, n, j)]))
    && (forall c :: 0 <= c < |s.connStatus| && c !in outs[k..] ==> r.connStatus[c] == s.connStatus[c])
  }

  /** The outgoing connections of `n` from position `k` on are its `k`-th
      one followed by those after it, which do not include it. */
  lemma OutsFrom(t: Topology, n: nat, k: nat)
    requires Valid(t) && n < |t.nodes| && k < |t.nodes[n].outs|
    ensures var outs := t.nodes[n].outs;
      && (forall c :: c in outs[k..] <==> c == outs[k] || c in outs[k + 1..])
      && outs[k] !in outs[k + 1..]
      && (forall j :: k < j < |outs| ==> outs[j] != outs[k])
  {
    var outs := t.nodes[n].outs;
    assert OutsOk(t, n);
    assert outs[k..] == [outs[k]] + outs[k + 1..];
    var tail := outs[k + 1..];
    assert forall i :: 0 <= i < |tail| ==> tail[i] == outs[k + 1 + i];
  }

  /** A skipped transition: the scan from `k` does what the scan from
      `k + 1` does. */
  lemma SkipStep(t: Topology, s: RunState, n: nat, conds: seq<Option<bool>>, k: nat, r: RunState, entered: Option<nat>)
    requires PollFits(t, s, n, conds) && k < |conds| && !Evaluated(t, n, conds, k)
    requires ScanEffect(t, s, n, conds, k + 1, r, entered)
    ensures ScanEffect(t, s, n, conds, k, r, entered)
  {
    OutsFrom(t, n, k);
    assert FirstFiring(t, n, conds, k) == FirstFiring(t, n, conds, k + 1);
  }

  /** A transition that fails: marked `Failure`, then the scan from `k + 1`. */
  lemma FailStep(t: Topology, s: RunState, s': RunState, n: nat, conds: seq<Option<bool>>, k: nat,
                 r: RunState, entered: Option<nat>)
    requires PollFits(t, s, n, conds) && k < |conds| && Evaluated(t, n, conds, k) && !conds[k].value
    requires s' == s.(connStatus := s.connStatus[OutConn(t, n, k) := Failure])
    requires PollFits(t, s', n, conds) && ScanEffect(t, s', n, conds, k + 1, r, entered)
    ensures ScanEffect(t, s, n, conds, k, r, entered)
  {
    OutsFrom(t, n, k);
    assert FirstFiring(t, n, conds, k) == FirstFiring(t, n, conds, k + 1);
  }

  /** A transition that fires: marked `Success`, its target entered, and
      nothing after it touched. */
  lemma FireStep(t: Topology, s: RunState, n: nat, conds: seq<Option<bool>>, k: nat)
    requires PollFits(t, s, n, conds) && k < |conds| && Fires(t, n, conds, k)
    ensures ScanEffect(t, s, n, conds, k, s.(connStatus := s.connStatus[OutConn(t, n, k) := Success]),
                       Some(Child(t, n, k)))
  {
    OutsFrom(t, n, k);
    assert FirstFiring(t, n, conds, k) == k;
  }

  /** The scan from `k` has the effect `ScanEffect` describes. */
  lemma {:induction false} ScanCharacterised(t: Topology, s: RunState, n: nat, conds: seq<Option<bool>>, k: nat)
    requires PollFits(t, s, n, conds) && k <= |conds|
    ensures ScanEffect(t, s, n, conds, k, Scan(t, s, n, conds, k).0, Scan(t, s, n, conds, k).1)
    decreases |conds| - k
  {
    if k < |conds| {
      var c := OutConn(t, n, k);
      if !Evaluated(t, n, conds, k) {
        ScanCharacterised(t, s, n, conds, k + 1);
        var r := Scan(t, s, n, conds, k + 1);
        SkipStep(t, s, n, conds, k, r.0, r.1);
      } else if conds[k].value {
        FireStep(t, s, n, conds, k);
      } else {
        var s' := s.(connStatus := s.connStatus[c := Failure]);
        ScanCharacterised(t, s', n, conds, k + 1);
        var r := Scan(t, s', n, conds, k + 1);
        FailStep(t, s, s', n, conds, k, r.0, r.1);
      }
    }
  }

  /** `Update` in full: without outgoing transitions nothing changes;
      otherwise the node becomes `Running`, the transitions before the first
      firing one that were evaluated are marked `Failure`, the firing one is
      marked `Success` and its target entered, and nothing else changes. */
  lemma UpdateCharacterised(t: Topology, s: RunState, n: nat, conds: seq<Option<bool>>)
    requires PollFits(t, s, n, conds)
    ensures var (r, entered) := Update(t, s, n, conds);
      var f := FirstFiring(t, n, conds, 0);
      && (|conds| == 0 ==> r == s && entered == None)
      && (|conds| > 0 ==>
            && r == s.(status := s.status[n := Running], connStatus := r.connStatus)
            && |r.connStatus| == |s.connStatus|
            && entered == (if f < |conds| then Some(Child(t, n, f)) else None)
            && (forall j :: 0 <= j < |conds| ==>
                  r.connStatus[OutConn(t, n, j)] == TransitionOutcome(t, n, conds, f, j, s.connStatus[OutConn(t, n, j)]))
            && (forall c :: 0 <= c < |s.connStatus| && c !in t.nodes[n].outs ==> r.connStatus[c] == s.connStatus[c]))
  {
    if |conds| > 0 {
      var s1 := s.(status := s.status[n := Running]);
      ScanCharacterised(t, s1, n, conds, 0);
      assert t.nodes[n].outs[0..] == t.nodes[n].outs;
    }
  }

  /** Polling again with the same condition outcomes changes nothing more:
      the statuses the first poll wrote are the ones the second writes. */
  lemma UpdateSettles(t: Topology, s: RunState, n: nat, conds: seq<Option<bool>>)
    requires PollFits(t, s, n, conds)
    ensures var (r1, e1) := Update(t, s, n, conds);
      PollFits(t, r1, n, conds) && Update(t, r1, n, conds) == (r1, e1)
  {
    var (r1, e1) := Update(t, s, n, conds);
    UpdateCharacterised(t, s, n, conds);
    if |conds| > 0 {
      var (r2, e2) := Update(t, r1, n, conds);
      UpdateCharacterised(t, r1, n, conds);
      var outs := t.nodes[n].outs;
      forall c | 0 <= c < |r1.connStatus|
        ensures r2.connStatus[c] == r1.connStatus[c]
      {
        if c in outs {
          var j :| 0 <= j < |outs| && outs[j] == c;
          assert OutConn(t, n, j) == c;
        }
      }
      assert r2.connStatus == r1.connStatus;
      assert r1.status[n] == Running;
      assert r2.status == r1.status;
      assert r2 == r1;
    }
  }
}
