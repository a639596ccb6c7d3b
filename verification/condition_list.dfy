/** `ConditionList`: a condition made of child conditions, true when all
    of them are (`AllTrueRequired`) or when any is (`AnyTrueSuffice`).
    Inactive children are never checked and count as satisfied; evaluation
    stops at the first active child that decides the outcome. A child's
    `CheckCondition(agent, blackboard)` is abstracted as the boolean it would
    return on this evaluation. */
module ConditionLists {

  /** A child condition: its active flag, whether it is itself a
      `ConditionList`, and what checking it would return. */
  datatype Condition = Condition(isActive: bool, isList: bool, outcome: bool)

  datatype CheckMode = AllTrueRequired | AnyTrueSuffice

  /** The first active child at or after `from` whose outcome is `v`, or
      `|conds|` if there is none. */
  function FirstActiveWith(conds: seq<Condition>, v: bool, from: nat := 0): (k: nat)
    requires from <= |conds|
    ensures from <= k <= |conds|
    ensures forall i :: from <= i < k ==> !(conds[i].isActive && conds[i].outcome == v)
    ensures k < |conds| ==> conds[k].isActive && conds[k].outcome == v
    decreases |conds| - from
  {
    if from == |conds| then from
    else if conds[from].isActive && conds[from].outcome == v then from
    else FirstActiveWith(conds, v, from + 1)
  }

  /** The children a short-circuiting evaluation reaches: up to and
      including the first active one that decides the outcome (a false one
      when all must hold, a true one when any suffices). */
  function Reached(conds: seq<Condition>, mode: CheckMode): (hi: nat)
    ensures hi <= |conds|
  {
    var k := FirstActiveWith(conds, mode == AnyTrueSuffice);
    if k < |conds| then k + 1 else |conds|
  }

  /** The indices of the active children below `hi`, in order. */
  function ActiveBelow(conds: seq<Condition>, hi: nat): seq<nat>
    requires hi <= |conds|
    decreases hi
  {
    if hi == 0 then []
    else ActiveBelow(conds, hi - 1) + (if conds[hi - 1].isActive then [hi - 1] else [])
  }

  /** The children `ActiveBelow` lists are exactly the active ones below
      `hi`, in increasing order: inactive children are never checked. */
  lemma {:induction false} ActiveBelowIsActiveInOrder(conds: seq<Condition>, hi: nat)
    requires hi <= |conds|
    ensures var r := ActiveBelow(conds, hi);
      && (forall j :: 0 <= j < |r| ==> r[j] < hi && conds[r[j]].isActive)
      && (forall j1, j2 :: 0 <= j1 < j2 < |r| ==> r[j1] < r[j2])
      && (forall i :: 0 <= i < hi && conds[i].isActive ==> i in r)
    decreases hi
  {
    if hi > 0 {
      ActiveBelowIsActiveInOrder(conds, hi - 1);
    }
  }

  /** How many of the first `hi` children are inactive. */
  function InactiveBelow(conds: seq<Condition>, hi: nat): (n: nat)
    requires hi <= |conds|
    ensures n <= hi
    ensures n == hi <==> forall i :: 0 <= i < hi ==> !conds[i].isActive
    decreases hi
  {
    if hi == 0 then 0
    else InactiveBelow(conds, hi - 1) + (if conds[hi - 1].isActive then 0 else 1)
  }

  /** The list's verdict, by definition: when all must hold, every active
      child holds; when any suffices, some active child holds or no child is
      active (an empty list holds either way). */
  predicate Verdict(conds: seq<Condition>, mode: CheckMode) {
    match mode
    case AllTrueRequired =>
      forall i :: 0 <= i < |conds| && conds[i].isActive ==> conds[i].outcome
    case AnyTrueSuffice =>
      || (exists i :: 0 <= i < |conds| && conds[i].isActive && conds[i].outcome)
      || (forall i :: 0 <= i < |conds| ==> !conds[i].isActive)
  }

  /** The verdict is decided by the first deciding child, if there is one,
      and otherwise by counting the children that count as satisfied. */
  lemma VerdictAtStop(conds: seq<Condition>, mode: CheckMode)
    ensures var k := FirstActiveWith(conds, mode == AnyTrueSuffice);
      && (k < |conds| ==> (Verdict(conds, mode) <==> mode == AnyTrueSuffice))
      && (k == |conds| && mode == AllTrueRequired ==> Verdict(conds, mode))
      && (k == |conds| && mode == AnyTrueSuffice ==>
            (Verdict(conds, mode) <==> InactiveBelow(conds, |conds|) == |conds|))
  {
  }

  /** `OnCheck()`: the list's verdict and the indices of the children whose
      `CheckCondition` was called, in call order. */
  method OnCheck(conds: seq<Condition>, mode: CheckMode) returns (result: bool, checked: seq<nat>)
    ensures result == Verdict(conds, mode)
    // exactly the active children up to the deciding one are checked, in order
    ensures checked == ActiveBelow(conds, Reached(conds, mode))
  {
    VerdictAtStop(conds, mode);
    var allTrue := mode == AllTrueRequired;
    var succeedChecks := 0;
    checked := [];
    var i := 0;
    while i < |conds|
      invariant 0 <= i <= |conds|
      invariant i <= FirstActiveWith(conds, !allTrue)
      invariant checked == ActiveBelow(conds, i)
      invariant succeedChecks == if allTrue then i else InactiveBelow(conds, i)
    {
      if !conds[i].isActive {
        succeedChecks := succeedChecks + 1;
      } else {
        checked := checked + [i];
        if conds[i].outcome {
          if !allTrue {
            return true, checked;
          }
          succeedChecks := succeedChecks + 1;
        } else {
          if allTrue {
            return false, checked;
          }
        }
      }
      i := i + 1;
    }
    result := succeedChecks == |conds|;
  }

  /** No child is itself a condition list. */
  predicate Flat(conds: seq<Condition>) {
    forall i :: 0 <= i < |conds| ==> !conds[i].isList
  }

  /** `AddCondition(condition)`: a nested list is refused and the list is
      unchanged; anything else is appended. */
  function AddCondition(conds: seq<Condition>, c: Condition): (r: seq<Condition>)
    ensures c.isList ==> r == conds
    ensures !c.isList ==> |r| == |conds| + 1 && r[..|conds|] == conds && r[|conds|] == c
    // the refusal keeps a flat list flat
    ensures Flat(conds) ==> Flat(r)
  {
    if c.isList then conds else conds + [c]
  }

  /** The children of `conds` that are not lists, in order. */
  function NonLists(conds: seq<Condition>): (r: seq<Condition>)
    ensures Flat(r) && |r| <= |conds|
    decreases |conds|
  {
    if |conds| == 0 then []
    else if conds[|conds| - 1].isList then NonLists(conds[..|conds| - 1])
    else NonLists(conds[..|conds| - 1]) + [conds[|conds| - 1]]
  }

  /** The list rebuild of `Duplicate`: start empty and `AddCondition` a copy
      of every child, in order. A child's own `Duplicate` is a copy of it, so
      a nested list stays a list and is refused. */
  method Duplicate(conds: seq<Condition>) returns (copy: seq<Condition>)
    ensures copy == NonLists(conds)
  {
    copy := [];
    var i := 0;
    while i < |conds|
      invariant 0 <= i <= |conds|
      invariant copy == NonLists(conds[..i])
    {
      assert conds[..i + 1][..i] == conds[..i];
      copy := AddCondition(copy, conds[i]);
      i := i + 1;
    }
    assert conds[..|conds|] == conds;
  }

  /** Duplicating a list without nested lists copies it exactly. */
  lemma {:induction false} FlatListsDuplicateExactly(conds: seq<Condition>)
    requires Flat(conds)
    ensures NonLists(conds) == conds
    decreases |conds|
  {
    if |conds| > 0 {
      var init := conds[..|conds| - 1];
      FlatListsDuplicateExactly(init);
      assert init + [conds[|conds| - 1]] == conds;
    }
  }

  /** With an inactive child and a false one, "any true" does not hold:
      an inactive child counts toward the total but does not make the list
      true by itself. */
  method InactiveThenFalse() returns (result: bool)
    ensures !result
  {
    var conds := [Condition(false, false, true), Condition(true, false, false)];
    var checked;
    result, checked := OnCheck(conds, AnyTrueSuffice);
    assert !conds[0].isActive && !conds[1].outcome;
  }
}
