/** `Node.Reset`: reset a node that is neither resting nor guarded, then,
    with the node guarded, reset each outgoing connection in order. The
    runtime `Connection.Reset` is not part of this model; it is taken to set
    the connection's status to `Resting` and forward to `targetNode.Reset`,
    so the `recursively` flag it passes along has no effect here and is
    dropped. */
module NodeReset {
  import opened Common
  import opened Graphs

  /** The nodes a reset would still change: not resting and not guarded.
      It strictly shrinks on every nested reset, which bounds the traversal
      even on cyclic graphs. */
  function Pending(status: seq<Status>, checked: seq<bool>): set<nat>
    requires |status| == |checked|
  {
    set j | 0 <= j < |status| && status[j] != Resting && !checked[j]
  }

  /** Every guarded node is resting; true between resets, and during a
      reset, because a reset guards a node only after making it rest. */
  predicate GuardsRest(s: RunState)
    requires |s.status| == |s.checked|
  {
    forall j :: 0 <= j < |s.status| ==> s.checked[j] ==> s.status[j] == Resting
  }

  /** The `OnReset` calls `r` has logged beyond `s`. */
  function Added(s: RunState, r: RunState): seq<nat>
    requires |s.resetLog| <= |r.resetLog|
  {
    r.resetLog[|s.resetLog|..]
  }

  /** `r`'s log of `OnReset` calls extends `s`'s. */
  predicate LogExtends(s: RunState, r: RunState) {
    |s.resetLog| <= |r.resetLog| && r.resetLog[..|s.resetLog|] == s.resetLog
  }

  /** Each node whose `OnReset` ran between `s` and `r` was pending, ran it
      once, and ends resting; every other node keeps its status. */
  ghost predicate CallsEffect(t: Topology, s: RunState, r: RunState)
    requires Fits(t, s) && Fits(t, r) && |s.resetLog| <= |r.resetLog|
  {
    && NoDup(Added(s, r))
    && (forall i :: 0 <= i < |Added(s, r)| ==>
          && Added(s, r)[i] in Pending(s.status, s.checked)
          && r.status[Added(s, r)[i]] == Resting)
    && (forall j :: 0 <= j < |t.nodes| && j !in Added(s, r) ==> r.status[j] == s.status[j])
  }

  /** Connections can only become resting. */
  ghost predicate ConnsOnlyRest(t: Topology, s: RunState, r: RunState)
    requires Fits(t, s) && Fits(t, r)
  {
    forall c :: 0 <= c < |t.conns| ==> r.connStatus[c] == s.connStatus[c] || r.connStatus[c] == Resting
  }

  /** What any reset does to the state: guards, IDs and the paused flag are
      untouched, `OnReset` calls are as `CallsEffect` says, and connections
      can only become resting. */
  ghost predicate ResetEffect(t: Topology, s: RunState, r: RunState)
    requires Valid(t) && Fits(t, s)
  {
    && Fits(t, r)
    && r.checked == s.checked
    && r.ids == s.ids
    && r.paused == s.paused
    && LogExtends(s, r)
    && CallsEffect(t, s, r)
    && ConnsOnlyRest(t, s, r)
  }

  /** Only connections leaving a node of `sources` changed status. */
  ghost predicate ConnsFrom(t: Topology, s: RunState, r: RunState, sources: seq<nat>)
    requires Fits(t, s) && Fits(t, r)
  {
    forall c :: 0 <= c < |t.conns| && r.connStatus[c] != s.connStatus[c] ==> t.conns[c].source in sources
  }

  /** Every outgoing connection of every node of `a` rests. */
  ghost predicate OutConnsRest(t: Topology, r: RunState, a: seq<nat>)
    requires Valid(t) && Fits(t, r)
  {
    forall i, k :: 0 <= i < |a| && a[i] < |t.nodes| && 0 <= k < |t.nodes[a[i]].outs| ==>
      r.connStatus[OutConn(t, a[i], k)] == Resting
  }

  /** The target of every outgoing connection of every node of `a` rests. */
  ghost predicate ChildrenRest(t: Topology, r: RunState, a: seq<nat>)
    requires Valid(t) && Fits(t, r)
  {
    forall i, k :: 0 <= i < |a| && a[i] < |t.nodes| && 0 <= k < |t.nodes[a[i]].outs| ==>
      r.status[Child(t, a[i], k)] == Resting
  }

  /** `Reset()` on node `n`. */
  function ResetNode(t: Topology, s: RunState, n: nat): (r: RunState)
    requires Valid(t) && Fits(t, s) && n < |t.nodes|
    ensures ResetEffect(t, s, r)
    // only connections leaving a node that was reset changed
    ensures ConnsFrom(t, s, r, Added(s, r))
    // a resting or guarded node is left alone
    ensures s.status[n] == Resting || s.checked[n] ==> r == s
    // otherwise its own OnReset runs first, and it ends resting
    ensures s.status[n] != Resting && !s.checked[n] ==>
      && |r.resetLog| > |s.resetLog|
      && r.resetLog[|s.resetLog|] == n
      && r.status[n] == Resting
    // every node reset had its outgoing connections reset
    ensures OutConnsRest(t, r, Added(s, r))
    // between resets: n rests afterwards and every node reset had its children reset
    ensures GuardsRest(s) ==> GuardsRest(r) && r.status[n] == Resting && ChildrenRest(t, r, Added(s, r))
    // every other node reset is a child of one reset before it
    ensures TreeFrom(t, Added(s, r))
    decreases Pending(s.status, s.checked), 0, 0
  {
    if s.status[n] == Resting || s.checked[n] then
      s
    else
      var marked := s.(status := s.status[n := Resting],
                       checked := s.checked[n := true],
                       resetLog := s.resetLog + [n]);
      assert n !in Pending(marked.status, marked.checked);
      assert Pending(marked.status, marked.checked) < Pending(s.status, s.checked);
      var visited := ResetConns(t, marked, n, 0);
      var r := visited.(checked := visited.checked[n := false]);
      ResetNodeComposes(t, s, marked, visited, r, n);
      r
  }

  /** The loop of `Reset` over the outgoing connections of `n`, from the
      `k`-th on; `n` is resting and guarded throughout. */
  function ResetConns(t: Topology, s: RunState, n: nat, k: nat): (r: RunState)
    requires Valid(t) && Fits(t, s) && n < |t.nodes| && k <= |t.nodes[n].outs|
    requires s.status[n] == Resting && s.checked[n]
    ensures ResetEffect(t, s, r)
    ensures ConnsFrom(t, s, r, [n] + Added(s, r))
    ensures forall k' :: k <= k' < |t.nodes[n].outs| ==> r.connStatus[OutConn(t, n, k')] == Resting
    ensures OutConnsRest(t, r, Added(s, r))
    ensures GuardsRest(s) ==>
      && GuardsRest(r)
      && ChildrenRest(t, r, Added(s, r))
      && forall k' :: k <= k' < |t.nodes[n].outs| ==> r.status[Child(t, n, k')] == Resting
    ensures TreeFrom(t, [n] + Added(s, r))
    decreases Pending(s.status, s.checked), 1, |t.nodes[n].outs| - k
  {
    if k == |t.nodes[n].outs| then
      assert Added(s, s) == [];
      assert TreeFrom(t, [n]);
      s
    else
      assert OutsOk(t, n);
      var c := OutConn(t, n, k);
      var child := Child(t, n, k);
      var cleared := s.(connStatus := s.connStatus[c := Resting]);
      var afterChild := ResetNode(t, cleared, child);
      PendingMonotone(t, cleared, afterChild);
      var r := ResetConns(t, afterChild, n, k + 1);
      ResetConnsComposes(t, s, cleared, afterChild, r, n, k);
      ConnsTreeStep(t, s, cleared, afterChild, r, n, k);
      r
  }

  /** A reset effect never makes a node pending. */
  lemma PendingMonotone(t: Topology, s: RunState, r: RunState)
    requires Fits(t, s) && Fits(t, r) && |s.resetLog| <= |r.resetLog|
    requires r.checked == s.checked && CallsEffect(t, s, r)
    ensures Pending(r.status, r.checked) <= Pending(s.status, s.checked)
  {
    forall j | j in Pending(r.status, r.checked)
      ensures j in Pending(s.status, s.checked)
    {
      forall i | 0 <= i < |Added(s, r)|
        ensures Added(s, r)[i] != j
      {
      }
    }
  }

  /** The body of `ResetNode` has the promised effect. */
  lemma ResetNodeComposes(t: Topology, s: RunState, marked: RunState, visited: RunState, r: RunState, n: nat)
    requires Valid(t) && Fits(t, s) && n < |t.nodes|
    requires s.status[n] != Resting && !s.checked[n]
    requires marked == s.(status := s.status[n := Resting], checked := s.checked[n := true], resetLog := s.resetLog + [n])
    requires ResetEffect(t, marked, visited)
    requires ConnsFrom(t, marked, visited, [n] + Added(marked, visited))
    requires forall k' :: 0 <= k' < |t.nodes[n].outs| ==> visited.connStatus[OutConn(t, n, k')] == Resting
    requires OutConnsRest(t, visited, Added(marked, visited))
    requires GuardsRest(s) ==>
      && GuardsRest(visited)
      && ChildrenRest(t, visited, Added(marked, visited))
      && forall k' :: 0 <= k' < |t.nodes[n].outs| ==> visited.status[Child(t, n, k')] == Resting
    requires TreeFrom(t, [n] + Added(marked, visited))
    requires r == visited.(checked := visited.checked[n := false])
    ensures ResetEffect(t, s, r)
    ensures ConnsFrom(t, s, r, Added(s, r))
    ensures TreeFrom(t, Added(s, r))
    ensures |r.resetLog| > |s.resetLog| && r.resetLog[|s.resetLog|] == n && r.status[n] == Resting
    ensures OutConnsRest(t, r, Added(s, r))
    ensures GuardsRest(s) ==> GuardsRest(r) && r.status[n] == Resting && ChildrenRest(t, r, Added(s, r))
  {
    var inner := Added(marked, visited);
    assert Added(s, r) == [n] + inner;
    assert r.checked == s.checked;
    assert r.resetLog[..|s.resetLog|] == s.resetLog;
    forall i | 0 <= i < |inner|
      ensures inner[i] != n && inner[i] in Pending(s.status, s.checked)
    {
      assert inner[i] in Pending(marked.status, marked.checked);
    }
    assert NoDup(Added(s, r));
    forall j | 0 <= j < |t.nodes| && j !in Added(s, r)
      ensures r.status[j] == s.status[j]
    {
      assert j !in inner;
    }
    OutConnsRestCons(t, visited, n, inner);
    assert r.connStatus == visited.connStatus;
    if GuardsRest(s) {
      ChildrenRestCons(t, visited, n, inner);
      assert r.status == visited.status;
    }
  }

  /** A node whose outgoing connections rest, ahead of nodes whose
      outgoing connections rest. */
  lemma OutConnsRestCons(t: Topology, r: RunState, n: nat, a: seq<nat>)
    requires Valid(t) && Fits(t, r) && n < |t.nodes|
    requires forall k :: 0 <= k < |t.nodes[n].outs| ==> r.connStatus[OutConn(t, n, k)] == Resting
    requires OutConnsRest(t, r, a)
    ensures OutConnsRest(t, r, [n] + a)
  {
    forall i, k | 0 <= i < |[n] + a| && ([n] + a)[i] < |t.nodes| && 0 <= k < |t.nodes[([n] + a)[i]].outs|
      ensures r.connStatus[OutConn(t, ([n] + a)[i], k)] == Resting
    {
      if i > 0 {
        assert ([n] + a)[i] == a[i - 1];
      }
    }
  }

  /** A node whose children rest, ahead of nodes whose children rest. */
  lemma ChildrenRestCons(t: Topology, r: RunState, n: nat, a: seq<nat>)
    requires Valid(t) && Fits(t, r) && n < |t.nodes|
    requires forall k :: 0 <= k < |t.nodes[n].outs| ==> r.status[Child(t, n, k)] == Resting
    requires ChildrenRest(t, r, a)
    ensures ChildrenRest(t, r, [n] + a)
  {
    forall i, k | 0 <= i < |[n] + a| && ([n] + a)[i] < |t.nodes| && 0 <= k < |t.nodes[([n] + a)[i]].outs|
      ensures r.status[Child(t, ([n] + a)[i], k)] == Resting
    {
      if i > 0 {
        assert ([n] + a)[i] == a[i - 1];
      }
    }
  }

  /** Reset effects compose, and their `OnReset` calls concatenate. */
  lemma EffectTrans(t: Topology, s: RunState, m: RunState, r: RunState)
    requires Valid(t) && Fits(t, s) && ResetEffect(t, s, m) && ResetEffect(t, m, r)
    ensures ResetEffect(t, s, r)
    ensures Added(s, r) == Added(s, m) + Added(m, r)
  {
    assert Added(s, r) == Added(s, m) + Added(m, r);
    assert r.resetLog[..|s.resetLog|] == s.resetLog;
    CallsTrans(t, s, m, r);
  }

  /** `CallsEffect` composes. */
  lemma CallsTrans(t: Topology, s: RunState, m: RunState, r: RunState)
    requires Fits(t, s) && Fits(t, m) && Fits(t, r)
    requires m.checked == s.checked && r.checked == m.checked
    requires |s.resetLog| <= |m.resetLog| <= |r.resetLog|
    requires Added(s, r) == Added(s, m) + Added(m, r)
    requires CallsEffect(t, s, m) && CallsEffect(t, m, r)
    ensures CallsEffect(t, s, r)
  {
    var a1 := Added(s, m);
    var a2 := Added(m, r);
    PendingMonotone(t, s, m);
    CallsDisjoint(t, s, m, r);
    NoDupConcat(a1, a2);
    forall i | 0 <= i < |Added(s, r)|
      ensures Added(s, r)[i] in Pending(s.status, s.checked) && r.status[Added(s, r)[i]] == Resting
    {
      if i < |a1| {
        assert a1[i] !in a2;
      } else {
        assert Added(s, r)[i] == a2[i - |a1|];
      }
    }
    forall j | 0 <= j < |t.nodes| && j !in Added(s, r)
      ensures r.status[j] == s.status[j]
    {
      assert j !in a1 && j !in a2;
    }
  }

  /** A node reset in the first of two resets is resting, so not pending,
      in the second. */
  lemma CallsDisjoint(t: Topology, s: RunState, m: RunState, r: RunState)
    requires Fits(t, s) && Fits(t, m) && Fits(t, r)
    requires |s.resetLog| <= |m.resetLog| <= |r.resetLog|
    requires CallsEffect(t, s, m) && CallsEffect(t, m, r)
    ensures forall i, j :: 0 <= i < |Added(s, m)| && 0 <= j < |Added(m, r)| ==> Added(s, m)[i] != Added(m, r)[j]
    ensures forall i :: 0 <= i < |Added(s, m)| ==> Added(s, m)[i] !in Added(m, r)
  {
    forall i, j | 0 <= i < |Added(s, m)| && 0 <= j < |Added(m, r)|
      ensures Added(s, m)[i] != Added(m, r)[j]
    {
      assert Added(m, r)[j] in Pending(m.status, m.checked);
    }
  }

  /** Concatenating two duplicate-free sequences with no common element. */
  lemma NoDupConcat<T>(a: seq<T>, b: seq<T>)
    requires NoDup(a) && NoDup(b)
    requires forall i, j :: 0 <= i < |a| && 0 <= j < |b| ==> a[i] != b[j]
    ensures NoDup(a + b)
  {
    forall i, j | 0 <= i < j < |a + b|
      ensures (a + b)[i] != (a + b)[j]
    {
      if j < |a| {
      } else if i >= |a| {
        assert (a + b)[i] == b[i - |a|] && (a + b)[j] == b[j - |a|];
      } else {
        assert (a + b)[i] == a[i] && (a + b)[j] == b[j - |a|];
      }
    }
  }

  /** One step of the connection loop composes with the rest of the loop. */
  lemma ResetConnsComposes(t: Topology, s: RunState, cleared: RunState, afterChild: RunState, r: RunState, n: nat, k: nat)
    requires Valid(t) && Fits(t, s) && n < |t.nodes| && k < |t.nodes[n].outs|
    requires s.status[n] == Resting && s.checked[n]
    requires cleared == s.(connStatus := s.connStatus[OutConn(t, n, k) := Resting])
    requires ResetEffect(t, cleared, afterChild)
    requires ConnsFrom(t, cleared, afterChild, Added(cleared, afterChild))
    requires OutConnsRest(t, afterChild, Added(cleared, afterChild))
    requires GuardsRest(cleared) ==>
      GuardsRest(afterChild) && afterChild.status[Child(t, n, k)] == Resting
      && ChildrenRest(t, afterChild, Added(cleared, afterChild))
    requires ResetEffect(t, afterChild, r)
    requires ConnsFrom(t, afterChild, r, [n] + Added(afterChild, r))
    requires forall k' :: k + 1 <= k' < |t.nodes[n].outs| ==> r.connStatus[OutConn(t, n, k')] == Resting
    requires OutConnsRest(t, r, Added(afterChild, r))
    requires GuardsRest(afterChild) ==>
      && GuardsRest(r)
      && ChildrenRest(t, r, Added(afterChild, r))
      && forall k' :: k + 1 <= k' < |t.nodes[n].outs| ==> r.status[Child(t, n, k')] == Resting
    ensures ResetEffect(t, s, r)
    ensures ConnsFrom(t, s, r, [n] + Added(s, r))
    ensures forall k' :: k <= k' < |t.nodes[n].outs| ==> r.connStatus[OutConn(t, n, k')] == Resting
    ensures OutConnsRest(t, r, Added(s, r))
    ensures GuardsRest(s) ==>
      && GuardsRest(r)
      && ChildrenRest(t, r, Added(s, r))
      && forall k' :: k <= k' < |t.nodes[n].outs| ==> r.status[Child(t, n, k')] == Resting
  {
    assert Added(s, cleared) == [];
    assert ResetEffect(t, s, cleared);
    EffectTrans(t, s, cleared, afterChild);
    EffectTrans(t, s, afterChild, r);
    var a1 := Added(cleared, afterChild);
    var a2 := Added(afterChild, r);
    assert Added(s, r) == a1 + a2;
    forall c | 0 <= c < |t.conns| && r.connStatus[c] != s.connStatus[c]
      ensures t.conns[c].source in [n] + Added(s, r)
    {
      if r.connStatus[c] != afterChild.connStatus[c] {
        assert t.conns[c].source in [n] + a2;
      } else if afterChild.connStatus[c] != cleared.connStatus[c] {
        assert t.conns[c].source in a1;
      } else {
        assert c == OutConn(t, n, k);
      }
    }
    OutConnsRestStep(t, s, cleared, afterChild, r);
    if GuardsRest(s) {
      ChildrenRestStep(t, s, cleared, afterChild, r);
    }
  }

  /** One step of the connection loop: the child's traversal, then the
      rest of the loop's, hang below `n`. */
  lemma ConnsTreeStep(t: Topology, s: RunState, cleared: RunState, afterChild: RunState, r: RunState, n: nat, k: nat)
    requires Valid(t) && n < |t.nodes| && k < |t.nodes[n].outs|
    requires cleared.resetLog == s.resetLog
    requires LogExtends(cleared, afterChild) && LogExtends(afterChild, r)
    requires var a1 := Added(cleared, afterChild); TreeFrom(t, a1) && (a1 == [] || a1[0] == Child(t, n, k))
    requires TreeFrom(t, [n] + Added(afterChild, r))
    ensures TreeFrom(t, [n] + Added(s, r))
  {
    var a1 := Added(cleared, afterChild);
    var a2 := Added(afterChild, r);
    assert r.resetLog[..|afterChild.resetLog|] == afterChild.resetLog;
    assert Added(s, r) == a1 + a2;
    assert Child(t, n, k) in ChildNodes(t, n);
    TreeConcat(t, n, a1, a2);
    assert [n] + Added(s, r) == [n] + a1 + a2;
  }

  /** The outgoing connections of the nodes reset in two consecutive steps
      rest: a later reset only ever makes connections rest. */
  lemma OutConnsRestStep(t: Topology, s: RunState, cleared: RunState, afterChild: RunState, r: RunState)
    requires Valid(t) && Fits(t, s) && Fits(t, cleared)
    requires ResetEffect(t, cleared, afterChild) && ResetEffect(t, afterChild, r)
    requires |s.resetLog| == |cleared.resetLog| && Added(s, r) == Added(cleared, afterChild) + Added(afterChild, r)
    requires OutConnsRest(t, afterChild, Added(cleared, afterChild))
    requires OutConnsRest(t, r, Added(afterChild, r))
    ensures OutConnsRest(t, r, Added(s, r))
  {
    var a1 := Added(cleared, afterChild);
    var a2 := Added(afterChild, r);
    forall i, k2 | 0 <= i < |Added(s, r)| && Added(s, r)[i] < |t.nodes| && 0 <= k2 < |t.nodes[Added(s, r)[i]].outs|
      ensures r.connStatus[OutConn(t, Added(s, r)[i], k2)] == Resting
    {
      var m := Added(s, r)[i];
      if i < |a1| {
        assert a1[i] == m;
        assert afterChild.connStatus[OutConn(t, m, k2)] == Resting;
      } else {
        assert a2[i - |a1|] == m;
      }
    }
  }

  /** The children of the nodes reset in two consecutive steps rest. */
  lemma ChildrenRestStep(t: Topology, s: RunState, cleared: RunState, afterChild: RunState, r: RunState)
    requires Valid(t) && Fits(t, s) && Fits(t, cleared)
    requires ResetEffect(t, cleared, afterChild) && ResetEffect(t, afterChild, r)
    requires |s.resetLog| == |cleared.resetLog| && Added(s, r) == Added(cleared, afterChild) + Added(afterChild, r)
    requires ChildrenRest(t, afterChild, Added(cleared, afterChild))
    requires ChildrenRest(t, r, Added(afterChild, r))
    ensures ChildrenRest(t, r, Added(s, r))
  {
    var a1 := Added(cleared, afterChild);
    var a2 := Added(afterChild, r);
    forall i, k2 | 0 <= i < |Added(s, r)| && Added(s, r)[i] < |t.nodes| && 0 <= k2 < |t.nodes[Added(s, r)[i]].outs|
      ensures r.status[Child(t, Added(s, r)[i], k2)] == Resting
    {
      var m := Added(s, r)[i];
      if i < |a1| {
        assert a1[i] == m;
        assert afterChild.status[Child(t, m, k2)] == Resting;
      } else {
        assert a2[i - |a1|] == m;
      }
    }
  }

  /** Resetting a node between resets (no node guarded unless resting)
      makes every node rest that can be reached from it along nodes that were
      all not resting. */
  lemma ResetReachesPendingPaths(t: Topology, s: RunState, n: nat, p: seq<nat>)
    requires Valid(t) && Fits(t, s) && n < |t.nodes| && GuardsRest(s)
    requires IsPath(t, p) && |p| > 0 && p[0] == n
    requires forall i :: 0 <= i < |p| ==> s.status[p[i]] != Resting
    ensures forall i :: 0 <= i < |p| ==> ResetNode(t, s, n).status[p[i]] == Resting
  {
    var r := ResetNode(t, s, n);
    PathRests(t, s, r, p);
  }

  /** Along a path of nodes not resting in `s`, resting spreads from the
      first node in `r` when every node reset on the way had its children
      reset. */
  lemma {:induction false} PathRests(t: Topology, s: RunState, r: RunState, p: seq<nat>)
    requires Valid(t) && Fits(t, s) && Fits(t, r) && |s.resetLog| <= |r.resetLog|
    requires forall j :: 0 <= j < |t.nodes| && j !in Added(s, r) ==> r.status[j] == s.status[j]
    requires ChildrenRest(t, r, Added(s, r))
    requires IsPath(t, p) && |p| > 0 && r.status[p[0]] == Resting
    requires forall i :: 0 <= i < |p| ==> s.status[p[i]] != Resting
    ensures forall i :: 0 <= i < |p| ==> r.status[p[i]] == Resting
  {
    var i := 0;
    while i < |p| - 1
      invariant 0 <= i < |p|
      invariant forall i' :: 0 <= i' <= i ==> r.status[p[i']] == Resting
    {
      var m := p[i];
      assert m in Added(s, r);
      var j :| 0 <= j < |Added(s, r)| && Added(s, r)[j] == m;
      var cs := ChildNodes(t, m);
      assert p[i + 1] in cs;
      var k :| 0 <= k < |cs| && cs[k] == p[i + 1];
      assert r.status[Child(t, Added(s, r)[j], k)] == Resting;
      i := i + 1;
    }
  }

  /** Each node of `a` after the first is a child of a node listed before
      it: `a` is a traversal that meets a parent before its child. */
  ghost predicate TreeFrom(t: Topology, a: seq<nat>)
    requires Valid(t)
  {
    forall i :: 0 < i < |a| ==> HasParentBefore(t, a, i)
  }

  /** `a[i]` is a child of some node listed before it. */
  ghost predicate HasParentBefore(t: Topology, a: seq<nat>, i: int)
    requires Valid(t)
  {
    exists j :: ChildOf(t, a, i, j)
  }

  /** `a[i]` is a child of the earlier `a[j]`. */
  ghost predicate ChildOf(t: Topology, a: seq<nat>, i: int, j: int)
    requires Valid(t)
  {
    0 <= j < i < |a| && a[j] < |t.nodes| && a[i] in ChildNodes(t, a[j])
  }

  /** A subtree hung below `n`, then more nodes reached from `n` or its
      subtree, is a traversal rooted at `n`. */
  lemma TreeConcat(t: Topology, n: nat, a1: seq<nat>, a2: seq<nat>)
    requires Valid(t) && n < |t.nodes|
    requires TreeFrom(t, a1) && (a1 == [] || a1[0] in ChildNodes(t, n))
    requires TreeFrom(t, [n] + a2)
    ensures TreeFrom(t, [n] + a1 + a2)
  {
    var a := [n] + a1 + a2;
    var b := [n] + a2;
    forall i | 0 < i < |a|
      ensures HasParentBefore(t, a, i)
    {
      if i == 1 && |a1| > 0 {
        assert a[1] == a1[0] && a[0] == n;
        assert ChildOf(t, a, 1, 0);
      } else if i <= |a1| {
        assert a[i] == a1[i - 1];
        assert HasParentBefore(t, a1, i - 1);
        var j :| ChildOf(t, a1, i - 1, j);
        assert a[j + 1] == a1[j];
        assert ChildOf(t, a, i, j + 1);
      } else {
        var i2 := i - |a1|;
        assert a[i] == b[i2];
        assert HasParentBefore(t, b, i2);
        var j :| ChildOf(t, b, i2, j);
        if j == 0 {
          assert a[0] == n;
          assert ChildOf(t, a, i, 0);
        } else {
          assert a[j + |a1|] == b[j];
          assert ChildOf(t, a, i, j + |a1|);
        }
      }
    }
  }

  /** Every node of a traversal is reached from its first node by a path
      through nodes of the traversal. */
  lemma {:induction false} TreePath(t: Topology, a: seq<nat>, i: nat) returns (p: seq<nat>)
    requires Valid(t) && TreeFrom(t, a) && i < |a| && a[0] < |t.nodes|
    ensures IsPath(t, p) && |p| > 0 && p[0] == a[0] && p[|p| - 1] == a[i]
    ensures forall k :: 0 <= k < |p| ==> p[k] in a
    decreases i
  {
    if i == 0 {
      p := [a[0]];
    } else {
      assert HasParentBefore(t, a, i);
      var j :| ChildOf(t, a, i, j);
      var q := TreePath(t, a, j);
      p := q + [a[i]];
      forall k | 0 <= k < |p| - 1
        ensures p[k] < |t.nodes| && p[k + 1] in ChildNodes(t, p[k])
      {
        if k + 1 < |q| {
          assert p[k] == q[k] && p[k + 1] == q[k + 1];
        } else {
          assert p[k] == a[j] && p[k + 1] == a[i];
        }
      }
      assert forall k :: 0 <= k < |p| ==> p[k] in a && p[k] < |t.nodes| by {
        forall k | 0 <= k < |p|
          ensures p[k] in a && p[k] < |t.nodes|
        {
          if k < |q| {
            assert p[k] == q[k];
          }
        }
      }
    }
  }

  /** Conversely to `ResetReachesPendingPaths`: a reset only reaches nodes
      that can be reached from `n` along nodes that were all pending. */
  lemma ResetOnlyReachesPending(t: Topology, s: RunState, n: nat, j: nat)
    requires Valid(t) && Fits(t, s) && n < |t.nodes|
    requires j in Added(s, ResetNode(t, s, n))
    ensures exists p :: IsPath(t, p) && |p| > 0 && p[0] == n && p[|p| - 1] == j &&
                        forall k :: 0 <= k < |p| ==> p[k] in Pending(s.status, s.checked)
  {
    var a := Added(s, ResetNode(t, s, n));
    var i :| 0 <= i < |a| && a[i] == j;
    var p := TreePath(t, a, i);
    forall k | 0 <= k < |p|
      ensures p[k] in Pending(s.status, s.checked)
    {
      var m :| 0 <= m < |a| && a[m] == p[k];
    }
  }

  /** The chain `0 -> 1 -> 2`. */
  function ChainOfThree(): Topology {
    Topology(
      [NodeShape(-1, -1, true, false, [], [0]),
       NodeShape(-1, -1, true, false, [0], [1]),
       NodeShape(-1, -1, true, false, [1], [])],
      [Edge(0, 1, true), Edge(1, 2, true)],
      Some(0))
  }

  lemma ChainOfThreeValid()
    ensures Valid(ChainOfThree())
  {
    var t := ChainOfThree();
    assert OutsOk(t, 0) && OutsOk(t, 1) && OutsOk(t, 2);
    assert InsOk(t, 0) && InsOk(t, 1) && InsOk(t, 2);
    assert t.nodes[0].outs == [0] && t.nodes[1].ins == [0];
    assert t.nodes[1].outs == [1] && t.nodes[2].ins == [1];
  }

  /** The traversal does not pass through a node that already rests: in
      `0 -> 1 -> 2` with node 1 resting, resetting node 0 leaves node 2
      running. */
  lemma RestingNodeShieldsItsChildren(s: RunState)
    requires s == RunState([Running, Resting, Running], [false, false, false], [0, 0, 0], [Running, Running], false, [])
    ensures Valid(ChainOfThree()) && Fits(ChainOfThree(), s)
    ensures ResetNode(ChainOfThree(), s, 0).status == [Resting, Resting, Running]
  {
    var t := ChainOfThree();
    ChainOfThreeValid();
    var marked := s.(status := s.status[0 := Resting], checked := s.checked[0 := true], resetLog := s.resetLog + [0]);
    var cleared := marked.(connStatus := marked.connStatus[OutConn(t, 0, 0) := Resting]);
    assert OutConn(t, 0, 0) == 0 && Child(t, 0, 0) == 1;
    assert ResetNode(t, cleared, 1) == cleared;
    assert ResetConns(t, cleared, 0, 1) == cleared;
    assert ResetConns(t, marked, 0, 0) == cleared;
    assert cleared.status == [Resting, Resting, Running];
  }
}
