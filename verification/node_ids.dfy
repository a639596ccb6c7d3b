/** `Node.AssignIDToGraph` numbers the nodes reachable from a start node in
    depth-first pre-order, using the recursion guard to visit each node once;
    unlike `Execute` and `Reset` it leaves the guards set. `ResetRecursion`
    then walks the same connections and clears them. */
module NodeIds {
  import opened Common
  import opened Graphs

  /** The unguarded nodes; the ID pass guards one of them on every visit. */
  function Unguarded(checked: seq<bool>): set<nat> {
    set j | 0 <= j < |checked| && !checked[j]
  }

  /** The guarded nodes; `ResetRecursion` clears one of them on every visit. */
  function Guarded(checked: seq<bool>): set<nat> {
    set j | 0 <= j < |checked| && checked[j]
  }

  /** Nodes unguarded in `before` and guarded in `after`. */
  function NewlyGuarded(before: seq<bool>, after: seq<bool>): set<nat>
    requires |before| == |after|
  {
    set j | 0 <= j < |before| && !before[j] && after[j]
  }

  /** The state after an ID pass and the last ID it handed out. */
  datatype Numbered = Numbered(state: RunState, last: int)

  /** What an ID pass from counter `last` to counter `next` does: only guards
      and IDs change; guards are only ever set; only the newly guarded nodes
      get new IDs, drawn from `(last, next]`. */
  ghost predicate IdEffect(t: Topology, s: RunState, r: RunState, last: int, next: int)
    requires Fits(t, s)
  {
    && Fits(t, r)
    && r == s.(checked := r.checked, ids := r.ids)
    && last <= next
    && (forall j :: 0 <= j < |t.nodes| && s.checked[j] ==> r.checked[j])
    && (forall j :: 0 <= j < |t.nodes| && j !in NewlyGuarded(s.checked, r.checked) ==> r.ids[j] == s.ids[j])
    && (forall j :: j in NewlyGuarded(s.checked, r.checked) ==> last < r.ids[j] <= next)
  }

  /** The IDs an ID pass from `last` to `next` hands out are pairwise
      distinct and there are `next - last` of them: every ID in
      `(last, next]` goes to exactly one newly guarded node. */
  ghost predicate FreshIds(t: Topology, s: RunState, r: RunState, last: int, next: int)
    requires Fits(t, s) && Fits(t, r)
  {
    && (forall j, j' :: j in NewlyGuarded(s.checked, r.checked) && j' in NewlyGuarded(s.checked, r.checked) && j != j' ==>
          r.ids[j] != r.ids[j'])
    && |NewlyGuarded(s.checked, r.checked)| == next - last
  }

  /** Every node of `a` other than `root` was reached from a node of `a`
      that got a smaller ID: the nodes of `a` form a tree below `root`. */
  ghost predicate Rooted(t: Topology, r: RunState, a: set<nat>, root: nat)
    requires Valid(t) && Fits(t, r)
  {
    forall j :: j in a && j != root ==> HasParentIn(t, r, a, j)
  }

  /** Some node of `a` with a smaller ID has an outgoing connection to `j`. */
  ghost predicate HasParentIn(t: Topology, r: RunState, a: set<nat>, j: nat)
    requires Valid(t) && Fits(t, r)
  {
    exists p, k :: p in a && p < |t.nodes| && 0 <= k < |t.nodes[p].outs| && Child(t, p, k) == j && r.ids[p] < r.ids[j]
  }

  /** `AssignIDToGraph(lastID)` on node `n`: the new state and the last ID
      handed out. */
  function AssignID(t: Topology, s: RunState, n: nat, last: int): (r: Numbered)
    requires Valid(t) && Fits(t, s) && n < |t.nodes|
    ensures IdEffect(t, s, r.state, last, r.last)
    // a guarded node was numbered earlier in this pass: nothing happens
    ensures s.checked[n] ==> r == Numbered(s, last)
    // otherwise n is numbered first, and stays guarded
    ensures !s.checked[n] ==> r.state.checked[n] && r.state.ids[n] == last + 1
    decreases Unguarded(s.checked), 0, 0
  {
    if s.checked[n] then
      assert NewlyGuarded(s.checked, s.checked) == {};
      Numbered(s, last)
    else
      var marked := s.(checked := s.checked[n := true], ids := s.ids[n := last + 1]);
      assert Unguarded(marked.checked) < Unguarded(s.checked) by {
        assert n !in Unguarded(marked.checked);
      }
      var r := AssignConns(t, marked, n, 0, last + 1);
      MarkIsIdEffect(t, s, marked, n, last);
      IdTrans(t, s, marked, r.state, last, last + 1, r.last);
      r
  }

  /** The loop of `AssignIDToGraph` over the outgoing connections of `n`,
      from the `k`-th on, with the counter at `last`. */
  function AssignConns(t: Topology, s: RunState, n: nat, k: nat, last: int): (r: Numbered)
    requires Valid(t) && Fits(t, s) && n < |t.nodes| && k <= |t.nodes[n].outs|
    requires s.checked[n] && s.ids[n] <= last
    ensures IdEffect(t, s, r.state, last, r.last)
    decreases Unguarded(s.checked), 1, |t.nodes[n].outs| - k
  {
    if k == |t.nodes[n].outs| then
      assert NewlyGuarded(s.checked, s.checked) == {};
      Numbered(s, last)
    else
      var child := Child(t, n, k);
      var first := AssignID(t, s, child, last);
      UnguardedShrinks(t, s, first.state, last, first.last);
      assert n !in NewlyGuarded(s.checked, first.state.checked);
      assert first.state.checked[n] && first.state.ids[n] == s.ids[n];
      var r := AssignConns(t, first.state, n, k + 1, first.last);
      IdTrans(t, s, first.state, r.state, last, first.last, r.last);
      r
  }

  /** The loop numbers in connection order, each subtree before the next
      sibling: the pass into the `k`-th child numbers its nodes within
      `(last, c.last]`, the child itself first when it was unguarded, and
      every node the rest of the loop numbers gets an ID above `c.last`.
      With `AssignID` numbering `n` before its loop, this is a depth-first
      pre-order. */
  lemma AssignConnsChildFirst(t: Topology, s: RunState, n: nat, k: nat, last: int)
    requires Valid(t) && Fits(t, s) && n < |t.nodes| && k < |t.nodes[n].outs|
    requires s.checked[n] && s.ids[n] <= last
    ensures var c := AssignID(t, s, Child(t, n, k), last);
      var r := AssignConns(t, s, n, k, last);
      && (!s.checked[Child(t, n, k)] ==> r.state.ids[Child(t, n, k)] == last + 1)
      && (forall j :: j in NewlyGuarded(s.checked, c.state.checked) ==>
            r.state.ids[j] == c.state.ids[j] && last < r.state.ids[j] <= c.last)
      && (forall j :: j in NewlyGuarded(s.checked, r.state.checked) && j !in NewlyGuarded(s.checked, c.state.checked) ==>
            c.last < r.state.ids[j] <= r.last)
  {
    var c := AssignID(t, s, Child(t, n, k), last);
    var r := AssignConns(t, s, n, k, last);
    UnguardedShrinks(t, s, c.state, last, c.last);
    assert c.state.checked[n] && c.state.ids[n] == s.ids[n];
    var rest := AssignConns(t, c.state, n, k + 1, c.last);
    assert r == rest;
    IdTrans(t, s, c.state, r.state, last, c.last, r.last);
  }

  /** An ID pass never unguards a node. */
  lemma UnguardedShrinks(t: Topology, s: RunState, r: RunState, last: int, next: int)
    requires Fits(t, s) && IdEffect(t, s, r, last, next)
    ensures Unguarded(r.checked) <= Unguarded(s.checked)
  {
  }

  /** ID passes compose: the newly guarded nodes of the whole are those of
      the two parts, which are disjoint. */
  lemma IdTrans(t: Topology, s: RunState, m: RunState, r: RunState, a: int, b: int, c: int)
    requires Fits(t, s) && IdEffect(t, s, m, a, b) && IdEffect(t, m, r, b, c)
    ensures IdEffect(t, s, r, a, c)
    ensures NewlyGuarded(s.checked, r.checked) == NewlyGuarded(s.checked, m.checked) + NewlyGuarded(m.checked, r.checked)
    ensures NewlyGuarded(s.checked, m.checked) * NewlyGuarded(m.checked, r.checked) == {}
  {
    var n1 := NewlyGuarded(s.checked, m.checked);
    var n2 := NewlyGuarded(m.checked, r.checked);
    assert NewlyGuarded(s.checked, r.checked) == n1 + n2;
    assert n1 * n2 == {};
  }

  /** Fresh IDs compose: the second pass numbers above the first. */
  lemma FreshTrans(t: Topology, s: RunState, m: RunState, r: RunState, a: int, b: int, c: int)
    requires Fits(t, s) && IdEffect(t, s, m, a, b) && IdEffect(t, m, r, b, c)
    requires FreshIds(t, s, m, a, b) && FreshIds(t, m, r, b, c)
    ensures FreshIds(t, s, r, a, c)
  {
    IdTrans(t, s, m, r, a, b, c);
    var n1 := NewlyGuarded(s.checked, m.checked);
    var n2 := NewlyGuarded(m.checked, r.checked);
    assert |n1 + n2| == |n1| + |n2|;
    forall j, j' | j in n1 + n2 && j' in n1 + n2 && j != j'
      ensures r.ids[j] != r.ids[j']
    {
      if j in n1 && j' in n1 {
        assert r.ids[j] == m.ids[j] && r.ids[j'] == m.ids[j'];
      } else if j in n1 {
        assert r.ids[j] == m.ids[j] <= b < r.ids[j'];
      } else if j' in n1 {
        assert r.ids[j'] == m.ids[j'] <= b < r.ids[j];
      }
    }
  }

  /** Guarding and numbering one node is an ID pass that hands out one ID. */
  lemma MarkIsIdEffect(t: Topology, s: RunState, marked: RunState, n: nat, last: int)
    requires Fits(t, s) && n < |t.nodes| && !s.checked[n]
    requires marked == s.(checked := s.checked[n := true], ids := s.ids[n := last + 1])
    ensures IdEffect(t, s, marked, last, last + 1) && FreshIds(t, s, marked, last, last + 1)
    ensures NewlyGuarded(s.checked, marked.checked) == {n}
  {
    assert NewlyGuarded(s.checked, marked.checked) == {n};
  }

  /** The nodes numbered below `n` form a tree under `n` once `n` is counted in. */
  lemma RootedAfterMark(t: Topology, s: RunState, marked: RunState, r: RunState, n: nat, last: int, next: int)
    requires Valid(t) && Fits(t, s) && Fits(t, r) && n < |t.nodes| && !s.checked[n]
    requires marked == s.(checked := s.checked[n := true], ids := s.ids[n := last + 1])
    requires IdEffect(t, marked, r, last + 1, next)
    requires Rooted(t, r, NewlyGuarded(marked.checked, r.checked) + {n}, n)
    ensures Rooted(t, r, NewlyGuarded(s.checked, r.checked), n)
  {
    MarkIsIdEffect(t, s, marked, n, last);
    IdTrans(t, s, marked, r, last, last + 1, next);
  }

  /** The nodes numbered from the `k`-th child `c` of `n` on hang below `n`:
      `n1` is the tree below `c` (numbered in state `m`), `n2` the trees of
      the later children (numbered in state `f`). */
  lemma RootedStep(t: Topology, m: RunState, f: RunState, n1: set<nat>, n2: set<nat>, n: nat, k: nat)
    requires Valid(t) && Fits(t, m) && Fits(t, f) && n < |t.nodes| && k < |t.nodes[n].outs|
    requires n1 * n2 == {}
    requires forall j :: j in n1 ==> j < |t.nodes| && f.ids[j] == m.ids[j]
    requires Child(t, n, k) in n1 ==> f.ids[n] < f.ids[Child(t, n, k)]
    requires Rooted(t, m, n1, Child(t, n, k))
    requires Rooted(t, f, n2 + {n}, n)
    ensures Rooted(t, f, n1 + n2 + {n}, n)
  {
    var all := n1 + n2 + {n};
    var c := Child(t, n, k);
    forall j | j in all && j != n
      ensures HasParentIn(t, f, all, j)
    {
      if j in n1 {
        if j == c {
          assert n in all && Child(t, n, k) == j && f.ids[n] < f.ids[j];
        } else {
          assert HasParentIn(t, m, n1, j);
          var p, k2 :| p in n1 && p < |t.nodes| && 0 <= k2 < |t.nodes[p].outs| && Child(t, p, k2) == j && m.ids[p] < m.ids[j];
          assert p in all && f.ids[p] < f.ids[j];
        }
      } else {
        assert HasParentIn(t, f, n2 + {n}, j);
        var p, k2 :| p in n2 + {n} && p < |t.nodes| && 0 <= k2 < |t.nodes[p].outs| && Child(t, p, k2) == j && f.ids[p] < f.ids[j];
        assert p in all;
      }
    }
  }

  /** The nodes an ID pass from `n` numbers form a tree below `n`. */
  lemma {:induction false} AssignIDTree(t: Topology, s: RunState, n: nat, last: int)
    requires Valid(t) && Fits(t, s) && n < |t.nodes|
    ensures var r := AssignID(t, s, n, last).state;
      Rooted(t, r, NewlyGuarded(s.checked, r.checked), n)
    decreases Unguarded(s.checked), 0, 0
  {
    var r := AssignID(t, s, n, last);
    if s.checked[n] {
      assert NewlyGuarded(s.checked, s.checked) == {};
    } else {
      var marked := s.(checked := s.checked[n := true], ids := s.ids[n := last + 1]);
      assert Unguarded(marked.checked) < Unguarded(s.checked) by {
        assert n !in Unguarded(marked.checked);
      }
      assert r == AssignConns(t, marked, n, 0, last + 1);
      AssignConnsTree(t, marked, n, 0, last + 1);
      RootedAfterMark(t, s, marked, r.state, n, last, r.last);
    }
  }

  /** The loop counterpart of `AssignIDTree`. */
  lemma {:induction false} AssignConnsTree(t: Topology, s: RunState, n: nat, k: nat, last: int)
    requires Valid(t) && Fits(t, s) && n < |t.nodes| && k <= |t.nodes[n].outs|
    requires s.checked[n] && s.ids[n] <= last
    ensures var r := AssignConns(t, s, n, k, last).state;
      Rooted(t, r, NewlyGuarded(s.checked, r.checked) + {n}, n)
    decreases Unguarded(s.checked), 1, |t.nodes[n].outs| - k
  {
    var r := AssignConns(t, s, n, k, last);
    if k == |t.nodes[n].outs| {
      assert NewlyGuarded(s.checked, s.checked) == {};
    } else {
      var first := AssignID(t, s, Child(t, n, k), last);
      UnguardedShrinks(t, s, first.state, last, first.last);
      AssignIDTree(t, s, Child(t, n, k), last);
      assert r == AssignConns(t, first.state, n, k + 1, first.last);
      AssignConnsTree(t, first.state, n, k + 1, first.last);
      IdTrans(t, s, first.state, r.state, last, first.last, r.last);
      var n1 := NewlyGuarded(s.checked, first.state.checked);
      var n2 := NewlyGuarded(first.state.checked, r.state.checked);
      assert n !in n1;
      assert forall j :: j in n1 ==> j < |t.nodes| && r.state.ids[j] == first.state.ids[j] by {
        forall j | j in n1
          ensures j < |t.nodes| && r.state.ids[j] == first.state.ids[j]
        {
          assert j !in n2;
        }
      }
      RootedStep(t, first.state, r.state, n1, n2, n, k);
      assert NewlyGuarded(s.checked, r.state.checked) + {n} == n1 + n2 + {n};
    }
  }

  /** Every outgoing connection of a node of `a` leads to a guarded node. */
  ghost predicate KidsGuarded(t: Topology, r: RunState, a: set<nat>)
    requires Valid(t) && Fits(t, r)
  {
    forall j, k :: j in a && j < |t.nodes| && 0 <= k < |t.nodes[j].outs| ==> r.checked[Child(t, j, k)]
  }

  /** An ID pass from `n` leaves `n`, and every child of every node it
      numbers, guarded. */
  lemma {:induction false} AssignIDGuardsBelow(t: Topology, s: RunState, n: nat, last: int)
    requires Valid(t) && Fits(t, s) && n < |t.nodes|
    ensures var r := AssignID(t, s, n, last).state;
      r.checked[n] && KidsGuarded(t, r, NewlyGuarded(s.checked, r.checked))
    decreases Unguarded(s.checked), 0, 0
  {
    var r := AssignID(t, s, n, last);
    if s.checked[n] {
      assert NewlyGuarded(s.checked, s.checked) == {};
    } else {
      var marked := s.(checked := s.checked[n := true], ids := s.ids[n := last + 1]);
      assert Unguarded(marked.checked) < Unguarded(s.checked) by {
        assert n !in Unguarded(marked.checked);
      }
      assert r == AssignConns(t, marked, n, 0, last + 1);
      AssignConnsGuardsBelow(t, marked, n, 0, last + 1);
      MarkIsIdEffect(t, s, marked, n, last);
      IdTrans(t, s, marked, r.state, last, last + 1, r.last);
    }
  }

  /** The loop counterpart of `AssignIDGuardsBelow`: the children from the
      `k`-th on end guarded too. */
  lemma {:induction false} AssignConnsGuardsBelow(t: Topology, s: RunState, n: nat, k: nat, last: int)
    requires Valid(t) && Fits(t, s) && n < |t.nodes| && k <= |t.nodes[n].outs|
    requires s.checked[n] && s.ids[n] <= last
    ensures var r := AssignConns(t, s, n, k, last).state;
      && (forall k' :: k <= k' < |t.nodes[n].outs| ==> r.checked[Child(t, n, k')])
      && KidsGuarded(t, r, NewlyGuarded(s.checked, r.checked))
    decreases Unguarded(s.checked), 1, |t.nodes[n].outs| - k
  {
    var r := AssignConns(t, s, n, k, last);
    if k == |t.nodes[n].outs| {
      assert NewlyGuarded(s.checked, s.checked) == {};
    } else {
      var first := AssignID(t, s, Child(t, n, k), last);
      UnguardedShrinks(t, s, first.state, last, first.last);
      AssignIDGuardsBelow(t, s, Child(t, n, k), last);
      assert n !in NewlyGuarded(s.checked, first.state.checked);
      assert r == AssignConns(t, first.state, n, k + 1, first.last);
      AssignConnsGuardsBelow(t, first.state, n, k + 1, first.last);
      KidsGuardedStep(t, s, first.state, r.state, n, k, last, first.last, r.last);
    }
  }

  /** Guarding composes, and guards once set stay set. */
  lemma KidsGuardedStep(t: Topology, s: RunState, m: RunState, r: RunState, n: nat, k: nat, a: int, b: int, c: int)
    requires Valid(t) && Fits(t, s) && n < |t.nodes| && k < |t.nodes[n].outs|
    requires IdEffect(t, s, m, a, b) && IdEffect(t, m, r, b, c)
    requires m.checked[Child(t, n, k)]
    requires KidsGuarded(t, m, NewlyGuarded(s.checked, m.checked))
    requires KidsGuarded(t, r, NewlyGuarded(m.checked, r.checked))
    requires forall k' :: k + 1 <= k' < |t.nodes[n].outs| ==> r.checked[Child(t, n, k')]
    ensures forall k' :: k <= k' < |t.nodes[n].outs| ==> r.checked[Child(t, n, k')]
    ensures KidsGuarded(t, r, NewlyGuarded(s.checked, r.checked))
  {
    IdTrans(t, s, m, r, a, b, c);
    forall j, k2 | j in NewlyGuarded(s.checked, r.checked) && j < |t.nodes| && 0 <= k2 < |t.nodes[j].outs|
      ensures r.checked[Child(t, j, k2)]
    {
      if j in NewlyGuarded(s.checked, m.checked) {
        assert m.checked[Child(t, j, k2)];
      }
    }
  }

  /** Started from a graph with no guard set, `AssignIDToGraph` on `n`
      numbers every node reachable from `n`: each ends guarded with an ID
      drawn from `(last, r.last]`. */
  lemma AssignIDReachesAll(t: Topology, s: RunState, n: nat, last: int, p: seq<nat>)
    requires Valid(t) && Fits(t, s) && n < |t.nodes|
    requires forall j :: 0 <= j < |t.nodes| ==> !s.checked[j]
    requires IsPath(t, p) && |p| > 0 && p[0] == n
    ensures var r := AssignID(t, s, n, last);
      forall i :: 0 <= i < |p| ==> r.state.checked[p[i]] && last < r.state.ids[p[i]] <= r.last
  {
    var r := AssignID(t, s, n, last);
    AssignIDGuardsBelow(t, s, n, last);
    var i := 0;
    while i < |p| - 1
      invariant 0 <= i < |p|
      invariant forall i' :: 0 <= i' <= i ==> r.state.checked[p[i']]
    {
      var m := p[i];
      assert m in NewlyGuarded(s.checked, r.state.checked);
      var cs := ChildNodes(t, m);
      assert p[i + 1] in cs;
      var k :| 0 <= k < |cs| && cs[k] == p[i + 1];
      assert r.state.checked[Child(t, m, k)];
      i := i + 1;
    }
    forall i' | 0 <= i' < |p|
      ensures last < r.state.ids[p[i']] <= r.last
    {
      assert p[i'] in NewlyGuarded(s.checked, r.state.checked);
    }
  }

  /** Nodes guarded in `before` and unguarded in `after`. */
  function Cleared(before: seq<bool>, after: seq<bool>): set<nat>
    requires |before| == |after|
  {
    set j | 0 <= j < |before| && before[j] && !after[j]
  }

  /** What `ResetRecursion` may do: clear guards, and nothing else. */
  ghost predicate ClearEffect(t: Topology, s: RunState, r: RunState)
    requires Fits(t, s)
  {
    && Fits(t, r)
    && r == s.(checked := r.checked)
    && (forall j :: 0 <= j < |t.nodes| && r.checked[j] ==> s.checked[j])
  }

  /** Every outgoing connection of a node of `a` leads to an unguarded node. */
  ghost predicate KidsClear(t: Topology, r: RunState, a: set<nat>)
    requires Valid(t) && Fits(t, r)
  {
    forall j, k :: j in a && j < |t.nodes| && 0 <= k < |t.nodes[j].outs| ==> !r.checked[Child(t, j, k)]
  }

  /** `ResetRecursion()` on node `n`: clear the guard of `n` and, if it was
      set, of its children, recursively. */
  function ResetRecursion(t: Topology, s: RunState, n: nat): (r: RunState)
    requires Valid(t) && Fits(t, s) && n < |t.nodes|
    ensures ClearEffect(t, s, r)
    // an unguarded node stops the walk
    ensures !s.checked[n] ==> r == s
    // n ends unguarded
    ensures !r.checked[n]
    decreases Guarded(s.checked), 0, 0
  {
    if !s.checked[n] then s
    else
      var cleared := s.(checked := s.checked[n := false]);
      assert Guarded(cleared.checked) < Guarded(s.checked) by {
        assert n !in Guarded(cleared.checked);
      }
      ResetRecursionConns(t, cleared, n, 0)
  }

  /** The loop of `ResetRecursion` over the outgoing connections of `n`,
      from the `k`-th on. */
  function ResetRecursionConns(t: Topology, s: RunState, n: nat, k: nat): (r: RunState)
    requires Valid(t) && Fits(t, s) && n < |t.nodes| && k <= |t.nodes[n].outs|
    requires !s.checked[n]
    ensures ClearEffect(t, s, r)
    decreases Guarded(s.checked), 1, |t.nodes[n].outs| - k
  {
    if k == |t.nodes[n].outs| then s
    else
      var first := ResetRecursion(t, s, Child(t, n, k));
      assert Guarded(first.checked) <= Guarded(s.checked);
      ResetRecursionConns(t, first, n, k + 1)
  }

  /** Every node `ResetRecursion` clears ends with all its children unguarded. */
  lemma {:induction false} ResetRecursionClearsBelow(t: Topology, s: RunState, n: nat)
    requires Valid(t) && Fits(t, s) && n < |t.nodes|
    ensures var r := ResetRecursion(t, s, n);
      KidsClear(t, r, Cleared(s.checked, r.checked))
    decreases Guarded(s.checked), 0, 0
  {
    var r := ResetRecursion(t, s, n);
    if !s.checked[n] {
      assert Cleared(s.checked, r.checked) == {};
    } else {
      var cleared := s.(checked := s.checked[n := false]);
      assert Guarded(cleared.checked) < Guarded(s.checked) by {
        assert n !in Guarded(cleared.checked);
      }
      assert r == ResetRecursionConns(t, cleared, n, 0);
      ResetRecursionConnsClearsBelow(t, cleared, n, 0);
      assert Cleared(s.checked, r.checked) == Cleared(cleared.checked, r.checked) + {n};
    }
  }

  /** The loop counterpart of `ResetRecursionClearsBelow`: the children from
      the `k`-th on end unguarded too. */
  lemma {:induction false} ResetRecursionConnsClearsBelow(t: Topology, s: RunState, n: nat, k: nat)
    requires Valid(t) && Fits(t, s) && n < |t.nodes| && k <= |t.nodes[n].outs|
    requires !s.checked[n]
    ensures var r := ResetRecursionConns(t, s, n, k);
      && (forall k' :: k <= k' < |t.nodes[n].outs| ==> !r.checked[Child(t, n, k')])
      && KidsClear(t, r, Cleared(s.checked, r.checked))
    decreases Guarded(s.checked), 1, |t.nodes[n].outs| - k
  {
    var r := ResetRecursionConns(t, s, n, k);
    if k == |t.nodes[n].outs| {
      assert Cleared(s.checked, r.checked) == {};
    } else {
      var first := ResetRecursion(t, s, Child(t, n, k));
      assert Guarded(first.checked) <= Guarded(s.checked);
      ResetRecursionClearsBelow(t, s, Child(t, n, k));
      assert r == ResetRecursionConns(t, first, n, k + 1);
      ResetRecursionConnsClearsBelow(t, first, n, k + 1);
      KidsClearStep(t, s, first, r, n, k);
    }
  }

  /** Clearing composes, and guards once clear stay clear. */
  lemma KidsClearStep(t: Topology, s: RunState, m: RunState, r: RunState, n: nat, k: nat)
    requires Valid(t) && Fits(t, s) && n < |t.nodes| && k < |t.nodes[n].outs|
    requires ClearEffect(t, s, m) && ClearEffect(t, m, r)
    requires !m.checked[Child(t, n, k)]
    requires KidsClear(t, m, Cleared(s.checked, m.checked))
    requires KidsClear(t, r, Cleared(m.checked, r.checked))
    requires forall k' :: k + 1 <= k' < |t.nodes[n].outs| ==> !r.checked[Child(t, n, k')]
    ensures forall k' :: k <= k' < |t.nodes[n].outs| ==> !r.checked[Child(t, n, k')]
    ensures KidsClear(t, r, Cleared(s.checked, r.checked))
  {
    forall j, k2 | j in Cleared(s.checked, r.checked) && j < |t.nodes| && 0 <= k2 < |t.nodes[j].outs|
      ensures !r.checked[Child(t, j, k2)]
    {
      if j in Cleared(s.checked, m.checked) {
        assert !m.checked[Child(t, j, k2)];
      } else {
        assert j in Cleared(m.checked, r.checked);
      }
    }
  }

  /** A node of the tree below `root` is cleared when the root is and every
      cleared node's children end unguarded; by induction on its ID. */
  lemma {:induction false} TreeNodeCleared(t: Topology, a: RunState, r: RunState, tree: set<nat>, root: nat, last: int, j: nat)
    requires Valid(t) && Fits(t, a) && Fits(t, r)
    requires Rooted(t, a, tree, root)
    requires forall i :: i in tree ==> i < |t.nodes| && a.checked[i] && a.ids[i] > last
    requires root in Cleared(a.checked, r.checked)
    requires KidsClear(t, r, Cleared(a.checked, r.checked))
    requires j in tree
    ensures j in Cleared(a.checked, r.checked)
    decreases a.ids[j] - last
  {
    if j != root {
      assert HasParentIn(t, a, tree, j);
      var p, k :| p in tree && p < |t.nodes| && 0 <= k < |t.nodes[p].outs| && Child(t, p, k) == j && a.ids[p] < a.ids[j];
      TreeNodeCleared(t, a, r, tree, root, last, p);
      assert !r.checked[Child(t, p, k)];
    }
  }

  /** `ResetRecursion` undoes `AssignIDToGraph`: started from a graph with no
      guard set, numbering from `n` and then resetting the recursion from
      `n` leaves no guard set and changes nothing but IDs. */
  lemma ResetRecursionUndoesAssignID(t: Topology, s: RunState, n: nat, last: int)
    requires Valid(t) && Fits(t, s) && n < |t.nodes|
    requires forall j :: 0 <= j < |t.nodes| ==> !s.checked[j]
    ensures var a := AssignID(t, s, n, last).state;
      ResetRecursion(t, a, n) == s.(ids := a.ids)
  {
    var a := AssignID(t, s, n, last).state;
    var r := ResetRecursion(t, a, n);
    var tree := NewlyGuarded(s.checked, a.checked);
    AssignIDTree(t, s, n, last);
    ResetRecursionClearsBelow(t, a, n);
    forall j | 0 <= j < |t.nodes|
      ensures !r.checked[j]
    {
      if a.checked[j] {
        assert j in tree;
        TreeNodeCleared(t, a, r, tree, n, last, j);
      }
    }
    assert r.checked == s.checked;
  }

  /** Two ID passes, from `s1` to `r1` and from `s2` to `r2`, where the start
      states differ only in IDs, guard the same nodes and give the nodes
      they number the same IDs. */
  ghost predicate SameNumbering(t: Topology, s1: RunState, r1: RunState, s2: RunState, r2: RunState)
    requires Fits(t, s1) && Fits(t, r1) && Fits(t, s2) && Fits(t, r2)
  {
    && r2 == r1.(ids := r2.ids)
    && forall j :: 0 <= j < |t.nodes| ==>
         r2.ids[j] == if j in NewlyGuarded(s1.checked, r1.checked) then r1.ids[j] else s2.ids[j]
  }

  /** `AssignIDToGraph` reads the guards, never the IDs it overwrites. */
  lemma {:induction false} AssignIDIgnoresOldIds(t: Topology, s1: RunState, s2: RunState, n: nat, last: int)
    requires Valid(t) && Fits(t, s1) && Fits(t, s2) && n < |t.nodes|
    requires s2 == s1.(ids := s2.ids)
    ensures var r1 := AssignID(t, s1, n, last);
      var r2 := AssignID(t, s2, n, last);
      r2.last == r1.last && SameNumbering(t, s1, r1.state, s2, r2.state)
    decreases Unguarded(s1.checked), 0, 1
  {
    if s1.checked[n] {
      assert NewlyGuarded(s1.checked, s1.checked) == {};
    } else {
      UnguardedIgnoresOldIds(t, s1, s2, n, last);
    }
  }

  /** `AssignIDIgnoresOldIds` for a node not yet guarded: both passes mark
      it with the same ID, then number its children alike. */
  lemma {:induction false} UnguardedIgnoresOldIds(t: Topology, s1: RunState, s2: RunState, n: nat, last: int)
    requires Valid(t) && Fits(t, s1) && Fits(t, s2) && n < |t.nodes|
    requires s2 == s1.(ids := s2.ids) && !s1.checked[n]
    ensures var r1 := AssignID(t, s1, n, last);
      var r2 := AssignID(t, s2, n, last);
      r2.last == r1.last && SameNumbering(t, s1, r1.state, s2, r2.state)
    decreases Unguarded(s1.checked), 0, 0
  {
    var r1 := AssignID(t, s1, n, last);
    var r2 := AssignID(t, s2, n, last);
    {
      var m1 := s1.(checked := s1.checked[n := true], ids := s1.ids[n := last + 1]);
      var m2 := s2.(checked := s2.checked[n := true], ids := s2.ids[n := last + 1]);
      assert Unguarded(m1.checked) < Unguarded(s1.checked) by {
        assert n !in Unguarded(m1.checked);
      }
      assert r1 == AssignConns(t, m1, n, 0, last + 1);
      assert r2 == AssignConns(t, m2, n, 0, last + 1);
      AssignConnsIgnoresOldIds(t, m1, m2, n, 0, last + 1);
      SameNumberingAfterMark(t, s1, m1, r1.state, s2, m2, r2.state, n, last, r1.last);
    }
  }

  /** The loop counterpart of `AssignIDIgnoresOldIds`. */
  lemma {:induction false} AssignConnsIgnoresOldIds(t: Topology, s1: RunState, s2: RunState, n: nat, k: nat, last: int)
    requires Valid(t) && Fits(t, s1) && Fits(t, s2) && n < |t.nodes| && k <= |t.nodes[n].outs|
    requires s2 == s1.(ids := s2.ids)
    requires s1.checked[n] && s1.ids[n] <= last && s2.ids[n] <= last
    ensures var r1 := AssignConns(t, s1, n, k, last);
      var r2 := AssignConns(t, s2, n, k, last);
      r2.last == r1.last && SameNumbering(t, s1, r1.state, s2, r2.state)
    decreases Unguarded(s1.checked), 1, |t.nodes[n].outs| - k
  {
    var r1 := AssignConns(t, s1, n, k, last);
    var r2 := AssignConns(t, s2, n, k, last);
    if k == |t.nodes[n].outs| {
      assert NewlyGuarded(s1.checked, s1.checked) == {};
    } else {
      var c := Child(t, n, k);
      var f1 := AssignID(t, s1, c, last);
      var f2 := AssignID(t, s2, c, last);
      AssignIDIgnoresOldIds(t, s1, s2, c, last);
      SameNumberingReady(t, s1, f1.state, s2, f2.state, n, last, f1.last);
      AssignConnsIgnoresOldIds(t, f1.state, f2.state, n, k + 1, f1.last);
      SameNumberingTrans(t, s1, f1.state, r1.state, s2, f2.state, r2.state, last, f1.last, r1.last);
    }
  }

  /** `SameNumbering` survives numbering `n` first in both passes. */
  lemma SameNumberingAfterMark(t: Topology, s1: RunState, m1: RunState, r1: RunState,
                               s2: RunState, m2: RunState, r2: RunState, n: nat, last: int, next: int)
    requires Fits(t, s1) && Fits(t, r1) && Fits(t, s2) && Fits(t, r2)
    requires n < |t.nodes| && s2 == s1.(ids := s2.ids) && !s1.checked[n]
    requires m1 == s1.(checked := s1.checked[n := true], ids := s1.ids[n := last + 1])
    requires m2 == s2.(checked := s2.checked[n := true], ids := s2.ids[n := last + 1])
    requires IdEffect(t, m1, r1, last + 1, next)
    requires SameNumbering(t, m1, r1, m2, r2)
    ensures SameNumbering(t, s1, r1, s2, r2)
  {
    MarkIsIdEffect(t, s1, m1, n, last);
    IdTrans(t, s1, m1, r1, last, last + 1, next);
    assert n !in NewlyGuarded(m1.checked, r1.checked);
    forall j | 0 <= j < |t.nodes|
      ensures r2.ids[j] == if j in NewlyGuarded(s1.checked, r1.checked) then r1.ids[j] else s2.ids[j]
    {
      if j == n {
        assert r2.ids[j] == m2.ids[j] == last + 1 == m1.ids[j] == r1.ids[j];
      }
    }
  }

  /** After numbering one child in both passes, the loop can go on from the
      states reached: the start states still differ only in IDs, and the
      guarded node `n` keeps its ID, below the counter. */
  lemma SameNumberingReady(t: Topology, s1: RunState, f1: RunState, s2: RunState, f2: RunState, n: nat, last: int, next: int)
    requires Fits(t, s1) && Fits(t, f1) && Fits(t, s2) && Fits(t, f2) && n < |t.nodes|
    requires s1.checked[n] && s1.ids[n] <= last && s2.ids[n] <= last
    requires IdEffect(t, s1, f1, last, next) && SameNumbering(t, s1, f1, s2, f2)
    ensures Unguarded(f1.checked) <= Unguarded(s1.checked)
    ensures f2 == f1.(ids := f2.ids)
    ensures f1.checked[n] && f1.ids[n] <= next && f2.ids[n] <= next
  {
    assert n !in NewlyGuarded(s1.checked, f1.checked);
  }

  /** `SameNumbering` composes along two successive ID passes. */
  lemma SameNumberingTrans(t: Topology, s1: RunState, m1: RunState, r1: RunState,
                           s2: RunState, m2: RunState, r2: RunState, a: int, b: int, c: int)
    requires Fits(t, s1) && Fits(t, m1) && Fits(t, r1) && Fits(t, s2) && Fits(t, m2) && Fits(t, r2)
    requires IdEffect(t, s1, m1, a, b) && IdEffect(t, m1, r1, b, c)
    requires IdEffect(t, s2, m2, a, b)
    requires SameNumbering(t, s1, m1, s2, m2) && SameNumbering(t, m1, r1, m2, r2)
    ensures SameNumbering(t, s1, r1, s2, r2)
  {
    IdTrans(t, s1, m1, r1, a, b, c);
    forall j | 0 <= j < |t.nodes|
      ensures r2.ids[j] == if j in NewlyGuarded(s1.checked, r1.checked) then r1.ids[j] else s2.ids[j]
    {
      if j in NewlyGuarded(m1.checked, r1.checked) {
      } else if j in NewlyGuarded(s1.checked, m1.checked) {
        assert r2.ids[j] == m2.ids[j] == m1.ids[j] == r1.ids[j];
      } else {
        assert r2.ids[j] == m2.ids[j] == s2.ids[j];
      }
    }
  }

  /** Re-numbering is reproducible: after `ResetRecursion` has cleared the
      guards a numbering pass left, the same pass from the same counter
      yields exactly the same state and last ID. */
  lemma AssignIDReproducible(t: Topology, s: RunState, n: nat, last: int)
    requires Valid(t) && Fits(t, s) && n < |t.nodes|
    requires forall j :: 0 <= j < |t.nodes| ==> !s.checked[j]
    ensures var a := AssignID(t, s, n, last);
      AssignID(t, ResetRecursion(t, a.state, n), n, last) == a
  {
    var a := AssignID(t, s, n, last);
    var r := ResetRecursion(t, a.state, n);
    ResetRecursionUndoesAssignID(t, s, n, last);
    assert r == s.(ids := a.state.ids);
    AssignIDIgnoresOldIds(t, s, r, n, last);
    var b := AssignID(t, r, n, last);
    assert b.state.ids == a.state.ids;
  }

  /** `AssignIDToGraph` hands out every ID from `last + 1` to the ID it
      returns, each to exactly one node it numbers. */
  lemma {:induction false} AssignIDFresh(t: Topology, s: RunState, n: nat, last: int)
    requires Valid(t) && Fits(t, s) && n < |t.nodes|
    ensures var r := AssignID(t, s, n, last);
      FreshIds(t, s, r.state, last, r.last)
    decreases Unguarded(s.checked), 0, 0
  {
    var r := AssignID(t, s, n, last);
    if s.checked[n] {
      assert NewlyGuarded(s.checked, s.checked) == {};
    } else {
      var marked := s.(checked := s.checked[n := true], ids := s.ids[n := last + 1]);
      assert Unguarded(marked.checked) < Unguarded(s.checked) by {
        assert n !in Unguarded(marked.checked);
      }
      assert r == AssignConns(t, marked, n, 0, last + 1);
      AssignConnsFresh(t, marked, n, 0, last + 1);
      MarkIsIdEffect(t, s, marked, n, last);
      FreshTrans(t, s, marked, r.state, last, last + 1, r.last);
    }
  }

  /** The loop counterpart of `AssignIDFresh`. */
  lemma {:induction false} AssignConnsFresh(t: Topology, s: RunState, n: nat, k: nat, last: int)
    requires Valid(t) && Fits(t, s) && n < |t.nodes| && k <= |t.nodes[n].outs|
    requires s.checked[n] && s.ids[n] <= last
    ensures var r := AssignConns(t, s, n, k, last);
      FreshIds(t, s, r.state, last, r.last)
    decreases Unguarded(s.checked), 1, |t.nodes[n].outs| - k
  {
    var r := AssignConns(t, s, n, k, last);
    if k == |t.nodes[n].outs| {
      assert NewlyGuarded(s.checked, s.checked) == {};
    } else {
      var first := AssignID(t, s, Child(t, n, k), last);
      UnguardedShrinks(t, s, first.state, last, first.last);
      AssignIDFresh(t, s, Child(t, n, k), last);
      assert n !in NewlyGuarded(s.checked, first.state.checked);
      assert r == AssignConns(t, first.state, n, k + 1, first.last);
      AssignConnsFresh(t, first.state, n, k + 1, first.last);
      FreshTrans(t, s, first.state, r.state, last, first.last, r.last);
    }
  }
}
