/** The node graph as an arena. A `Topology` holds what the editor builds
    (per-node connection bounds and ordered in/out connection lists, the
    connections' endpoints, the prime node); a `RunState` holds what execution
    changes (per-node status, recursion guard and ID, per-connection status,
    the graph's paused flag and a log of `OnReset` hook invocations).
    Nodes and connections are referred to by their index in the arena. */
module Graphs {
  import opened Common

  /** The static part of a node: its connection bounds (-1 = unbounded),
      whether it may be the prime node, its breakpoint flag, and the indices
      of its incoming and outgoing connections, in order. */
  datatype NodeShape = NodeShape(
    maxIn: int,
    maxOut: int,
    allowAsPrime: bool,
    isBreakpoint: bool,
    ins: seq<nat>,
    outs: seq<nat>)

  /** A directed connection `source -> target` with its active flag. */
  datatype Edge = Edge(source: nat, target: nat, isActive: bool)

  /** The graph's structure; `prime` is the entry node, if any. */
  datatype Topology = Topology(nodes: seq<NodeShape>, conns: seq<Edge>, prime: Option<nat>)

  /** Transient execution state of a graph. `checked` is the per-node
      recursion guard (`isChecked`); `resetLog` lists, in call order, the
      nodes whose `OnReset` hook has been invoked; `paused` records a call
      of `graph.Pause()`. */
  datatype RunState = RunState(
    status: seq<Status>,
    checked: seq<bool>,
    ids: seq<int>,
    connStatus: seq<Status>,
    paused: bool,
    resetLog: seq<nat>)

  /** Outgoing connections of `n` exist, are distinct and start at `n`. */
  predicate OutsOk(t: Topology, n: nat)
    requires n < |t.nodes|
  {
    var outs := t.nodes[n].outs;
    && NoDup(outs)
    && forall k :: 0 <= k < |outs| ==> outs[k] < |t.conns| && t.conns[outs[k]].source == n
  }

  /** Incoming connections of `n` exist, are distinct and end at `n`. */
  predicate InsOk(t: Topology, n: nat)
    requires n < |t.nodes|
  {
    var ins := t.nodes[n].ins;
    && NoDup(ins)
    && forall k :: 0 <= k < |ins| ==> ins[k] < |t.conns| && t.conns[ins[k]].target == n
  }

  /** Every connection joins two nodes of the graph and is listed by both
      of them; every node lists only its own connections. */
  predicate Valid(t: Topology) {
    && (forall c :: 0 <= c < |t.conns| ==>
          && t.conns[c].source < |t.nodes|
          && t.conns[c].target < |t.nodes|
          && c in t.nodes[t.conns[c].source].outs
          && c in t.nodes[t.conns[c].target].ins)
    && (forall n :: 0 <= n < |t.nodes| ==> OutsOk(t, n) && InsOk(t, n))
    && (t.prime.Some? ==> t.prime.value < |t.nodes|)
  }

  /** The run state has one entry per node and per connection. */
  predicate Fits(t: Topology, s: RunState) {
    && |s.status| == |t.nodes|
    && |s.checked| == |t.nodes|
    && |s.ids| == |t.nodes|
    && |s.connStatus| == |t.conns|
  }

  /** The `k`-th outgoing connection of `n`. */
  function OutConn(t: Topology, n: nat, k: nat): (c: nat)
    requires Valid(t) && n < |t.nodes| && k < |t.nodes[n].outs|
    ensures c < |t.conns| && t.conns[c].source == n
  {
    assert OutsOk(t, n);
    t.nodes[n].outs[k]
  }

  /** The target node of the `k`-th outgoing connection of `n`. */
  function Child(t: Topology, n: nat, k: nat): (c: nat)
    requires Valid(t) && n < |t.nodes| && k < |t.nodes[n].outs|
    ensures c < |t.nodes|
  {
    assert OutsOk(t, n);
    t.conns[t.nodes[n].outs[k]].target
  }

  /** The source node of the `k`-th incoming connection of `n`. */
  function Parent(t: Topology, n: nat, k: nat): (p: nat)
    requires Valid(t) && n < |t.nodes| && k < |t.nodes[n].ins|
    ensures p < |t.nodes|
  {
    assert InsOk(t, n);
    t.conns[t.nodes[n].ins[k]].source
  }

  /** `GetChildNodes`: the targets of the outgoing connections, in order. */
  function ChildNodes(t: Topology, n: nat): (r: seq<nat>)
    requires Valid(t) && n < |t.nodes|
    ensures |r| == |t.nodes[n].outs|
    ensures forall k :: 0 <= k < |r| ==> r[k] == Child(t, n, k)
  {
    seq(|t.nodes[n].outs|, k requires 0 <= k < |t.nodes[n].outs| => Child(t, n, k))
  }

  /** `GetParentNodes`: the sources of the incoming connections, in order. */
  function ParentNodes(t: Topology, n: nat): (r: seq<nat>)
    requires Valid(t) && n < |t.nodes|
    ensures |r| == |t.nodes[n].ins|
    ensures forall k :: 0 <= k < |r| ==> r[k] == Parent(t, n, k)
  {
    seq(|t.nodes[n].ins|, k requires 0 <= k < |t.nodes[n].ins| => Parent(t, n, k))
  }

  /** In a valid graph, `m` is a child of `n` exactly when `n` is a parent of `m`. */
  lemma ChildParentDuality(t: Topology, n: nat, m: nat)
    requires Valid(t) && n < |t.nodes| && m < |t.nodes|
    ensures m in ChildNodes(t, n) <==> n in ParentNodes(t, m)
  {
    var cs := ChildNodes(t, n);
    var ps := ParentNodes(t, m);
    if m in cs {
      var k :| 0 <= k < |cs| && cs[k] == m;
      assert OutsOk(t, n);
      var c := t.nodes[n].outs[k];
      assert c in t.nodes[m].ins;
      var j :| 0 <= j < |t.nodes[m].ins| && t.nodes[m].ins[j] == c;
      assert ps[j] == n;
    }
    if n in ps {
      var j :| 0 <= j < |ps| && ps[j] == n;
      assert InsOk(t, m);
      var c := t.nodes[m].ins[j];
      assert c in t.nodes[n].outs;
      var k :| 0 <= k < |t.nodes[n].outs| && t.nodes[n].outs[k] == c;
      assert cs[k] == m;
    }
  }

  /** `p` is a path of nodes, each a child of the one before it. */
  ghost predicate IsPath(t: Topology, p: seq<nat>)
    requires Valid(t)
  {
    && (forall i :: 0 <= i < |p| ==> p[i] < |t.nodes|)
    && (forall i :: 0 <= i < |p| - 1 ==> p[i] < |t.nodes| && p[i + 1] in ChildNodes(t, p[i]))
  }

  /** Node `n` does not exceed its bounds (a bound of -1 means unbounded). */
  predicate NodeWithinBounds(t: Topology, n: nat)
    requires n < |t.nodes|
  {
    && (t.nodes[n].maxIn == -1 || |t.nodes[n].ins| <= t.nodes[n].maxIn)
    && (t.nodes[n].maxOut == -1 || |t.nodes[n].outs| <= t.nodes[n].maxOut)
  }

  /** No node exceeds its connection bounds. */
  predicate WithinBounds(t: Topology) {
    forall n :: 0 <= n < |t.nodes| ==> NodeWithinBounds(t, n)
  }

  /** `target.IsNewConnectionAllowed(source)`: may a connection from
      `source` to `target` be created? Rejections only log a warning, so the
      graph is never changed. */
  function IsNewConnectionAllowed(t: Topology, target: nat, source: nat): (allowed: bool)
    requires target < |t.nodes| && source < |t.nodes|
    // never a self-loop, never a second way into a single-input prime node
    ensures allowed ==> source != target && !(t.prime == Some(target) && t.nodes[target].maxIn == 1)
    // accepting it keeps both ends within their bounds
    ensures allowed && NodeWithinBounds(t, source) && NodeWithinBounds(t, target) ==>
      NodeWithinBounds(Connect(t, source, target), source) && NodeWithinBounds(Connect(t, source, target), target)
  {
    var src := t.nodes[source];
    var tgt := t.nodes[target];
    if target == source then false
    else if |src.outs| >= src.maxOut && src.maxOut != -1 then false
    else if t.prime == Some(target) && tgt.maxIn == 1 then false
    else if tgt.maxIn <= |tgt.ins| && tgt.maxIn != -1 then false
    else true
  }

  /** The graph after appending an active connection `source -> target`,
      listed last among the source's outgoing and the target's incoming
      connections. */
  function Connect(t: Topology, source: nat, target: nat): (r: Topology)
    requires source < |t.nodes| && target < |t.nodes| && source != target
  {
    var c := |t.conns|;
    var src := t.nodes[source];
    var tgt := t.nodes[target];
    t.(conns := t.conns + [Edge(source, target, true)],
       nodes := t.nodes[source := src.(outs := src.outs + [c])]
                       [target := tgt.(ins := tgt.ins + [c])])
  }

  /** Appending a connection to a valid graph keeps it valid. */
  lemma ConnectKeepsValid(t: Topology, source: nat, target: nat)
    requires Valid(t) && source < |t.nodes| && target < |t.nodes| && source != target
    ensures Valid(Connect(t, source, target))
  {
    var r := Connect(t, source, target);
    var c := |t.conns|;
    forall n | 0 <= n < |r.nodes|
      ensures OutsOk(r, n) && InsOk(r, n)
    {
      assert OutsOk(t, n) && InsOk(t, n);
      if n == source {
        assert r.nodes[n].outs == t.nodes[n].outs + [c];
        assert r.nodes[n].ins == t.nodes[n].ins;
      } else if n == target {
        assert r.nodes[n].ins == t.nodes[n].ins + [c];
        assert r.nodes[n].outs == t.nodes[n].outs;
      }
    }
    forall d | 0 <= d < |r.conns|
      ensures r.conns[d].source < |r.nodes| && r.conns[d].target < |r.nodes|
      ensures d in r.nodes[r.conns[d].source].outs && d in r.nodes[r.conns[d].target].ins
    {
      if d < c {
        var e := t.conns[d];
        assert r.conns[d] == e;
        assert d in t.nodes[e.source].outs && d in t.nodes[e.target].ins;
        assert t.nodes[e.source].outs <= r.nodes[e.source].outs;
        assert t.nodes[e.target].ins <= r.nodes[e.target].ins;
      } else {
        assert r.nodes[source].outs[|r.nodes[source].outs| - 1] == d;
        assert r.nodes[target].ins[|r.nodes[target].ins| - 1] == d;
      }
    }
  }

  /** The admission check accepts a connection into a graph that respects
      its bounds exactly when the connection joins two distinct nodes, does
      not enter a single-input prime node, and leaves every node within its
      bounds. */
  lemma AdmissionCharacterised(t: Topology, target: nat, source: nat)
    requires Valid(t) && WithinBounds(t)
    requires target < |t.nodes| && source < |t.nodes|
    ensures IsNewConnectionAllowed(t, target, source) <==>
      && source != target
      && !(t.prime == Some(target) && t.nodes[target].maxIn == 1)
      && WithinBounds(Connect(t, source, target))
  {
    if source != target {
      var r := Connect(t, source, target);
      if IsNewConnectionAllowed(t, target, source) {
        forall n | 0 <= n < |r.nodes|
          ensures NodeWithinBounds(r, n)
        {
          assert NodeWithinBounds(t, n);
        }
      } else if !(t.prime == Some(target) && t.nodes[target].maxIn == 1) {
        var src := t.nodes[source];
        if |src.outs| >= src.maxOut && src.maxOut != -1 {
          assert !NodeWithinBounds(r, source);
        } else {
          assert !NodeWithinBounds(r, target);
        }
      }
    }
  }
}
