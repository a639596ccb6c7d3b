/** `GraphOwner<T>`: the component that owns a behaviour graph. It keeps
    one instance per original graph asset (cloned on first use while
    playing) and starts, pauses or stops the behaviour as the component is
    started, enabled and disabled. Graphs are opaque identities; cloning
    allocates a fresh one. `Application.isPlaying` and the quitting flag are
    inputs. What the graph itself does on `StartGraph`, `Pause` and `Stop` is
    recorded as a command log. */
module GraphOwners {
  import opened Common

  /** A `Graph` object, by identity. */
  type GraphId = nat

  datatype EnableAction = EnableBehaviour | EnableDoNothing
  datatype DisableAction = DisableBehaviour | PauseBehaviour | DisableDoNothing

  /** A call the owner makes on a graph. */
  datatype Command = StartGraph(g: GraphId) | PauseGraph(g: GraphId) | StopGraph(g: GraphId)

  /** The owner's state. `instances` maps an original to its instance;
      `nextId` is the allocator of graph objects: every graph that exists
      has a smaller identity, and a clone is the next one; `bound` holds the
      graphs whose agent and blackboard have been set to this owner's. */
  datatype Owner = Owner(
    instances: map<GraphId, GraphId>,
    nextId: nat,
    behaviour: Option<GraphId>,
    bound: set<GraphId>,
    startCalled: bool,
    enableAction: EnableAction,
    disableAction: DisableAction,
    log: seq<Command>)

  /** A graph reference that is null or names a graph that exists. */
  predicate Exists(o: Owner, g: Option<GraphId>) {
    g.Some? ==> g.value < o.nextId
  }

  /** The instance cache is sound: every identity in it, and the behaviour,
      exists; no two originals share an instance; and no instance is itself
      cached as an original, except a local graph, which is cached as its
      own instance. */
  predicate OwnerInv(o: Owner) {
    && Exists(o, o.behaviour)
    && (forall g :: g in o.instances ==> g < o.nextId && o.instances[g] < o.nextId)
    && (forall g, h :: g in o.instances && h in o.instances && g != h ==> o.instances[g] != o.instances[h])
    && (forall g :: g in o.instances ==> o.instances[g] !in o.instances || o.instances[g] == g)
  }

  /** `GetInstance(originalGraph)`: the owner after the call and the graph returned. */
  function GetInstance(o: Owner, original: Option<GraphId>, isPlaying: bool): (r: (Owner, Option<GraphId>))
    requires Exists(o, original)
    // no graph: none, nothing changes
    ensures original.None? ==> r == (o, None)
    // in the editor the original is its own instance
    ensures original.Some? && !isPlaying ==> r == (o, original)
    // an instance is returned as it is
    ensures original.Some? && isPlaying && original.value in o.instances.Values ==> r == (o, original)
    // a cached original gives its stored instance, bound to this owner, with no clone
    ensures original.Some? && isPlaying && original.value !in o.instances.Values && original.value in o.instances ==>
      r == (o.(bound := o.bound + {o.instances[original.value]}), Some(o.instances[original.value]))
    // an uncached original is cloned once into a new graph, stored and bound
    ensures original.Some? && isPlaying && original.value !in o.instances.Values && original.value !in o.instances ==>
      && r.1.Some?
      && r.0.instances == o.instances[original.value := r.1.value]
      && r.0.bound == o.bound + {r.1.value}
      && r.0 == o.(instances := r.0.instances, bound := r.0.bound, nextId := r.0.nextId)
      // the clone is a graph that did not exist before, and now exists
      && o.nextId <= r.1.value < r.0.nextId
    // graphs are only ever added
    ensures o.nextId <= r.0.nextId
  {
    if original.None? then (o, None)
    else if !isPlaying then (o, original)
    else
      var g := original.value;
      if g in o.instances.Values then (o, original)
      else if g in o.instances then
        var inst := o.instances[g];
        (o.(bound := o.bound + {inst}), Some(inst))
      else
        var inst := o.nextId;
        (o.(instances := o.instances[g := inst], nextId := inst + 1, bound := o.bound + {inst}), Some(inst))
  }

  /** `GetInstance` keeps the cache sound. */
  lemma GetInstanceKeepsInv(o: Owner, original: Option<GraphId>, isPlaying: bool)
    requires OwnerInv(o) && Exists(o, original)
    ensures var (o1, inst) := GetInstance(o, original, isPlaying);
      OwnerInv(o1) && Exists(o1, inst)
  {
  }

  /** `Awake` with a local graph caches the graph as its own instance
      (GraphOwner.cs:141); the cache stays sound, and `GetInstance` then
      returns the graph itself and changes nothing. */
  lemma LocalGraphSelfEntry(o: Owner, g: GraphId, isPlaying: bool)
    requires OwnerInv(o) && g < o.nextId && g !in o.instances.Values
    ensures var o1 := o.(instances := o.instances[g := g]);
      OwnerInv(o1) && GetInstance(o1, Some(g), isPlaying) == (o1, Some(g))
  {
    var o1 := o.(instances := o.instances[g := g]);
    assert o1.instances[g] == g;
  }

  /** Asking again for the same graph, or for the instance just returned,
      changes nothing and returns the same instance: each original is cloned
      at most once. */
  lemma GetInstanceIdempotent(o: Owner, original: Option<GraphId>, isPlaying: bool)
    requires OwnerInv(o) && Exists(o, original)
    ensures var (o1, inst) := GetInstance(o, original, isPlaying);
      && GetInstance(o1, original, isPlaying) == (o1, inst)
      && GetInstance(o1, inst, isPlaying) == (o1, inst)
  {
    var (o1, inst) := GetInstance(o, original, isPlaying);
    if original.Some? && isPlaying {
      var g := original.value;
      assert inst.value in o1.instances.Values by {
        if g !in o.instances.Values {
          assert g in o1.instances && o1.instances[g] == inst.value;
        }
      }
      if g !in o.instances.Values && g !in o.instances {
        forall k | k in o1.instances
          ensures o1.instances[k] != g
        {
          if k != g {
            assert o.instances[k] in o.instances.Values;
          }
        }
      }
    }
  }

  /** `UpdateReferences()`: bind the current behaviour, if any, to this owner. */
  function UpdateReferences(o: Owner): (r: Owner)
    ensures o.behaviour.Some? ==> r == o.(bound := o.bound + {o.behaviour.value})
    ensures o.behaviour.None? ==> r == o
  {
    if o.behaviour.Some? then o.(bound := o.bound + {o.behaviour.value}) else o
  }

  /** The `behaviour` setter: assigning a different graph stores its
      instance and binds it; assigning the current one does nothing. */
  function SetBehaviour(o: Owner, value: Option<GraphId>, isPlaying: bool): (r: Owner)
    requires Exists(o, value)
    ensures value == o.behaviour ==> r == o
    ensures value != o.behaviour ==>
      var (o1, inst) := GetInstance(o, value, isPlaying);
      && r == o1.(behaviour := inst, bound := r.bound)
      && (inst.Some? ==> inst.value in r.bound)
  {
    if o.behaviour == value then o
    else
      var (o1, inst) := GetInstance(o, value, isPlaying);
      UpdateReferences(o1.(behaviour := inst))
  }

  /** `StartBehaviour()`: resolve the behaviour to its instance and start it. */
  function StartBehaviour(o: Owner, isPlaying: bool): (r: Owner)
    requires OwnerInv(o)
    ensures OwnerInv(r)
    // no behaviour assigned: nothing happens
    ensures o.behaviour.None? ==> r == o
    // otherwise the behaviour becomes its instance (itself in the editor),
    // which is started exactly once; the policies and the Start flag stay
    ensures o.behaviour.Some? ==>
      var (o1, inst) := GetInstance(o, o.behaviour, isPlaying);
      && r.behaviour == inst && inst.Some?
      && r.log == o.log + [StartGraph(inst.value)]
      && r.instances == o1.instances && r.nextId == o1.nextId
      && r == o.(instances := r.instances, nextId := r.nextId, behaviour := r.behaviour,
                 bound := r.bound, log := r.log)
      && (isPlaying ==> inst.value in r.instances.Values)
  {
    GetInstanceKeepsInv(o, o.behaviour, isPlaying);
    var (o1, inst) := GetInstance(o, o.behaviour, isPlaying);
    GetInstanceIdempotent(o, o.behaviour, isPlaying);
    GetInstanceKeepsInv(o1, inst, isPlaying);
    var o2 := SetBehaviour(o1, inst, isPlaying);
    if o2.behaviour.Some? then o2.(log := o2.log + [StartGraph(o2.behaviour.value)]) else o2
  }

  /** `PauseBehaviour()`: pause the behaviour, if any. */
  function PauseBehaviourCall(o: Owner): (r: Owner)
    ensures r == o.(log := r.log)
    ensures r.log == o.log + (if o.behaviour.Some? then [PauseGraph(o.behaviour.value)] else [])
  {
    if o.behaviour.Some? then o.(log := o.log + [PauseGraph(o.behaviour.value)]) else o
  }

  /** `StopBehaviour()`: stop the behaviour, if any. */
  function StopBehaviourCall(o: Owner): (r: Owner)
    ensures r == o.(log := r.log)
    ensures r.log == o.log + (if o.behaviour.Some? then [StopGraph(o.behaviour.value)] else [])
  {
    if o.behaviour.Some? then o.(log := o.log + [StopGraph(o.behaviour.value)]) else o
  }

  /** The number of starts in a command log. */
  function Starts(log: seq<Command>): nat
    decreases |log|
  {
    if |log| == 0 then 0
    else Starts(log[..|log| - 1]) + (if log[|log| - 1].StartGraph? then 1 else 0)
  }

  /** `Start()`: remembers that it ran, and starts the behaviour when the
      enable policy says so. */
  function Start(o: Owner, isPlaying: bool): (r: Owner)
    requires OwnerInv(o)
    ensures OwnerInv(r) && r.startCalled
    ensures o.enableAction == EnableDoNothing ==> r == o.(startCalled := true)
    ensures o.enableAction == EnableBehaviour ==> r == StartBehaviour(o.(startCalled := true), isPlaying)
  {
    var o1 := o.(startCalled := true);
    if o.enableAction == EnableBehaviour then StartBehaviour(o1, isPlaying) else o1
  }

  /** `OnEnable()`: starts the behaviour only once `Start` has run, and only
      when the enable policy says so. */
  function OnEnable(o: Owner, isPlaying: bool): (r: Owner)
    requires OwnerInv(o)
    ensures OwnerInv(r)
    ensures !o.startCalled || o.enableAction == EnableDoNothing ==> r == o
    ensures o.startCalled && o.enableAction == EnableBehaviour ==> r == StartBehaviour(o, isPlaying)
  {
    if o.startCalled && o.enableAction == EnableBehaviour then StartBehaviour(o, isPlaying) else o
  }

  /** `OnDisable()`: nothing while quitting; otherwise stop, pause or
      nothing, as the disable policy says. */
  function OnDisable(o: Owner, isQuitting: bool): (r: Owner)
    ensures r == o.(log := r.log)
    ensures isQuitting || o.disableAction == DisableDoNothing || o.behaviour.None? ==> r == o
    ensures !isQuitting && o.behaviour.Some? && o.disableAction == DisableBehaviour ==>
      r.log == o.log + [StopGraph(o.behaviour.value)]
    ensures !isQuitting && o.behaviour.Some? && o.disableAction == PauseBehaviour ==>
      r.log == o.log + [PauseGraph(o.behaviour.value)]
  {
    if isQuitting then o
    else if o.disableAction == DisableBehaviour then StopBehaviourCall(o)
    else if o.disableAction == PauseBehaviour then PauseBehaviourCall(o)
    else o
  }

  /** `SwitchBehaviour(newGraph)`: stop the current behaviour, assign the
      new graph, then start it. */
  function SwitchBehaviour(o: Owner, newGraph: Option<GraphId>, isPlaying: bool): (r: Owner)
    requires OwnerInv(o) && Exists(o, newGraph)
    ensures OwnerInv(r)
    // the old behaviour is stopped, then the new graph's instance (the
    // graph itself in the editor) becomes the behaviour and is started
    ensures var stops := if o.behaviour.Some? then [StopGraph(o.behaviour.value)] else [];
      var inst := GetInstance(StopBehaviourCall(o), newGraph, isPlaying).1;
      && r.behaviour == inst
      && r.log == o.log + stops + (if inst.Some? then [StartGraph(inst.value)] else [])
      && r.enableAction == o.enableAction && r.disableAction == o.disableAction
      && r.startCalled == o.startCalled
  {
    var stopped := StopBehaviourCall(o);
    var switched := SetBehaviour(stopped, newGraph, isPlaying);
    SwitchSteps(o, stopped, switched, newGraph, isPlaying);
    StartBehaviour(switched, isPlaying)
  }

  /** The steps of `SwitchBehaviour`: after the stop, the setter leaves a
      behaviour whose instance is the new graph's instance. */
  lemma SwitchSteps(o: Owner, stopped: Owner, switched: Owner, newGraph: Option<GraphId>, isPlaying: bool)
    requires OwnerInv(o) && Exists(o, newGraph)
    requires stopped == StopBehaviourCall(o)
    requires switched == SetBehaviour(stopped, newGraph, isPlaying)
    ensures OwnerInv(switched)
    ensures var inst := GetInstance(stopped, newGraph, isPlaying).1;
      && GetInstance(switched, switched.behaviour, isPlaying).1 == inst
      && switched.log == stopped.log
      && switched.enableAction == o.enableAction && switched.disableAction == o.disableAction
      && switched.startCalled == o.startCalled
  {
    GetInstanceKeepsInv(stopped, newGraph, isPlaying);
    GetInstanceIdempotent(stopped, newGraph, isPlaying);
    if newGraph != stopped.behaviour {
      var (o1, inst) := GetInstance(stopped, newGraph, isPlaying);
      assert switched == o1.(behaviour := inst, bound := switched.bound);
      assert GetInstance(switched, inst, isPlaying).1 == GetInstance(o1, inst, isPlaying).1;
    }
  }

  /** Switching to the running behaviour while playing restarts it: it is
      stopped and started again, and nothing but the log changes. */
  lemma SwitchToCurrentRestarts(o: Owner, g: GraphId)
    requires OwnerInv(o) && o.behaviour == Some(g) && g in o.instances.Values
    ensures SwitchBehaviour(o, Some(g), true) == o.(log := o.log + [StopGraph(g), StartGraph(g)])
  {
    var stopped := StopBehaviourCall(o);
    assert GetInstance(stopped, Some(g), true) == (stopped, Some(g));
  }

  /** An `OnEnable` that arrives before `Start` does not start the
      behaviour, and `Start` then starts it once: the pair gives exactly one
      start. */
  lemma EnableBeforeStartStartsOnce(o: Owner, isPlaying: bool)
    requires OwnerInv(o) && !o.startCalled && o.enableAction == EnableBehaviour && o.behaviour.Some?
    ensures var r := Start(OnEnable(o, isPlaying), isPlaying);
      Starts(r.log) == Starts(o.log) + 1
  {
    var r := Start(OnEnable(o, isPlaying), isPlaying);
    assert r.log[..|r.log| - 1] == o.log;
  }

  /** With the enable policy `DoNothing`, neither `Start` nor `OnEnable`
      ever starts the behaviour. */
  lemma DoNothingNeverStarts(o: Owner, isPlaying: bool)
    requires OwnerInv(o) && o.enableAction == EnableDoNothing
    ensures Start(o, isPlaying).log == o.log
    ensures OnEnable(Start(o, isPlaying), isPlaying).log == o.log
  {
  }
}
