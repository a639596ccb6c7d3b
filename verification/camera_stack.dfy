/** The camera stack of `SteamVR_Render`: the cameras to render, kept in
    order of depth, with the last one on top. A camera is an identity (the
    source compares references); its depth is read through `depth`, an
    integer key standing for the camera component's depth, of which only
    `>` is used. */
module CameraStack {
  import opened Common

  /** A `SteamVR_Camera`, by identity. */
  type CamId = nat

  /** The cameras are in non-decreasing order of depth. */
  predicate Sorted(cams: seq<CamId>, depth: CamId -> int) {
    forall i, j :: 0 <= i < j < |cams| ==> depth(cams[i]) <= depth(cams[j])
  }

  /** Where a camera of depth `d` goes: before the first camera that is
      strictly deeper, after every camera of equal depth. */
  function InsertionPoint(cams: seq<CamId>, depth: CamId -> int, d: int): (p: nat)
    ensures p <= |cams|
    ensures forall i :: 0 <= i < p ==> depth(cams[i]) <= d
    ensures p < |cams| ==> depth(cams[p]) > d
    decreases |cams|
  {
    if |cams| == 0 || depth(cams[0]) > d then 0
    else 1 + InsertionPoint(cams[1..], depth, d)
  }

  /** The list with `v` placed at its insertion point. */
  function Insert(cams: seq<CamId>, depth: CamId -> int, v: CamId): (r: seq<CamId>)
    ensures |r| == |cams| + 1
    ensures multiset(r) == multiset(cams) + multiset{v}
    // the cameras already there keep their relative order around `v`
    ensures var p := InsertionPoint(cams, depth, depth(v));
      && r[p] == v
      && (forall i :: 0 <= i < p ==> r[i] == cams[i])
      && (forall i :: p < i < |r| ==> r[i] == cams[i - 1])
  {
    var p := InsertionPoint(cams, depth, depth(v));
    Splice(cams, p, v);
    cams[..p] + [v] + cams[p..]
  }

  /** Splicing `v` into `s` at position `p`. */
  lemma Splice(s: seq<CamId>, p: nat, v: CamId)
    requires p <= |s|
    ensures var r := s[..p] + [v] + s[p..];
      && |r| == |s| + 1
      && multiset(r) == multiset(s) + multiset{v}
      && r[p] == v
      && (forall i :: 0 <= i < p ==> r[i] == s[i])
      && (forall i :: p < i < |r| ==> r[i] == s[i - 1])
  {
    assert s == s[..p] + s[p..];
  }

  /** In a sorted list, every camera from the insertion point on is
      strictly deeper than `d`. */
  lemma DeeperFromInsertionPoint(cams: seq<CamId>, depth: CamId -> int, d: int)
    requires Sorted(cams, depth)
    ensures var p := InsertionPoint(cams, depth, d);
      forall i :: p <= i < |cams| ==> depth(cams[i]) > d
  {
    var p := InsertionPoint(cams, depth, d);
    forall i | p <= i < |cams|
      ensures depth(cams[i]) > d
    {
      if i > p {
        assert depth(cams[p]) <= depth(cams[i]);
      }
    }
  }

  /** Insertion keeps a depth-sorted list sorted. */
  lemma InsertKeepsSorted(cams: seq<CamId>, depth: CamId -> int, v: CamId)
    requires Sorted(cams, depth)
    ensures Sorted(Insert(cams, depth, v), depth)
  {
    var d := depth(v);
    var p := InsertionPoint(cams, depth, d);
    var r := Insert(cams, depth, v);
    DeeperFromInsertionPoint(cams, depth, d);
    assert forall i :: 0 <= i <= p ==> depth(r[i]) <= d;
    assert forall i :: p < i < |r| ==> depth(r[i]) > d;
    forall i, j | 0 <= i < j < |r|
      ensures depth(r[i]) <= depth(r[j])
    {
      if j < p {
        assert depth(cams[i]) <= depth(cams[j]);
      } else if p < i {
        assert depth(cams[i - 1]) <= depth(cams[j - 1]);
      }
    }
  }

  /** `AddInternal(vrcam)`: one pass over the list, building the new array
      and putting `vrcam` before the first strictly deeper camera, or last. */
  method AddInternal(cameras: seq<CamId>, depth: CamId -> int, vrcam: CamId) returns (sorted: seq<CamId>)
    ensures sorted == Insert(cameras, depth, vrcam)
  {
    ghost var target := Insert(cameras, depth, vrcam);
    ghost var p := InsertionPoint(cameras, depth, depth(vrcam));
    var length := |cameras|;
    sorted := [];
    var insert := 0;
    var i := 0;
    while i < length
      invariant 0 <= i <= length
      invariant insert == if i <= p then i else i + 1
      invariant sorted == target[..insert]
    {
      if i == insert && depth(cameras[i]) > depth(vrcam) {
        assert target[..insert + 1] == target[..insert] + [vrcam];
        sorted := sorted + [vrcam];
        insert := insert + 1;
      }
      assert target[insert] == cameras[i];
      assert target[..insert + 1] == target[..insert] + [cameras[i]];
      sorted := sorted + [cameras[i]];
      insert := insert + 1;
      i := i + 1;
    }
    if insert == length {
      assert target[..insert + 1] == target[..insert] + [vrcam];
      sorted := sorted + [vrcam];
    }
    assert target[..length + 1] == target;
  }

  /** The list without any occurrence of `v`, the rest in order. */
  function Without(cams: seq<CamId>, v: CamId): (r: seq<CamId>)
    ensures v !in r
    decreases |cams|
  {
    if |cams| == 0 then []
    else
      var init := cams[..|cams| - 1];
      var last := cams[|cams| - 1];
      if last == v then Without(init, v) else Without(init, v) + [last]
  }

  /** Removal drops exactly the occurrences of `v`: the length falls by
      their number and every other camera keeps its count. */
  lemma {:induction false} WithoutCounts(cams: seq<CamId>, v: CamId)
    ensures |Without(cams, v)| == |cams| - multiset(cams)[v]
    ensures multiset(Without(cams, v)) == multiset(cams)[v := 0]
    decreases |cams|
  {
    if |cams| > 0 {
      var init := cams[..|cams| - 1];
      assert cams == init + [cams[|cams| - 1]];
      WithoutCounts(init, v);
    }
  }

  /** Removal from a list extended by one camera. */
  lemma WithoutSnoc(s: seq<CamId>, x: CamId, v: CamId)
    ensures Without(s + [x], v) == Without(s, v) + (if x == v then [] else [x])
  {
    assert (s + [x])[..|s + [x]| - 1] == s;
  }

  /** Removing an absent camera changes nothing. */
  lemma {:induction false} WithoutAbsent(cams: seq<CamId>, v: CamId)
    requires v !in cams
    ensures Without(cams, v) == cams
    decreases |cams|
  {
    if |cams| > 0 {
      var init := cams[..|cams| - 1];
      assert cams == init + [cams[|cams| - 1]];
      WithoutAbsent(init, v);
    }
  }

  /** Removal distributes over concatenation. */
  lemma {:induction false} WithoutConcat(a: seq<CamId>, b: seq<CamId>, v: CamId)
    ensures Without(a + b, v) == Without(a, v) + Without(b, v)
    decreases |b|
  {
    if |b| > 0 {
      var initB := b[..|b| - 1];
      assert a + b == (a + initB) + [b[|b| - 1]];
      assert (a + b)[..|a + b| - 1] == a + initB;
      WithoutConcat(a, initB, v);
    } else {
      assert a + b == a;
    }
  }

  /** The first loop of `RemoveInternal`: how often `vrcam` occurs. */
  method CountOccurrences(cameras: seq<CamId>, vrcam: CamId) returns (count: nat)
    ensures count == multiset(cameras)[vrcam]
  {
    count := 0;
    var i := 0;
    while i < |cameras|
      invariant 0 <= i <= |cameras|
      invariant count == multiset(cameras[..i])[vrcam]
    {
      assert cameras[..i + 1] == cameras[..i] + [cameras[i]];
      if cameras[i] == vrcam {
        count := count + 1;
      }
      i := i + 1;
    }
    assert cameras[..|cameras|] == cameras;
  }

  /** The second loop of `RemoveInternal`: copy every other camera, in order. */
  method CopyWithout(cameras: seq<CamId>, vrcam: CamId) returns (sorted: seq<CamId>)
    ensures sorted == Without(cameras, vrcam)
  {
    sorted := [];
    var i := 0;
    while i < |cameras|
      invariant 0 <= i <= |cameras|
      invariant sorted == Without(cameras[..i], vrcam)
    {
      var prefix := cameras[..i];
      assert cameras[..i + 1] == prefix + [cameras[i]];
      WithoutSnoc(prefix, cameras[i], vrcam);
      if cameras[i] != vrcam {
        sorted := sorted + [cameras[i]];
      }
      i := i + 1;
    }
    assert cameras[..|cameras|] == cameras;
  }

  /** `RemoveInternal(vrcam)`: count the occurrences; if there are none the
      list is left as it is, otherwise a new array without them is built. */
  method RemoveInternal(cameras: seq<CamId>, vrcam: CamId) returns (sorted: seq<CamId>)
    ensures vrcam !in cameras ==> sorted == cameras
    ensures sorted == Without(cameras, vrcam)
    // every occurrence goes, and nothing else
    ensures vrcam !in sorted
    ensures |sorted| == |cameras| - multiset(cameras)[vrcam]
    ensures multiset(sorted) == multiset(cameras)[vrcam := 0]
  {
    WithoutCounts(cameras, vrcam);
    var count := CountOccurrences(cameras, vrcam);
    if count == 0 {
      WithoutAbsent(cameras, vrcam);
      return cameras;
    }
    sorted := CopyWithout(cameras, vrcam);
  }

  /** Removal undoes the insertion of a camera that was not in the list. */
  lemma RemoveUndoesInsert(cams: seq<CamId>, depth: CamId -> int, v: CamId)
    requires v !in cams
    ensures Without(Insert(cams, depth, v), v) == cams
  {
    var p := InsertionPoint(cams, depth, depth(v));
    assert cams == cams[..p] + cams[p..];
    WithoutConcat(cams[..p] + [v], cams[p..], v);
    WithoutConcat(cams[..p], [v], v);
    WithoutAbsent(cams[..p], v);
    WithoutAbsent(cams[p..], v);
    assert Without([v], v) == [];
  }

  /** `TopInternal()`: the last camera, or none when the list is empty. */
  function TopInternal(cams: seq<CamId>): (top: Option<CamId>)
    ensures top.None? <==> |cams| == 0
    ensures top.Some? ==> top.value == cams[|cams| - 1]
  {
    if |cams| > 0 then Some(cams[|cams| - 1]) else None
  }

  /** In a depth-sorted list the top camera is a deepest one: it is drawn
      last, over every other camera. */
  lemma TopIsDeepest(cams: seq<CamId>, depth: CamId -> int)
    requires Sorted(cams, depth)
    ensures var top := TopInternal(cams);
      top.Some? ==> top.value in cams && forall i :: 0 <= i < |cams| ==> depth(cams[i]) <= depth(top.value)
  {
  }

  /** In a sorted list, a newly added camera is on top exactly when no
      camera already there is deeper. */
  lemma NewCameraOnTopIffDeepest(cams: seq<CamId>, depth: CamId -> int, v: CamId)
    requires Sorted(cams, depth)
    ensures TopInternal(Insert(cams, depth, v)) == Some(v) <==>
      forall i :: 0 <= i < |cams| ==> depth(cams[i]) <= depth(v)
  {
  }

  /** The renderer singleton as the static entry points see it: the
      quitting flag and the instance, if one exists, with its camera list. */
  datatype Renderer = Renderer(isQuitting: bool, instance: Option<seq<CamId>>)

  /** The camera list of the instance, creating an empty one if there is none. */
  function Cameras(r: Renderer): seq<CamId> {
    if r.instance.Some? then r.instance.value else []
  }

  /** Static `Add(vrcam)`: ignored while quitting; otherwise inserts into
      the instance, creating it if needed. */
  function Add(r: Renderer, depth: CamId -> int, vrcam: CamId): (r': Renderer)
    ensures r.isQuitting ==> r' == r
    ensures !r.isQuitting ==> r' == r.(instance := Some(Insert(Cameras(r), depth, vrcam)))
  {
    if r.isQuitting then r
    else r.(instance := Some(Insert(Cameras(r), depth, vrcam)))
  }

  /** Static `Remove(vrcam)`: ignored while quitting or when no instance
      exists (it is never created for a removal). */
  function Remove(r: Renderer, vrcam: CamId): (r': Renderer)
    ensures r.isQuitting || r.instance.None? ==> r' == r
    ensures !r.isQuitting && r.instance.Some? ==> r' == r.(instance := Some(Without(r.instance.value, vrcam)))
  {
    if !r.isQuitting && r.instance.Some? then r.(instance := Some(Without(r.instance.value, vrcam)))
    else r
  }

  /** Static `Top()`: none while quitting; otherwise the top of the
      instance, which is created if needed. */
  function Top(r: Renderer): (res: (Renderer, Option<CamId>))
    ensures r.isQuitting ==> res == (r, None)
    // otherwise the camera list is left as it was, the instance now exists
    ensures !r.isQuitting ==> res.0 == r.(instance := Some(Cameras(r))) && res.1 == TopInternal(Cameras(r))
  {
    if r.isQuitting then (r, None)
    else (r.(instance := Some(Cameras(r))), TopInternal(Cameras(r)))
  }

  /** Adding a camera and then removing it leaves the stack as it was, as
      long as the camera was not on it and the application is not quitting. */
  lemma AddThenRemove(r: Renderer, depth: CamId -> int, vrcam: CamId)
    requires !r.isQuitting && vrcam !in Cameras(r)
    ensures Remove(Add(r, depth, vrcam), vrcam) == r.(instance := Some(Cameras(r)))
  {
    RemoveUndoesInsert(Cameras(r), depth, vrcam);
  }
}
