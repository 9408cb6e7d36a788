/**
 * The first phase of path generation: the scan over the taxi path nodes that
 * keeps the interior nodes as key frames, drops teleport and map-change nodes
 * together with the node after each, and marks teleport frames.
 */
module PathFilter {
  import opened Wrappers
  import opened TransportTypes

  /** Why a path cannot be turned into key frames. */
  datatype PathError =
    | NoInteriorNodes           // fewer than three nodes: no key frame at all
    | TeleportBeforeFirstFrame  // the first interior node is a teleport or map change
    | NoStopFrame               // no key frame is a stop

  /** What the node scan produces: the key frames, the maps they lie on, and whether the path is closed. */
  datatype Filtered = Filtered(keyFrames: seq<KeyFrame>, mapsUsed: set<int>, cyclic: bool)

  /** Interior node i ends a run: it is a teleport marker or its successor lies on another map. */
  predicate Triggers(path: seq<PathNode>, i: nat)
    requires i + 1 < |path|
  {
    path[i].actionFlag == 1 || path[i].mapId != path[i + 1].mapId
  }

  /**
   * The scan's map-change flag on reaching node i: node i directly follows a
   * node that was examined and triggered, so node i is passed over unexamined.
   */
  predicate Skipped(path: seq<PathNode>, i: nat)
    requires 1 <= i < |path|
    decreases i
  {
    i > 1 && !Skipped(path, i - 1) && Triggers(path, i - 1)
  }

  /** Node i becomes a key frame. */
  predicate Kept(path: seq<PathNode>, i: nat)
    requires 1 <= i && i + 1 < |path|
  {
    !Skipped(path, i) && !Triggers(path, i)
  }

  /** Node i is examined and triggers a teleport. */
  predicate Teleporting(path: seq<PathNode>, i: nat)
    requires 1 <= i && i + 1 < |path|
  {
    !Skipped(path, i) && Triggers(path, i)
  }

  /** The indices of the kept nodes below hi, in increasing order. */
  function KeptBelow(path: seq<PathNode>, hi: nat): (r: seq<nat>)
    requires 1 <= hi < |path|
    ensures forall k :: 0 <= k < |r| ==> 1 <= r[k] < hi
    decreases hi
  {
    if hi == 1 then []
    else KeptBelow(path, hi - 1) + (if Kept(path, hi - 1) then [hi - 1] else [])
  }

  /** Some node strictly between a and b is examined and triggers a teleport. */
  predicate TeleportBetween(path: seq<PathNode>, a: nat, b: nat)
    requires b < |path|
    decreases b
  {
    if b <= a + 1 then false
    else TeleportBetween(path, a, b - 1) || Teleporting(path, b - 1)
  }

  /** The maps of the nodes at the given indices. */
  function MapsOf(path: seq<PathNode>, idx: seq<nat>): (r: set<int>)
    requires forall k :: 0 <= k < |idx| ==> idx[k] < |path|
    decreases |idx|
  {
    if idx == [] then {}
    else MapsOf(path, idx[..|idx| - 1]) + {path[idx[|idx| - 1]].mapId}
  }

  /** A map is used exactly when one of the indexed nodes lies on it. */
  lemma {:induction false} MapsOfExact(path: seq<PathNode>, idx: seq<nat>, m: int)
    requires forall k :: 0 <= k < |idx| ==> idx[k] < |path|
    ensures m in MapsOf(path, idx) <==> exists k :: 0 <= k < |idx| && path[idx[k]].mapId == m
    decreases |idx|
  {
    if idx != [] {
      var front := idx[..|idx| - 1];
      MapsOfExact(path, front, m);
      assert forall k :: 0 <= k < |front| ==> front[k] == idx[k];
    }
  }

  /** KeptBelow lists exactly the kept interior nodes below hi, in increasing order. */
  lemma {:induction false} KeptBelowExact(path: seq<PathNode>, hi: nat)
    requires 1 <= hi < |path|
    ensures forall k :: 0 <= k < |KeptBelow(path, hi)| ==> 1 <= KeptBelow(path, hi)[k] < hi && Kept(path, KeptBelow(path, hi)[k])
    ensures forall k, l :: 0 <= k < l < |KeptBelow(path, hi)| ==> KeptBelow(path, hi)[k] < KeptBelow(path, hi)[l]
    ensures forall i :: 1 <= i < hi && Kept(path, i) ==> i in KeptBelow(path, hi)
    decreases hi
  {
    if hi > 1 {
      KeptBelowExact(path, hi - 1);
    }
  }

  /** TeleportBetween holds exactly when a teleport node lies strictly between a and b. */
  lemma {:induction false} TeleportBetweenExact(path: seq<PathNode>, a: nat, b: nat)
    requires b < |path|
    ensures TeleportBetween(path, a, b) <==> exists i :: a < i < b && Teleporting(path, i)
    decreases b
  {
    if b > a + 1 {
      TeleportBetweenExact(path, a, b - 1);
    }
  }

  /**
   * What the scan promises: one key frame per kept interior node, in path
   * order; a frame is a teleport frame when a teleport node follows it before
   * the next kept node, and the last frame always is; the maps used are those
   * of the kept frames; the path is cyclic when no teleport node was met.
   */
  ghost predicate FilterSpec(path: seq<PathNode>, f: Filtered)
    requires |path| >= 3
  {
    var idx := KeptBelow(path, |path| - 1);
    && |f.keyFrames| == |idx| > 0
    && (forall k {:trigger f.keyFrames[k]} :: 0 <= k < |idx| ==>
          f.keyFrames[k] == NewKeyFrame(path[idx[k]]).(teleport :=
            k == |idx| - 1 || TeleportBetween(path, idx[k], idx[k + 1])))
    && f.mapsUsed == MapsOf(path, idx)
    && f.cyclic == !TeleportBetween(path, 0, |path| - 1)
  }

  /** A teleport node makes the scan pass over the node right after it. */
  lemma TeleportSkipsSuccessor(path: seq<PathNode>, i: nat)
    requires 1 <= i && i + 2 < |path| && Teleporting(path, i)
    ensures Skipped(path, i + 1) && !Kept(path, i + 1)
    ensures i !in KeptBelow(path, |path| - 1) && i + 1 !in KeptBelow(path, |path| - 1)
  {
    KeptBelowExact(path, |path| - 1);
  }

  /** The scan's state on reaching node i: everything before i has been processed. */
  ghost predicate ScanState(path: seq<PathNode>, i: nat, keyFrames: seq<KeyFrame>, mapsUsed: set<int>,
                            mapChange: bool, cyclic: bool, idx: seq<nat>)
  {
    && 1 <= i <= |path| - 1
    && idx == KeptBelow(path, i)
    && mapChange == Skipped(path, i)
    && |keyFrames| == |idx|
    && (i > 1 ==> |keyFrames| > 0 && !Triggers(path, 1))
    && (forall k {:trigger keyFrames[k]} :: 0 <= k < |idx| ==> keyFrames[k].(teleport := false) == NewKeyFrame(path[idx[k]]))
    && (forall k {:trigger keyFrames[k]} :: 0 <= k < |idx| - 1 ==> keyFrames[k].teleport == TeleportBetween(path, idx[k], idx[k + 1]))
    && (|idx| > 0 ==> keyFrames[|idx| - 1].teleport == TeleportBetween(path, idx[|idx| - 1], i))
    && mapsUsed == MapsOf(path, idx)
    && cyclic == !TeleportBetween(path, 0, i)
  }

  /** Passing over a node that follows a teleport node. */
  lemma SkipStep(path: seq<PathNode>, i: nat, keyFrames: seq<KeyFrame>, mapsUsed: set<int>, cyclic: bool, idx: seq<nat>)
    requires i < |path| - 1 && ScanState(path, i, keyFrames, mapsUsed, true, cyclic, idx)
    ensures ScanState(path, i + 1, keyFrames, mapsUsed, false, cyclic, idx)
  {
    assert KeptBelow(path, i + 1) == KeptBelow(path, i);
    assert TeleportBetween(path, 0, i + 1) == TeleportBetween(path, 0, i);
    if |idx| > 0 {
      var a := idx[|idx| - 1];
      assert TeleportBetween(path, a, i + 1) == TeleportBetween(path, a, i);
    }
  }

  /** Meeting a teleport node: the previous frame becomes a teleport frame. */
  lemma TeleportStep(path: seq<PathNode>, i: nat, keyFrames: seq<KeyFrame>, mapsUsed: set<int>, cyclic: bool, idx: seq<nat>)
    requires i < |path| - 1 && ScanState(path, i, keyFrames, mapsUsed, false, cyclic, idx)
    requires Triggers(path, i) && |keyFrames| > 0
    ensures var last := |keyFrames| - 1;
      ScanState(path, i + 1, keyFrames[last := keyFrames[last].(teleport := true)], mapsUsed, true, false, idx)
  {
    assert KeptBelow(path, i + 1) == KeptBelow(path, i);
    assert TeleportBetween(path, 0, i + 1);
    var a := idx[|idx| - 1];
    assert TeleportBetween(path, a, i + 1);
  }

  /** Keeping a node: a fresh key frame is appended. */
  lemma KeepStep(path: seq<PathNode>, i: nat, keyFrames: seq<KeyFrame>, mapsUsed: set<int>, cyclic: bool, idx: seq<nat>)
    requires i < |path| - 1 && ScanState(path, i, keyFrames, mapsUsed, false, cyclic, idx)
    requires !Triggers(path, i)
    ensures ScanState(path, i + 1, keyFrames + [NewKeyFrame(path[i])], mapsUsed + {path[i].mapId}, false, cyclic, idx + [i])
  {
    assert KeptBelow(path, i + 1) == idx + [i];
    assert TeleportBetween(path, 0, i + 1) == TeleportBetween(path, 0, i);
    assert (idx + [i])[..|idx|] == idx;
    assert !TeleportBetween(path, i, i + 1);
  }

  /**
   * The node scan. The source marks the previous frame through `back()`, which
   * has no frame to reach when the first interior node triggers, and marks the
   * last frame after the scan, which has none to reach for fewer than three
   * nodes; both are reported as errors here.
   */
  method FilterNodes(path: seq<PathNode>) returns (r: Result<Filtered, PathError>)
    ensures r.Failure? <==> |path| < 3 || Triggers(path, 1)
    ensures r.Failure? ==> r.error == if |path| < 3 then NoInteriorNodes else TeleportBeforeFirstFrame
    ensures r.Success? ==> FilterSpec(path, r.value)
  {
    if |path| < 3 {
      return Failure(NoInteriorNodes);
    }
    var keyFrames: seq<KeyFrame> := [];
    var mapsUsed: set<int> := {};
    var mapChange := false;
    var cyclic := true;
    ghost var idx: seq<nat> := [];
    var i := 1;
    while i < |path| - 1
      invariant ScanState(path, i, keyFrames, mapsUsed, mapChange, cyclic, idx)
    {
      if !mapChange {
        var node := path[i];
        if node.actionFlag == 1 || node.mapId != path[i + 1].mapId {
          if |keyFrames| == 0 {
            return Failure(TeleportBeforeFirstFrame);
          }
          TeleportStep(path, i, keyFrames, mapsUsed, cyclic, idx);
          cyclic := false;
          var last := |keyFrames| - 1;
          keyFrames := keyFrames[last := keyFrames[last].(teleport := true)];
          mapChange := true;
        } else {
          KeepStep(path, i, keyFrames, mapsUsed, cyclic, idx);
          var k := NewKeyFrame(node);
          keyFrames := keyFrames + [k];
          mapsUsed := mapsUsed + {k.node.mapId};
          idx := idx + [i];
        }
      } else {
        SkipStep(path, i, keyFrames, mapsUsed, cyclic, idx);
        mapChange := false;
      }
      i := i + 1;
    }
    var last := |keyFrames| - 1;
    keyFrames := keyFrames[last := keyFrames[last].(teleport := true)];
    assert forall k :: 0 <= k < |idx| ==>
      keyFrames[k] == keyFrames[k].(teleport := false).(teleport := keyFrames[k].teleport);
    r := Success(Filtered(keyFrames, mapsUsed, cyclic));
  }
}
