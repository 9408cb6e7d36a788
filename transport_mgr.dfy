/**
 * Path generation for a transport template: the node filter, the spline
 * lengths, the stop search, the distance and time scans and the path-time
 * pass, composed in the order the manager runs them.
 */
module TransportMgr {
  import opened Wrappers
  import opened TransportTypes
  import opened PathFilter
  import opened StopScans
  import opened PathTimes

  /** Some interior node that the filter keeps is a stop. */
  predicate KeepsStop(path: seq<PathNode>)
    requires |path| >= 3
  {
    var idx := KeptBelow(path, |path| - 1);
    exists k :: 0 <= k < |idx| && path[idx[k]].IsStop()
  }

  /**
   * Every derived field of frame k is what its closed form gives on these
   * very frames: the distances from the stops, TimeTo from the kinematics,
   * TimeFrom from TimeTo, and the arrival and departure times in milliseconds.
   */
  ghost predicate DerivedAt(fs: seq<KeyFrame>, kinematics: (real, real) -> real, k: nat)
    requires HasStop(fs) && k < |fs|
  {
    && fs[k].distSinceStop == DistSinceStopOf(fs, k)
    && fs[k].distUntilStop == DistUntilStopOf(fs, k)
    && fs[k].timeTo == kinematics(fs[k].distSinceStop, fs[k].distUntilStop)
    && fs[k].timeFrom == TimeFromOf(fs, k)
    && fs[k].pathTime == Ms(ArriveSec(fs, k))
    && fs[k].departureTime == Ms(DepartSec(fs, k))
  }

  /** Every frame is derived. */
  ghost predicate Derived(fs: seq<KeyFrame>, kinematics: (real, real) -> real)
    requires HasStop(fs)
  {
    forall k :: 0 <= k < |fs| ==> DerivedAt(fs, kinematics, k)
  }

  /** The spline lengths: frame k's DistFromPrev is the length of the spline segment ending at it. */
  method SetArcLengths(fs: seq<KeyFrame>, arcLength: nat -> real) returns (r: seq<KeyFrame>)
    ensures |r| == |fs|
    ensures forall k {:trigger r[k]} :: 0 <= k < |fs| ==> r[k] == fs[k].(distFromPrev := arcLength(k))
  {
    r := fs;
    var i := 0;
    while i < |fs|
      invariant 0 <= i <= |fs| == |r|
      invariant forall k {:trigger r[k]} :: 0 <= k < |fs| ==> r[k] == if k < i then fs[k].(distFromPrev := arcLength(k)) else fs[k]
    {
      r := r[i := r[i].(distFromPrev := arcLength(i))];
      i := i + 1;
    }
  }

  /** Same nodes and the same TimeTo values: TimeFrom and the path times agree. */
  predicate SameTiming(a: seq<KeyFrame>, b: seq<KeyFrame>) {
    SameNodes(a, b) && forall k {:trigger b[k]} :: 0 <= k < |a| ==> a[k].timeTo == b[k].timeTo
  }

  /** The five passes over the frames, each as its method promises: g to s1 to s2 to s3 to s4 to f. */
  ghost predicate Passes(g: seq<KeyFrame>, s1: seq<KeyFrame>, s2: seq<KeyFrame>, s3: seq<KeyFrame>, s4: seq<KeyFrame>,
                         f: seq<KeyFrame>, kinematics: (real, real) -> real)
  {
    && HasStop(g) && HasStop(s1) && HasStop(s3)
    && |s1| == |g| && |s2| == |g| && |s3| == |g| && |s4| == |g| && |f| == |g|
    && (forall j {:trigger s1[j]} :: 0 <= j < |g| ==> s1[j] == g[j].(distSinceStop := DistSinceStopOf(g, j)))
    && (forall j {:trigger s2[j]} :: 0 <= j < |g| ==> s2[j] == s1[j].(distUntilStop := DistUntilStopOf(s1, j)))
    && (forall j {:trigger s3[j]} :: 0 <= j < |g| ==>
          s3[j] == s2[j].(timeTo := kinematics(s2[j].distSinceStop, s2[j].distUntilStop)))
    && (forall j {:trigger s4[j]} :: 0 <= j < |g| ==> s4[j] == s3[j].(timeFrom := TimeFromOf(s3, j)))
    && (forall j {:trigger f[j]} :: 0 <= j < |g| ==> f[j] == Timed(s4, j))
  }

  /** The passes change no node and no DistFromPrev; the last two change no TimeTo; none changes a teleport flag. */
  lemma TrackChain(g: seq<KeyFrame>, s1: seq<KeyFrame>, s2: seq<KeyFrame>, s3: seq<KeyFrame>, s4: seq<KeyFrame>,
                   f: seq<KeyFrame>, kinematics: (real, real) -> real)
    requires Passes(g, s1, s2, s3, s4, f, kinematics)
    ensures SameTrack(g, f) && SameTrack(s1, f) && SameTiming(s3, f) && SameTiming(s4, f)
    ensures forall k {:trigger f[k]} :: 0 <= k < |g| ==> f[k].teleport == g[k].teleport
    ensures s4[0].departureTime == g[0].departureTime
  {
    forall k | 0 <= k < |g|
      ensures g[k].node == f[k].node && g[k].distFromPrev == f[k].distFromPrev && g[k].teleport == f[k].teleport
      ensures s1[k].node == f[k].node && s1[k].distFromPrev == f[k].distFromPrev
      ensures s3[k].node == f[k].node && s3[k].timeTo == f[k].timeTo
      ensures s4[k].node == f[k].node && s4[k].timeTo == f[k].timeTo
      ensures s4[k].departureTime == g[k].departureTime
    {
      assert s1[k] == g[k].(distSinceStop := DistSinceStopOf(g, k));
      assert s2[k] == s1[k].(distUntilStop := DistUntilStopOf(s1, k));
      assert s3[k].node == s2[k].node && s3[k].distFromPrev == s2[k].distFromPrev && s3[k].teleport == s2[k].teleport;
      assert s4[k] == s3[k].(timeFrom := TimeFromOf(s3, k));
      assert f[k] == Timed(s4, k);
    }
  }

  /** Frame k of the generated frames has every derived field as Derived demands. */
  lemma AssembleAt(g: seq<KeyFrame>, s1: seq<KeyFrame>, s2: seq<KeyFrame>, s3: seq<KeyFrame>, s4: seq<KeyFrame>,
                   f: seq<KeyFrame>, kinematics: (real, real) -> real, k: nat)
    requires Passes(g, s1, s2, s3, s4, f, kinematics) && k < |g| && g[0].departureTime == 0
    requires SameTrack(g, f) && SameTrack(s1, f) && SameTiming(s3, f) && SameTiming(s4, f)
    requires s4[0].departureTime == g[0].departureTime
    ensures HasStop(f) && DerivedAt(f, kinematics, k)
  {
    assert s1[k] == g[k].(distSinceStop := DistSinceStopOf(g, k));
    assert s2[k] == s1[k].(distUntilStop := DistUntilStopOf(s1, k));
    assert s3[k] == s2[k].(timeTo := kinematics(s2[k].distSinceStop, s2[k].distUntilStop));
    assert s4[k] == s3[k].(timeFrom := TimeFromOf(s3, k));
    assert f[k] == Timed(s4, k);
    SinceAgrees(g, f, k);
    UntilAgrees(s1, f, k);
    TimeFromAgrees(s3, f, k);
    TimesAgree(s4, f, k);
    if k == 0 && !s4[0].IsStopFrame() {
      MsZero();
    }
  }

  /** The passes one after another leave the frames consistent in the sense of Derived. */
  lemma Assemble(g: seq<KeyFrame>, s1: seq<KeyFrame>, s2: seq<KeyFrame>, s3: seq<KeyFrame>, s4: seq<KeyFrame>,
                 f: seq<KeyFrame>, kinematics: (real, real) -> real)
    requires Passes(g, s1, s2, s3, s4, f, kinematics) && |g| >= 1 && g[0].departureTime == 0
    ensures SameTrack(g, f) && HasStop(f) && Derived(f, kinematics)
    ensures forall k {:trigger f[k]} :: 0 <= k < |g| ==> f[k].teleport == g[k].teleport
  {
    TrackChain(g, s1, s2, s3, s4, f, kinematics);
    StopsAgree(g, f);
    forall k | 0 <= k < |f|
      ensures DerivedAt(f, kinematics, k)
    {
      AssembleAt(g, s1, s2, s3, s4, f, kinematics, k);
    }
  }

  /** The DistSinceStop pass keeps the nodes, hence the stops. */
  lemma SinceKeepsStops(g: seq<KeyFrame>, s1: seq<KeyFrame>)
    requires HasStop(g) && |s1| == |g|
    requires forall j {:trigger s1[j]} :: 0 <= j < |g| ==> s1[j] == g[j].(distSinceStop := DistSinceStopOf(g, j))
    ensures HasStop(s1) && FirstStopFrom(s1, 0) == FirstStopFrom(g, 0)
  {
    assert SameNodes(g, s1) by {
      forall k | 0 <= k < |g| ensures g[k].node == s1[k].node {
        assert s1[k] == g[k].(distSinceStop := DistSinceStopOf(g, k));
      }
    }
    StopsAgree(g, s1);
  }

  /** Nor do the DistUntilStop and TimeTo passes change a stop. */
  lemma TimeToKeepsStops(g: seq<KeyFrame>, s1: seq<KeyFrame>, s2: seq<KeyFrame>, s3: seq<KeyFrame>,
                         kinematics: (real, real) -> real)
    requires HasStop(g) && HasStop(s1) && |s1| == |g| && |s2| == |g| && |s3| == |g|
    requires forall j {:trigger s1[j]} :: 0 <= j < |g| ==> s1[j] == g[j].(distSinceStop := DistSinceStopOf(g, j))
    requires forall j {:trigger s2[j]} :: 0 <= j < |g| ==> s2[j] == s1[j].(distUntilStop := DistUntilStopOf(s1, j))
    requires forall j {:trigger s3[j]} :: 0 <= j < |g| ==>
      s3[j] == s2[j].(timeTo := kinematics(s2[j].distSinceStop, s2[j].distUntilStop))
    ensures HasStop(s3) && LastStopBelow(s3, |s3|) == LastStopBelow(g, |g|)
  {
    assert SameNodes(g, s3) by {
      forall k | 0 <= k < |g| ensures g[k].node == s3[k].node {
        assert s1[k] == g[k].(distSinceStop := DistSinceStopOf(g, k));
        assert s2[k] == s1[k].(distUntilStop := DistUntilStopOf(s1, k));
        assert s3[k].node == s2[k].node;
      }
    }
    StopsAgree(g, s3);
  }

  /**
   * The frames are the kept interior nodes in path order, each marked as a
   * teleport frame exactly when it is the last one or a teleport node lies
   * between it and the next, with the spline lengths as DistFromPrev.
   */
  ghost predicate LaidOut(path: seq<PathNode>, fs: seq<KeyFrame>, arcLength: nat -> real)
    requires |path| >= 3
  {
    var idx := KeptBelow(path, |path| - 1);
    && |fs| == |idx| > 0
    && forall k {:trigger fs[k]} :: 0 <= k < |idx| ==>
         && fs[k].node == path[idx[k]]
         && fs[k].teleport == (k == |idx| - 1 || TeleportBetween(path, idx[k], idx[k + 1]))
         && fs[k].distFromPrev == arcLength(k)
  }

  /** The filtered frames with their spline lengths are laid out along the path, and not yet timed. */
  lemma MeasuredFrames(path: seq<PathNode>, f: Filtered, g: seq<KeyFrame>, arcLength: nat -> real)
    requires |path| >= 3 && FilterSpec(path, f) && |g| == |f.keyFrames|
    requires forall k {:trigger g[k]} :: 0 <= k < |g| ==> g[k] == f.keyFrames[k].(distFromPrev := arcLength(k))
    ensures LaidOut(path, g, arcLength) && g[0].departureTime == 0
  {
    var idx := KeptBelow(path, |path| - 1);
    forall k | 0 <= k < |idx|
      ensures g[k].node == path[idx[k]]
      ensures g[k].teleport == (k == |idx| - 1 || TeleportBetween(path, idx[k], idx[k + 1]))
      ensures g[k].distFromPrev == arcLength(k)
    {
      assert g[k] == f.keyFrames[k].(distFromPrev := arcLength(k));
    }
    assert g[0] == f.keyFrames[0].(distFromPrev := arcLength(0));
  }

  /** Laid-out frames have a stop exactly when the filter keeps a stop node. */
  lemma LaidOutStops(path: seq<PathNode>, g: seq<KeyFrame>, arcLength: nat -> real)
    requires |path| >= 3 && LaidOut(path, g, arcLength)
    ensures HasStop(g) <==> KeepsStop(path)
  {
    var idx := KeptBelow(path, |path| - 1);
    if KeepsStop(path) {
      var k :| 0 <= k < |idx| && path[idx[k]].IsStop();
      assert g[k].IsStopFrame();
    }
    if HasStop(g) {
      var k :| 0 <= k < |g| && g[k].IsStopFrame();
      assert path[idx[k]].IsStop();
    }
  }

  /** Frames with the same track and teleport flags as laid-out frames are laid out too. */
  lemma LaidOutKept(path: seq<PathNode>, g: seq<KeyFrame>, fs: seq<KeyFrame>, arcLength: nat -> real)
    requires |path| >= 3 && LaidOut(path, g, arcLength) && SameTrack(g, fs)
    requires forall k {:trigger fs[k]} :: 0 <= k < |g| ==> fs[k].teleport == g[k].teleport
    ensures LaidOut(path, fs, arcLength)
  {
    var idx := KeptBelow(path, |path| - 1);
    forall k | 0 <= k < |idx|
      ensures fs[k].node == path[idx[k]]
      ensures fs[k].teleport == (k == |idx| - 1 || TeleportBetween(path, idx[k], idx[k + 1]))
      ensures fs[k].distFromPrev == arcLength(k)
    {
      assert g[k].node == path[idx[k]];
    }
  }

  /**
   * The scans and the path-time pass over frames with known stops: the
   * result keeps the nodes, the DistFromPrev values and the teleport flags,
   * and every derived field is filled in.
   */
  method ComputeTimes(g: seq<KeyFrame>, firstStop: nat, lastStop: nat, kinematics: (real, real) -> real)
    returns (frames: seq<KeyFrame>)
    requires HasStop(g) && firstStop == FirstStopFrom(g, 0) && lastStop == LastStopBelow(g, |g|)
    requires g[0].departureTime == 0
    ensures |frames| == |g| && SameTrack(g, frames) && HasStop(frames) && Derived(frames, kinematics)
    ensures forall k {:trigger frames[k]} :: 0 <= k < |g| ==> frames[k].teleport == g[k].teleport
  {
    var s1 := FillDistSinceStop(g, lastStop);
    SinceKeepsStops(g, s1);
    var s2 := FillDistUntilStop(s1, firstStop);
    var s3 := FillTimeTo(s2, kinematics);
    TimeToKeepsStops(g, s1, s2, s3, kinematics);
    var s4 := FillTimeFrom(s3, lastStop);
    frames := FillPathTimes(s4);
    Assemble(g, s1, s2, s3, s4, frames, kinematics);
  }

  /**
   * Path generation. A path whose first interior node already teleports, a
   * path with no interior node and a path none of whose kept frames is a stop
   * are reported as errors; otherwise the template holds the filtered frames
   * with every derived field filled in, its path time is the last frame's
   * departure time, and the acceleration constants follow from the speed and
   * the acceleration.
   */
  method GeneratePath(path: seq<PathNode>, entry: nat, speed: real, accel: real,
                      arcLength: nat -> real, kinematics: (real, real) -> real)
    returns (r: Result<TransportTemplate, PathError>)
    requires accel != 0.0
    ensures r.Failure? <==> |path| < 3 || Triggers(path, 1) || !KeepsStop(path)
    ensures r.Failure? ==> r.error == (if |path| < 3 then NoInteriorNodes
                                       else if Triggers(path, 1) then TeleportBeforeFirstFrame
                                       else NoStopFrame)
    ensures r.Success? ==>
      var t := r.value;
      && t.entry == entry
      && t.mapsUsed == MapsOf(path, KeptBelow(path, |path| - 1))
      && LaidOut(path, t.keyFrames, arcLength)
      && HasStop(t.keyFrames)
      && Derived(t.keyFrames, kinematics)
      && t.pathTime == t.keyFrames[|t.keyFrames| - 1].departureTime
      && t.accelTime == speed / accel
      && t.accelDist == 0.5 * speed * speed / accel
  {
    var filtered := FilterNodes(path);
    if filtered.Failure? {
      return Failure(filtered.error);
    }
    var f := filtered.value;
    var accelDist := 0.5 * speed * speed / accel;
    var transport := NewTransportTemplate(entry).(mapsUsed := f.mapsUsed, accelTime := speed / accel, accelDist := accelDist);

    var g := SetArcLengths(f.keyFrames, arcLength);
    MeasuredFrames(path, f, g, arcLength);
    LaidOutStops(path, g, arcLength);
    var firstStop, lastStop := FindStops(g);
    if firstStop == -1 {
      return Failure(NoStopFrame);
    }
    var frames := ComputeTimes(g, firstStop, lastStop, kinematics);
    LaidOutKept(path, g, frames, arcLength);
    transport := transport.(keyFrames := frames, pathTime := frames[|frames| - 1].departureTime);
    return Success(transport);
  }
}
