/**
 * The second phase of path generation: finding the first and last stop
 * frames, the two cyclic distance scans, the TimeTo assignment and the cyclic
 * TimeFrom scan. Each scan writes one field of every frame; the result is
 * specified frame by frame through closed forms over the input frames.
 */
module StopScans {
  import opened TransportTypes

  /** Some frame is a stop. */
  predicate HasStop(fs: seq<KeyFrame>) {
    exists j :: 0 <= j < |fs| && fs[j].IsStopFrame()
  }

  /** The DistFromPrev values of frames a to b - 1, summed. */
  function Dist(fs: seq<KeyFrame>, a: nat, b: nat): real
    requires a <= b <= |fs|
    decreases b
  {
    if a == b then 0.0 else Dist(fs, a, b - 1) + fs[b - 1].distFromPrev
  }

  /** The smallest stop index at or above k, or -1 when there is none. */
  function FirstStopFrom(fs: seq<KeyFrame>, k: nat): (r: int)
    requires k <= |fs|
    ensures r == -1 || (k <= r < |fs| && fs[r].IsStopFrame())
    ensures r == -1 ==> forall q :: k <= q < |fs| ==> !fs[q].IsStopFrame()
    ensures r >= 0 ==> forall q :: k <= q < r ==> !fs[q].IsStopFrame()
    decreases |fs| - k
  {
    if k == |fs| then -1
    else if fs[k].IsStopFrame() then k
    else FirstStopFrom(fs, k + 1)
  }

  /** The largest stop index below k, or -1 when there is none. */
  function LastStopBelow(fs: seq<KeyFrame>, k: nat): (r: int)
    requires k <= |fs|
    ensures r == -1 || (0 <= r < k && fs[r].IsStopFrame())
    ensures r == -1 ==> forall q :: 0 <= q < k ==> !fs[q].IsStopFrame()
    ensures r >= 0 ==> forall q :: r < q < k ==> !fs[q].IsStopFrame()
    decreases k
  {
    if k == 0 then -1
    else if fs[k - 1].IsStopFrame() then k - 1
    else LastStopBelow(fs, k - 1)
  }

  /** The stop at or before frame j, going backwards around the loop. */
  function PrevStop(fs: seq<KeyFrame>, j: nat): (r: nat)
    requires HasStop(fs) && j < |fs|
    ensures r < |fs| && fs[r].IsStopFrame()
    ensures r <= j ==> forall q :: r < q <= j ==> !fs[q].IsStopFrame()
    ensures r > j ==> (forall q :: 0 <= q <= j ==> !fs[q].IsStopFrame())
    ensures r > j ==> (forall q :: r < q < |fs| ==> !fs[q].IsStopFrame())
  {
    var s := LastStopBelow(fs, j + 1);
    if s >= 0 then s else LastStopBelow(fs, |fs|)
  }

  /** The first stop after frame j, going forwards around the loop (j itself only after a full loop). */
  function NextStop(fs: seq<KeyFrame>, j: nat): (r: nat)
    requires HasStop(fs) && j < |fs|
    ensures r < |fs| && fs[r].IsStopFrame()
    ensures r > j ==> forall q :: j < q < r ==> !fs[q].IsStopFrame()
    ensures r <= j ==> (forall q :: j < q < |fs| ==> !fs[q].IsStopFrame())
    ensures r <= j ==> (forall q :: 0 <= q < r ==> !fs[q].IsStopFrame())
  {
    var t := FirstStopFrom(fs, j + 1);
    if t >= 0 then t else FirstStopFrom(fs, 0)
  }

  /** DistFromPrev summed over the frames after a up to and including b, forwards around the loop; a full loop when a == b. */
  function CyclicDist(fs: seq<KeyFrame>, a: nat, b: nat): real
    requires a < |fs| && b < |fs|
  {
    if a < b then Dist(fs, a + 1, b + 1) else Dist(fs, a + 1, |fs|) + Dist(fs, 0, b + 1)
  }

  /** The intended DistSinceStop: 0 at a stop, otherwise the distance covered since the previous stop. */
  function DistSinceStopOf(fs: seq<KeyFrame>, j: nat): real
    requires HasStop(fs) && j < |fs|
  {
    if fs[j].IsStopFrame() then 0.0 else CyclicDist(fs, PrevStop(fs, j), j)
  }

  /** The intended DistUntilStop: the distance to the next stop, which at a stop is the distance to the following one. */
  function DistUntilStopOf(fs: seq<KeyFrame>, j: nat): real
    requires HasStop(fs) && j < |fs|
  {
    CyclicDist(fs, j, NextStop(fs, j))
  }

  /** The intended TimeFrom: the TimeTo of the previous stop less the frame's own. */
  function TimeFromOf(fs: seq<KeyFrame>, j: nat): real
    requires HasStop(fs) && j < |fs|
  {
    fs[PrevStop(fs, j)].timeTo - fs[j].timeTo
  }

  /** x reduced once modulo n. */
  function Wrap(x: nat, n: nat): (r: nat)
    requires x < 2 * n
    ensures r < n
  {
    if x < n then x else x - n
  }

  /** How far position p lies after base, going forwards around a loop of n. */
  function Offset(p: nat, base: nat, n: nat): (r: nat)
    requires p < n && base < n
    ensures r < n && Wrap(base + r, n) == p
  {
    if p >= base then p - base else p + n - base
  }

  /** The source's `(i + base) % n` index computation. */
  function CyclicIndex(i: nat, base: nat, n: nat): (j: nat)
    requires i + base < 2 * n
    ensures j == Wrap(i + base, n)
  {
    var x := i + base;
    assert x >= n ==> x == (x - n) + n;
    x % n
  }

  /** Summing from the front instead of the back. */
  lemma {:induction false} DistFront(fs: seq<KeyFrame>, a: nat, b: nat)
    requires a < b <= |fs|
    ensures Dist(fs, a, b) == fs[a].distFromPrev + Dist(fs, a + 1, b)
    decreases b
  {
    if b > a + 1 {
      DistFront(fs, a, b - 1);
    }
  }

  /** Away from a stop, DistSinceStop grows by the frame's DistFromPrev over that of the frame before it. */
  lemma SinceStep(fs: seq<KeyFrame>, p: nat)
    requires HasStop(fs) && p < |fs| && !fs[p].IsStopFrame()
    ensures var q := if p == 0 then |fs| - 1 else p - 1;
      DistSinceStopOf(fs, p) == DistSinceStopOf(fs, q) + fs[p].distFromPrev
  {
    var n := |fs|;
    var q := if p == 0 then n - 1 else p - 1;
    var a := PrevStop(fs, p);
    if p == 0 {
      assert LastStopBelow(fs, 1) == -1;
    } else {
      assert LastStopBelow(fs, p + 1) == LastStopBelow(fs, p);
    }
    if fs[q].IsStopFrame() {
      assert a == q;
      if p == 0 {
        assert CyclicDist(fs, a, p) == Dist(fs, n, n) + Dist(fs, 0, 1);
      } else {
        assert CyclicDist(fs, a, p) == Dist(fs, p, p + 1);
        assert Dist(fs, p, p + 1) == Dist(fs, p, p) + fs[p].distFromPrev;
        assert DistSinceStopOf(fs, p) == CyclicDist(fs, a, p);
      }
    } else {
      assert a == PrevStop(fs, q);
    }
  }

  /** DistUntilStop is the successor's DistFromPrev plus, unless the successor is a stop, the successor's DistUntilStop. */
  lemma UntilStep(fs: seq<KeyFrame>, j: nat)
    requires HasStop(fs) && j < |fs|
    ensures var s := Wrap(j + 1, |fs|);
      DistUntilStopOf(fs, j) == fs[s].distFromPrev + (if fs[s].IsStopFrame() then 0.0 else DistUntilStopOf(fs, s))
  {
    var n := |fs|;
    var s := Wrap(j + 1, n);
    var b := NextStop(fs, j);
    if !fs[s].IsStopFrame() {
      if j + 1 < n {
        assert FirstStopFrom(fs, j + 1) == FirstStopFrom(fs, j + 2);
        assert b == NextStop(fs, s);
        if j < b {
          DistFront(fs, j + 1, b + 1);
        } else {
          DistFront(fs, j + 1, n);
        }
      } else {
        assert FirstStopFrom(fs, 0) == FirstStopFrom(fs, 1);
        assert b == NextStop(fs, s);
        DistFront(fs, 0, b + 1);
      }
    } else if j + 1 < n {
      assert b == s;
      assert CyclicDist(fs, j, b) == Dist(fs, s, s + 1);
      assert Dist(fs, s, s + 1) == Dist(fs, s, s) + fs[s].distFromPrev;
    } else {
      assert b == 0;
      assert CyclicDist(fs, j, b) == Dist(fs, n, n) + Dist(fs, 0, 1);
    }
  }

  /** Away from a stop, the previous stop is that of the frame before. */
  lemma PrevStopStep(fs: seq<KeyFrame>, p: nat)
    requires HasStop(fs) && p < |fs| && !fs[p].IsStopFrame()
    ensures PrevStop(fs, p) == PrevStop(fs, if p == 0 then |fs| - 1 else p - 1)
  {
    if p > 0 {
      assert LastStopBelow(fs, p + 1) == LastStopBelow(fs, p);
    }
  }

  /** The stop search: the first and the last stop frame, -1 for both when there is none. */
  method FindStops(fs: seq<KeyFrame>) returns (firstStop: int, lastStop: int)
    requires |fs| >= 1
    ensures firstStop == FirstStopFrom(fs, 0) && lastStop == LastStopBelow(fs, |fs|)
    ensures firstStop == -1 <==> lastStop == -1
    ensures firstStop == -1 <==> !HasStop(fs)
    ensures firstStop >= 0 ==> firstStop <= lastStop < |fs|
  {
    firstStop, lastStop := -1, -1;
    if fs[0].IsStopFrame() {
      firstStop, lastStop := 0, 0;
    }
    var i := 1;
    while i < |fs|
      invariant 1 <= i <= |fs|
      invariant firstStop == FirstStopFrom(fs[..i], 0)
      invariant lastStop == LastStopBelow(fs, i)
    {
      assert FirstStopFrom(fs[..i + 1], 0) == if firstStop >= 0 then firstStop else
        if fs[i].IsStopFrame() then i else -1;
      if fs[i].IsStopFrame() {
        if firstStop == -1 {
          firstStop := i;
        }
        lastStop := i;
      }
      i := i + 1;
    }
    assert fs[..i] == fs;
  }

  /** The DistSinceStop scan after i steps: the first i frames from the last stop on are written, and tmpDist is the last one written. */
  ghost predicate SinceScanned(fs: seq<KeyFrame>, lastStop: nat, i: nat, r: seq<KeyFrame>, tmpDist: real)
    requires HasStop(fs) && lastStop < |fs|
  {
    var n := |fs|;
    && i <= n && |r| == n
    && (forall p {:trigger r[p]} :: 0 <= p < n ==>
          r[p] == if Offset(p, lastStop, n) < i then fs[p].(distSinceStop := DistSinceStopOf(fs, p)) else fs[p])
    && (i > 0 ==> tmpDist == DistSinceStopOf(fs, Wrap(lastStop + i - 1, n)))
  }

  lemma SinceScanStep(fs: seq<KeyFrame>, lastStop: nat, i: nat, j: nat,
                      r: seq<KeyFrame>, tmpDist: real, r': seq<KeyFrame>, tmpDist': real)
    requires HasStop(fs) && lastStop == LastStopBelow(fs, |fs|) && i < |fs| && j == Wrap(i + lastStop, |fs|)
    requires SinceScanned(fs, lastStop, i, r, tmpDist)
    requires tmpDist' == if r[j].IsStopFrame() then 0.0 else tmpDist + r[j].distFromPrev
    requires r' == r[j := r[j].(distSinceStop := tmpDist')]
    ensures SinceScanned(fs, lastStop, i + 1, r', tmpDist')
  {
    var n := |fs|;
    assert Offset(j, lastStop, n) == i;
    if !r[j].IsStopFrame() {
      SinceStep(fs, j);
      assert i > 0;
    }
    assert r'[j] == fs[j].(distSinceStop := DistSinceStopOf(fs, j));
    forall p | 0 <= p < n && p != j
      ensures r'[p] == if Offset(p, lastStop, n) < i + 1 then fs[p].(distSinceStop := DistSinceStopOf(fs, p)) else fs[p]
    {
      assert r'[p] == r[p];
      assert Offset(p, lastStop, n) != i;
    }
  }

  /**
   * The DistSinceStop scan: forwards around the loop from the last stop,
   * restarting at every stop and accumulating DistFromPrev in between.
   */
  method FillDistSinceStop(fs: seq<KeyFrame>, lastStop: nat) returns (r: seq<KeyFrame>)
    requires HasStop(fs) && lastStop == LastStopBelow(fs, |fs|)
    ensures |r| == |fs|
    ensures forall j {:trigger r[j]} :: 0 <= j < |fs| ==> r[j] == fs[j].(distSinceStop := DistSinceStopOf(fs, j))
  {
    var n := |fs|;
    r := fs;
    var tmpDist := 0.0;
    var i := 0;
    while i < n
      invariant SinceScanned(fs, lastStop, i, r, tmpDist)
    {
      ghost var r0, tmp0 := r, tmpDist;
      var j := CyclicIndex(i, lastStop, n);
      if r[j].IsStopFrame() {
        tmpDist := 0.0;
      } else {
        tmpDist := tmpDist + r[j].distFromPrev;
      }
      r := r[j := r[j].(distSinceStop := tmpDist)];
      SinceScanStep(fs, lastStop, i, j, r0, tmp0, r, tmpDist);
      i := i + 1;
    }
  }

  /** The DistUntilStop scan with i frames left: the frames from the first stop back to offset i are written; tmpDist carries the frame at offset i. */
  ghost predicate UntilScanned(fs: seq<KeyFrame>, firstStop: nat, i: nat, r: seq<KeyFrame>, tmpDist: real)
    requires HasStop(fs) && firstStop < |fs|
  {
    var n := |fs|;
    && i <= n && |r| == n
    && (forall p {:trigger r[p]} :: 0 <= p < n ==>
          r[p] == if Offset(p, firstStop, n) >= i then fs[p].(distUntilStop := DistUntilStopOf(fs, p)) else fs[p])
    && var s := Wrap(i + firstStop, n);
       tmpDist == if fs[s].IsStopFrame() then 0.0 else DistUntilStopOf(fs, s)
  }

  lemma UntilScanStep(fs: seq<KeyFrame>, firstStop: nat, i: nat, j: nat, s: nat,
                      r: seq<KeyFrame>, tmpDist: real, r': seq<KeyFrame>, tmpDist': real)
    requires HasStop(fs) && firstStop == FirstStopFrom(fs, 0) && i < |fs|
    requires j == Wrap(i + firstStop, |fs|) && s == Wrap(j + 1, |fs|)
    requires UntilScanned(fs, firstStop, i + 1, r, tmpDist)
    requires r' == r[j := r[j].(distUntilStop := tmpDist + r[s].distFromPrev)]
    requires tmpDist' == if r'[j].IsStopFrame() then 0.0 else tmpDist + r[s].distFromPrev
    ensures UntilScanned(fs, firstStop, i, r', tmpDist')
  {
    var n := |fs|;
    assert Offset(j, firstStop, n) == i;
    assert s == Wrap(i + 1 + firstStop, n);
    assert r[j] == fs[j] && r[s].distFromPrev == fs[s].distFromPrev;
    UntilStep(fs, j);
    assert r'[j] == fs[j].(distUntilStop := DistUntilStopOf(fs, j));
    forall p | 0 <= p < n && p != j
      ensures r'[p] == if Offset(p, firstStop, n) >= i then fs[p].(distUntilStop := DistUntilStopOf(fs, p)) else fs[p]
    {
      assert r'[p] == r[p];
      assert Offset(p, firstStop, n) != i;
    }
  }

  /**
   * The DistUntilStop scan: backwards around the loop from the frame before
   * the first stop, accumulating the successor's DistFromPrev and restarting
   * after every stop.
   */
  method FillDistUntilStop(fs: seq<KeyFrame>, firstStop: nat) returns (r: seq<KeyFrame>)
    requires HasStop(fs) && firstStop == FirstStopFrom(fs, 0)
    ensures |r| == |fs|
    ensures forall j {:trigger r[j]} :: 0 <= j < |fs| ==> r[j] == fs[j].(distUntilStop := DistUntilStopOf(fs, j))
  {
    var n := |fs|;
    r := fs;
    var tmpDist := 0.0;
    var i: nat := n;
    assert Wrap(n + firstStop, n) == firstStop;
    while i > 0
      invariant UntilScanned(fs, firstStop, i, r, tmpDist)
    {
      i := i - 1;
      var j := CyclicIndex(i, firstStop, n);
      var s := CyclicIndex(j, 1, n);
      ghost var r0, tmp0 := r, tmpDist;
      tmpDist := tmpDist + r[s].distFromPrev;
      r := r[j := r[j].(distUntilStop := tmpDist)];
      if r[j].IsStopFrame() {
        tmpDist := 0.0;
      }
      UntilScanStep(fs, firstStop, i, j, s, r0, tmp0, r, tmpDist);
    }
  }

  /** The TimeTo assignment; the kinematic formulas are supplied as a function of DistSinceStop and DistUntilStop. */
  method FillTimeTo(fs: seq<KeyFrame>, kinematics: (real, real) -> real) returns (r: seq<KeyFrame>)
    ensures |r| == |fs|
    ensures forall j {:trigger r[j]} :: 0 <= j < |fs| ==>
      r[j] == fs[j].(timeTo := kinematics(fs[j].distSinceStop, fs[j].distUntilStop))
  {
    r := fs;
    var i := 0;
    while i < |fs|
      invariant 0 <= i <= |fs| && |r| == |fs|
      invariant forall j {:trigger r[j]} :: 0 <= j < |fs| ==>
        r[j] == if j < i then fs[j].(timeTo := kinematics(fs[j].distSinceStop, fs[j].distUntilStop)) else fs[j]
    {
      r := r[i := r[i].(timeTo := kinematics(r[i].distSinceStop, r[i].distUntilStop))];
      i := i + 1;
    }
  }

  /** The TimeFrom scan after i steps from the last stop; segmentTime is the TimeTo of the stop last passed. */
  ghost predicate TimeFromScanned(fs: seq<KeyFrame>, lastStop: nat, i: nat, r: seq<KeyFrame>, segmentTime: real)
    requires HasStop(fs) && lastStop < |fs|
  {
    var n := |fs|;
    && i <= n && |r| == n
    && (forall p {:trigger r[p]} :: 0 <= p < n ==>
          r[p] == if Offset(p, lastStop, n) < i then fs[p].(timeFrom := TimeFromOf(fs, p)) else fs[p])
    && (i > 0 ==> segmentTime == fs[PrevStop(fs, Wrap(lastStop + i - 1, n))].timeTo)
  }

  lemma TimeFromScanStep(fs: seq<KeyFrame>, lastStop: nat, i: nat, j: nat,
                         r: seq<KeyFrame>, segmentTime: real, r': seq<KeyFrame>, segmentTime': real)
    requires HasStop(fs) && lastStop == LastStopBelow(fs, |fs|) && i < |fs| && j == Wrap(i + lastStop, |fs|)
    requires TimeFromScanned(fs, lastStop, i, r, segmentTime)
    requires segmentTime' == if r[j].IsStopFrame() then r[j].timeTo else segmentTime
    requires r' == r[j := r[j].(timeFrom := segmentTime' - r[j].timeTo)]
    ensures TimeFromScanned(fs, lastStop, i + 1, r', segmentTime')
  {
    var n := |fs|;
    assert Offset(j, lastStop, n) == i;
    assert r[j] == fs[j];
    if fs[j].IsStopFrame() {
      assert LastStopBelow(fs, j + 1) == j;
      assert segmentTime' == fs[PrevStop(fs, j)].timeTo;
    } else {
      PrevStopStep(fs, j);
      assert i > 0;
      assert Wrap(lastStop + i - 1, n) == if j == 0 then n - 1 else j - 1;
      assert segmentTime' == fs[PrevStop(fs, j)].timeTo;
    }
    assert r'[j] == fs[j].(timeFrom := TimeFromOf(fs, j));
    forall p | 0 <= p < n && p != j
      ensures r'[p] == if Offset(p, lastStop, n) < i + 1 then fs[p].(timeFrom := TimeFromOf(fs, p)) else fs[p]
    {
      assert r'[p] == r[p];
      assert Offset(p, lastStop, n) != i;
    }
  }

  /** The TimeFrom scan: forwards around the loop from the last stop, remembering the last stop's TimeTo. */
  method FillTimeFrom(fs: seq<KeyFrame>, lastStop: nat) returns (r: seq<KeyFrame>)
    requires HasStop(fs) && lastStop == LastStopBelow(fs, |fs|)
    ensures |r| == |fs|
    ensures forall j {:trigger r[j]} :: 0 <= j < |fs| ==> r[j] == fs[j].(timeFrom := TimeFromOf(fs, j))
  {
    var n := |fs|;
    r := fs;
    var segmentTime := 0.0;
    var i := 0;
    while i < n
      invariant TimeFromScanned(fs, lastStop, i, r, segmentTime)
    {
      ghost var r0, seg0 := r, segmentTime;
      var j := CyclicIndex(i, lastStop, n);
      if r[j].IsStopFrame() {
        segmentTime := r[j].timeTo;
      }
      r := r[j := r[j].(timeFrom := segmentTime - r[j].timeTo)];
      TimeFromScanStep(fs, lastStop, i, j, r0, seg0, r, segmentTime);
      i := i + 1;
    }
  }

  /** Two frame sequences over the same nodes: the same stops, in the same places. */
  predicate SameNodes(a: seq<KeyFrame>, b: seq<KeyFrame>) {
    |a| == |b| && forall k {:trigger b[k]} :: 0 <= k < |a| ==> a[k].node == b[k].node
  }

  /** The same nodes and the same DistFromPrev values: every distance above agrees. */
  predicate SameTrack(a: seq<KeyFrame>, b: seq<KeyFrame>) {
    SameNodes(a, b) && forall k {:trigger b[k]} :: 0 <= k < |a| ==> a[k].distFromPrev == b[k].distFromPrev
  }

  lemma {:induction false} FirstStopAgrees(a: seq<KeyFrame>, b: seq<KeyFrame>, k: nat)
    requires SameNodes(a, b) && k <= |a|
    ensures FirstStopFrom(a, k) == FirstStopFrom(b, k)
    decreases |a| - k
  {
    if k < |a| {
      FirstStopAgrees(a, b, k + 1);
    }
  }

  lemma {:induction false} LastStopAgrees(a: seq<KeyFrame>, b: seq<KeyFrame>, k: nat)
    requires SameNodes(a, b) && k <= |a|
    ensures LastStopBelow(a, k) == LastStopBelow(b, k)
    decreases k
  {
    if k > 0 {
      LastStopAgrees(a, b, k - 1);
    }
  }

  lemma StopsAgree(a: seq<KeyFrame>, b: seq<KeyFrame>)
    requires SameNodes(a, b)
    ensures HasStop(a) == HasStop(b)
    ensures FirstStopFrom(a, 0) == FirstStopFrom(b, 0)
    ensures LastStopBelow(a, |a|) == LastStopBelow(b, |b|)
    ensures HasStop(a) ==> forall j :: 0 <= j < |a| ==> PrevStop(a, j) == PrevStop(b, j) && NextStop(a, j) == NextStop(b, j)
  {
    FirstStopAgrees(a, b, 0);
    LastStopAgrees(a, b, |a|);
    if HasStop(a) {
      forall j | 0 <= j < |a|
        ensures PrevStop(a, j) == PrevStop(b, j) && NextStop(a, j) == NextStop(b, j)
      {
        NeighbourStopsAgree(a, b, j);
      }
    }
  }

  lemma NeighbourStopsAgree(a: seq<KeyFrame>, b: seq<KeyFrame>, j: nat)
    requires SameNodes(a, b) && HasStop(a) && HasStop(b) && j < |a|
    requires FirstStopFrom(a, 0) == FirstStopFrom(b, 0) && LastStopBelow(a, |a|) == LastStopBelow(b, |b|)
    ensures PrevStop(a, j) == PrevStop(b, j) && NextStop(a, j) == NextStop(b, j)
  {
    PrevStopAgrees(a, b, j);
    NextStopAgrees(a, b, j);
  }

  lemma PrevStopAgrees(a: seq<KeyFrame>, b: seq<KeyFrame>, j: nat)
    requires SameNodes(a, b) && HasStop(a) && HasStop(b) && j < |a|
    requires LastStopBelow(a, |a|) == LastStopBelow(b, |b|)
    ensures PrevStop(a, j) == PrevStop(b, j)
  {
    LastStopAgrees(a, b, j + 1);
  }

  lemma NextStopAgrees(a: seq<KeyFrame>, b: seq<KeyFrame>, j: nat)
    requires SameNodes(a, b) && HasStop(a) && HasStop(b) && j < |a|
    requires FirstStopFrom(a, 0) == FirstStopFrom(b, 0)
    ensures NextStop(a, j) == NextStop(b, j)
  {
    FirstStopAgrees(a, b, j + 1);
  }

  lemma {:induction false} DistAgrees(a: seq<KeyFrame>, b: seq<KeyFrame>, x: nat, y: nat)
    requires SameTrack(a, b) && x <= y <= |a|
    ensures Dist(a, x, y) == Dist(b, x, y)
    decreases y
  {
    if x < y {
      DistAgrees(a, b, x, y - 1);
    }
  }

  /** DistSinceStop depends only on the nodes and the DistFromPrev values. */
  lemma SinceAgrees(a: seq<KeyFrame>, b: seq<KeyFrame>, j: nat)
    requires SameTrack(a, b) && HasStop(a) && j < |a|
    ensures HasStop(b) && DistSinceStopOf(a, j) == DistSinceStopOf(b, j)
  {
    StopsAgree(a, b);
    var p := PrevStop(a, j);
    if p < j {
      DistAgrees(a, b, p + 1, j + 1);
    } else {
      DistAgrees(a, b, p + 1, |a|);
      DistAgrees(a, b, 0, j + 1);
    }
  }

  /** DistUntilStop depends only on the nodes and the DistFromPrev values. */
  lemma UntilAgrees(a: seq<KeyFrame>, b: seq<KeyFrame>, j: nat)
    requires SameTrack(a, b) && HasStop(a) && j < |a|
    ensures HasStop(b) && DistUntilStopOf(a, j) == DistUntilStopOf(b, j)
  {
    StopsAgree(a, b);
    var q := NextStop(a, j);
    if j < q {
      DistAgrees(a, b, j + 1, q + 1);
    } else {
      DistAgrees(a, b, j + 1, |a|);
      DistAgrees(a, b, 0, q + 1);
    }
  }

  /** TimeFrom depends only on the nodes and the TimeTo values. */
  lemma TimeFromAgrees(a: seq<KeyFrame>, b: seq<KeyFrame>, j: nat)
    requires SameNodes(a, b) && HasStop(a) && j < |a|
    requires forall k {:trigger b[k]} :: 0 <= k < |a| ==> a[k].timeTo == b[k].timeTo
    ensures HasStop(b) && TimeFromOf(a, j) == TimeFromOf(b, j)
  {
    StopsAgree(a, b);
  }

  /** A distance sum splits at any frame in between. */
  lemma {:induction false} DistSplit(fs: seq<KeyFrame>, a: nat, b: nat, c: nat)
    requires a <= b <= c <= |fs|
    ensures Dist(fs, a, b) + Dist(fs, b, c) == Dist(fs, a, c)
    decreases c
  {
    if b < c {
      DistSplit(fs, a, b, c - 1);
    }
  }

  /**
   * Away from a stop, the distance since the previous stop and the distance
   * to the next stop add up to the length of the stretch between the two
   * stops: a full loop when they are the same stop.
   */
  lemma SegmentLength(fs: seq<KeyFrame>, j: nat)
    requires HasStop(fs) && j < |fs| && !fs[j].IsStopFrame()
    ensures DistSinceStopOf(fs, j) + DistUntilStopOf(fs, j) == CyclicDist(fs, PrevStop(fs, j), NextStop(fs, j))
  {
    var n, p, q := |fs|, PrevStop(fs, j), NextStop(fs, j);
    if p < j && j < q {
      DistSplit(fs, p + 1, j + 1, q + 1);
    } else if p < j {
      assert q <= p;
      DistSplit(fs, p + 1, j + 1, n);
    } else if j < q {
      assert q <= p;
      DistSplit(fs, 0, j + 1, q + 1);
    } else {
      assert false;
    }
  }
}
