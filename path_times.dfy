/**
 * The last phase of path generation: accumulating arrival (PathTime) and
 * departure (DepartureTime) times along the frames, in milliseconds.
 * The running time in seconds is specified by the pair of functions
 * ArriveSec / DepartSec; the stored values are their truncation to whole
 * milliseconds.
 */
module PathTimes {
  import opened TransportTypes
  import opened StopScans

  /** Milliseconds per second (IN_MILLISECONDS). */
  const InMilliseconds: real := 1000.0

  /** A time in seconds converted to whole milliseconds, truncating toward zero as a float-to-integer cast does. */
  function Ms(t: real): (ms: int)
    ensures t >= 0.0 ==> 0 <= ms && ms as real <= t * InMilliseconds < ms as real + 1.0
    ensures t < 0.0 ==> ms <= 0 && ms as real - 1.0 < t * InMilliseconds <= ms as real
  {
    if t >= 0.0 then (t * InMilliseconds).Floor else -((-t * InMilliseconds).Floor)
  }

  lemma MsZero()
    ensures Ms(0.0) == 0
  {
  }

  /** Truncation keeps the order of times. */
  lemma MsMonotone(a: real, b: real)
    requires a <= b
    ensures Ms(a) <= Ms(b)
  {
    if a >= 0.0 {
      assert a * InMilliseconds <= b * InMilliseconds;
    } else if b < 0.0 {
      assert -b * InMilliseconds <= -a * InMilliseconds;
    } else {
      assert Ms(a) <= 0;
    }
  }

  /** The time in seconds at which frame i is reached: frame 0 at 0, otherwise the previous departure plus the travel time. */
  function ArriveSec(fs: seq<KeyFrame>, i: nat): real
    requires i < |fs|
    decreases i, 1
  {
    if i == 0 then 0.0
    else
      var reached := DepartSec(fs, i - 1) + fs[i - 1].timeTo;
      if fs[i].IsStopFrame() then reached else reached - fs[i].timeTo
  }

  /** The time in seconds at which frame i is left: a stop waits for its node's delay. */
  function DepartSec(fs: seq<KeyFrame>, i: nat): real
    requires i < |fs|
    decreases i, 2
  {
    ArriveSec(fs, i) + (if fs[i].IsStopFrame() then fs[i].node.delay as real else 0.0)
  }

  /** Frame k with its times written; a non-stop frame 0 keeps its departure time. */
  function Timed(fs: seq<KeyFrame>, k: nat): (t: KeyFrame)
    requires k < |fs|
    ensures t.node == fs[k].node && t.teleport == fs[k].teleport && t.timeTo == fs[k].timeTo
  {
    fs[k].(pathTime := Ms(ArriveSec(fs, k)),
           departureTime := if k == 0 && !fs[0].IsStopFrame() then fs[0].departureTime else Ms(DepartSec(fs, k)))
  }

  /**
   * Frame i >= 1 is reached at the departure from the last stop before it
   * (frame 0 when there is none) plus that frame's TimeTo, less frame i's
   * own TimeTo when frame i is not a stop.
   */
  lemma {:induction false} ReachedFromLastStop(fs: seq<KeyFrame>, i: nat)
    requires 1 <= i < |fs|
    ensures var s := LastStopBelow(fs, i);
            var b := if s < 0 then 0 else s;
            DepartSec(fs, i - 1) + fs[i - 1].timeTo == DepartSec(fs, b) + fs[b].timeTo
    decreases i
  {
    if i - 1 == 0 || fs[i - 1].IsStopFrame() {
    } else {
      ReachedFromLastStop(fs, i - 1);
      assert LastStopBelow(fs, i) == LastStopBelow(fs, i - 1);
    }
  }

  /** A non-stop frame after a stop is reached TimeFrom seconds after that stop is left. */
  lemma ArriveAfterStop(fs: seq<KeyFrame>, i: nat)
    requires HasStop(fs) && 1 <= i < |fs| && !fs[i].IsStopFrame() && LastStopBelow(fs, i) >= 0
    ensures ArriveSec(fs, i) == DepartSec(fs, PrevStop(fs, i)) + TimeFromOf(fs, i)
  {
    ReachedFromLastStop(fs, i);
    assert LastStopBelow(fs, i + 1) == LastStopBelow(fs, i);
  }

  /** Travel times are non-negative and shrink towards each stop, and delays are non-negative by type. */
  predicate Steady(fs: seq<KeyFrame>)
  {
    && (forall i :: 0 <= i < |fs| ==> fs[i].timeTo >= 0.0)
    && (forall i :: 1 <= i < |fs| && !fs[i].IsStopFrame() ==> fs[i].timeTo <= fs[i - 1].timeTo)
  }

  lemma ArriveAfterPrevious(fs: seq<KeyFrame>, i: nat)
    requires Steady(fs) && 1 <= i < |fs|
    ensures DepartSec(fs, i - 1) <= ArriveSec(fs, i) <= DepartSec(fs, i)
  {
  }

  /** On steady frames the timeline never runs backwards: every later arrival is no earlier than every earlier departure. */
  lemma {:induction false} TimelineMonotone(fs: seq<KeyFrame>, k: nat, m: nat)
    requires Steady(fs) && k < m < |fs|
    ensures DepartSec(fs, k) <= ArriveSec(fs, m)
    decreases m - k
  {
    ArriveAfterPrevious(fs, m);
    if k < m - 1 {
      TimelineMonotone(fs, k, m - 1);
      ArriveAfterPrevious(fs, m - 1);
    }
  }

  /** The same in stored milliseconds. */
  lemma TimelineMonotoneMs(fs: seq<KeyFrame>, k: nat, m: nat)
    requires Steady(fs) && k < m < |fs|
    ensures (k > 0 || fs[0].IsStopFrame()) ==> Timed(fs, k).departureTime <= Timed(fs, m).pathTime
  {
    TimelineMonotone(fs, k, m);
    MsMonotone(DepartSec(fs, k), ArriveSec(fs, m));
  }

  /**
   * The path-time pass: frame 0 arrives at 0; afterwards each frame is
   * reached after the previous frame's TimeTo, a stop then waits for its
   * delay, and a non-stop frame subtracts its own TimeTo and departs when it
   * arrives.
   */
  method FillPathTimes(fs: seq<KeyFrame>) returns (r: seq<KeyFrame>)
    requires |fs| >= 1
    ensures |r| == |fs|
    ensures forall k {:trigger r[k]} :: 0 <= k < |fs| ==> r[k] == Timed(fs, k)
    ensures r[0].pathTime == 0
    ensures forall k {:trigger r[k]} :: 1 <= k < |fs| && !fs[k].IsStopFrame() ==> r[k].departureTime == r[k].pathTime
    ensures forall k {:trigger r[k]} :: 0 <= k < |fs| && fs[k].IsStopFrame() ==> r[k].departureTime >= r[k].pathTime
  {
    r := fs;
    r := r[0 := r[0].(pathTime := 0)];
    var curPathTime := 0.0;
    if r[0].IsStopFrame() {
      curPathTime := r[0].node.delay as real;
      r := r[0 := r[0].(departureTime := Ms(curPathTime))];
    }
    MsZero();
    var i := 1;
    while i < |r|
      invariant 1 <= i <= |r| == |fs|
      invariant curPathTime == DepartSec(fs, i - 1)
      invariant forall k {:trigger r[k]} :: 0 <= k < i ==> r[k] == Timed(fs, k)
      invariant forall k {:trigger r[k]} :: i <= k < |r| ==> r[k] == fs[k]
    {
      curPathTime := curPathTime + r[i - 1].timeTo;
      if r[i].IsStopFrame() {
        r := r[i := r[i].(pathTime := Ms(curPathTime))];
        curPathTime := curPathTime + r[i].node.delay as real;
        r := r[i := r[i].(departureTime := Ms(curPathTime))];
      } else {
        curPathTime := curPathTime - r[i].timeTo;
        r := r[i := r[i].(pathTime := Ms(curPathTime))];
        r := r[i := r[i].(departureTime := r[i].pathTime)];
      }
      i := i + 1;
    }
    forall k | 0 <= k < |fs| && fs[k].IsStopFrame()
      ensures r[k].departureTime >= r[k].pathTime
    {
      MsMonotone(ArriveSec(fs, k), DepartSec(fs, k));
    }
  }

  /** Arrival and departure times depend only on the nodes and the TimeTo values. */
  lemma {:induction false} TimesAgree(a: seq<KeyFrame>, b: seq<KeyFrame>, i: nat)
    requires SameNodes(a, b) && i < |a|
    requires forall k {:trigger b[k]} :: 0 <= k < |a| ==> a[k].timeTo == b[k].timeTo
    ensures ArriveSec(a, i) == ArriveSec(b, i) && DepartSec(a, i) == DepartSec(b, i)
    decreases i
  {
    if i > 0 {
      TimesAgree(a, b, i - 1);
    }
  }
}
