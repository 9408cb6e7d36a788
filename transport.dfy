/**
 * A moving transport: the frame cursor that follows its template's key
 * frames as the movement timer advances, the events it fires on arrival and
 * departure, the map it is on, and its passenger registry.
 *
 * The frame loop of one update is specified by the function Settle over a
 * Cursor value; the class Transport runs the loop in place and is proved to
 * end where Settle says.
 */
module Transports {
  import opened TransportTypes
  import opened PathFilter
  import opened StopScans
  import opened TransportMgr

  /** Unsigned 32-bit arithmetic wraps modulo 2^32. */
  const UInt32Modulus: nat := 0x1_0000_0000

  /** The part of a transport's state that the frame loop reads and writes. */
  datatype Cursor = Cursor(current: nat, next: nat, moving: bool, mapId: int, events: seq<nat>)

  /** A usable cursor over n frames: next is the frame after current, wrapping to 0. */
  predicate CursorOk(n: nat, c: Cursor) {
    n >= 2 && c.current < n && c.next == Succ(n, c.current)
  }

  /** The frame after frame i of n, wrapping past the end to frame 0. */
  function Succ(n: nat, i: nat): (j: nat)
    requires i < n
    ensures j < n
  {
    Wrap(i + 1, n)
  }

  /** One waypoint step: the old next frame becomes current and next moves on, wrapping past the end to frame 0. */
  function Step(n: nat, c: Cursor): (d: Cursor)
    requires c.next < n
    ensures d.current == c.next && d.next == Succ(n, c.next)
    ensures d.moving == c.moving && d.mapId == c.mapId && d.events == c.events
  {
    c.(current := c.next, next := Succ(n, c.next))
  }

  /** Succ is the source's (i + 1) mod n on indices below n. */
  lemma SuccIsModulo(n: nat, i: nat)
    requires i < n
    ensures Succ(n, i) == (i + 1) % n
  {
  }

  lemma StepKeepsCursorOk(n: nat, c: Cursor)
    requires CursorOk(n, c)
    ensures CursorOk(n, Step(n, c))
    ensures Step(n, c).current == Succ(n, c.current)
  {
  }

  /** The event a frame fires on departure or on arrival, if its node has one (event id 0 means none). */
  function EventIds(frame: KeyFrame, departure: bool): (ids: seq<nat>)
    ensures |ids| <= 1
    ensures ids == [] <==> (if departure then frame.node.departureEventId else frame.node.arrivalEventId) == 0
    ensures ids != [] ==> ids[0] == if departure then frame.node.departureEventId else frame.node.arrivalEventId
  {
    var id := if departure then frame.node.departureEventId else frame.node.arrivalEventId;
    if id != 0 then [id] else []
  }

  /**
   * One advance of the frame loop: step to the next waypoint, start moving,
   * fire the new current frame's departure event and, at a teleport frame,
   * move to the next frame's map and step once more.
   */
  function Advance(frames: seq<KeyFrame>, c: Cursor): (d: Cursor)
    requires CursorOk(|frames|, c)
    ensures CursorOk(|frames|, d)
  {
    var n := |frames|;
    var s := Step(n, c).(moving := true);
    var s := s.(events := s.events + EventIds(frames[s.current], true));
    if frames[s.current].IsTeleportFrame() then Step(n, s.(mapId := frames[s.next].node.mapId)) else s
  }

  lemma AdvanceSpec(frames: seq<KeyFrame>, c: Cursor)
    requires CursorOk(|frames|, c)
    ensures var n, d, first := |frames|, Advance(frames, c), Succ(|frames|, c.current);
      && CursorOk(n, d)
      && d.moving
      && d.events == c.events + EventIds(frames[first], true)
      && (frames[first].IsTeleportFrame() ==>
            d.current == Succ(n, first) && d.mapId == frames[Succ(n, first)].node.mapId)
      && (!frames[first].IsTeleportFrame() ==> d.current == first && d.mapId == c.mapId)
  {
    StepKeepsCursorOk(|frames|, c);
    var s := Step(|frames|, c).(moving := true);
    StepKeepsCursorOk(|frames|, s);
  }

  /** How one update's frame loop ends. */
  datatype Outcome =
    | Settled       // the timer lies between the current departure and the next arrival
    | Paused        // the loop stopped short of a stop frame whose departure is still ahead
    | Exhausted     // the advance budget ran out first
    | AssertFailed  // an advance left next at frame 0, which the loop asserts never happens

  /** The loop condition: the timer lies outside the current segment. */
  predicate OffSegment(frames: seq<KeyFrame>, timer: int, c: Cursor)
    requires c.current < |frames| && c.next < |frames|
  {
    timer > frames[c.next].pathTime || timer < frames[c.current].departureTime
  }

  /** The break condition: the next frame lies before the end of the path and its departure is still ahead. */
  predicate WaitingAtNext(frames: seq<KeyFrame>, templatePathTime: int, timer: int, c: Cursor)
    requires c.next < |frames|
  {
    templatePathTime > frames[c.next].pathTime && timer < frames[c.next].departureTime
  }

  /** Where one update's frame loop leaves the cursor, with at most fuel advances. */
  function Settle(frames: seq<KeyFrame>, templatePathTime: int, timer: int, c: Cursor, fuel: nat): (Cursor, Outcome)
    requires CursorOk(|frames|, c)
    decreases fuel
  {
    if !OffSegment(frames, timer, c) then (c, Settled)
    else if WaitingAtNext(frames, templatePathTime, timer, c) then
      var stopped := if c.moving then c.(moving := false, events := c.events + EventIds(frames[c.current], false)) else c;
      (stopped, Paused)
    else if fuel == 0 then (c, Exhausted)
    else
      var d := Advance(frames, c);
      if d.next == 0 then (d, AssertFailed)
      else Settle(frames, templatePathTime, timer, d, fuel - 1)
  }

  /** The loop keeps the cursor usable and only ever appends events. */
  lemma {:induction false} SettleKeepsCursor(frames: seq<KeyFrame>, templatePathTime: int, timer: int, c: Cursor, fuel: nat)
    requires CursorOk(|frames|, c)
    ensures var (d, _) := Settle(frames, templatePathTime, timer, c, fuel);
      CursorOk(|frames|, d) && c.events <= d.events
    decreases fuel
  {
    if OffSegment(frames, timer, c) && !WaitingAtNext(frames, templatePathTime, timer, c) && fuel > 0 {
      AdvanceSpec(frames, c);
      var d := Advance(frames, c);
      if d.next != 0 {
        SettleKeepsCursor(frames, templatePathTime, timer, d, fuel - 1);
      }
    }
  }

  /**
   * Each way the loop ends: settled inside the current segment; paused,
   * not moving, with the break condition true and the arrival event fired
   * when the transport was moving; or, for the other two, with the loop
   * condition still true.
   */
  lemma {:induction false} SettleOutcome(frames: seq<KeyFrame>, templatePathTime: int, timer: int, c: Cursor, fuel: nat)
    requires CursorOk(|frames|, c)
    ensures var (d, o) := Settle(frames, templatePathTime, timer, c, fuel);
      CursorOk(|frames|, d)
      && (o == Settled ==> frames[d.current].departureTime <= timer <= frames[d.next].pathTime)
      && (o == Paused ==> !d.moving && OffSegment(frames, timer, d) && WaitingAtNext(frames, templatePathTime, timer, d))
      && (o == Exhausted ==> OffSegment(frames, timer, d) && !WaitingAtNext(frames, templatePathTime, timer, d))
      && (o == AssertFailed ==> d.next == 0)
    decreases fuel
  {
    if OffSegment(frames, timer, c) && !WaitingAtNext(frames, templatePathTime, timer, c) && fuel > 0 {
      AdvanceSpec(frames, c);
      var d := Advance(frames, c);
      if d.next != 0 {
        SettleOutcome(frames, templatePathTime, timer, d, fuel - 1);
      }
    }
  }

  /** A pause fires the current frame's arrival event exactly when the transport was moving. */
  lemma PauseArrival(frames: seq<KeyFrame>, templatePathTime: int, timer: int, c: Cursor, fuel: nat)
    requires CursorOk(|frames|, c)
    requires OffSegment(frames, timer, c) && WaitingAtNext(frames, templatePathTime, timer, c)
    ensures var (d, o) := Settle(frames, templatePathTime, timer, c, fuel);
      o == Paused && d.current == c.current && d.next == c.next && !d.moving
      && d.events == c.events + (if c.moving then EventIds(frames[c.current], false) else [])
  {
  }

  /** The budget only bounds the loop: once it suffices, more of it changes nothing. */
  lemma {:induction false} SettleFuelIrrelevant(frames: seq<KeyFrame>, templatePathTime: int, timer: int, c: Cursor,
                                                fuel: nat, more: nat)
    requires CursorOk(|frames|, c) && fuel <= more
    requires Settle(frames, templatePathTime, timer, c, fuel).1 != Exhausted
    ensures Settle(frames, templatePathTime, timer, c, more) == Settle(frames, templatePathTime, timer, c, fuel)
    decreases fuel
  {
    if OffSegment(frames, timer, c) && !WaitingAtNext(frames, templatePathTime, timer, c) {
      AdvanceSpec(frames, c);
      var d := Advance(frames, c);
      if d.next != 0 {
        SettleFuelIrrelevant(frames, templatePathTime, timer, d, fuel - 1, more - 1);
      }
    }
  }

  /** The frame layout path generation produces: the last frame teleports, the one before it does not. */
  predicate ClosesWithTeleport(frames: seq<KeyFrame>) {
    |frames| >= 2 && frames[|frames| - 1].IsTeleportFrame() && !frames[|frames| - 2].IsTeleportFrame()
  }

  /**
   * An advance leaves next at frame 0 exactly when it lands on the last
   * frame without teleporting, or teleports from the frame before the last.
   */
  lemma AdvanceReachesBegin(frames: seq<KeyFrame>, c: Cursor)
    requires CursorOk(|frames|, c)
    ensures var f := Succ(|frames|, c.current);
      Advance(frames, c).next == 0 <==>
        if frames[f].IsTeleportFrame() then f == |frames| - 2 else f == |frames| - 1
  {
  }

  /** Path generation always marks the last frame as a teleport frame. */
  lemma GeneratedFramesEndWithTeleport(path: seq<PathNode>, fs: seq<KeyFrame>, arcLength: nat -> real)
    requires |path| >= 3 && LaidOut(path, fs, arcLength)
    ensures fs[|fs| - 1].IsTeleportFrame()
  {
    var idx := KeptBelow(path, |path| - 1);
    assert fs[|idx| - 1].node == path[idx[|idx| - 1]];
  }

  lemma {:induction false} SettleNeverAsserts(frames: seq<KeyFrame>, templatePathTime: int, timer: int, c: Cursor, fuel: nat)
    requires CursorOk(|frames|, c) && ClosesWithTeleport(frames)
    ensures Settle(frames, templatePathTime, timer, c, fuel).1 != AssertFailed
    decreases fuel
  {
    if OffSegment(frames, timer, c) && !WaitingAtNext(frames, templatePathTime, timer, c) && fuel > 0 {
      AdvanceSpec(frames, c);
      AdvanceReachesBegin(frames, c);
      SettleNeverAsserts(frames, templatePathTime, timer, Advance(frames, c), fuel - 1);
    }
  }

  /** The passengers whose positions an update recalculates: those on the transport's map that do not ride a vehicle. */
  function SyncSelection(passengers: set<nat>, mapId: int, mapOf: nat -> int, onVehicle: nat -> bool): (r: set<nat>)
    ensures r <= passengers
    ensures forall p :: p in r <==> p in passengers && mapOf(p) == mapId && !onVehicle(p)
  {
    set p | p in passengers && mapOf(p) == mapId && !onVehicle(p)
  }

  /** Boarding and leaving change the selection by that passenger alone. */
  lemma SyncSelectionOfBoarding(passengers: set<nat>, p: nat, mapId: int, mapOf: nat -> int, onVehicle: nat -> bool)
    ensures SyncSelection(passengers + {p}, mapId, mapOf, onVehicle)
      == SyncSelection(passengers, mapId, mapOf, onVehicle) + (if mapOf(p) == mapId && !onVehicle(p) then {p} else {})
    ensures SyncSelection(passengers - {p}, mapId, mapOf, onVehicle)
      == SyncSelection(passengers, mapId, mapOf, onVehicle) - {p}
  {
  }

  /** The movement timer after an update of diff milliseconds: a 32-bit add, then reduced modulo the period. */
  function NextTimer(timer: nat, diff: nat, period: nat): (t: nat)
    requires period > 0
    ensures t < period
    ensures timer + diff < UInt32Modulus ==> t == (timer + diff) % period
  {
    ((timer + diff) % UInt32Modulus) % period
  }

  class Transport {
    /** The template this transport follows. */
    const info: TransportTemplate
    /** The period in milliseconds (stored in the game object's level field). */
    var period: nat
    var moveTimer: nat
    var currentFrame: nat
    var nextFrame: nat
    var isMoving: bool
    /** The id of the map the transport is on. */
    var mapId: int
    /** The ids of the events fired so far, oldest first. */
    var events: seq<nat>
    var passengers: set<nat>

    ghost predicate Valid()
      reads this
    {
      && |info.keyFrames| >= 1
      && period < UInt32Modulus && moveTimer < UInt32Modulus
      && (|info.keyFrames| == 1 ==> currentFrame == 0 && nextFrame == 1)
      && (|info.keyFrames| >= 2 ==> CursorOk(|info.keyFrames|, State()))
    }

    function State(): Cursor
      reads this
    {
      Cursor(currentFrame, nextFrame, isMoving, mapId, events)
    }

    /**
     * A transport at its template's first frame with the next frame after it
     * and the template's path time as period. The movement timer and the
     * moving flag are whatever the caller supplies.
     */
    constructor (info: TransportTemplate, mapId: int, moveTimer: nat, isMoving: bool)
      requires |info.keyFrames| >= 1 && 0 <= info.pathTime < UInt32Modulus && moveTimer < UInt32Modulus
      ensures Valid()
      ensures this.info == info && period == info.pathTime && currentFrame == 0 && nextFrame == 1
      ensures this.mapId == mapId && this.moveTimer == moveTimer && this.isMoving == isMoving
      ensures events == [] && passengers == {}
    {
      this.info := info;
      this.mapId := mapId;
      this.moveTimer := moveTimer;
      this.isMoving := isMoving;
      currentFrame := 0;
      nextFrame := 1;
      period := info.pathTime;
      events := [];
      passengers := {};
    }

    function GetPeriod(): nat
      reads this
    {
      period
    }

    method SetPeriod(p: nat)
      requires p < UInt32Modulus && Valid()
      modifies this
      ensures Valid() && period == p && GetPeriod() == p
      ensures moveTimer == old(moveTimer) && State() == old(State()) && passengers == old(passengers)
    {
      period := p;
    }

    function GetTimer(): nat
      reads this
    {
      moveTimer
    }

    function IsMoving(): bool
      reads this
    {
      isMoving
    }

    method SetMoving(v: bool)
      modifies this
      ensures isMoving == v && IsMoving() == v
      ensures period == old(period) && moveTimer == old(moveTimer) && passengers == old(passengers)
      ensures State() == old(State()).(moving := v)
    {
      isMoving := v;
    }

    function GetKeyFrames(): seq<KeyFrame>
    {
      info.keyFrames
    }

    function GetPassengers(): set<nat>
      reads this
    {
      passengers
    }

    method MoveToNextWayPoint()
      requires Valid() && |info.keyFrames| >= 2
      modifies this
      ensures Valid()
      ensures State() == Step(|info.keyFrames|, old(State()))
      ensures period == old(period) && moveTimer == old(moveTimer) && passengers == old(passengers)
    {
      currentFrame := nextFrame;
      nextFrame := nextFrame + 1;
      if nextFrame == |info.keyFrames| {
        nextFrame := 0;
      }
    }

    /** The map change of a teleport frame, followed by one more waypoint step. */
    method TeleportTransport(newMapId: int)
      requires Valid() && |info.keyFrames| >= 2
      modifies this
      ensures Valid()
      ensures State() == Step(|info.keyFrames|, old(State()).(mapId := newMapId))
      ensures period == old(period) && moveTimer == old(moveTimer) && passengers == old(passengers)
    {
      mapId := newMapId;
      MoveToNextWayPoint();
    }

    method DoEventIfAny(frame: KeyFrame, departure: bool)
      modifies this
      ensures events == old(events) + EventIds(frame, departure)
      ensures State() == old(State()).(events := events)
      ensures period == old(period) && moveTimer == old(moveTimer) && passengers == old(passengers)
    {
      var id := if departure then frame.node.departureEventId else frame.node.arrivalEventId;
      if id != 0 {
        events := events + [id];
      }
    }

    method AddPassenger(p: nat)
      modifies this
      ensures passengers == old(passengers) + {p}
      ensures period == old(period) && moveTimer == old(moveTimer) && State() == old(State())
    {
      passengers := passengers + {p};
    }

    method RemovePassenger(p: nat)
      modifies this
      ensures passengers == old(passengers) - {p}
      ensures period == old(period) && moveTimer == old(moveTimer) && State() == old(State())
    {
      passengers := passengers - {p};
    }

    /** Arrival at a stop: a moving transport stops and fires the current frame's arrival event. */
    method Pause()
      requires Valid()
      modifies this
      ensures Valid() && period == old(period) && moveTimer == old(moveTimer) && passengers == old(passengers)
      ensures State() == if old(isMoving)
                         then old(State()).(moving := false, events := old(events) + EventIds(info.keyFrames[old(currentFrame)], false))
                         else old(State())
    {
      if IsMoving() {
        SetMoving(false);
        DoEventIfAny(info.keyFrames[currentFrame], false);
      }
    }

    /** One advance of the frame loop, as Advance says. */
    method AdvanceWaypoint()
      requires Valid() && |info.keyFrames| >= 2
      modifies this
      ensures Valid() && period == old(period) && moveTimer == old(moveTimer) && passengers == old(passengers)
      ensures State() == Advance(info.keyFrames, old(State()))
    {
      MoveToNextWayPoint();
      SetMoving(true);
      DoEventIfAny(info.keyFrames[currentFrame], true);
      if info.keyFrames[currentFrame].IsTeleportFrame() {
        TeleportTransport(info.keyFrames[nextFrame].node.mapId);
      }
    }

    /**
     * One update of diff milliseconds. With at most one key frame nothing
     * changes. Otherwise the timer wraps as a 32-bit value and is reduced
     * modulo the period, the frame loop runs as Settle says with at most fuel
     * advances, and when the loop ends normally with the transport moving the
     * passengers on its map and off vehicles are relocated.
     */
    method Update(diff: nat, fuel: nat, mapOf: nat -> int, onVehicle: nat -> bool)
      returns (outcome: Outcome, relocated: set<nat>)
      requires Valid() && diff < UInt32Modulus
      requires |info.keyFrames| >= 2 ==> period > 0
      modifies this
      ensures Valid() && period == old(period) && passengers == old(passengers)
      ensures |info.keyFrames| <= 1 ==>
        moveTimer == old(moveTimer) && State() == old(State()) && outcome == Settled && relocated == {}
      ensures |info.keyFrames| >= 2 ==>
        && moveTimer == NextTimer(old(moveTimer), diff, period)
        && (State(), outcome) == Settle(info.keyFrames, info.pathTime, moveTimer, old(State()), fuel)
      ensures |info.keyFrames| >= 2 ==>
        relocated == if isMoving && (outcome == Settled || outcome == Paused)
                     then SyncSelection(passengers, mapId, mapOf, onVehicle) else {}
    {
      var frames := info.keyFrames;
      if |frames| <= 1 {
        return Settled, {};
      }
      var n := |frames|;
      moveTimer := (moveTimer + diff) % UInt32Modulus;
      moveTimer := moveTimer % GetPeriod();
      ghost var start := State();
      var fuelLeft := fuel;
      outcome := Settled;
      while moveTimer > frames[nextFrame].pathTime || moveTimer < frames[currentFrame].departureTime
        invariant Valid() && period == old(period) && passengers == old(passengers)
        invariant moveTimer == NextTimer(old(moveTimer), diff, period)
        invariant Settle(frames, info.pathTime, moveTimer, State(), fuelLeft) == Settle(frames, info.pathTime, moveTimer, start, fuel)
        decreases fuelLeft
      {
        // arrived at a stop whose departure is still ahead
        if info.pathTime > frames[nextFrame].pathTime && moveTimer < frames[nextFrame].departureTime {
          Pause();
          outcome := Paused;
          break;
        }
        if fuelLeft == 0 {
          outcome := Exhausted;
          break;
        }
        AdvanceWaypoint();
        if nextFrame == 0 {
          outcome := AssertFailed;
          break;
        }
        fuelLeft := fuelLeft - 1;
      }
      relocated := {};
      if IsMoving() && (outcome == Settled || outcome == Paused) {
        relocated := SyncSelection(passengers, mapId, mapOf, onVehicle);
      }
    }
  }

  /**
   * Creating a transport for a game-object entry: nothing when the manager
   * holds no template for it, otherwise a transport at the start of that
   * template's path.
   */
  method Create(templates: map<nat, TransportTemplate>, entry: nat, mapId: int, moveTimer: nat, isMoving: bool)
    returns (t: Transport?)
    requires entry in templates ==> |templates[entry].keyFrames| >= 1 && 0 <= templates[entry].pathTime < UInt32Modulus
    requires moveTimer < UInt32Modulus
    ensures t == null <==> entry !in templates
    ensures t != null ==>
      && fresh(t) && t.Valid() && t.info == templates[entry]
      && t.currentFrame == 0 && t.nextFrame == 1 && t.period == templates[entry].pathTime
      && t.moveTimer == moveTimer && t.isMoving == isMoving && t.mapId == mapId
  {
    var tInfo := GetTransportTemplate(templates, entry);
    if tInfo.None? {
      return null;
    }
    t := new Transport(tInfo.value, mapId, moveTimer, isMoving);
  }
}
