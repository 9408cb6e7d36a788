# Transports: key-frame generation and the movement cursor

This project models the core of TrinityCore's "MO transports": the ships and
zeppelins that follow a taxi path in a loop. It has two parts.

- **Path generation** (`TransportMgr::GeneratePath`). It turns a taxi path,
  given as a list of nodes, into the key frames of a transport template.
  - It keeps the interior nodes.
  - It drops each teleport or map-change node together with the node after
    it, and marks the frame before as a teleport frame.
  - It finds the first and the last stop frame.
  - Two cyclic scans fill `DistSinceStop` and `DistUntilStop`, and a third
    fills `TimeFrom` from `TimeTo`.
  - It accumulates the arrival (`PathTime`) and departure (`DepartureTime`)
    times in milliseconds.
- **The transport object** (`Transport`). It holds a pair of frame cursors
  (`currentFrame`, `nextFrame`), a movement timer that wraps modulo the
  period, a moving flag, the map it is on, the events it has fired and its
  set of passengers. Each update advances the cursors waypoint by waypoint
  until the timer falls inside the current segment.

Modules, one file each:

| file | module | models |
|---|---|---|
| `wrappers.dfy` | `Wrappers` | `Option` and `Result` |
| `transport_types.dfy` | `TransportTypes` | `PathNode`, `KeyFrame`, `TransportTemplate`, the template lookup (`TransportMgr.h`) |
| `path_filter.dfy` | `PathFilter` | the node scan of `GeneratePath` |
| `stop_scans.dfy` | `StopScans` | the stop search and the three cyclic scans |
| `path_times.dfy` | `PathTimes` | the `PathTime`/`DepartureTime` pass |
| `transport_mgr.dfy` | `TransportMgr` | `GeneratePath`, composed from the passes |
| `transport.dfy` | `Transports` | `Transport::Create`, `Update` and the passenger set (`Transport.cpp`, `Transport.h`) |

The vector of key frames, which the source writes in place, is a
`seq<KeyFrame>`. Each pass is a method with the source's loop. It takes the
frames and returns the frames after the pass. Its postcondition ties every
frame to a closed-form specification, for example `DistSinceStopOf` or
`ArriveSec`. Lemmas show that a later pass does not disturb what an earlier
pass wrote, so `GeneratePath` can promise that every derived field of the
finished template equals its closed form on the finished frames (`Derived`).

The transport is a `class`. The frame loop of one update is specified by the
function `Settle`, which works on a `Cursor` value. `Transport.Update` runs
the source's `while` loop on the object's fields and is proved to end in the
state that `Settle` gives. The lemmas about `Settle` carry the loop's
promises.

Two kinds of external input are parameters:
- `DistFromPrev` comes from the function `arcLength: nat -> real`. Frame k's
  `DistFromPrev` is `arcLength(k)`, which stands for whatever
  `TransportMgr.cpp:123-191` leaves in frame k. That is usually a spline
  segment length. On a non-cyclic path, line 175 writes 0 into the frame
  after each teleport frame. That 0 stays only when this frame is the last
  frame (line 175, the last frame only). Any other such frame starts the
  next segment (line 179), so line 168 overwrites its 0 with
  `spline->length(0, 1)` of that segment. Frame 0 of a non-cyclic path with
  a single frame keeps the 0 of line 123.
- The square-root kinematics of `TimeTo` (`TransportMgr.cpp:217-243`) is the
  function `kinematics(distSinceStop, distUntilStop)`.

Other world state is also passed as functions: a passenger's map
(`mapOf`) and whether it rides a vehicle (`onVehicle`).

Path generation returns an error value in three cases:
- A path with fewer than three nodes. For an empty path the loop bound
  `path.size() - 1` wraps and line 90 reads `path[1]` out of range. For one
  or two nodes the loop does not run and line 110 calls `back()` on an empty
  vector.
- A path whose first interior node teleports. Line 94 then calls `back()`
  on an empty vector.
- A path none of whose kept frames is a stop. Here the source does not fail.
  With `firstStop` and `lastStop` at -1, the unsigned index arithmetic at
  lines 199 and 210 keeps every index in range: where `i + lastStop` or
  `i + firstStop` is -1, the index becomes frame `SIZE_MAX mod n`.
  `tmpDist` is never reset, and `TimeFrom` comes out as `-TimeTo`. The resulting `DistSinceStop`, `DistUntilStop` and `TimeFrom`
  values are meaningless. The model covers only paths with a stop, so it
  rejects such a path with `NoStopFrame`.

The source's `Update` loop has no bound. It only ends when the frame data
allows it, so the model passes a budget of advances (`fuel`), and running
out of it is reported as `Exhausted`. The loop's `ASSERT(_nextFrame != begin())`
is modelled as the outcome `AssertFailed` rather than as an abort.

## Model

| member | source | states |
|---|---|---|
| TransportTypes.NewKeyFrame | src/server/game/Maps/TransportMgr.h:37-41 | A new key frame keeps its node. Teleport is false, PathTime and DepartureTime are 0, TimeFrom and TimeTo are 0, and the three distances are -1. It is a stop frame exactly when its node is a stop. |
| TransportTypes.PathNode.IsStop | src/server/game/Maps/TransportMgr.h:56 | A node is a stop exactly when its action flag is 2 (definition; there is no separate contract). |
| TransportTypes.KeyFrame.IsStopFrame | src/server/game/Maps/TransportMgr.h:56 | A frame is a stop frame exactly when its node is a stop (definition; there is no separate contract). |
| TransportTypes.KeyFrame.IsTeleportFrame | src/server/game/Maps/TransportMgr.h:55 | A frame is a teleport frame exactly when its Teleport field is set (definition; there is no separate contract). |
| TransportTypes.NewTransportTemplate | src/server/game/Maps/TransportMgr.h:59-68 | A new template has pathTime 0, accelTime and accelDist 0, no frames and no maps. |
| TransportTypes.GetTransportTemplate | src/server/game/Maps/TransportMgr.h:88-94 | A known entry yields its stored template. An unknown entry yields nothing. |
| PathFilter.Triggers | src/server/game/Maps/TransportMgr.cpp:91 | Interior node i ends a run when its action flag is 1 or the next node is on another map. This is a definition; `TeleportBetweenExact` and `TeleportSkipsSuccessor` state its consequences. |
| PathFilter.Skipped | src/server/game/Maps/TransportMgr.cpp:88-106 | The scan's `mapChange` flag on reaching node i: the previous node was examined and triggered. This is a definition; `ScanState` ties it to the loop's flag and `TeleportSkipsSuccessor` states its consequence. |
| PathFilter.Kept | src/server/game/Maps/TransportMgr.cpp:97-102 | Node i becomes a key frame when it is neither skipped nor triggering. This is a definition; `KeptBelowExact` and `FilterNodes` state its consequences. |
| PathFilter.KeptBelow | src/server/game/Maps/TransportMgr.cpp:86-106 | The indices of the kept interior nodes below the bound, in the order line 100 appends their frames. Every entry lies in 1 until the bound; `KeptBelowExact` states that they are increasing and complete. |
| PathFilter.MapsOf | src/server/game/Maps/TransportMgr.cpp:102 | The set of maps of the indexed nodes, which line 102 collects with `mapsUsed.insert`. This is a definition; `MapsOfExact` states what it holds. |
| PathFilter.MapsOfExact | src/server/game/Maps/TransportMgr.cpp:102 | A map id is in `MapsOf` exactly when one of the indexed nodes lies on that map. |
| PathFilter.KeptBelowExact | src/server/game/Maps/TransportMgr.cpp:86-106 | The kept indices are interior, strictly increasing, and each one is kept. Every kept interior node below the bound is listed. |
| PathFilter.TeleportBetweenExact | src/server/game/Maps/TransportMgr.cpp:88-95 | `TeleportBetween(a, b)` holds exactly when some examined node strictly between a and b is a teleport or map-change node. |
| PathFilter.TeleportSkipsSuccessor | src/server/game/Maps/TransportMgr.cpp:88-106 | A teleport node and the node right after it are both dropped, because the map-change flag makes the scan pass over the successor. |
| PathFilter.SkipStep | src/server/game/Maps/TransportMgr.cpp:105-106 | Passing over the node after a teleport keeps the scan state and clears the map-change flag. |
| PathFilter.TeleportStep | src/server/game/Maps/TransportMgr.cpp:91-96 | Meeting a teleport node marks the last frame as a teleport frame, sets cyclic to false and sets the map-change flag. |
| PathFilter.KeepStep | src/server/game/Maps/TransportMgr.cpp:97-103 | Keeping a node appends a fresh key frame and adds the node's map to the used maps. |
| PathFilter.FilterNodes | src/server/game/Maps/TransportMgr.cpp:84-110 | Fails exactly when the path has fewer than three nodes or the first interior node teleports. Otherwise: one frame per kept interior node, in path order. A frame is a teleport frame exactly when it is the last one or a teleport node lies between it and the next kept node. mapsUsed is exactly the maps of the kept nodes. cyclic holds exactly when no teleport node was met. |
| StopScans.FirstStopFrom | src/server/game/Maps/TransportMgr.cpp:124-129 | The first stop at or after k, or -1 when there is none: a stop, with no stop before it from k on. |
| StopScans.LastStopBelow | src/server/game/Maps/TransportMgr.cpp:124-129 | The last stop below k, or -1 when there is none: a stop, with no stop after it below k. |
| StopScans.PrevStop | src/server/game/Maps/TransportMgr.cpp:196-205 | The stop the since-scan last passed on reaching frame j, going backwards around the loop: a stop, with no stop between it and j. |
| StopScans.NextStop | src/server/game/Maps/TransportMgr.cpp:207-215 | The first stop after frame j, going forwards around the loop: a stop, with no stop between j and it. |
| StopScans.CyclicIndex | src/server/game/Maps/TransportMgr.cpp:199-211 | The `(i + base) % keyFrames.size()` index of lines 199, 210, 211 and 249 is `i + base` reduced once by n, and so lies below n. |
| StopScans.DistFront | src/server/game/Maps/TransportMgr.cpp:203 | A distance sum splits off its first segment. |
| StopScans.SinceStep | src/server/game/Maps/TransportMgr.cpp:200-204 | A non-stop frame's DistSinceStop is the previous frame's (cyclically) plus its own DistFromPrev. |
| StopScans.UntilStep | src/server/game/Maps/TransportMgr.cpp:211-214 | DistUntilStop of frame j is the next frame's DistFromPrev, plus that frame's DistUntilStop unless it is a stop. |
| StopScans.PrevStopStep | src/server/game/Maps/TransportMgr.cpp:199-204 | A non-stop frame's previous stop is the previous stop of the frame before it, cyclically. |
| StopScans.FindStops | src/server/game/Maps/TransportMgr.cpp:119-129 | firstStop and lastStop are the smallest and the largest stop index, or both -1 exactly when no frame is a stop. |
| StopScans.SinceScanStep | src/server/game/Maps/TransportMgr.cpp:197-205 | One step of the since-scan, starting from lastStop, keeps the scan invariant. |
| StopScans.FillDistSinceStop | src/server/game/Maps/TransportMgr.cpp:193-205 | After the scan, every frame's DistSinceStop is 0 at a stop. Elsewhere it is the distance covered since the previous stop, counted cyclically. Nothing else changes. |
| StopScans.UntilScanStep | src/server/game/Maps/TransportMgr.cpp:208-215 | One backward step of the until-scan, starting from firstStop, keeps the scan invariant. |
| StopScans.FillDistUntilStop | src/server/game/Maps/TransportMgr.cpp:207-215 | After the scan, every frame's DistUntilStop is the distance to the next stop, counted cyclically. At a stop this is the distance to the following stop, not 0. Nothing else changes. |
| StopScans.FillTimeTo | src/server/game/Maps/TransportMgr.cpp:217-243 | Every frame's TimeTo is the kinematics of its two distances. Nothing else changes. |
| StopScans.TimeFromScanStep | src/server/game/Maps/TransportMgr.cpp:247-253 | One step of the TimeFrom scan keeps the scan invariant. |
| StopScans.FillTimeFrom | src/server/game/Maps/TransportMgr.cpp:245-253 | Every frame's TimeFrom is the TimeTo of its previous stop less its own TimeTo, which is 0 at a stop. Nothing else changes. |
| StopScans.DistSplit | src/server/game/Maps/TransportMgr.cpp:196-215 | A distance sum splits at any frame in between. |
| StopScans.SegmentLength | src/server/game/Maps/TransportMgr.cpp:193-219 | At a non-stop frame, DistSinceStop + DistUntilStop is the length of the stretch from the previous stop to the next stop, counted cyclically. When both are the same stop it is the full loop. This is the segment length the TimeTo formulas read as `total_dist`. |
| StopScans.FirstStopAgrees | src/server/game/Maps/TransportMgr.cpp:145-151 | Frames with the same nodes have the same first stop. |
| StopScans.LastStopAgrees | src/server/game/Maps/TransportMgr.cpp:182-188 | Frames with the same nodes have the same last stop. |
| StopScans.StopsAgree | src/server/game/Maps/TransportMgr.cpp:119-129 | Frames with the same nodes agree on having a stop, on the first and last stop, and on every frame's previous and next stop. |
| StopScans.NeighbourStopsAgree | src/server/game/Maps/TransportMgr.cpp:199-210 | Frames with the same nodes and the same first and last stop agree on each frame's previous and next stop. |
| StopScans.PrevStopAgrees | src/server/game/Maps/TransportMgr.cpp:199-204 | Frames with the same nodes and the same last stop agree on each frame's previous stop. |
| StopScans.NextStopAgrees | src/server/game/Maps/TransportMgr.cpp:210-214 | Frames with the same nodes and the same first stop agree on each frame's next stop. |
| StopScans.DistAgrees | src/server/game/Maps/TransportMgr.cpp:203 | Frames with the same DistFromPrev values have the same distance sums. |
| StopScans.SinceAgrees | src/server/game/Maps/TransportMgr.cpp:193-205 | DistSinceStop depends only on the nodes and the DistFromPrev values. |
| StopScans.UntilAgrees | src/server/game/Maps/TransportMgr.cpp:207-215 | DistUntilStop depends only on the nodes and the DistFromPrev values. |
| StopScans.TimeFromAgrees | src/server/game/Maps/TransportMgr.cpp:245-253 | TimeFrom depends only on the nodes and the TimeTo values. |
| PathTimes.Ms | src/server/game/Maps/TransportMgr.cpp:261-277 | The `uint32(curPathTime * IN_MILLISECONDS)` cast: a non-negative time gives the largest whole number of milliseconds not above it; a negative time is truncated toward zero. |
| PathTimes.MsMonotone | src/server/game/Maps/TransportMgr.cpp:261-277 | Converting to whole milliseconds keeps the order of times. |
| PathTimes.ArriveSec | src/server/game/Maps/TransportMgr.cpp:256-279 | The running `curPathTime` in seconds when frame i is reached: 0 for frame 0; otherwise the previous departure plus the previous frame's TimeTo, less frame i's own TimeTo when frame i is not a stop. This is the closed form; `FillPathTimes`, `ReachedFromLastStop` and `TimelineMonotone` state its properties. |
| PathTimes.DepartSec | src/server/game/Maps/TransportMgr.cpp:258-277 | The running time when frame i is left: its arrival plus its node's delay at a stop, its arrival elsewhere. This is the closed form, used by the same lemmas. |
| PathTimes.Timed | src/server/game/Maps/TransportMgr.cpp:255-279 | Writing a frame's times keeps its node, its teleport flag and its TimeTo. |
| PathTimes.ReachedFromLastStop | src/server/game/Maps/TransportMgr.cpp:264-279 | After a run of non-stop frames, the running time equals the departure from the last stop plus that stop's TimeTo. The non-stop frames' TimeTo values cancel out. |
| PathTimes.ArriveAfterStop | src/server/game/Maps/TransportMgr.cpp:245-279 | A non-stop frame after a stop is reached TimeFrom seconds after that stop is left. This is how the TimeFrom scan and the path-time pass fit together. |
| PathTimes.ArriveAfterPrevious | src/server/game/Maps/TransportMgr.cpp:264-279 | With non-negative TimeTo values that shrink towards each stop, every frame is reached no earlier than the previous one is left, and left no earlier than it is reached. |
| PathTimes.TimelineMonotone | src/server/game/Maps/TransportMgr.cpp:264-279 | On such frames, every later arrival is no earlier than every earlier departure. |
| PathTimes.TimelineMonotoneMs | src/server/game/Maps/TransportMgr.cpp:256-279 | The same holds for the stored millisecond values. |
| PathTimes.FillPathTimes | src/server/game/Maps/TransportMgr.cpp:255-279 | Frame 0 arrives at 0 (through `MsZero`: 0 seconds is 0 ms). Every frame's times are the millisecond truncation of the running time in seconds, except the DepartureTime of a non-stop frame 0, which is left as it was (lines 258-262). A non-stop frame other than frame 0 departs when it arrives. A stop departs no earlier than it arrives. |
| PathTimes.TimesAgree | src/server/game/Maps/TransportMgr.cpp:264-279 | Arrival and departure times depend only on the nodes and the TimeTo values. |
| TransportMgr.SetArcLengths | src/server/game/Maps/TransportMgr.cpp:123-191 | Every frame's DistFromPrev is `arcLength(k)`, which stands for the value lines 123-191 leave there: a spline segment length, the 0 of line 123 (a single-frame non-cyclic path), or the 0 of line 175 (the last frame only). Nothing else changes. |
| TransportMgr.TrackChain | src/server/game/Maps/TransportMgr.cpp:193-279 | The passes after the spline lengths change no node, no DistFromPrev and no teleport flag. The last two change no TimeTo. |
| TransportMgr.AssembleAt | src/server/game/Maps/TransportMgr.cpp:193-279 | Each finished frame's derived fields equal their closed forms evaluated on the finished frames. |
| TransportMgr.Assemble | src/server/game/Maps/TransportMgr.cpp:193-279 | After all passes, every frame is derived, for every frame at once. |
| TransportMgr.SinceKeepsStops | src/server/game/Maps/TransportMgr.cpp:193-215 | Filling DistSinceStop leaves the first stop where it was. |
| TransportMgr.TimeToKeepsStops | src/server/game/Maps/TransportMgr.cpp:193-253 | Filling the distances and TimeTo leaves the last stop where it was. |
| TransportMgr.MeasuredFrames | src/server/game/Maps/TransportMgr.cpp:84-191 | The filtered frames with their spline lengths are laid out along the path. Frame 0 has departure time 0. |
| TransportMgr.LaidOutStops | src/server/game/Maps/TransportMgr.cpp:119-188 | Laid-out frames have a stop exactly when the filter keeps a stop node. |
| TransportMgr.LaidOutKept | src/server/game/Maps/TransportMgr.cpp:193-279 | Frames with the same track and teleport flags as laid-out frames are laid out too. |
| TransportMgr.ComputeTimes | src/server/game/Maps/TransportMgr.cpp:193-279 | The four passes keep the track and the teleport flags, and leave every frame derived. |
| TransportMgr.GeneratePath | src/server/game/Maps/TransportMgr.cpp:78-281 | Fails exactly when the path has no interior node, its first interior node teleports, or no kept node is a stop, and says which. Otherwise the template has the given entry. Its mapsUsed is exactly the maps of the kept nodes. Its frames are laid out along the path and derived. Its pathTime is the last frame's DepartureTime. accelTime = speed/accel and accelDist = speed²/(2·accel). |
| Transports.Step | src/server/game/Entities/Transport/Transport.cpp:260-265 | The old next frame becomes current and next becomes its successor. Nothing else in the cursor changes. |
| Transports.Succ | src/server/game/Entities/Transport/Transport.cpp:262-264 | The frame after frame i of n stays below n. It is `StopScans.Wrap(i + 1, n)`, the same one-step reduction the path scans use; `SuccIsModulo` states that it is (i + 1) mod n. |
| Transports.SuccIsModulo | src/server/game/Entities/Transport/Transport.cpp:262-264 | Stepping and wrapping to frame 0 at the end is (i + 1) mod n. |
| Transports.StepKeepsCursorOk | src/server/game/Entities/Transport/Transport.cpp:260-265 | A waypoint step keeps next = (current + 1) mod n, and the new current is the old current's successor. |
| Transports.EventIds | src/server/game/Entities/Transport/Transport.cpp:366-374 | At most one event fires. It is the departure or the arrival event id, as the flag says, and it fires exactly when that id is nonzero. |
| Transports.Advance | src/server/game/Entities/Transport/Transport.cpp:123-131 | One advance keeps the cursor well formed. |
| Transports.AdvanceSpec | src/server/game/Entities/Transport/Transport.cpp:123-131 | An advance sets moving and fires the departure event of the frame after current. At a teleport frame, the map becomes the next frame's map and the cursor advances once more. Otherwise the map is unchanged and the cursor is on that frame. |
| Transports.OffSegment | src/server/game/Entities/Transport/Transport.cpp:109 | The loop condition: the timer is past the next frame's PathTime or before the current frame's DepartureTime (definition). |
| Transports.WaitingAtNext | src/server/game/Entities/Transport/Transport.cpp:112 | The break condition: the template's pathTime exceeds the next frame's PathTime and the timer is before the next frame's DepartureTime (definition). |
| Transports.Settle | src/server/game/Entities/Transport/Transport.cpp:109-138 | The `while` loop as a function, with at most `fuel` advances. If the loop condition fails, the cursor settles. Under the break condition it pauses (stopping and firing the arrival event if it was moving). With the budget spent it is exhausted. Otherwise it advances, reports `AssertFailed` if next is frame 0, and goes round again. `Transport.Update` is proved to end where it says; `SettleKeepsCursor`, `SettleOutcome`, `PauseArrival`, `SettleFuelIrrelevant` and `SettleNeverAsserts` state its properties. |
| Transports.SettleKeepsCursor | src/server/game/Entities/Transport/Transport.cpp:109-137 | The frame loop keeps the cursor well formed and only appends events. |
| Transports.SettleOutcome | src/server/game/Entities/Transport/Transport.cpp:109-137 | If the loop exits normally, current.DepartureTime ≤ timer ≤ next.PathTime. If it breaks at a stop, the transport is not moving and the break condition holds. If fuel runs out, the loop condition still holds. If the assertion fails, next is frame 0. |
| Transports.PauseArrival | src/server/game/Entities/Transport/Transport.cpp:112-120 | Under the break condition, the loop stops at once with the cursor in place and moving false. It fires the current frame's arrival event only if the transport was moving. |
| Transports.SettleFuelIrrelevant | src/server/game/Entities/Transport/Transport.cpp:109-137 | Once the budget suffices, a larger budget gives the same cursor and outcome. |
| Transports.AdvanceReachesBegin | src/server/game/Entities/Transport/Transport.cpp:123-131 | An advance leaves next at frame 0 exactly when it lands on the last frame without teleporting, or teleports from the frame before the last. |
| Transports.GeneratedFramesEndWithTeleport | src/server/game/Maps/TransportMgr.cpp:109-110 | Path generation always marks the last frame as a teleport frame, even for closed paths. |
| Transports.SettleNeverAsserts | src/server/game/Entities/Transport/Transport.cpp:129-131 | When the last frame teleports and the one before it does not, the loop's assertion never fails. |
| Transports.SyncSelection | src/server/game/Entities/Transport/Transport.cpp:325-336 | The passengers relocated are exactly those on the transport's map that do not ride a vehicle. |
| Transports.SyncSelectionOfBoarding | src/server/game/Entities/Transport/Transport.cpp:152-169 | Adding a passenger adds it to the selection if it qualifies. Removing one removes it and nothing else. |
| Transports.NextTimer | src/server/game/Entities/Transport/Transport.cpp:104-108 | The new timer is below the period. Without 32-bit overflow it is (timer + diff) mod period. |
| Transports.Transport.constructor | src/server/game/Entities/Transport/Transport.cpp:71-80 | current = 0, next = 1, period = template pathTime. Timer and moving flag as given, no events, no passengers. |
| Transports.Transport.GetPeriod | src/server/game/Entities/Transport/Transport.h:49 | The period field (a read; `SetPeriod` states the round trip). |
| Transports.Transport.GetTimer | src/server/game/Entities/Transport/Transport.h:51 | The movement timer (a read; `Update` states how it changes). |
| Transports.Transport.IsMoving | src/server/game/Entities/Transport/Transport.h:61 | The moving flag (a read; `SetMoving` states the round trip). |
| Transports.Transport.GetKeyFrames | src/server/game/Entities/Transport/Transport.h:53 | The template's key frames (a read). |
| Transports.Transport.GetPassengers | src/server/game/Entities/Transport/Transport.h:42 | The passenger set (a read; `AddPassenger` and `RemovePassenger` state how it changes). |
| Transports.Transport.SetPeriod | src/server/game/Entities/Transport/Transport.h:49-50 | GetPeriod afterwards returns the new period. Nothing else changes. |
| Transports.Transport.SetMoving | src/server/game/Entities/Transport/Transport.h:61-62 | IsMoving afterwards returns the new value. Nothing else changes. |
| Transports.Transport.MoveToNextWayPoint | src/server/game/Entities/Transport/Transport.cpp:260-265 | The cursor takes one waypoint step, as `Step` specifies, and stays well formed. |
| Transports.Transport.TeleportTransport | src/server/game/Entities/Transport/Transport.cpp:305-321 | The map id becomes the new map and the cursor takes one more waypoint step. |
| Transports.Transport.DoEventIfAny | src/server/game/Entities/Transport/Transport.cpp:366-374 | The event log grows by exactly the frame's event, if it has one. Nothing else changes. |
| Transports.Transport.AddPassenger | src/server/game/Entities/Transport/Transport.cpp:152-159 | The set gains the passenger. Adding a passenger already on board changes nothing. No other member changes. |
| Transports.Transport.RemovePassenger | src/server/game/Entities/Transport/Transport.cpp:161-169 | The set loses the passenger. Removing an absent one changes nothing. No other member changes. |
| Transports.Transport.Pause | src/server/game/Entities/Transport/Transport.cpp:112-120 | Arriving at a stop: a moving transport stops and fires the current arrival event. A transport already stopped is unchanged. |
| Transports.Transport.AdvanceWaypoint | src/server/game/Entities/Transport/Transport.cpp:123-131 | One advance of the loop on the object, as `Advance` specifies. |
| Transports.Transport.Update | src/server/game/Entities/Transport/Transport.cpp:94-150 | With at most one frame nothing changes. Otherwise the timer wraps at 2^32 and is reduced modulo the period, and the cursor, moving flag, map and events end where `Settle` says. When the loop ends normally, or breaks, with the transport moving, the relocated passengers are exactly `SyncSelection`. |
| Transports.Create | src/server/game/Entities/Transport/Transport.cpp:64-80 | No transport exactly when the entry has no template. Otherwise a fresh transport on that template, at frame 0 with next frame 1, with period = pathTime. |

## Left out

- The spline library (`init_spline`, `init_cyclic_spline`, `length`, `evaluate_percent`) is foreign code. The `DistFromPrev` values that lines 123-191 compute from it, including the zeros of line 123 and of line 175 (the last frame only), are the parameter `arcLength`. The model does not say which frames get a zero. The frames' `Index` and `Spline` fields are not modelled, so which spline a segment belongs to (cyclic or split at teleports, `TransportMgr.cpp:133-191`) is not distinguished.
- The `TimeTo` formulas (`TransportMgr.cpp:217-243`) are square-root kinematics on floats. They are the parameter `kinematics`.
- `CalculateSegmentPos`, the passenger coordinate transforms `CalculatePassengerPosition`/`CalculatePassengerOffset`, the heading from `GetAngle` and all relocation calls are floating-point geometry. They are not modelled. `Update` only reports which passengers it would relocate.
- The database, logging and spawning code is not modelled: `LoadTransportTemplates`, the `period_gen` update at `TransportMgr.cpp:282`, `CreateTransport`, `SpawnContinentTransports`, `CreateInstanceTransports`, `CreateNPCPassenger` and `CreateGOPassenger`.
- None of the following is modelled; event firing is only an appended event id: map plumbing (`CreateBaseMap`, `RemoveFromMap`/`AddToMap`), AI updates, the script hooks (`OnRelocate`, `OnTransportUpdate`, `OnAddPassenger`, `OnRemovePassenger`), `ScriptsStart`/`EventInform`, vehicle `RelocatePassengers`, and `_mapPassengers`.
- Concurrency (the singleton and its thread mutex) is not modelled.
- Distances and times are `real`, so float rounding is not modelled. `PathTime` and `DepartureTime` are unbounded integers, so the `uint32` cast is modelled as truncation toward zero but without its range.
- PathTimes.Ms: the source casts a float to `uint32`, which is undefined in C++ for a negative value. The model truncates a negative time toward zero, as the cast of a non-negative time does.
- Passengers are identified by number. Their map and vehicle state come from the parameters `mapOf` and `onVehicle`.
- Transports.SyncSelection: the source compares `Map` instances (`passenger->GetMap() != GetMap()`, `Transport.cpp:329`). The model compares map ids, so two instances of one map id count as the same map.
- Transports.Transport.Update: bounded by `fuel` advances per call. The source's loop has no bound and does not end on frame data that never settles (for example a period longer than the template's path time), so that case is reported as `Exhausted`.
- Transports.Transport.Update: requires a nonzero period when there are two or more frames, because the source divides by it (`Transport.cpp:108`).
- Transports.Transport.Update: the failing `ASSERT` aborts the process in the source. Here it returns `AssertFailed` with the state after the advance. `AdvanceReachesBegin` shows that an advance reaches that state when the last two frames both teleport.
- Transports.Create: requires a non-empty frame list and a period below 2^32. On an empty list the source's iterator increment is undefined. The position and game-object template checks of `Transport::Create` (`Transport.cpp:45-60`) have no counterpart here. The timer and the moving flag are parameters, because `Create` never initialises them.
- TransportMgr.GeneratePath: requires a nonzero acceleration. IEEE division by zero, which would give infinities, is not modelled.
- TransportMgr.GeneratePath: three kinds of path are returned as errors.
  - A path with fewer than three nodes is undefined behaviour in the source. An empty path reads `path[1]` out of range; one or two nodes call `back()` on an empty vector.
  - A path whose first interior node teleports calls `back()` on an empty vector.
  - A path without a stop frame: the source completes and builds a template whose `DistSinceStop`, `DistUntilStop` and `TimeFrom` are meaningless (an index of -1 wraps to `SIZE_MAX mod n`, `tmpDist` is never reset, `TimeFrom = -TimeTo`). The model does not describe that template; it returns `NoStopFrame`.
