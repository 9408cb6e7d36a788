/**
 * The plain records of the transport manager: a taxi path node, the key frame
 * built from it, the transport template that holds a generated path, and the
 * lookup of a template by its game-object entry.
 */
module TransportTypes {
  import opened Wrappers

  /**
   * A taxi path node in the fields the path generator and the frame loop read:
   * the map it lies on, its action flag (1 marks a teleport, 2 a stop), the
   * stop delay in seconds and the arrival and departure event ids (0 = none).
   * Positions feed only the spline library and are not part of this model.
   */
  datatype PathNode = PathNode(
    mapId: int,
    actionFlag: int,
    delay: nat,
    arrivalEventId: nat,
    departureEventId: nat)
  {
    /** Action flag 2 marks a node where the transport stops. */
    predicate IsStop() { actionFlag == 2 }
  }

  /**
   * One key frame of a generated path. Distances and times are in seconds and
   * spline units (real); PathTime and DepartureTime are milliseconds within one
   * loop of the path.
   */
  datatype KeyFrame = KeyFrame(
    node: PathNode,
    distSinceStop: real,
    distUntilStop: real,
    distFromPrev: real,
    timeFrom: real,
    timeTo: real,
    teleport: bool,
    pathTime: int,
    departureTime: int)
  {
    predicate IsTeleportFrame() { teleport }

    predicate IsStopFrame() { node.IsStop() }
  }

  /** The key frame constructor: everything but the node takes its default. */
  function NewKeyFrame(node: PathNode): (k: KeyFrame)
    ensures k.node == node
    ensures !k.IsTeleportFrame() && k.pathTime == 0 && k.departureTime == 0
    ensures k.timeFrom == 0.0 && k.timeTo == 0.0
    ensures k.distSinceStop == -1.0 && k.distUntilStop == -1.0 && k.distFromPrev == -1.0
    ensures k.IsStopFrame() <==> node.IsStop()
  {
    KeyFrame(node, -1.0, -1.0, -1.0, 0.0, 0.0, false, 0, 0)
  }

  /**
   * A transport template: the maps its path visits, the length of one loop in
   * milliseconds, the key frames and the two acceleration constants.
   */
  datatype TransportTemplate = TransportTemplate(
    mapsUsed: set<int>,
    pathTime: int,
    keyFrames: seq<KeyFrame>,
    accelTime: real,
    accelDist: real,
    entry: nat)

  /** The template constructor as the manager creates it for `entry` before generating its path. */
  function NewTransportTemplate(entry: nat): (t: TransportTemplate)
    ensures t.entry == entry && t.pathTime == 0 && t.accelTime == 0.0 && t.accelDist == 0.0
    ensures t.keyFrames == [] && t.mapsUsed == {}
  {
    TransportTemplate({}, 0, [], 0.0, 0.0, entry)
  }

  /** The stored template of a known entry, or nothing for an unknown one. */
  function GetTransportTemplate(templates: map<nat, TransportTemplate>, entry: nat): (r: Option<TransportTemplate>)
    ensures r.Some? <==> entry in templates
    ensures r.Some? ==> r.value == templates[entry]
  {
    if entry in templates then Some(templates[entry]) else None
  }
}
