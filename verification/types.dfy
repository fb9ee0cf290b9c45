/**
 * The data model of one traffic junction: vehicles, the four directional
 * lanes, the signal and the junction aggregate that the scheduler reads and
 * the episode callbacks rewrite.
 */
module Types {

  datatype Option<+T> = None | Some(value: T)

  /** The five vehicle categories; their urgency comes from `Constants.Priority`. */
  datatype VehicleType = Ambulance | FireTruck | Police | Bus | Car

  datatype SignalState = Red | Yellow | Green

  /** The only junction of the simulation. */
  datatype JunctionId = A

  datatype LaneId = North | South | East | West

  /**
   * A queued vehicle. The source draws `id` from the clock plus a random
   * fraction; here it is an abstract fresh number. `priority` is stored at
   * creation time, exactly as the source stores it, and the scheduler reads
   * this field rather than the category.
   */
  datatype Vehicle = Vehicle(id: nat, vtype: VehicleType, priority: int, laneId: LaneId)

  /** One directional lane: its name and its FIFO queue, head first. */
  datatype Lane = Lane(id: LaneId, queue: seq<Vehicle>)

  /**
   * The lane record of a junction. One field per lane id, so the record is
   * total over `LaneId` and lanes can never be added or removed.
   */
  datatype Lanes = Lanes(north: Lane, east: Lane, south: Lane, west: Lane)
  {
    function Get(l: LaneId): Lane
    {
      match l
      case North => north
      case East => east
      case South => south
      case West => west
    }

    /** Replaces the lane stored under `l`, keeping the other three. */
    function With(l: LaneId, lane: Lane): (r: Lanes)
      ensures r.Get(l) == lane
      ensures forall m :: m != l ==> r.Get(m) == Get(m)
    {
      match l
      case North => this.(north := lane)
      case East => this.(east := lane)
      case South => this.(south := lane)
      case West => this.(west := lane)
    }
  }

  /**
   * The kind of the human-readable status line. The text is not modelled;
   * the kind is, because the idle guard of a tick compares the current
   * message with the initial one.
   */
  datatype Status =
    | InitialIdle                                  // idle, nothing added yet
    | WaitingIdle                                  // idle after a tick found nothing to do
    | EmergencyDetected(lane: LaneId)              // a full clearance of `lane` began
    | LaneCleared(lane: LaneId)                    // the full clearance of `lane` ended
    | Processing(lane: LaneId, next: VehicleType)  // a normal episode began on `lane`
    | ClearingIntersection                         // a normal episode turned yellow
    | VehiclePassed(lane: LaneId)                  // a normal episode ended

  /** The aggregate root the scheduler works on. */
  datatype Junction = Junction(
    id: JunctionId,
    lanes: Lanes,
    activeLane: Option<LaneId>,
    signalState: SignalState,
    isProcessing: bool,
    passingVehicle: Option<Vehicle>,
    lastProcessedLaneIndex: int,
    clearedLaneId: Option<LaneId>,
    totalVehiclesCleared: nat,
    emergencyVehiclesCleared: nat,
    statusMessage: Status)
  {
    function Queue(l: LaneId): seq<Vehicle>
    {
      lanes.Get(l).queue
    }
  }

  /** Every vehicle category, in declaration order. */
  const AllVehicleTypes: seq<VehicleType> := [Ambulance, FireTruck, Police, Bus, Car]

  const AllSignalStates: seq<SignalState> := [Red, Yellow, Green]

  const AllLaneIds: set<LaneId> := {North, South, East, West}

  /** The enumeration of vehicle categories has exactly five distinct members. */
  lemma VehicleTypesEnumerated()
    ensures |AllVehicleTypes| == 5
    ensures forall t: VehicleType :: t in AllVehicleTypes
    ensures forall i, j :: 0 <= i < j < |AllVehicleTypes| ==> AllVehicleTypes[i] != AllVehicleTypes[j]
  {
    forall t: VehicleType ensures t in AllVehicleTypes {
      match t
      case Ambulance => assert AllVehicleTypes[0] == t;
      case FireTruck => assert AllVehicleTypes[1] == t;
      case Police => assert AllVehicleTypes[2] == t;
      case Bus => assert AllVehicleTypes[3] == t;
      case Car => assert AllVehicleTypes[4] == t;
    }
  }

  /** The signal has exactly three distinct states. */
  lemma SignalStatesEnumerated()
    ensures |AllSignalStates| == 3
    ensures forall s: SignalState :: s in AllSignalStates
    ensures forall i, j :: 0 <= i < j < |AllSignalStates| ==> AllSignalStates[i] != AllSignalStates[j]
  {
    forall s: SignalState ensures s in AllSignalStates {
      match s
      case Red => assert AllSignalStates[0] == s;
      case Yellow => assert AllSignalStates[1] == s;
      case Green => assert AllSignalStates[2] == s;
    }
  }

  /**
   * There are four lane ids and the lane record answers for each of them:
   * writing one lane and reading it back gives what was written, and a
   * write leaves the other three lanes alone.
   */
  lemma LanesTotal(ls: Lanes, l: LaneId, lane: Lane)
    ensures |AllLaneIds| == 4
    ensures forall m: LaneId :: m in AllLaneIds
    ensures ls.With(l, lane).Get(l) == lane
    ensures ls.With(l, ls.Get(l)) == ls
    ensures forall m :: m != l ==> ls.With(l, lane).Get(m) == ls.Get(m)
  {
    forall m: LaneId ensures m in AllLaneIds {
      match m
      case North =>
      case South =>
      case East =>
      case West =>
    }
  }
}
