/**
 * The junction state and every pure update the simulation applies to it:
 * creation and reset, vehicle arrival, and the updaters each step of a
 * service episode hands to the state setter. Each updater is a function
 * from the junction it receives to the junction it returns.
 */
module JunctionOps {
  import opened Types
  import opened Constants

  // ---------------------------------------------------------------------
  // Queues and counting
  // ---------------------------------------------------------------------

  /** `queue.slice(1)`: drops the head, and leaves an empty queue empty. */
  function Tail(q: seq<Vehicle>): (r: seq<Vehicle>)
    ensures |q| > 0 ==> [q[0]] + r == q
    ensures |q| == 0 ==> r == []
  {
    if |q| == 0 then [] else q[1..]
  }

  predicate IsEmergency(v: Vehicle)
  {
    v.priority <= EmergencyThreshold
  }

  /** How much a cleared vehicle adds to the emergency counter. */
  function EmergencyWeight(v: Vehicle): (n: nat)
    ensures n == 1 <==> IsEmergency(v)
    ensures n <= 1
  {
    if IsEmergency(v) then 1 else 0
  }

  /** The number of emergency vehicles in a queue. */
  function CountEmergency(q: seq<Vehicle>): (n: nat)
    ensures n <= |q|
  {
    if |q| == 0 then 0 else EmergencyWeight(q[0]) + CountEmergency(q[1..])
  }

  lemma {:induction false} CountEmergencyConcat(p: seq<Vehicle>, q: seq<Vehicle>)
    ensures CountEmergency(p + q) == CountEmergency(p) + CountEmergency(q)
    decreases |p|
  {
    if |p| == 0 {
      assert p + q == q;
    } else {
      assert (p + q)[1..] == p[1..] + q;
      CountEmergencyConcat(p[1..], q);
    }
  }

  /** The number of vehicles waiting at the junction. */
  function Queued(j: Junction): nat
  {
    |j.Queue(North)| + |j.Queue(East)| + |j.Queue(South)| + |j.Queue(West)|
  }

  /** The number of emergency vehicles waiting at the junction. */
  function EmergencyQueued(j: Junction): nat
  {
    CountEmergency(j.Queue(North)) + CountEmergency(j.Queue(East))
      + CountEmergency(j.Queue(South)) + CountEmergency(j.Queue(West))
  }

  predicate AllEmpty(j: Junction)
  {
    forall l: LaneId :: |j.Queue(l)| == 0
  }

  /**
   * The waiting totals change only by what changed in the one lane that
   * was rewritten.
   */
  lemma QueuedAfterLaneChange(j: Junction, r: Junction, l: LaneId)
    requires forall m :: m != l ==> r.lanes.Get(m) == j.lanes.Get(m)
    ensures Queued(r) - |r.Queue(l)| == Queued(j) - |j.Queue(l)|
    ensures EmergencyQueued(r) - CountEmergency(r.Queue(l)) == EmergencyQueued(j) - CountEmergency(j.Queue(l))
  {
    match l
    case North =>
    case East =>
    case South =>
    case West =>
  }

  // ---------------------------------------------------------------------
  // Well-formedness
  // ---------------------------------------------------------------------

  /** A vehicle as the arrival operation builds it for lane `l`. */
  predicate ValidVehicle(v: Vehicle, l: LaneId)
  {
    v.priority == Priority(v.vtype) && v.laneId == l
  }

  /** Each lane carries its own id, and each queued vehicle is valid for its lane. */
  predicate ValidLanes(ls: Lanes)
  {
    && (forall l: LaneId :: ls.Get(l).id == l)
    && (forall l: LaneId, i :: 0 <= i < |ls.Get(l).queue| ==> ValidVehicle(ls.Get(l).queue[i], l))
  }

  /**
   * What holds of every junction the simulation can reach: valid lanes,
   * and a round-robin cursor that is -1 or a valid lane index.
   */
  predicate WellFormed(j: Junction)
  {
    ValidLanes(j.lanes) && -1 <= j.lastProcessedLaneIndex < LaneCount
  }

  /** Fields that only an episode touches, in their resting values. */
  predicate Resting(j: Junction)
  {
    && j.activeLane == None
    && j.signalState == Red
    && !j.isProcessing
    && j.passingVehicle == None
  }

  /** Rewriting one lane with valid vehicles keeps a junction well formed. */
  lemma WellFormedAfterLaneChange(j: Junction, r: Junction, l: LaneId)
    requires WellFormed(j)
    requires forall m :: m != l ==> r.lanes.Get(m) == j.lanes.Get(m)
    requires r.lanes.Get(l).id == l
    requires forall i :: 0 <= i < |r.Queue(l)| ==> ValidVehicle(r.Queue(l)[i], l)
    requires r.lastProcessedLaneIndex == j.lastProcessedLaneIndex
    ensures WellFormed(r)
  {
    forall m: LaneId, i | 0 <= i < |r.lanes.Get(m).queue|
      ensures ValidVehicle(r.lanes.Get(m).queue[i], m)
    {
      if m != l {
        assert r.lanes.Get(m) == j.lanes.Get(m);
      } else {
        assert ValidVehicle(r.Queue(l)[i], l);
      }
    }
  }

  // ---------------------------------------------------------------------
  // Creation, reset and arrival
  // ---------------------------------------------------------------------

  function EmptyLanes(): (ls: Lanes)
    ensures forall l: LaneId :: ls.Get(l) == Lane(l, [])
  {
    Lanes(Lane(North, []), Lane(East, []), Lane(South, []), Lane(West, []))
  }

  /** The idle junction the simulation starts from. */
  function InitialJunction(id: JunctionId): (j: Junction)
    ensures j.id == id
    ensures WellFormed(j) && Resting(j) && AllEmpty(j)
    ensures Queued(j) == 0 && EmergencyQueued(j) == 0
    ensures j.lastProcessedLaneIndex == -1 && j.clearedLaneId == None
    ensures j.totalVehiclesCleared == 0 && j.emergencyVehiclesCleared == 0
    ensures j.statusMessage == InitialIdle
  {
    Junction(id, EmptyLanes(), None, Red, false, None, -1, None, 0, 0, InitialIdle)
  }

  /**
   * Reset rebuilds each junction of `JunctionIds` from scratch; nothing of
   * the previous state survives.
   */
  function ResetJunction(j: Junction): (r: Junction)
    ensures r.id == A
    ensures WellFormed(r) && Resting(r) && AllEmpty(r)
    ensures r.lastProcessedLaneIndex == -1 && r.clearedLaneId == None
    ensures r.totalVehiclesCleared == 0 && r.emergencyVehiclesCleared == 0
    ensures r.statusMessage == InitialIdle
  {
    Junction(A, EmptyLanes(), None, Red, false, None, -1, None, 0, 0, InitialIdle)
  }

  /** Reset builds exactly the junction the simulation starts from. */
  lemma ResetIsInitial(j: Junction)
    ensures ResetJunction(j) == InitialJunction(JunctionIds[0])
  {
  }

  /** The vehicle an arrival of category `t` on lane `l` creates. */
  function NewVehicle(id: nat, t: VehicleType, l: LaneId): (v: Vehicle)
    ensures ValidVehicle(v, l) && v.vtype == t && v.id == id
  {
    Vehicle(id, t, Priority(t), l)
  }

  /** The arrival updater: append `v` to the tail of lane `l`. */
  function AppendVehicle(j: Junction, l: LaneId, v: Vehicle): (r: Junction)
    ensures r.Queue(l) == j.Queue(l) + [v]
    ensures forall m :: m != l ==> r.lanes.Get(m) == j.lanes.Get(m)
    ensures r.lanes.Get(l).id == j.lanes.Get(l).id
    ensures r == j.(lanes := r.lanes)
    ensures Queued(r) == Queued(j) + 1
    ensures EmergencyQueued(r) == EmergencyQueued(j) + EmergencyWeight(v)
    ensures WellFormed(j) && ValidVehicle(v, l) ==> WellFormed(r)
  {
    var lane := j.lanes.Get(l);
    var r := j.(lanes := j.lanes.With(l, lane.(queue := lane.queue + [v])));
    CountEmergencyConcat(j.Queue(l), [v]);
    QueuedAfterLaneChange(j, r, l);
    if WellFormed(j) && ValidVehicle(v, l) then
      assert forall i :: 0 <= i < |j.Queue(l)| ==> r.Queue(l)[i] == j.Queue(l)[i];
      WellFormedAfterLaneChange(j, r, l);
      r
    else
      r
  }

  // ---------------------------------------------------------------------
  // Episode updaters
  // ---------------------------------------------------------------------

  /** Drop the head of lane `l` and count `v` as cleared. */
  function RemoveHead(j: Junction, l: LaneId, v: Vehicle): (r: Junction)
    ensures r.Queue(l) == Tail(j.Queue(l))
    ensures forall m :: m != l ==> r.lanes.Get(m) == j.lanes.Get(m)
    ensures r.totalVehiclesCleared == j.totalVehiclesCleared + 1
    ensures r.emergencyVehiclesCleared == j.emergencyVehiclesCleared + EmergencyWeight(v)
    ensures |j.Queue(l)| > 0 && j.Queue(l)[0] == v ==>
              && Queued(r) + r.totalVehiclesCleared == Queued(j) + j.totalVehiclesCleared
              && EmergencyQueued(r) + r.emergencyVehiclesCleared
                   == EmergencyQueued(j) + j.emergencyVehiclesCleared
    ensures WellFormed(j) ==> WellFormed(r)
  {
    var lane := j.lanes.Get(l);
    var r := j.(lanes := j.lanes.With(l, lane.(queue := Tail(lane.queue))),
                totalVehiclesCleared := j.totalVehiclesCleared + 1,
                emergencyVehiclesCleared := j.emergencyVehiclesCleared + EmergencyWeight(v));
    QueuedAfterLaneChange(j, r, l);
    if WellFormed(j) then
      TailValid(j, l);
      WellFormedAfterLaneChange(j, r, l);
      r
    else
      r
  }

  /** The vehicles after the head of a lane of a well-formed junction are valid for that lane. */
  lemma TailValid(j: Junction, l: LaneId)
    requires WellFormed(j)
    ensures forall i :: 0 <= i < |Tail(j.Queue(l))| ==> ValidVehicle(Tail(j.Queue(l))[i], l)
  {
    var q := j.Queue(l);
    assert forall i :: 0 <= i < |Tail(q)| ==> Tail(q)[i] == q[i + 1];
  }

  /** One step of a full clearance: `v` passes and the head of `l` leaves. */
  function ClearStep(j: Junction, l: LaneId, v: Vehicle): (r: Junction)
    ensures WellFormed(j) ==> WellFormed(r)
  {
    RemoveHead(j, l, v).(passingVehicle := Some(v))
  }

  /** After the last vehicle of a clearance: Yellow, and the lane is marked cleared. */
  function ClearFinish(j: Junction, l: LaneId): (r: Junction)
    ensures WellFormed(j) ==> WellFormed(r)
  {
    j.(clearedLaneId := Some(l), passingVehicle := None, signalState := Yellow)
  }

  /** After the clearance's yellow: the junction is free again. */
  function ClearRelease(j: Junction, l: LaneId): (r: Junction)
    ensures WellFormed(j) ==> WellFormed(r)
  {
    j.(signalState := Red, activeLane := None, isProcessing := false,
       statusMessage := LaneCleared(l))
  }

  /** The tick's own updater when it starts a full clearance of `l`. */
  function BeginEmergency(j: Junction, l: LaneId): (r: Junction)
    ensures WellFormed(j) ==> WellFormed(r)
  {
    j.(isProcessing := true, activeLane := Some(l), signalState := Green,
       statusMessage := EmergencyDetected(l), lastProcessedLaneIndex := IndexOf(l))
  }

  /** The tick's own updater when it starts a normal episode on `l` for head `v`. */
  function BeginNormal(j: Junction, l: LaneId, v: Vehicle): (r: Junction)
    ensures WellFormed(j) ==> WellFormed(r)
  {
    j.(isProcessing := true, passingVehicle := Some(v), activeLane := Some(l),
       signalState := Green, lastProcessedLaneIndex := IndexOf(l),
       statusMessage := Processing(l, v.vtype))
  }

  /** A normal episode's green has elapsed: Yellow, nothing passing. */
  function NormalYellow(j: Junction): (r: Junction)
    ensures WellFormed(j) ==> WellFormed(r)
  {
    j.(passingVehicle := None, signalState := Yellow, statusMessage := ClearingIntersection)
  }

  /** A normal episode's yellow has elapsed: the head leaves and the junction is free. */
  function NormalFinish(j: Junction, l: LaneId, v: Vehicle): (r: Junction)
    ensures WellFormed(j) ==> WellFormed(r)
  {
    RemoveHead(j, l, v).(signalState := Red, activeLane := None, isProcessing := false,
                         statusMessage := VehiclePassed(l))
  }

  /** The idle tick's status update. */
  function IdleStatus(j: Junction): (r: Junction)
    ensures WellFormed(j) ==> WellFormed(r)
  {
    j.(statusMessage := WaitingIdle)
  }

  // ---------------------------------------------------------------------
  // Properties of creation, reset and arrival
  // ---------------------------------------------------------------------

  /** Resetting twice is resetting once. */
  lemma ResetIdempotent(j: Junction)
    ensures ResetJunction(ResetJunction(j)) == ResetJunction(j)
  {
  }

  /**
   * FIFO: appending at the tail and removing at the head commute on a
   * non-empty queue, so a removal always takes the oldest vehicle and an
   * arrival never overtakes one already queued.
   */
  lemma {:induction false} AppendThenRemoveHead(j: Junction, l: LaneId, v: Vehicle, w: Vehicle)
    requires |j.Queue(l)| > 0
    ensures RemoveHead(AppendVehicle(j, l, v), l, w).Queue(l) == RemoveHead(j, l, w).Queue(l) + [v]
    ensures RemoveHead(AppendVehicle(j, l, v), l, w).lanes
              == AppendVehicle(RemoveHead(j, l, w), l, v).lanes
  {
    var q := j.Queue(l);
    assert (q + [v])[1..] == q[1..] + [v];
  }
}
