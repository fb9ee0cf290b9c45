/**
 * The scheduler tick and the service episodes it starts, as an explicit
 * state machine. Every delayed callback of the source is a `Callback`
 * value waiting in `Sim.pending`; the timer firing it is the event
 * `Timeout(k)`. Time itself is abstracted away: callbacks fire in whatever
 * order the events say.
 */
module Episode {
  import opened Types
  import opened Constants
  import opened JunctionOps
  import opened Selection

  /** A scheduled, not yet fired, continuation of a service episode. */
  datatype Callback =
    | ClearNext(lane: LaneId, snapshot: seq<Vehicle>, index: nat)  // clear snapshot[index], or finish
    | EndClearance(lane: LaneId)                                   // the clearance's yellow is over
    | EndGreen(lane: LaneId, vehicle: Vehicle)                     // a normal episode's green is over
    | EndYellow(lane: LaneId, vehicle: Vehicle)                    // a normal episode's yellow is over

  /**
   * Firing one callback: the update it applies to the junction and the
   * callbacks it schedules in turn.
   */
  function RunCallback(j: Junction, cb: Callback): (Junction, seq<Callback>)
  {
    match cb
    case ClearNext(l, snap, i) =>
      if i >= |snap| then (ClearFinish(j, l), [EndClearance(l)])
      else (ClearStep(j, l, snap[i]), [ClearNext(l, snap, i + 1)])
    case EndClearance(l) => (ClearRelease(j, l), [])
    case EndGreen(l, v) => (NormalYellow(j), [EndYellow(l, v)])
    case EndYellow(l, v) => (NormalFinish(j, l, v), [])
  }

  /**
   * One scheduler tick on junction `j`. A full clearance processes the
   * first snapshot vehicle synchronously, before the tick's own update
   * marks the junction busy; a normal episode only schedules its green.
   */
  function RunCycle(j: Junction, blockSize: int): (Junction, seq<Callback>)
  {
    match Decide(j, blockSize)
    case Skip =>
      if !j.isProcessing && j.statusMessage != InitialIdle then (IdleStatus(j), []) else (j, [])
    case Wait => (j, [])
    case Clear(l) =>
      var (j1, next) := RunCallback(j, ClearNext(l, j.Queue(l), 0));
      (BeginEmergency(j1, l), next)
    case Serve(l) =>
      NormalSelection(j, blockSize);
      var v := j.Queue(l)[0];
      (BeginNormal(j, l, v), [EndGreen(l, v)])
  }

  /**
   * The whole simulation: the junction, the timers still pending, and the
   * control settings. `nextId` stands for the fresh id each arrival draws.
   */
  datatype Sim = Sim(junction: Junction, pending: seq<Callback>, blockSize: int, paused: bool, nextId: nat)

  datatype Event =
    | Arrive(vtype: VehicleType, lane: LaneId)  // a vehicle is added
    | Tick                                      // the periodic interval fires
    | Timeout(k: nat)                           // the k-th pending timer fires
    | Reset                                     // the reset control
    | SetBlockSize(n: int)                      // the block-size control
    | TogglePause                               // the pause/resume control

  /** The simulation as it starts: block size 3, running, nothing pending. */
  function InitialSim(): Sim
  {
    Sim(InitialJunction(JunctionIds[0]), [], 3, false, 0)
  }

  /**
   * One event. Reset rebuilds the junction but leaves the pending timers
   * in place: they still fire afterwards, on the fresh state.
   */
  function Step(s: Sim, e: Event): Sim
  {
    match e
    case Arrive(t, l) =>
      s.(junction := AppendVehicle(s.junction, l, NewVehicle(s.nextId, t, l)), nextId := s.nextId + 1)
    case Tick =>
      if s.paused then s
      else
        var (j, next) := RunCycle(s.junction, s.blockSize);
        s.(junction := j, pending := s.pending + next)
    case Timeout(k) =>
      if k >= |s.pending| then s
      else
        var (j, next) := RunCallback(s.junction, s.pending[k]);
        s.(junction := j, pending := s.pending[..k] + s.pending[k + 1..] + next)
    case Reset => s.(junction := ResetJunction(s.junction))
    case SetBlockSize(n) => s.(blockSize := n)
    case TogglePause => s.(paused := !s.paused)
  }

  function Run(s: Sim, es: seq<Event>): Sim
    decreases |es|
  {
    if |es| == 0 then s else Run(Step(s, es[0]), es[1..])
  }

  // ---------------------------------------------------------------------
  // The episode invariant
  // ---------------------------------------------------------------------

  /** What the junction looks like while callback `cb` is the pending one. */
  predicate InEpisode(j: Junction, cb: Callback)
  {
    && j.isProcessing
    && j.activeLane == Some(cb.lane)
    && j.lastProcessedLaneIndex == IndexOf(cb.lane)
    && match cb
       case ClearNext(l, snap, i) =>
         && 1 <= i <= |snap|
         && snap[i..] <= j.Queue(l)
         && j.signalState == Green
         && j.passingVehicle == Some(snap[i - 1])
       case EndClearance(l) =>
         && j.signalState == Yellow
         && j.passingVehicle == None
         && j.clearedLaneId == Some(l)
       case EndGreen(l, v) =>
         && j.signalState == Green
         && j.passingVehicle == Some(v)
         && |j.Queue(l)| > 0 && j.Queue(l)[0] == v
       case EndYellow(l, v) =>
         && j.signalState == Yellow
         && j.passingVehicle == None
         && |j.Queue(l)| > 0 && j.Queue(l)[0] == v
  }

  /**
   * At most one episode is in flight; with none the junction rests, with
   * one the junction matches its pending callback. In particular
   * `activeLane` is set exactly while `isProcessing` holds.
   */
  predicate Inv(s: Sim)
  {
    Settled(s.junction, s.pending)
  }

  /** The invariant, for a junction and the callbacks pending on it. */
  predicate Settled(j: Junction, pending: seq<Callback>)
  {
    && WellFormed(j)
    && |pending| <= 1
    && (|pending| == 0 ==> Resting(j))
    && (|pending| == 1 ==> InEpisode(j, pending[0]))
  }

  /**
   * Counter accounting between two junctions: no vehicle is lost or
   * invented, and the counters never go down.
   */
  predicate Conserves(j: Junction, r: Junction)
  {
    && Queued(r) + r.totalVehiclesCleared == Queued(j) + j.totalVehiclesCleared
    && EmergencyQueued(r) + r.emergencyVehiclesCleared == EmergencyQueued(j) + j.emergencyVehiclesCleared
    && r.totalVehiclesCleared >= j.totalVehiclesCleared
    && r.emergencyVehiclesCleared >= j.emergencyVehiclesCleared
  }

  /** The simulation starts idle, empty and well formed. */
  lemma InitialSimInv()
    ensures var s := InitialSim();
            && Inv(s) && |s.pending| == 0 && !s.paused && s.blockSize == 3
            && AllEmpty(s.junction) && Queued(s.junction) == 0 && EmergencyQueued(s.junction) == 0
            && s.junction.totalVehiclesCleared == 0 && s.junction.emergencyVehiclesCleared == 0
  {
  }

  lemma {:induction false} PrefixAppend(p: seq<Vehicle>, q: seq<Vehicle>, v: Vehicle)
    requires p <= q
    ensures p <= q + [v]
  {
    assert (q + [v])[..|p|] == q[..|p|];
  }

  lemma ArriveKeepsInv(s: Sim, t: VehicleType, l: LaneId)
    requires Inv(s)
    ensures Inv(Step(s, Arrive(t, l)))
  {
    var s' := Step(s, Arrive(t, l));
    if |s.pending| == 1 {
      var cb := s.pending[0];
      if cb.ClearNext? && cb.lane == l {
        PrefixAppend(cb.snapshot[cb.index..], s.junction.Queue(l), NewVehicle(s.nextId, t, l));
      }
    }
  }

  /** A tick while an episode is in flight changes nothing at all. */
  lemma BusyTickIsNoOp(s: Sim)
    requires s.junction.isProcessing
    ensures Step(s, Tick) == s
  {
    if !s.paused {
      assert Decide(s.junction, s.blockSize).Skip?;
      assert s.pending + [] == s.pending;
    }
  }

  /**
   * Starting a full clearance of `l` from a resting junction: the first
   * snapshot vehicle has already left the head of `l` and been counted,
   * the junction is busy with `l` green, the cursor names `l`, and the
   * remaining snapshot vehicles are scheduled.
   */
  lemma ClearanceStart(j: Junction, blockSize: int, l: LaneId)
    requires WellFormed(j) && Resting(j)
    requires Decide(j, blockSize) == Clear(l)
    ensures |j.Queue(l)| > 0
    ensures RunCycle(j, blockSize).1 == [ClearNext(l, j.Queue(l), 1)]
    ensures var r := RunCycle(j, blockSize).0;
            && WellFormed(r)
            && InEpisode(r, ClearNext(l, j.Queue(l), 1))
            && r.Queue(l) == j.Queue(l)[1..]
            && (forall m :: m != l ==> r.Queue(m) == j.Queue(m))
            && r.totalVehiclesCleared == j.totalVehiclesCleared + 1
            && r.emergencyVehiclesCleared == j.emergencyVehiclesCleared + EmergencyWeight(j.Queue(l)[0])
            && Queued(r) + r.totalVehiclesCleared == Queued(j) + j.totalVehiclesCleared
            && EmergencyQueued(r) + r.emergencyVehiclesCleared
                 == EmergencyQueued(j) + j.emergencyVehiclesCleared
  {
    EmergencySelection(j, blockSize);
    var snap := j.Queue(l);
    var j1 := ClearStep(j, l, snap[0]);
    assert j1.Queue(l) == snap[1..];
  }

  /**
   * Starting a normal episode on `l` from a resting junction: nothing is
   * dequeued yet, the head of `l` is passing on green, the cursor names
   * `l`, and the end of the green is scheduled.
   */
  lemma NormalStart(j: Junction, blockSize: int, l: LaneId)
    requires WellFormed(j) && Resting(j)
    requires Decide(j, blockSize) == Serve(l)
    ensures |j.Queue(l)| > 0
    ensures RunCycle(j, blockSize).1 == [EndGreen(l, j.Queue(l)[0])]
    ensures var r := RunCycle(j, blockSize).0;
            && WellFormed(r)
            && InEpisode(r, EndGreen(l, j.Queue(l)[0]))
            && r.lanes == j.lanes
            && r.totalVehiclesCleared == j.totalVehiclesCleared
            && r.emergencyVehiclesCleared == j.emergencyVehiclesCleared
  {
    NormalSelection(j, blockSize);
  }

  /** An arrival appends one fresh vehicle and draws the next id; nothing else changes. */
  lemma ArriveUnfold(s: Sim, t: VehicleType, l: LaneId)
    ensures Step(s, Arrive(t, l))
              == s.(junction := AppendVehicle(s.junction, l, NewVehicle(s.nextId, t, l)),
                    nextId := s.nextId + 1)
    ensures Step(s, Arrive(t, l)).junction == AppendVehicle(s.junction, l, NewVehicle(s.nextId, t, l))
    ensures Step(s, Arrive(t, l)).pending == s.pending
    ensures Step(s, Arrive(t, l)).nextId == s.nextId + 1
  {
  }

  /** A running tick adds the cycle's callbacks to the pending ones. */
  lemma TickUnfold(s: Sim)
    requires !s.paused
    ensures Step(s, Tick).junction == RunCycle(s.junction, s.blockSize).0
    ensures Step(s, Tick).pending == s.pending + RunCycle(s.junction, s.blockSize).1
  {
  }

  /** With one timer pending, its firing runs that callback and schedules what it returns. */
  lemma SoleTimeout(s: Sim)
    requires |s.pending| == 1
    ensures Step(s, Timeout(0)) == s.(junction := RunCallback(s.junction, s.pending[0]).0,
                                      pending := RunCallback(s.junction, s.pending[0]).1)
  {
    var next := RunCallback(s.junction, s.pending[0]).1;
    assert s.pending[..0] + s.pending[1..] + next == next;
  }

  /** A decision taken on a resting junction leaves a settled junction behind. */
  lemma CycleSettles(j: Junction, blockSize: int)
    requires WellFormed(j) && Resting(j)
    ensures Settled(RunCycle(j, blockSize).0, RunCycle(j, blockSize).1)
  {
    match Decide(j, blockSize)
    case Skip => QuietCycleSettles(j, blockSize);
    case Wait => QuietCycleSettles(j, blockSize);
    case Clear(l) => ClearanceSettles(j, blockSize, l);
    case Serve(l) => NormalSettles(j, blockSize, l);
  }

  lemma QuietCycleSettles(j: Junction, blockSize: int)
    requires WellFormed(j) && Resting(j)
    requires Decide(j, blockSize).Skip? || Decide(j, blockSize).Wait?
    ensures Settled(RunCycle(j, blockSize).0, RunCycle(j, blockSize).1)
  {
    QuietCycle(j, blockSize);
  }

  lemma ClearanceSettles(j: Junction, blockSize: int, l: LaneId)
    requires WellFormed(j) && Resting(j)
    requires Decide(j, blockSize) == Clear(l)
    ensures Settled(RunCycle(j, blockSize).0, RunCycle(j, blockSize).1)
  {
    ClearanceStart(j, blockSize, l);
    SettledOne(RunCycle(j, blockSize).0, RunCycle(j, blockSize).1, ClearNext(l, j.Queue(l), 1));
  }

  lemma NormalSettles(j: Junction, blockSize: int, l: LaneId)
    requires WellFormed(j) && Resting(j)
    requires Decide(j, blockSize) == Serve(l)
    ensures Settled(RunCycle(j, blockSize).0, RunCycle(j, blockSize).1)
  {
    NormalStart(j, blockSize, l);
    SettledOne(RunCycle(j, blockSize).0, RunCycle(j, blockSize).1, EndGreen(l, j.Queue(l)[0]));
  }

  lemma SettledOne(j: Junction, pending: seq<Callback>, cb: Callback)
    requires WellFormed(j) && pending == [cb] && InEpisode(j, cb)
    ensures Settled(j, pending)
  {
  }

  lemma TickKeepsInv(s: Sim)
    requires Inv(s)
    ensures Inv(Step(s, Tick))
  {
    if !s.paused && |s.pending| == 0 {
      TickUnfold(s);
      assert s.pending + RunCycle(s.junction, s.blockSize).1 == RunCycle(s.junction, s.blockSize).1;
      CycleSettles(s.junction, s.blockSize);
    } else if !s.paused {
      BusyTickIsNoOp(s);
    }
  }

  /**
   * Firing the pending callback of an episode leaves a settled junction
   * behind and keeps the counter accounting.
   */
  lemma CallbackSettles(j: Junction, cb: Callback)
    requires WellFormed(j) && InEpisode(j, cb)
    ensures Settled(RunCallback(j, cb).0, RunCallback(j, cb).1)
    ensures Conserves(j, RunCallback(j, cb).0)
  {
    match cb
    case ClearNext(l, snap, i) =>
      if i < |snap| {
        ClearNextAdvances(j, l, snap, i);
        SettledOne(RunCallback(j, cb).0, RunCallback(j, cb).1, ClearNext(l, snap, i + 1));
      } else {
        ClearNextFinishes(j, l, snap, i);
      }
    case EndClearance(l) => EndClearanceSettles(j, l);
    case EndGreen(l, v) => EndGreenSettles(j, l, v);
    case EndYellow(l, v) => EndYellowSettles(j, l, v);
  }

  /** With the snapshot exhausted, the clearance turns yellow and schedules its end. */
  lemma ClearNextFinishes(j: Junction, l: LaneId, snap: seq<Vehicle>, i: nat)
    requires WellFormed(j) && InEpisode(j, ClearNext(l, snap, i))
    requires i >= |snap|
    ensures var cb := ClearNext(l, snap, i);
            Settled(RunCallback(j, cb).0, RunCallback(j, cb).1) && Conserves(j, RunCallback(j, cb).0)
  {
    var r := ClearFinish(j, l);
    SettledOne(r, [EndClearance(l)], EndClearance(l));
    SameLanesConserve(j, r);
  }

  lemma EndClearanceSettles(j: Junction, l: LaneId)
    requires WellFormed(j) && InEpisode(j, EndClearance(l))
    ensures var cb := EndClearance(l);
            Settled(RunCallback(j, cb).0, RunCallback(j, cb).1) && Conserves(j, RunCallback(j, cb).0)
  {
    SameLanesConserve(j, ClearRelease(j, l));
  }

  lemma EndGreenSettles(j: Junction, l: LaneId, v: Vehicle)
    requires WellFormed(j) && InEpisode(j, EndGreen(l, v))
    ensures var cb := EndGreen(l, v);
            Settled(RunCallback(j, cb).0, RunCallback(j, cb).1) && Conserves(j, RunCallback(j, cb).0)
  {
    var r := NormalYellow(j);
    SettledOne(r, [EndYellow(l, v)], EndYellow(l, v));
    SameLanesConserve(j, r);
  }

  lemma EndYellowSettles(j: Junction, l: LaneId, v: Vehicle)
    requires WellFormed(j) && InEpisode(j, EndYellow(l, v))
    ensures var cb := EndYellow(l, v);
            Settled(RunCallback(j, cb).0, RunCallback(j, cb).1) && Conserves(j, RunCallback(j, cb).0)
  {
  }

  /** One vehicle of a clearance snapshot passes: the next one is scheduled. */
  lemma ClearNextAdvances(j: Junction, l: LaneId, snap: seq<Vehicle>, i: nat)
    requires WellFormed(j) && InEpisode(j, ClearNext(l, snap, i))
    requires i < |snap|
    ensures var r := ClearStep(j, l, snap[i]);
            WellFormed(r) && InEpisode(r, ClearNext(l, snap, i + 1)) && Conserves(j, r)
  {
    var q := j.Queue(l);
    assert q[..|snap[i..]|] == snap[i..];
    assert q[0] == snap[i];
    var r := ClearStep(j, l, snap[i]);
    assert r.Queue(l) == q[1..];
    assert snap[i + 1..] == snap[i..][1..];
    assert r.Queue(l)[..|snap[i + 1..]|] == snap[i + 1..];
  }

  lemma TimeoutKeepsInv(s: Sim, k: nat)
    requires Inv(s)
    ensures Inv(Step(s, Timeout(k)))
  {
    if k < |s.pending| {
      assert k == 0;
      SoleTimeout(s);
      CallbackSettles(s.junction, s.pending[0]);
    }
  }

  /**
   * Every event except a reset in the middle of an episode keeps the
   * invariant.
   */
  lemma StepKeepsInv(s: Sim, e: Event)
    requires Inv(s)
    requires e.Reset? ==> |s.pending| == 0
    ensures Inv(Step(s, e))
  {
    match e
    case Arrive(t, l) => ArriveKeepsInv(s, t, l);
    case Tick => TickKeepsInv(s);
    case Timeout(k) => TimeoutKeepsInv(s, k);
    case Reset =>
    case SetBlockSize(n) =>
    case TogglePause =>
  }

  // ---------------------------------------------------------------------
  // Counter accounting, one event at a time
  // ---------------------------------------------------------------------

  /** What an event adds to the vehicles seen by the junction. */
  function ArrivalWeight(e: Event): nat
  {
    if e.Arrive? then 1 else 0
  }

  function EmergencyArrivalWeight(e: Event): nat
  {
    if e.Arrive? && Priority(e.vtype) <= EmergencyThreshold then 1 else 0
  }

  lemma TimeoutAccounting(s: Sim, k: nat)
    requires Inv(s)
    ensures Conserves(s.junction, Step(s, Timeout(k)).junction)
  {
    if k < |s.pending| {
      assert k == 0;
      SoleTimeout(s);
      CallbackSettles(s.junction, s.pending[0]);
    }
  }

  /** Conservation for one decision taken on a resting junction. */
  lemma CycleAccounting(j: Junction, blockSize: int)
    requires WellFormed(j) && Resting(j)
    ensures Conserves(j, RunCycle(j, blockSize).0)
  {
    var r := RunCycle(j, blockSize).0;
    match Decide(j, blockSize)
    case Skip =>
      QuietCycle(j, blockSize);
      SameLanesConserve(j, r);
    case Wait =>
      QuietCycle(j, blockSize);
      SameLanesConserve(j, r);
    case Clear(l) =>
      ClearanceStart(j, blockSize, l);
    case Serve(l) =>
      NormalStart(j, blockSize, l);
      SameLanesConserve(j, r);
  }

  /** A junction whose lanes and counters are untouched conserves trivially. */
  lemma SameLanesConserve(j: Junction, r: Junction)
    requires r.lanes == j.lanes
    requires r.totalVehiclesCleared == j.totalVehiclesCleared
    requires r.emergencyVehiclesCleared == j.emergencyVehiclesCleared
    ensures Conserves(j, r)
  {
  }

  /** A tick that starts nothing leaves the lanes and counters alone. */
  lemma QuietCycle(j: Junction, blockSize: int)
    requires Decide(j, blockSize).Skip? || Decide(j, blockSize).Wait?
    ensures RunCycle(j, blockSize).0 == j.(statusMessage := RunCycle(j, blockSize).0.statusMessage)
    ensures RunCycle(j, blockSize).0.lanes == j.lanes
    ensures RunCycle(j, blockSize).0.totalVehiclesCleared == j.totalVehiclesCleared
    ensures RunCycle(j, blockSize).0.emergencyVehiclesCleared == j.emergencyVehiclesCleared
    ensures RunCycle(j, blockSize).1 == []
    ensures Decide(j, blockSize).Wait? ==> RunCycle(j, blockSize) == (j, [])
  {
    if Decide(j, blockSize).Skip? && !j.isProcessing && j.statusMessage != InitialIdle {
      assert RunCycle(j, blockSize) == (IdleStatus(j), []);
    } else {
      assert RunCycle(j, blockSize) == (j, []);
    }
  }

  lemma TickAccounting(s: Sim)
    requires Inv(s)
    ensures Conserves(s.junction, Step(s, Tick).junction)
  {
    if !s.paused {
      if |s.pending| == 0 {
        TickUnfold(s);
        CycleAccounting(s.junction, s.blockSize);
      } else {
        BusyTickIsNoOp(s);
      }
    }
  }

  /**
   * Counter accounting: apart from a reset, every event keeps
   * `queued + totalVehiclesCleared` fixed except an arrival, which adds
   * one; likewise for emergency vehicles and `emergencyVehiclesCleared`.
   * So a counter rises exactly when a vehicle leaves a queue.
   */
  lemma StepAccounting(s: Sim, e: Event)
    requires Inv(s)
    requires !e.Reset?
    ensures var j, j' := s.junction, Step(s, e).junction;
            && Queued(j') + j'.totalVehiclesCleared
                 == Queued(j) + j.totalVehiclesCleared + ArrivalWeight(e)
            && EmergencyQueued(j') + j'.emergencyVehiclesCleared
                 == EmergencyQueued(j) + j.emergencyVehiclesCleared + EmergencyArrivalWeight(e)
            && j'.totalVehiclesCleared >= j.totalVehiclesCleared
            && j'.emergencyVehiclesCleared >= j.emergencyVehiclesCleared
  {
    match e
    case Arrive(t, l) =>
    case Tick => TickAccounting(s);
    case Timeout(k) => TimeoutAccounting(s, k);
    case SetBlockSize(n) =>
    case TogglePause =>
  }
}
