/**
 * Guarantees about whole runs of the simulation: the episode invariant
 * and counter accounting over any run without resets, the behaviour of
 * a tick that finds nothing to do, a full clearance removing exactly its
 * snapshot, the effect of one normal episode, round-robin turn taking,
 * and what a reset does and does not undo.
 */
module Properties {
  import opened Types
  import opened Constants
  import opened JunctionOps
  import opened Selection
  import opened Episode

  // ---------------------------------------------------------------------
  // Runs
  // ---------------------------------------------------------------------

  predicate NoReset(es: seq<Event>)
  {
    forall i :: 0 <= i < |es| ==> !es[i].Reset?
  }

  /** The number of arrivals in `es`. */
  function ArrivalCount(es: seq<Event>): nat
  {
    if |es| == 0 then 0 else ArrivalWeight(es[0]) + ArrivalCount(es[1..])
  }

  /** The number of emergency-vehicle arrivals in `es`. */
  function EmergencyArrivalCount(es: seq<Event>): nat
  {
    if |es| == 0 then 0 else EmergencyArrivalWeight(es[0]) + EmergencyArrivalCount(es[1..])
  }

  /** The vehicle event `e` appends to lane `l`, if any, when its id is `id`. */
  function ArrivalOf(id: nat, e: Event, l: LaneId): (r: seq<Vehicle>)
    ensures |r| <= 1
  {
    if e.Arrive? && e.lane == l then [NewVehicle(id, e.vtype, l)] else []
  }

  /** The vehicles `es` appends to lane `l`, in order, when ids start at `id`. */
  function Arrivals(id: nat, es: seq<Event>, l: LaneId): seq<Vehicle>
    decreases |es|
  {
    if |es| == 0 then []
    else ArrivalOf(id, es[0], l) + Arrivals(id + ArrivalWeight(es[0]), es[1..], l)
  }

  /** Without a reset, the episode invariant holds after any run. */
  lemma {:induction false} RunKeepsInv(s: Sim, es: seq<Event>)
    requires Inv(s) && NoReset(es)
    ensures Inv(Run(s, es))
    decreases |es|
  {
    if |es| > 0 {
      StepKeepsInv(s, es[0]);
      assert NoReset(es[1..]) by {
        forall i | 0 <= i < |es[1..]| ensures !es[1..][i].Reset? {
          assert es[1..][i] == es[i + 1];
        }
      }
      RunKeepsInv(Step(s, es[0]), es[1..]);
    }
  }

  /**
   * Counter accounting over a run without resets: the vehicles still
   * queued plus the vehicles counted as cleared grow by exactly the
   * arrivals, for all vehicles and for emergency vehicles alike; the
   * counters never decrease.
   */
  lemma {:induction false} RunAccounting(s: Sim, es: seq<Event>)
    requires Inv(s) && NoReset(es)
    ensures var j, j' := s.junction, Run(s, es).junction;
            && Queued(j') + j'.totalVehiclesCleared
                 == Queued(j) + j.totalVehiclesCleared + ArrivalCount(es)
            && EmergencyQueued(j') + j'.emergencyVehiclesCleared
                 == EmergencyQueued(j) + j.emergencyVehiclesCleared + EmergencyArrivalCount(es)
            && j'.totalVehiclesCleared >= j.totalVehiclesCleared
            && j'.emergencyVehiclesCleared >= j.emergencyVehiclesCleared
    decreases |es|
  {
    if |es| > 0 {
      assert !es[0].Reset?;
      StepAccounting(s, es[0]);
      StepKeepsInv(s, es[0]);
      assert NoReset(es[1..]) by {
        forall i | 0 <= i < |es[1..]| ensures !es[1..][i].Reset? {
          assert es[1..][i] == es[i + 1];
        }
      }
      RunAccounting(Step(s, es[0]), es[1..]);
    }
  }

  /**
   * From the initial state, `totalVehiclesCleared` is the number of
   * arrivals whose vehicles have left their queue, and
   * `emergencyVehiclesCleared` the same count for emergency vehicles.
   */
  lemma CountersCountDequeued(es: seq<Event>)
    requires NoReset(es)
    ensures var j := Run(InitialSim(), es).junction;
            && j.totalVehiclesCleared == ArrivalCount(es) - Queued(j)
            && j.emergencyVehiclesCleared == EmergencyArrivalCount(es) - EmergencyQueued(j)
  {
    InitialSimInv();
    CountersFromEmpty(InitialSim(), es);
  }

  lemma CountersFromEmpty(s: Sim, es: seq<Event>)
    requires Inv(s) && NoReset(es)
    requires Queued(s.junction) == 0 && EmergencyQueued(s.junction) == 0
    requires s.junction.totalVehiclesCleared == 0 && s.junction.emergencyVehiclesCleared == 0
    ensures var j := Run(s, es).junction;
            && j.totalVehiclesCleared == ArrivalCount(es) - Queued(j)
            && j.emergencyVehiclesCleared == EmergencyArrivalCount(es) - EmergencyQueued(j)
  {
    RunAccounting(s, es);
  }

  // ---------------------------------------------------------------------
  // Ticks that start nothing
  // ---------------------------------------------------------------------

  /**
   * A tick while an episode is in flight changes nothing; a tick on an
   * idle junction with every queue empty changes at most the status.
   */
  lemma GuardedTick(s: Sim)
    requires s.junction.isProcessing || AllEmpty(s.junction)
    ensures s.junction.isProcessing ==> Step(s, Tick) == s
    ensures Step(s, Tick) == s.(junction := s.junction.(statusMessage := Step(s, Tick).junction.statusMessage))
  {
    if !s.paused {
      DecideSkip(s.junction, s.blockSize);
      TickUnfold(s);
      assert s.pending + [] == s.pending;
    }
  }

  /** With no full-clearance vehicle and no eligible lane, a tick changes nothing. */
  lemma NothingEligibleTick(s: Sim)
    requires !HasFullClearanceVehicle(s.junction)
    requires forall l :: !Eligible(s.junction, l, s.blockSize)
    requires !AllEmpty(s.junction)
    ensures Step(s, Tick) == s
  {
    if !s.paused {
      if s.junction.isProcessing {
        GuardedTick(s);
      } else {
        NoneEligibleWaits(s.junction, s.blockSize);
        QuietCycle(s.junction, s.blockSize);
        TickUnfold(s);
        assert s.pending + [] == s.pending;
      }
    }
  }

  // ---------------------------------------------------------------------
  // Full clearance
  // ---------------------------------------------------------------------

  /** A full clearance of `l` with snapshot `snap`, of which `k` vehicles are gone. */
  predicate ClearingAt(s: Sim, l: LaneId, snap: seq<Vehicle>, k: nat)
  {
    && k <= |snap|
    && (|| (Awaits(s, ClearNext(l, snap, k)) && snap[k..] <= s.junction.Queue(l))
        || (k == |snap| && (Awaits(s, EndClearance(l)) || |s.pending| == 0)))
  }

  /** `cb` is the one timer pending. */
  predicate Awaits(s: Sim, cb: Callback)
  {
    |s.pending| == 1 && s.pending[0] == cb
  }

  lemma ClearingAtBound(s: Sim, l: LaneId, snap: seq<Vehicle>, k: nat)
    requires ClearingAt(s, l, snap, k)
    ensures |snap| - k <= |s.junction.Queue(l)|
  {
  }

  /**
   * One event of a clearance in progress took it from `k` to `k'` snapshot
   * vehicles gone: the clearance goes on, the part of lane `l` behind the
   * snapshot and every other lane gained only the event's arrival, and
   * each snapshot vehicle that left was counted.
   */
  predicate ClearingMove(s: Sim, e: Event, s': Sim, l: LaneId, snap: seq<Vehicle>, k: nat, k': nat)
  {
    && k <= k' <= |snap|
    && ClearingAt(s', l, snap, k')
    && Accounts(s, e, s', l, snap, k, k')
  }

  /**
   * The bookkeeping of a clearance move: the lanes gained only the event's
   * arrival, each snapshot vehicle that left was counted, and the id
   * counter moved by the arrival.
   */
  predicate Accounts(s: Sim, e: Event, s': Sim, l: LaneId, snap: seq<Vehicle>, k: nat, k': nat)
    requires k <= k' <= |snap|
  {
    && LanesMove(s.junction, s'.junction, s.nextId, e, l, |snap| - k, |snap| - k')
    && s'.junction.totalVehiclesCleared + (|snap| - k') == s.junction.totalVehiclesCleared + (|snap| - k)
    && s'.junction.emergencyVehiclesCleared + CountEmergency(snap[k'..])
         == s.junction.emergencyVehiclesCleared + CountEmergency(snap[k..])
    && s'.nextId == s.nextId + ArrivalWeight(e)
  }

  /**
   * The queues of `j'` are those of `j` with the event's arrival appended,
   * where lane `l` is compared from position `x` in `j` and `x'` in `j'` on.
   */
  predicate LanesMove(j: Junction, j': Junction, id: nat, e: Event, l: LaneId, x: nat, x': nat)
  {
    && x <= |j.Queue(l)| && x' <= |j'.Queue(l)|
    && j'.Queue(l)[x'..] == j.Queue(l)[x..] + ArrivalOf(id, e, l)
    && (forall m :: m != l ==> j'.Queue(m) == j.Queue(m) + ArrivalOf(id, e, m))
  }

  /**
   * One event of a clearance in progress: an arrival, a timer, a control
   * change, or a tick while the clearance's timer is still pending.
   */
  lemma ClearingStep(s: Sim, e: Event, l: LaneId, snap: seq<Vehicle>, k: nat) returns (k': nat)
    requires Inv(s) && ClearingAt(s, l, snap, k)
    requires !e.Reset? && (e.Tick? ==> |s.pending| > 0)
    ensures ClearingMove(s, e, Step(s, e), l, snap, k, k')
  {
    if e.Arrive? {
      ClearingArrive(s, e.vtype, e.lane, l, snap, k);
      k' := k;
    } else if e.Timeout? {
      if e.k < |s.pending| {
        assert e.k == 0;
        k' := ClearingTimeout(s, l, snap, k);
      } else {
        ClearingStale(s, e.k, l, snap, k);
        k' := k;
      }
    } else if e.Tick? {
      ClearingBusyTick(s, l, snap, k);
      k' := k;
    } else {
      ClearingQuiet(s, e, Step(s, e), l, snap, k);
      k' := k;
    }
  }

  /**
   * An event that adds no vehicle and leaves the junction, the timers and
   * the id counter as they were keeps a clearance where it is.
   */
  lemma ClearingQuiet(s: Sim, e: Event, s': Sim, l: LaneId, snap: seq<Vehicle>, k: nat)
    requires ClearingAt(s, l, snap, k) && !e.Arrive?
    requires s'.junction == s.junction && s'.pending == s.pending && s'.nextId == s.nextId
    ensures ClearingMove(s, e, s', l, snap, k, k)
  {
    ClearingAtBound(s, l, snap, k);
    ClearingAtSame(s, s', l, snap, k);
    QuietAccounts(s, e, s', l, snap, k);
  }

  /** The bookkeeping of an event that adds no vehicle and leaves the junction and the id counter alone. */
  lemma QuietAccounts(s: Sim, e: Event, s': Sim, l: LaneId, snap: seq<Vehicle>, k: nat)
    requires k <= |snap| && |snap| - k <= |s.junction.Queue(l)| && !e.Arrive?
    requires s'.junction == s.junction && s'.nextId == s.nextId
    ensures Accounts(s, e, s', l, snap, k, k)
  {
    QuietQueues(s.junction, s'.junction, s.nextId, e, l, |snap| - k, |snap| - k);
  }

  /** Whether a clearance is at `k` depends only on the junction and the timers. */
  lemma ClearingAtSame(s: Sim, s': Sim, l: LaneId, snap: seq<Vehicle>, k: nat)
    requires ClearingAt(s, l, snap, k)
    requires s'.junction == s.junction && s'.pending == s.pending
    ensures ClearingAt(s', l, snap, k)
  {
  }

  /** A tick while the clearance's timer is pending finds the junction busy and does nothing. */
  lemma ClearingBusyTick(s: Sim, l: LaneId, snap: seq<Vehicle>, k: nat)
    requires Inv(s) && ClearingAt(s, l, snap, k) && |s.pending| > 0
    ensures ClearingMove(s, Tick, Step(s, Tick), l, snap, k, k)
  {
    assert InEpisode(s.junction, s.pending[0]);
    BusyTickIsNoOp(s);
    ClearingQuiet(s, Tick, s, l, snap, k);
  }

  lemma ClearingStale(s: Sim, i: nat, l: LaneId, snap: seq<Vehicle>, k: nat)
    requires ClearingAt(s, l, snap, k) && i >= |s.pending|
    ensures ClearingMove(s, Timeout(i), Step(s, Timeout(i)), l, snap, k, k)
  {
    assert Step(s, Timeout(i)) == s;
    ClearingAtBound(s, l, snap, k);
    QuietQueues(s.junction, s.junction, s.nextId, Timeout(i), l, |snap| - k, |snap| - k);
  }

  /** An event other than an arrival adds no vehicle to any queue. */
  lemma QuietQueues(j: Junction, j': Junction, id: nat, e: Event, l: LaneId, x: nat, x': nat)
    requires !e.Arrive?
    requires x <= |j.Queue(l)| && x' <= |j'.Queue(l)|
    requires j'.Queue(l)[x'..] == j.Queue(l)[x..]
    requires forall m :: m != l ==> j'.Queue(m) == j.Queue(m)
    ensures LanesMove(j, j', id, e, l, x, x')
  {
    assert j.Queue(l)[x..] + [] == j.Queue(l)[x..];
    forall m | m != l ensures j'.Queue(m) == j.Queue(m) + ArrivalOf(id, e, m) {
      assert j.Queue(m) + [] == j.Queue(m);
    }
  }

  lemma ClearingArrive(s: Sim, t: VehicleType, a: LaneId, l: LaneId, snap: seq<Vehicle>, k: nat)
    requires ClearingAt(s, l, snap, k)
    ensures ClearingMove(s, Arrive(t, a), Step(s, Arrive(t, a)), l, snap, k, k)
  {
    ArriveUnfold(s, t, a);
    ArrivalKeepsClearing(s, t, a, l, snap, k);
    ClearingAtBound(s, l, snap, k);
    ArrivalAccounts(s, Step(s, Arrive(t, a)), t, a, l, snap, k);
  }

  /** The bookkeeping of an arrival during a clearance. */
  lemma ArrivalAccounts(s: Sim, s': Sim, t: VehicleType, a: LaneId, l: LaneId, snap: seq<Vehicle>, k: nat)
    requires s'.junction == AppendVehicle(s.junction, a, NewVehicle(s.nextId, t, a))
    requires s'.nextId == s.nextId + 1
    requires k <= |snap| && |snap| - k <= |s.junction.Queue(l)|
    ensures Accounts(s, Arrive(t, a), s', l, snap, k, k)
  {
    var j := s.junction;
    ArrivalQueues(j, s.nextId, t, a, l, |snap| - k);
    ArrivalCounters(j, a, NewVehicle(s.nextId, t, a));
  }

  /** An arrival leaves both counters alone. */
  lemma ArrivalCounters(j: Junction, a: LaneId, v: Vehicle)
    ensures AppendVehicle(j, a, v).totalVehiclesCleared == j.totalVehiclesCleared
    ensures AppendVehicle(j, a, v).emergencyVehiclesCleared == j.emergencyVehiclesCleared
  {
  }

  /** An arrival leaves the pending timer alone and cannot cut into the snapshot. */
  lemma ArrivalKeepsClearing(s: Sim, t: VehicleType, a: LaneId, l: LaneId, snap: seq<Vehicle>, k: nat)
    requires ClearingAt(s, l, snap, k)
    ensures ClearingAt(Step(s, Arrive(t, a)), l, snap, k)
  {
    var v := NewVehicle(s.nextId, t, a);
    ArriveUnfold(s, t, a);
    if Awaits(s, ClearNext(l, snap, k)) && a == l {
      PrefixAppend(snap[k..], s.junction.Queue(l), v);
    }
  }

  /** What an arrival on lane `a` does to the queue of any lane, from position `x` on. */
  lemma ArrivalQueues(j: Junction, id: nat, t: VehicleType, a: LaneId, l: LaneId, x: nat)
    requires x <= |j.Queue(l)|
    ensures LanesMove(j, AppendVehicle(j, a, NewVehicle(id, t, a)), id, Arrive(t, a), l, x, x)
  {
    var v := NewVehicle(id, t, a);
    var r := AppendVehicle(j, a, v);
    if a == l {
      assert (j.Queue(l) + [v])[x..] == j.Queue(l)[x..] + [v];
    } else {
      assert j.Queue(l)[x..] + [] == j.Queue(l)[x..];
    }
    forall m | m != l ensures r.Queue(m) == j.Queue(m) + ArrivalOf(id, Arrive(t, a), m) {
      if a != m {
        assert j.Queue(m) + [] == j.Queue(m);
      }
    }
  }

  /** The pending timer of a clearance fires. */
  lemma ClearingTimeout(s: Sim, l: LaneId, snap: seq<Vehicle>, k: nat) returns (k': nat)
    requires ClearingAt(s, l, snap, k) && 0 < |s.pending|
    ensures ClearingMove(s, Timeout(0), Step(s, Timeout(0)), l, snap, k, k')
  {
    if Awaits(s, ClearNext(l, snap, k)) && k < |snap| {
      ClearingAdvance(s, l, snap, k);
      k' := k + 1;
    } else {
      assert k == |snap|;
      ClearingWindsDown(s, l, snap);
      k' := k;
    }
  }

  /** The timer of a clearance with vehicles left clears the next snapshot vehicle. */
  lemma ClearingAdvance(s: Sim, l: LaneId, snap: seq<Vehicle>, k: nat)
    requires Awaits(s, ClearNext(l, snap, k)) && k < |snap| && snap[k..] <= s.junction.Queue(l)
    ensures ClearingMove(s, Timeout(0), Step(s, Timeout(0)), l, snap, k, k + 1)
  {
    SoleTimeout(s);
    ClearingNextVehicle(s.junction, l, snap, k);
    var s' := Step(s, Timeout(0));
    assert ClearingAt(s', l, snap, k + 1);
    ClearingAtBound(s', l, snap, k + 1);
    QuietQueues(s.junction, s'.junction, s.nextId, Timeout(0), l, |snap| - k, |snap| - (k + 1));
  }

  /** The last two timers of a clearance move no vehicle and count nothing. */
  lemma ClearingWindsDown(s: Sim, l: LaneId, snap: seq<Vehicle>)
    requires Awaits(s, ClearNext(l, snap, |snap|)) || Awaits(s, EndClearance(l))
    ensures ClearingMove(s, Timeout(0), Step(s, Timeout(0)), l, snap, |snap|, |snap|)
  {
    SoleTimeout(s);
    var s' := Step(s, Timeout(0));
    assert s'.junction.lanes == s.junction.lanes;
    QuietQueues(s.junction, s'.junction, s.nextId, Timeout(0), l, 0, 0);
  }

  /** Clearing snapshot vehicle `k`: it is the head of the lane, and leaves it. */
  lemma ClearingNextVehicle(j: Junction, l: LaneId, snap: seq<Vehicle>, k: nat)
    requires k < |snap| && snap[k..] <= j.Queue(l)
    ensures var r := ClearStep(j, l, snap[k]);
            && snap[k + 1..] <= r.Queue(l)
            && r.Queue(l)[|snap| - (k + 1)..] == j.Queue(l)[|snap| - k..]
            && (forall m :: m != l ==> r.Queue(m) == j.Queue(m))
            && r.totalVehiclesCleared == j.totalVehiclesCleared + 1
            && r.emergencyVehiclesCleared + CountEmergency(snap[k + 1..])
                 == j.emergencyVehiclesCleared + CountEmergency(snap[k..])
  {
    var q := j.Queue(l);
    assert q[..|snap[k..]|] == snap[k..];
    assert q[0] == snap[k];
    var r := ClearStep(j, l, snap[k]);
    assert r.Queue(l) == q[1..];
    assert q[1..][|snap| - (k + 1)..] == q[|snap| - k..];
    assert snap[k..][1..] == snap[k + 1..];
  }

  lemma RunCons(s: Sim, es: seq<Event>)
    requires |es| > 0
    ensures Run(s, es) == Run(Step(s, es[0]), es[1..])
  {
  }

  /**
   * What a finished episode serving the vehicles `snap` of lane `l` leaves
   * in `r`, starting from `j` with `k` of them gone and then the events
   * `es`: the rest of `snap` has left the head of `l`, every arrival is
   * queued in order, and the counters account for the rest of `snap`. A
   * full clearance serves its snapshot, a normal episode its lane's head.
   */
  predicate ServedOutcome(j: Junction, id: nat, es: seq<Event>, r: Junction,
                             l: LaneId, snap: seq<Vehicle>, k: nat)
  {
    && k <= |snap| && |snap| - k <= |j.Queue(l)|
    && r.Queue(l) == j.Queue(l)[|snap| - k..] + Arrivals(id, es, l)
    && (forall m :: m != l ==> r.Queue(m) == j.Queue(m) + Arrivals(id, es, m))
    && r.totalVehiclesCleared == j.totalVehiclesCleared + (|snap| - k)
    && r.emergencyVehiclesCleared == j.emergencyVehiclesCleared + CountEmergency(snap[k..])
  }

  /** One clearance event followed by the outcome of the rest is the outcome of all. */
  lemma RestCompose(j: Junction, id: nat, e: Event, es: seq<Event>, j': Junction, id': nat,
                    r: Junction, l: LaneId, snap: seq<Vehicle>, k: nat, k': nat)
    requires k <= k' <= |snap| && |snap| - k <= |j.Queue(l)| && |snap| - k' <= |j'.Queue(l)|
    requires j'.Queue(l)[|snap| - k'..] == j.Queue(l)[|snap| - k..] + ArrivalOf(id, e, l)
    requires forall m :: m != l ==> j'.Queue(m) == j.Queue(m) + ArrivalOf(id, e, m)
    requires j'.totalVehiclesCleared + (|snap| - k') == j.totalVehiclesCleared + (|snap| - k)
    requires j'.emergencyVehiclesCleared + CountEmergency(snap[k'..])
               == j.emergencyVehiclesCleared + CountEmergency(snap[k..])
    requires id' == id + ArrivalWeight(e)
    requires ServedOutcome(j', id', es, r, l, snap, k')
    ensures ServedOutcome(j, id, [e] + es, r, l, snap, k)
  {
    LanesCompose(j, id, e, es, j', r, l, |snap| - k, |snap| - k');
  }

  /** The lanes part of `RestCompose`: an event's arrival, then the rest's arrivals. */
  lemma LanesCompose(j: Junction, id: nat, e: Event, es: seq<Event>, j': Junction,
                     r: Junction, l: LaneId, x: nat, x': nat)
    requires x <= |j.Queue(l)| && x' <= |j'.Queue(l)|
    requires j'.Queue(l)[x'..] == j.Queue(l)[x..] + ArrivalOf(id, e, l)
    requires forall m :: m != l ==> j'.Queue(m) == j.Queue(m) + ArrivalOf(id, e, m)
    requires r.Queue(l) == j'.Queue(l)[x'..] + Arrivals(id + ArrivalWeight(e), es, l)
    requires forall m :: m != l ==> r.Queue(m) == j'.Queue(m) + Arrivals(id + ArrivalWeight(e), es, m)
    ensures r.Queue(l) == j.Queue(l)[x..] + Arrivals(id, [e] + es, l)
    ensures forall m :: m != l ==> r.Queue(m) == j.Queue(m) + Arrivals(id, [e] + es, m)
  {
    var id' := id + ArrivalWeight(e);
    ArrivalsFirst(id, e, es, l);
    QueueCompose(j.Queue(l)[x..], j'.Queue(l)[x'..], ArrivalOf(id, e, l), Arrivals(id', es, l), r.Queue(l));
    forall m | m != l ensures r.Queue(m) == j.Queue(m) + Arrivals(id, [e] + es, m) {
      ArrivalsFirst(id, e, es, m);
      QueueCompose(j.Queue(m), j'.Queue(m), ArrivalOf(id, e, m), Arrivals(id', es, m), r.Queue(m));
    }
  }

  /** The first event's bookkeeping, then a finished rest of the episode, make a finished episode. */
  lemma EpisodeCompose(s: Sim, s': Sim, es: seq<Event>, l: LaneId, snap: seq<Vehicle>, k: nat, k': nat)
    requires |es| > 0 && Run(s, es) == Run(s', es[1..])
    requires k <= k' <= |snap| && Accounts(s, es[0], s', l, snap, k, k')
    requires EpisodeDone(s', es[1..], l, snap, k')
    ensures EpisodeDone(s, es, l, snap, k)
  {
    var r := Run(s', es[1..]);
    if |r.pending| == 0 {
      MoveCompose(s, es[0], s', es[1..], r.junction, l, snap, k, k');
      assert [es[0]] + es[1..] == es;
    }
  }

  /** The bookkeeping of one event followed by the outcome of the rest is the outcome of all. */
  lemma MoveCompose(s: Sim, e: Event, s': Sim, es: seq<Event>, r: Junction,
                    l: LaneId, snap: seq<Vehicle>, k: nat, k': nat)
    requires k <= k' <= |snap| && Accounts(s, e, s', l, snap, k, k')
    requires ServedOutcome(s'.junction, s'.nextId, es, r, l, snap, k')
    ensures ServedOutcome(s.junction, s.nextId, [e] + es, r, l, snap, k)
  {
    RestCompose(s.junction, s.nextId, e, es, s'.junction, s'.nextId, r, l, snap, k, k');
  }

  /** Arrivals queued in two stages are the arrivals of both stages, in order. */
  lemma QueueCompose(q: seq<Vehicle>, q': seq<Vehicle>, a: seq<Vehicle>, rest: seq<Vehicle>, r: seq<Vehicle>)
    requires q' == q + a && r == q' + rest
    ensures r == q + (a + rest)
  {
  }

  lemma ArrivalsFirst(id: nat, e: Event, es: seq<Event>, l: LaneId)
    ensures Arrivals(id, [e] + es, l) == ArrivalOf(id, e, l) + Arrivals(id + ArrivalWeight(e), es, l)
  {
    assert ([e] + es)[0] == e && ([e] + es)[1..] == es;
  }

  /**
   * The rest of a clearance under the events `DuringEpisode` admits:
   * once no timer is pending, the snapshot vehicles not yet gone have left
   * the head of the lane and every arrival is still queued.
   */
  lemma {:induction false} ClearanceRest(s: Sim, es: seq<Event>, l: LaneId, snap: seq<Vehicle>, k: nat)
    requires ClearingState(s, l, snap, k)
    requires DuringEpisode(s, es)
    ensures EpisodeDone(s, es, l, snap, k)
    decreases |es|
  {
    if |es| == 0 {
      ClearanceDone(s, es, l, snap, k);
    } else {
      var e := es[0];
      var s' := Step(s, e);
      DuringEpisodeCons(s, es);
      var k' := ClearingStepKeeps(s, e, l, snap, k);
      ClearanceRest(s', es[1..], l, snap, k');
      RunCons(s, es);
      EpisodeCompose(s, s', es, l, snap, k, k');
    }
  }

  /** A clearance in progress in a simulation that keeps the episode invariant. */
  predicate ClearingState(s: Sim, l: LaneId, snap: seq<Vehicle>, k: nat)
  {
    Inv(s) && ClearingAt(s, l, snap, k)
  }

  /** One clearance event keeps both the clearance and the invariant going. */
  lemma ClearingStepKeeps(s: Sim, e: Event, l: LaneId, snap: seq<Vehicle>, k: nat) returns (k': nat)
    requires ClearingState(s, l, snap, k)
    requires !e.Reset? && (e.Tick? ==> |s.pending| > 0)
    ensures ClearingMove(s, e, Step(s, e), l, snap, k, k')
    ensures ClearingState(Step(s, e), l, snap, k')
  {
    k' := ClearingStep(s, e, l, snap, k);
    StepKeepsInv(s, e);
  }

  /**
   * The events an episode runs under, from state `s` on: arrivals, timer
   * firings, control changes, and ticks while a timer is still pending
   * (the interval keeps firing during an episode). Left out are resets,
   * and ticks after the last timer, which may start the next episode.
   */
  predicate DuringEpisode(s: Sim, es: seq<Event>)
    decreases |es|
  {
    || |es| == 0
    || (&& !es[0].Reset?
        && (es[0].Tick? ==> |s.pending| > 0)
        && DuringEpisode(Step(s, es[0]), es[1..]))
  }

  lemma DuringEpisodeCons(s: Sim, es: seq<Event>)
    requires DuringEpisode(s, es) && |es| > 0
    ensures !es[0].Reset? && (es[0].Tick? ==> |s.pending| > 0) && DuringEpisode(Step(s, es[0]), es[1..])
  {
  }

  /** Once the events `es` leave no timer pending, the episode has had its `ServedOutcome`. */
  predicate EpisodeDone(s: Sim, es: seq<Event>, l: LaneId, snap: seq<Vehicle>, k: nat)
  {
    |Run(s, es).pending| == 0 ==> ServedOutcome(s.junction, s.nextId, es, Run(s, es).junction, l, snap, k)
  }

  /** With no timer left, the clearance is over and nothing else has happened. */
  lemma ClearanceDone(s: Sim, es: seq<Event>, l: LaneId, snap: seq<Vehicle>, k: nat)
    requires ClearingAt(s, l, snap, k) && |es| == 0
    ensures EpisodeDone(s, es, l, snap, k)
  {
    if |s.pending| == 0 {
      EmptyOutcome(s, l, snap, k);
    }
  }

  lemma EmptyOutcome(s: Sim, l: LaneId, snap: seq<Vehicle>, k: nat)
    requires ClearingAt(s, l, snap, k) && |s.pending| == 0
    ensures ServedOutcome(s.junction, s.nextId, [], s.junction, l, snap, k)
  {
    assert k == |snap|;
    assert s.junction.Queue(l)[0..] + [] == s.junction.Queue(l);
    forall m | m != l ensures s.junction.Queue(m) + Arrivals(s.nextId, [], m) == s.junction.Queue(m) {
      assert s.junction.Queue(m) + [] == s.junction.Queue(m);
    }
  }

  /**
   * A full clearance removes exactly its snapshot. When a tick starts a
   * full clearance of lane `l`, then whatever arrivals, timer firings,
   * control changes and ticks during the clearance follow, once the
   * episode is over lane `l` holds precisely the vehicles
   * that arrived on it meanwhile, in arrival order; the other lanes only
   * gained their arrivals; `totalVehiclesCleared` rose by the snapshot
   * length and `emergencyVehiclesCleared` by its emergency vehicles.
   */
  lemma ClearanceRemovesSnapshot(s: Sim, l: LaneId, es: seq<Event>)
    requires Inv(s) && !s.paused
    requires Decide(s.junction, s.blockSize) == Clear(l)
    requires DuringEpisode(Step(s, Tick), es)
    ensures var snap := s.junction.Queue(l);
            var r := Run(Step(s, Tick), es);
            |r.pending| == 0 ==>
              && r.junction.Queue(l) == Arrivals(s.nextId, es, l)
              && (forall m :: m != l ==>
                    r.junction.Queue(m) == s.junction.Queue(m) + Arrivals(s.nextId, es, m))
              && r.junction.totalVehiclesCleared == s.junction.totalVehiclesCleared + |snap|
              && r.junction.emergencyVehiclesCleared
                   == s.junction.emergencyVehiclesCleared + CountEmergency(snap)
  {
    var snap := s.junction.Queue(l);
    var s0 := ClearanceTick(s, l);
    ClearanceRest(s0, es, l, snap, 1);
    var r := Run(s0, es);
    if |r.pending| == 0 {
      OutcomeAfterFirst(s.junction, s0.junction, s.nextId, es, r.junction, l);
    }
  }

  /** Adding the tick's own removal to the outcome of the rest of the clearance. */
  lemma OutcomeAfterFirst(j: Junction, j0: Junction, id: nat, es: seq<Event>, r: Junction, l: LaneId)
    requires |j.Queue(l)| > 0
    requires j0.Queue(l) == j.Queue(l)[1..]
    requires forall m :: m != l ==> j0.Queue(m) == j.Queue(m)
    requires j0.totalVehiclesCleared == j.totalVehiclesCleared + 1
    requires j0.emergencyVehiclesCleared == j.emergencyVehiclesCleared + EmergencyWeight(j.Queue(l)[0])
    requires ServedOutcome(j0, id, es, r, l, j.Queue(l), 1)
    ensures r.Queue(l) == Arrivals(id, es, l)
    ensures forall m :: m != l ==> r.Queue(m) == j.Queue(m) + Arrivals(id, es, m)
    ensures r.totalVehiclesCleared == j.totalVehiclesCleared + |j.Queue(l)|
    ensures r.emergencyVehiclesCleared == j.emergencyVehiclesCleared + CountEmergency(j.Queue(l))
  {
    var snap := j.Queue(l);
    assert j0.Queue(l)[|snap| - 1..] == [];
    assert [] + Arrivals(id, es, l) == Arrivals(id, es, l);
  }

  /** The tick that starts a full clearance leaves it one vehicle in. */
  lemma ClearanceTick(s: Sim, l: LaneId) returns (s0: Sim)
    requires Inv(s) && !s.paused
    requires Decide(s.junction, s.blockSize) == Clear(l)
    ensures s0 == Step(s, Tick)
    ensures |s.junction.Queue(l)| > 0
    ensures ClearingState(s0, l, s.junction.Queue(l), 1)
    ensures s0.nextId == s.nextId
    ensures s0.junction.Queue(l) == s.junction.Queue(l)[1..]
    ensures forall m :: m != l ==> s0.junction.Queue(m) == s.junction.Queue(m)
    ensures s0.junction.totalVehiclesCleared == s.junction.totalVehiclesCleared + 1
    ensures s0.junction.emergencyVehiclesCleared
              == s.junction.emergencyVehiclesCleared + EmergencyWeight(s.junction.Queue(l)[0])
  {
    assert |s.pending| == 0;
    ClearanceStart(s.junction, s.blockSize, l);
    TickUnfold(s);
    TickKeepsInv(s);
    s0 := Step(s, Tick);
  }

  // ---------------------------------------------------------------------
  // Normal episode and round robin
  // ---------------------------------------------------------------------

  /** One complete normal episode: the tick, the end of green, the end of yellow. */
  const NormalEpisodeEvents: seq<Event> := [Tick, Timeout(0), Timeout(0)]

  /**
   * A normal episode serves exactly one vehicle: the head of the chosen
   * lane leaves, both counters account for it, the cursor names the lane,
   * and the junction rests again with the signal red.
   */
  lemma NormalEpisodeEffect(s: Sim, l: LaneId)
    requires Inv(s) && !s.paused
    requires Decide(s.junction, s.blockSize) == Serve(l)
    ensures var q := s.junction.Queue(l);
            var r := Run(s, NormalEpisodeEvents);
            && |q| > 0
            && Inv(r) && r.pending == [] && Resting(r.junction)
            && r.junction.Queue(l) == q[1..]
            && (forall m :: m != l ==> r.junction.Queue(m) == s.junction.Queue(m))
            && r.junction.totalVehiclesCleared == s.junction.totalVehiclesCleared + 1
            && r.junction.emergencyVehiclesCleared
                 == s.junction.emergencyVehiclesCleared + EmergencyWeight(q[0])
            && r.junction.lastProcessedLaneIndex == IndexOf(l)
            && r.blockSize == s.blockSize && r.paused == s.paused && r.nextId == s.nextId
  {
    NormalTick(s, l);
    EpisodeEventsUnfold(s);
    NormalEpisodeAfterTick(s, Step(s, Tick), l);
  }

  /**
   * A normal episode serves the head of its lane and nothing else. When a
   * tick starts a normal episode on lane `l`, then whatever arrivals, timer
   * firings, control changes and ticks during the episode follow, once it
   * is over lane `l` has lost exactly its old head and gained its arrivals
   * in order, the other lanes only gained their arrivals, and both counters
   * account for that one vehicle.
   */
  lemma NormalEpisodeServesHead(s: Sim, l: LaneId, es: seq<Event>)
    requires Inv(s) && !s.paused
    requires Decide(s.junction, s.blockSize) == Serve(l)
    requires DuringEpisode(Step(s, Tick), es)
    ensures var q := s.junction.Queue(l);
            var r := Run(Step(s, Tick), es);
            && |q| > 0
            && (|r.pending| == 0 ==>
                  && r.junction.Queue(l) == q[1..] + Arrivals(s.nextId, es, l)
                  && (forall m :: m != l ==>
                        r.junction.Queue(m) == s.junction.Queue(m) + Arrivals(s.nextId, es, m))
                  && r.junction.totalVehiclesCleared == s.junction.totalVehiclesCleared + 1
                  && r.junction.emergencyVehiclesCleared
                       == s.junction.emergencyVehiclesCleared + EmergencyWeight(q[0]))
  {
    var s0 := ServingTick(s, l);
    NormalRest(s0, es, l, [s.junction.Queue(l)[0]], 0);
    var r := Run(s0, es);
    if |r.pending| == 0 {
      OutcomeOfHead(s.junction, s0.junction, s.nextId, es, r.junction, l);
    }
  }

  /** Serving the one-vehicle snapshot `[q[0]]` of an untouched junction takes exactly the head off. */
  lemma OutcomeOfHead(j: Junction, j0: Junction, id: nat, es: seq<Event>, r: Junction, l: LaneId)
    requires |j.Queue(l)| > 0 && j0.lanes == j.lanes
    requires j0.totalVehiclesCleared == j.totalVehiclesCleared
    requires j0.emergencyVehiclesCleared == j.emergencyVehiclesCleared
    requires ServedOutcome(j0, id, es, r, l, [j.Queue(l)[0]], 0)
    ensures r.Queue(l) == j.Queue(l)[1..] + Arrivals(id, es, l)
    ensures forall m :: m != l ==> r.Queue(m) == j.Queue(m) + Arrivals(id, es, m)
    ensures r.totalVehiclesCleared == j.totalVehiclesCleared + 1
    ensures r.emergencyVehiclesCleared == j.emergencyVehiclesCleared + EmergencyWeight(j.Queue(l)[0])
  {
    var v := j.Queue(l)[0];
    assert [v][0..] == [v] && [v][1..] == [];
    assert forall m :: j0.Queue(m) == j.Queue(m);
  }

  /** The tick that starts a normal episode leaves it serving the lane's head. */
  lemma ServingTick(s: Sim, l: LaneId) returns (s0: Sim)
    requires Inv(s) && !s.paused
    requires Decide(s.junction, s.blockSize) == Serve(l)
    ensures s0 == Step(s, Tick)
    ensures |s.junction.Queue(l)| > 0
    ensures ServingState(s0, l, [s.junction.Queue(l)[0]], 0)
    ensures s0.nextId == s.nextId && s0.junction.lanes == s.junction.lanes
    ensures s0.junction.totalVehiclesCleared == s.junction.totalVehiclesCleared
    ensures s0.junction.emergencyVehiclesCleared == s.junction.emergencyVehiclesCleared
  {
    NormalTick(s, l);
    TickKeepsInv(s);
    s0 := Step(s, Tick);
  }

  /**
   * A normal episode of lane `l` serving the one vehicle of `snap`, its
   * head when the episode began, with `k` of it gone: green or yellow is
   * pending, or the episode is over.
   */
  predicate ServingAt(s: Sim, l: LaneId, snap: seq<Vehicle>, k: nat)
  {
    && |snap| == 1
    && (|| (k == 0 && (Awaits(s, EndGreen(l, snap[0])) || Awaits(s, EndYellow(l, snap[0]))))
        || (k == 1 && |s.pending| == 0))
  }

  /** A normal episode in progress in a simulation that keeps the episode invariant. */
  predicate ServingState(s: Sim, l: LaneId, snap: seq<Vehicle>, k: nat)
  {
    Inv(s) && ServingAt(s, l, snap, k)
  }

  /**
   * One event of a normal episode took it from `k` to `k'` vehicles gone:
   * the episode goes on and the bookkeeping is that of serving `snap`.
   */
  predicate ServingMove(s: Sim, e: Event, s': Sim, l: LaneId, snap: seq<Vehicle>, k: nat, k': nat)
  {
    && k <= k' <= |snap|
    && ServingAt(s', l, snap, k')
    && Accounts(s, e, s', l, snap, k, k')
  }

  /** While the vehicle is still to leave, it heads its lane. */
  lemma ServingHead(s: Sim, l: LaneId, snap: seq<Vehicle>, k: nat)
    requires ServingState(s, l, snap, k)
    ensures k <= |snap| && |snap| - k <= |s.junction.Queue(l)|
  {
    if k == 0 {
      assert InEpisode(s.junction, s.pending[0]);
    }
  }

  /**
   * The rest of a normal episode serving the one vehicle of `snap`, under
   * the events `DuringEpisode` admits: once no timer is pending, that
   * vehicle has left the head of the lane and every arrival is still queued.
   */
  lemma {:induction false} NormalRest(s: Sim, es: seq<Event>, l: LaneId, snap: seq<Vehicle>, k: nat)
    requires ServingState(s, l, snap, k)
    requires DuringEpisode(s, es)
    ensures EpisodeDone(s, es, l, snap, k)
    decreases |es|
  {
    if |es| == 0 {
      ServingDone(s, es, l, snap, k);
    } else {
      var e := es[0];
      var s' := Step(s, e);
      DuringEpisodeCons(s, es);
      var k' := ServingStepKeeps(s, e, l, snap, k);
      NormalRest(s', es[1..], l, snap, k');
      RunCons(s, es);
      EpisodeCompose(s, s', es, l, snap, k, k');
    }
  }

  /** With no timer left, the normal episode is over and nothing else has happened. */
  lemma ServingDone(s: Sim, es: seq<Event>, l: LaneId, snap: seq<Vehicle>, k: nat)
    requires ServingAt(s, l, snap, k) && |es| == 0
    ensures EpisodeDone(s, es, l, snap, k)
  {
    if k == 1 {
      assert ClearingAt(s, l, snap, k);
      ClearanceDone(s, es, l, snap, k);
    } else {
      assert Run(s, es) == s && |s.pending| == 1;
    }
  }

  /** One event of a normal episode keeps both the episode and the invariant going. */
  lemma ServingStepKeeps(s: Sim, e: Event, l: LaneId, snap: seq<Vehicle>, k: nat) returns (k': nat)
    requires ServingState(s, l, snap, k)
    requires !e.Reset? && (e.Tick? ==> |s.pending| > 0)
    ensures ServingMove(s, e, Step(s, e), l, snap, k, k')
    ensures ServingState(Step(s, e), l, snap, k')
  {
    k' := ServingStep(s, e, l, snap, k);
    StepKeepsInv(s, e);
  }

  /**
   * One event of a normal episode in progress: an arrival, a timer, a
   * control change, or a tick while a timer is still pending.
   */
  lemma ServingStep(s: Sim, e: Event, l: LaneId, snap: seq<Vehicle>, k: nat) returns (k': nat)
    requires ServingState(s, l, snap, k)
    requires !e.Reset? && (e.Tick? ==> |s.pending| > 0)
    ensures ServingMove(s, e, Step(s, e), l, snap, k, k')
  {
    ServingHead(s, l, snap, k);
    if e.Arrive? {
      ArriveUnfold(s, e.vtype, e.lane);
      ArrivalAccounts(s, Step(s, e), e.vtype, e.lane, l, snap, k);
      k' := k;
    } else if e.Timeout? && e.k < |s.pending| {
      assert e.k == 0 && k == 0;
      k' := ServingTimeout(s, l, snap);
    } else if e.Tick? {
      assert InEpisode(s.junction, s.pending[0]);
      BusyTickIsNoOp(s);
      QuietAccounts(s, e, s, l, snap, k);
      k' := k;
    } else {
      QuietAccounts(s, e, Step(s, e), l, snap, k);
      k' := k;
    }
  }

  /** The pending timer of a normal episode fires: green turns yellow, or the head leaves. */
  lemma ServingTimeout(s: Sim, l: LaneId, snap: seq<Vehicle>) returns (k': nat)
    requires Inv(s) && ServingAt(s, l, snap, 0)
    ensures ServingMove(s, Timeout(0), Step(s, Timeout(0)), l, snap, 0, k')
  {
    if Awaits(s, EndGreen(l, snap[0])) {
      ServingYellow(s, l, snap);
      k' := 0;
    } else {
      ServingFinish(s, l, snap);
      k' := 1;
    }
  }

  /** The end of green moves no vehicle. */
  lemma ServingYellow(s: Sim, l: LaneId, snap: seq<Vehicle>)
    requires Inv(s) && |snap| == 1 && Awaits(s, EndGreen(l, snap[0]))
    ensures ServingMove(s, Timeout(0), Step(s, Timeout(0)), l, snap, 0, 0)
  {
    SoleTimeout(s);
    assert InEpisode(s.junction, s.pending[0]);
    var s' := Step(s, Timeout(0));
    assert s'.junction == NormalYellow(s.junction) && s'.pending == [EndYellow(l, snap[0])];
    QuietQueues(s.junction, s'.junction, s.nextId, Timeout(0), l, 1, 1);
  }

  /** The end of yellow takes the head off the lane and counts it. */
  lemma ServingFinish(s: Sim, l: LaneId, snap: seq<Vehicle>)
    requires Inv(s) && |snap| == 1 && Awaits(s, EndYellow(l, snap[0]))
    ensures ServingMove(s, Timeout(0), Step(s, Timeout(0)), l, snap, 0, 1)
  {
    SoleTimeout(s);
    assert InEpisode(s.junction, s.pending[0]);
    var s' := Step(s, Timeout(0));
    assert s'.junction == NormalFinish(s.junction, l, snap[0]) && s'.pending == [];
    assert s'.junction.Queue(l)[0..] == s.junction.Queue(l)[1..];
    QuietQueues(s.junction, s'.junction, s.nextId, Timeout(0), l, 1, 0);
    assert snap[1..] == [] && snap[0..] == [snap[0]];
  }

  /** The tick that starts a normal episode, at the level of the whole simulation. */
  lemma NormalTick(s: Sim, l: LaneId)
    requires Inv(s) && !s.paused
    requires Decide(s.junction, s.blockSize) == Serve(l)
    ensures |s.junction.Queue(l)| > 0
    ensures var v := s.junction.Queue(l)[0];
            Step(s, Tick) == s.(junction := BeginNormal(s.junction, l, v), pending := [EndGreen(l, v)])
  {
    assert |s.pending| == 0;
    NormalStart(s.junction, s.blockSize, l);
    TickUnfold(s);
  }

  /** The two timeouts of a normal episode, from the state its tick left behind. */
  lemma NormalEpisodeAfterTick(s: Sim, s1: Sim, l: LaneId)
    requires |s.junction.Queue(l)| > 0
    requires s1 == s.(junction := s1.junction, pending := [EndGreen(l, s.junction.Queue(l)[0])])
    requires WellFormed(s1.junction) && s1.junction.lanes == s.junction.lanes
    requires s1.junction.lastProcessedLaneIndex == IndexOf(l)
    requires s1.junction.totalVehiclesCleared == s.junction.totalVehiclesCleared
    requires s1.junction.emergencyVehiclesCleared == s.junction.emergencyVehiclesCleared
    ensures var q := s.junction.Queue(l);
            var r := Step(Step(s1, Timeout(0)), Timeout(0));
            && Inv(r) && r.pending == [] && Resting(r.junction)
            && r.junction.Queue(l) == q[1..]
            && (forall m :: m != l ==> r.junction.Queue(m) == s.junction.Queue(m))
            && r.junction.totalVehiclesCleared == s.junction.totalVehiclesCleared + 1
            && r.junction.emergencyVehiclesCleared
                 == s.junction.emergencyVehiclesCleared + EmergencyWeight(q[0])
            && r.junction.lastProcessedLaneIndex == IndexOf(l)
            && r.blockSize == s.blockSize && r.paused == s.paused && r.nextId == s.nextId
  {
    var v := s.junction.Queue(l)[0];
    GreenEnds(s1, l, v);
    var s2 := Step(s1, Timeout(0));
    YellowEnds(s2, l, v);
    NormalEpisodeJunction(s.junction, s1.junction, l);
  }

  /** The junction after the yellow of a normal episode whose green began in `j1`. */
  lemma NormalEpisodeJunction(j: Junction, j1: Junction, l: LaneId)
    requires |j.Queue(l)| > 0
    requires WellFormed(j1) && j1.lanes == j.lanes && j1.lastProcessedLaneIndex == IndexOf(l)
    requires j1.totalVehiclesCleared == j.totalVehiclesCleared
    requires j1.emergencyVehiclesCleared == j.emergencyVehiclesCleared
    ensures var r := NormalFinish(NormalYellow(j1), l, j.Queue(l)[0]);
            && WellFormed(r) && Resting(r)
            && r.Queue(l) == j.Queue(l)[1..]
            && (forall m :: m != l ==> r.Queue(m) == j.Queue(m))
            && r.totalVehiclesCleared == j.totalVehiclesCleared + 1
            && r.emergencyVehiclesCleared == j.emergencyVehiclesCleared + EmergencyWeight(j.Queue(l)[0])
            && r.lastProcessedLaneIndex == IndexOf(l)
  {
  }

  lemma EpisodeEventsUnfold(s: Sim)
    ensures Run(s, NormalEpisodeEvents) == Step(Step(Step(s, Tick), Timeout(0)), Timeout(0))
  {
    assert NormalEpisodeEvents[1..] == [Timeout(0), Timeout(0)];
    assert NormalEpisodeEvents[1..][1..] == [Timeout(0)];
  }

  /** The end of a normal green: yellow, nothing passing, the end of yellow scheduled. */
  lemma GreenEnds(s: Sim, l: LaneId, v: Vehicle)
    requires s.pending == [EndGreen(l, v)]
    ensures Step(s, Timeout(0)) == s.(junction := NormalYellow(s.junction), pending := [EndYellow(l, v)])
  {
    SoleTimeout(s);
  }

  /** The end of a normal yellow: the served vehicle leaves and nothing stays pending. */
  lemma YellowEnds(s: Sim, l: LaneId, v: Vehicle)
    requires s.pending == [EndYellow(l, v)]
    ensures Step(s, Timeout(0)) == s.(junction := NormalFinish(s.junction, l, v), pending := [])
  {
    SoleTimeout(s);
  }

  /** Every vehicle of `q` has priority `p` or less urgent. */
  predicate AtLeast(q: seq<Vehicle>, p: int)
  {
    forall i :: 0 <= i < |q| ==> q[i].priority >= p
  }

  /** Lane `l` is eligible and its most urgent vehicle has priority `p`. */
  predicate FinalistAt(j: Junction, l: LaneId, blockSize: int, p: int)
  {
    Eligible(j, l, blockSize) && MinPriority(j.Queue(l)) == p
  }

  lemma AtLeastMin(q: seq<Vehicle>, p: int)
    requires |q| > 0 && AtLeast(q, p)
    ensures MinPriority(q) >= p
  {
    var i :| 0 <= i < |q| && q[i].priority == MinPriority(q);
  }

  /** No queue whose priorities are all above the threshold calls for a full clearance. */
  lemma NoClearanceAbove(j: Junction, p: int)
    requires FullClearanceThreshold < p
    requires forall l :: AtLeast(j.Queue(l), p)
    ensures !HasFullClearanceVehicle(j)
  {
    forall l | |j.Queue(l)| > 0 ensures MinPriority(j.Queue(l)) > FullClearanceThreshold {
      AtLeastMin(j.Queue(l), p);
    }
  }

  /** When no vehicle is more urgent than `p`, an eligible lane with minimum `p` is a finalist. */
  lemma FinalistAtBound(j: Junction, blockSize: int, p: int, l: LaneId)
    requires forall m :: AtLeast(j.Queue(m), p)
    requires FinalistAt(j, l, blockSize, p)
    ensures IsFinalist(j, l, blockSize)
  {
    forall m | Eligible(j, m, blockSize)
      ensures MinPriority(j.Queue(l)) <= MinPriority(j.Queue(m))
    {
      AtLeastMin(j.Queue(m), p);
    }
  }

  /**
   * The lane after the cursor wins when no queued vehicle is more urgent
   * than a common, non-clearing priority `p`, and the lanes from that one
   * on are eligible with minimum priority exactly `p`.
   */
  lemma NextFinalistServed(j: Junction, blockSize: int, p: int, k: int)
    requires FullClearanceThreshold < p
    requires 0 <= k < LaneCount
    requires j.lastProcessedLaneIndex == k - 1 || (k == 0 && j.lastProcessedLaneIndex == LaneCount - 1)
    requires !j.isProcessing
    requires forall l :: AtLeast(j.Queue(l), p)
    requires forall l :: IndexOf(l) >= k ==> FinalistAt(j, l, blockSize, p)
    ensures Decide(j, blockSize) == Serve(LaneOrder[k])
  {
    var c := j.lastProcessedLaneIndex;
    var target := LaneOrder[k];
    assert (c + 1) % LaneCount == k;
    assert IndexOf(target) == k;
    assert FinalistAt(j, target, blockSize, p);
    NoClearanceAbove(j, p);
    FinalistAtBound(j, blockSize, p, target);
    ServesNearestFinalist(j, blockSize, target);
  }

  /** Four finalists at minimum `p`: no queued vehicle is more urgent than `p`. */
  lemma FinalistsBound(j: Junction, blockSize: int, p: int)
    requires forall l :: FinalistAt(j, l, blockSize, p)
    ensures forall l :: AtLeast(j.Queue(l), p)
  {
    forall l ensures AtLeast(j.Queue(l), p) {
      assert FinalistAt(j, l, blockSize, p);
    }
  }

  /** Dropping the head keeps the lower bound. */
  lemma AtLeastTail(q: seq<Vehicle>, p: int)
    requires AtLeast(q, p) && |q| > 0
    ensures AtLeast(q[1..], p)
  {
  }

  /** One normal episode in the round-robin cycle, with the facts the next one needs. */
  lemma CycleEpisode(s: Sim, p: int, k: int)
    requires Inv(s) && !s.paused && |s.pending| == 0
    requires FullClearanceThreshold < p
    requires 0 <= k < LaneCount
    requires s.junction.lastProcessedLaneIndex == k - 1
             || (k == 0 && s.junction.lastProcessedLaneIndex == LaneCount - 1)
    requires forall l :: AtLeast(s.junction.Queue(l), p)
    requires forall l :: IndexOf(l) >= k ==> FinalistAt(s.junction, l, s.blockSize, p)
    ensures Decide(s.junction, s.blockSize) == Serve(LaneOrder[k])
    ensures var r := Run(s, NormalEpisodeEvents);
            && Inv(r) && !r.paused && |r.pending| == 0 && r.blockSize == s.blockSize
            && r.junction.lastProcessedLaneIndex == k
            && ServedOnly(s.junction, r.junction, LaneOrder[k])
            && (forall l :: AtLeast(r.junction.Queue(l), p))
            && (forall l :: IndexOf(l) >= k + 1 ==> FinalistAt(r.junction, l, r.blockSize, p))
  {
    var target := LaneOrder[k];
    assert IndexOf(target) == k;
    assert Decide(s.junction, s.blockSize) == Serve(target) by {
      NextFinalistServed(s.junction, s.blockSize, p, k);
    }
    var r := Run(s, NormalEpisodeEvents);
    assert ServedOnly(s.junction, r.junction, target) by {
      NormalEpisodeEffect(s, target);
    }
    ServedKeepsOthers(s.junction, r.junction, target, s.blockSize, p);
    NormalEpisodeEffect(s, target);
  }

  /**
   * Serving lane `l` keeps every queue's lower bound, and leaves every
   * lane after `l` in `LaneOrder` the finalist it was.
   */
  lemma ServedKeepsOthers(a: Junction, b: Junction, l: LaneId, blockSize: int, p: int)
    requires ServedOnly(a, b, l)
    requires forall m :: AtLeast(a.Queue(m), p)
    requires forall m :: IndexOf(m) >= IndexOf(l) ==> FinalistAt(a, m, blockSize, p)
    ensures forall m :: AtLeast(b.Queue(m), p)
    ensures forall m :: IndexOf(m) >= IndexOf(l) + 1 ==> FinalistAt(b, m, blockSize, p)
  {
    AtLeastTail(a.Queue(l), p);
    forall m ensures AtLeast(b.Queue(m), p) {
      if m != l {
        assert b.Queue(m) == a.Queue(m);
      }
    }
    forall m | IndexOf(m) >= IndexOf(l) + 1 ensures FinalistAt(b, m, blockSize, p) {
      assert b.Queue(m) == a.Queue(m);
    }
  }

  /**
   * Round robin: when all four lanes are finalists at one common minimum
   * priority above the full-clearance threshold, and the cursor is at its
   * start (or on West), four successive normal episodes serve North, East,
   * South and West in turn, each lane losing exactly its head, even though
   * a served lane may drop below the block size or lose its most urgent
   * vehicle.
   */
  lemma RoundRobinVisitsLanesInOrder(s: Sim, p: int)
    requires Inv(s) && !s.paused && |s.pending| == 0
    requires FullClearanceThreshold < p
    requires s.junction.lastProcessedLaneIndex == -1 || s.junction.lastProcessedLaneIndex == LaneCount - 1
    requires forall l :: FinalistAt(s.junction, l, s.blockSize, p)
    ensures var s1 := Run(s, NormalEpisodeEvents);
            var s2 := Run(s1, NormalEpisodeEvents);
            var s3 := Run(s2, NormalEpisodeEvents);
            var s4 := Run(s3, NormalEpisodeEvents);
            && Decide(s.junction, s.blockSize) == Serve(North)
            && Decide(s1.junction, s1.blockSize) == Serve(East)
            && Decide(s2.junction, s2.blockSize) == Serve(South)
            && Decide(s3.junction, s3.blockSize) == Serve(West)
            && (forall l :: |s.junction.Queue(l)| > 0 && s4.junction.Queue(l) == s.junction.Queue(l)[1..])
  {
    var s1 := Run(s, NormalEpisodeEvents);
    var s2 := Run(s1, NormalEpisodeEvents);
    var s3 := Run(s2, NormalEpisodeEvents);
    var s4 := Run(s3, NormalEpisodeEvents);
    assert LaneOrder[0] == North && LaneOrder[1] == East && LaneOrder[2] == South && LaneOrder[3] == West;
    FinalistsBound(s.junction, s.blockSize, p);
    CycleEpisode(s, p, 0);
    CycleEpisode(s1, p, 1);
    CycleEpisode(s2, p, 2);
    CycleEpisode(s3, p, 3);
    EachLaneServedOnce(s.junction, s1.junction, s2.junction, s3.junction, s4.junction);
  }

  /** `b` is `a` with the head of lane `l`, and nothing else, removed. */
  predicate ServedOnly(a: Junction, b: Junction, l: LaneId)
  {
    && |a.Queue(l)| > 0
    && b.Queue(l) == a.Queue(l)[1..]
    && (forall m :: m != l ==> b.Queue(m) == a.Queue(m))
  }

  lemma EachLaneServedOnce(j0: Junction, j1: Junction, j2: Junction, j3: Junction, j4: Junction)
    requires ServedOnly(j0, j1, North) && ServedOnly(j1, j2, East)
    requires ServedOnly(j2, j3, South) && ServedOnly(j3, j4, West)
    ensures forall l :: |j0.Queue(l)| > 0 && j4.Queue(l) == j0.Queue(l)[1..]
  {
    forall l ensures |j0.Queue(l)| > 0 && j4.Queue(l) == j0.Queue(l)[1..] {
      match l
      case North =>
      case East =>
      case South =>
      case West =>
    }
  }

  // ---------------------------------------------------------------------
  // Reset
  // ---------------------------------------------------------------------

  /** A reset rebuilds the junction and touches nothing else. */
  lemma ResetUnfold(s: Sim)
    ensures Step(s, Reset) == s.(junction := ResetJunction(s.junction))
  {
  }

  /** Resetting twice is resetting once, and a reset keeps the controls and the timers. */
  lemma ResetTwiceIsOnce(s: Sim)
    ensures Step(Step(s, Reset), Reset) == Step(s, Reset)
    ensures Step(s, Reset).blockSize == s.blockSize && Step(s, Reset).paused == s.paused
    ensures Step(s, Reset).pending == s.pending
  {
    ResetUnfold(s);
    ResetUnfold(Step(s, Reset));
    ResetIdempotent(s.junction);
  }

  /**
   * A reset does not cancel the timers of an episode in flight. When a
   * reset lands between the yellow and the red of a normal episode, the
   * pending timer still fires on the fresh junction: it counts a cleared
   * vehicle although every queue is empty and nothing has arrived since.
   */
  lemma ResetLeavesTimerPending(s: Sim, l: LaneId, v: Vehicle)
    requires s.pending == [EndYellow(l, v)]
    ensures var r := Run(s, [Reset, Timeout(0)]);
            && AllEmpty(r.junction)
            && r.junction.totalVehiclesCleared == 1
            && r.pending == []
  {
    ResetUnfold(s);
    var s1 := Step(s, Reset);
    YellowEnds(s1, l, v);
    assert Run(s, [Reset, Timeout(0)]) == Step(s1, Timeout(0)) by {
      assert [Reset, Timeout(0)][1..] == [Timeout(0)];
    }
    var j := NormalFinish(s1.junction, l, v);
    assert j.Queue(l) == [];
  }
}
