/**
 * The constant tables the scheduler relies on: the priority of each vehicle
 * category, the two priority thresholds, the fixed lane ordering used for
 * tie-breaks and for the round-robin cursor, and the junction ids.
 */
module Constants {
  import opened Types

  /** A vehicle of priority at most this triggers a full clearance of its lane. */
  const FullClearanceThreshold: int := 2

  /** A vehicle of priority at most this counts as an emergency vehicle. */
  const EmergencyThreshold: int := 3

  /** The priority table: a lower number is more urgent. */
  function Priority(t: VehicleType): int
  {
    match t
    case Ambulance => 1
    case FireTruck => 2
    case Police => 3
    case Bus => 4
    case Car => 5
  }

  /** The fixed lane ordering; note East comes before South. */
  const LaneOrder: seq<LaneId> := [North, East, South, West]

  const LaneCount: int := 4

  /** The junction ids of the simulation: just one. */
  const JunctionIds: seq<JunctionId> := [A]

  /** The position of a lane in `LaneOrder` (the source's `indexOf`). */
  function IndexOf(l: LaneId): (i: int)
    ensures 0 <= i < |LaneOrder| && LaneOrder[i] == l
  {
    match l
    case North => 0
    case East => 1
    case South => 2
    case West => 3
  }

  /**
   * Indexing `LaneOrder` with an arbitrary integer: out of range gives
   * `None`, which stands for the `undefined` an out-of-range array read yields.
   */
  function LaneAt(i: int): (r: Option<LaneId>)
    ensures r.Some? <==> 0 <= i < LaneCount
    ensures r.Some? ==> IndexOf(r.value) == i
  {
    if 0 <= i < |LaneOrder| then Some(LaneOrder[i]) else None
  }

  /**
   * The remainder `a % LANE_IDS.length` of the source language: it truncates
   * toward zero, so its sign follows the dividend (Dafny's `%` is Euclidean
   * and never negative). The two agree on non-negative dividends.
   */
  function LaneRem(a: int): (r: int)
    ensures -LaneCount < r < LaneCount
    ensures a >= 0 ==> r == a % LaneCount
    ensures a < 0 ==> r <= 0 && r % LaneCount == a % LaneCount
  {
    if a >= 0 then a % LaneCount else -((-a) % LaneCount)
  }

  /** The priority table entry for each category. */
  lemma PriorityValues()
    ensures Priority(Ambulance) == 1 && Priority(FireTruck) == 2 && Priority(Police) == 3
    ensures Priority(Bus) == 4 && Priority(Car) == 5
  {
  }

  /** No two categories share a priority, and every priority lies in 1..5. */
  lemma PriorityInjectiveAndBounded()
    ensures forall t, u :: t != u ==> Priority(t) != Priority(u)
    ensures forall t :: 1 <= Priority(t) <= 5
  {
  }

  /**
   * The thresholds split the categories: full clearance is for Ambulance
   * and Fire Truck only, emergency status for those two and Police.
   */
  lemma ThresholdClasses(t: VehicleType)
    ensures Priority(t) <= FullClearanceThreshold <==> t == Ambulance || t == FireTruck
    ensures Priority(t) <= EmergencyThreshold <==> t == Ambulance || t == FireTruck || t == Police
  {
  }

  /**
   * The lane ordering lists the four lanes once each, and `IndexOf` and
   * `LaneOrder` are inverse to each other.
   */
  lemma LaneOrderIsPermutation()
    ensures |LaneOrder| == LaneCount
    ensures forall i, j :: 0 <= i < j < |LaneOrder| ==> LaneOrder[i] != LaneOrder[j]
    ensures forall l: LaneId :: l in LaneOrder
    ensures forall i :: 0 <= i < |LaneOrder| ==> IndexOf(LaneOrder[i]) == i
  {
    forall l: LaneId ensures l in LaneOrder {
      assert LaneOrder[IndexOf(l)] == l;
    }
  }

  /** There is exactly one junction, `A`. */
  lemma SingleJunction()
    ensures JunctionIds == [A]
    ensures forall id: JunctionId :: id in JunctionIds
  {
    forall id: JunctionId ensures id in JunctionIds {
      match id
      case A =>
    }
  }
}
