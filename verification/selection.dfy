/**
 * The scheduler's pure decision: given a junction and the block size, which
 * lane (if any) gets right-of-way on this tick, and by which rule.
 */
module Selection {
  import opened Types
  import opened Constants
  import opened JunctionOps

  // ---------------------------------------------------------------------
  // Lane priority
  // ---------------------------------------------------------------------

  /** The most urgent (smallest) priority in a non-empty queue. */
  function MinPriority(q: seq<Vehicle>): (p: int)
    requires |q| > 0
    ensures forall i :: 0 <= i < |q| ==> p <= q[i].priority
    ensures exists i :: 0 <= i < |q| && q[i].priority == p
  {
    if |q| == 1 then q[0].priority
    else
      var rest := MinPriority(q[1..]);
      if q[0].priority <= rest then q[0].priority else rest
  }

  /**
   * The sort key of a lane on the emergency path: its minimum priority, or
   * infinity for an empty lane.
   */
  datatype Rank = Finite(value: int) | Infinity

  function LaneRank(q: seq<Vehicle>): (r: Rank)
    ensures r.Infinity? <==> |q| == 0
  {
    if |q| == 0 then Infinity else Finite(MinPriority(q))
  }

  /**
   * The order the emergency path sorts by. Two infinite keys compare equal
   * (their difference is NaN, which the sort treats as zero).
   */
  predicate RankLe(a: Rank, b: Rank)
  {
    match (a, b)
    case (_, Infinity) => true
    case (Infinity, Finite(_)) => false
    case (Finite(x), Finite(y)) => x <= y
  }

  /** The four lane keys, in `LaneOrder`. */
  function Ranks(j: Junction): (rs: seq<Rank>)
    ensures |rs| == LaneCount
    ensures forall i :: 0 <= i < LaneCount ==> rs[i] == LaneRank(j.Queue(LaneOrder[i]))
  {
    [LaneRank(j.Queue(North)), LaneRank(j.Queue(East)),
     LaneRank(j.Queue(South)), LaneRank(j.Queue(West))]
  }

  /**
   * The position a stable sort by `RankLe` moves to the front: the first
   * position holding a minimal key.
   */
  function FirstMin(rs: seq<Rank>): (k: nat)
    requires |rs| > 0
    ensures k < |rs|
    ensures forall i :: 0 <= i < |rs| ==> RankLe(rs[k], rs[i])
    ensures forall i :: 0 <= i < k ==> !RankLe(rs[i], rs[k])
  {
    if |rs| == 1 then 0
    else
      var k := 1 + FirstMin(rs[1..]);
      if RankLe(rs[0], rs[k]) then 0 else k
  }

  /** The lane at the front of the emergency path's sorted lanes. */
  function EmergencyCandidate(j: Junction): LaneId
  {
    LaneOrder[FirstMin(Ranks(j))]
  }

  /** Some queued vehicle is urgent enough to clear its whole lane. */
  predicate HasFullClearanceVehicle(j: Junction)
  {
    exists l: LaneId :: |j.Queue(l)| > 0 && MinPriority(j.Queue(l)) <= FullClearanceThreshold
  }

  // ---------------------------------------------------------------------
  // Normal eligibility and finalists
  // ---------------------------------------------------------------------

  /** A lane may be served normally when it holds an emergency vehicle or a full block. */
  predicate Eligible(j: Junction, l: LaneId, blockSize: int)
  {
    |j.Queue(l)| > 0
    && (MinPriority(j.Queue(l)) <= EmergencyThreshold || |j.Queue(l)| >= blockSize)
  }

  /** An eligible lane whose minimum priority no other eligible lane beats. */
  predicate IsFinalist(j: Junction, l: LaneId, blockSize: int)
  {
    Eligible(j, l, blockSize)
    && forall m :: Eligible(j, m, blockSize) ==> MinPriority(j.Queue(l)) <= MinPriority(j.Queue(m))
  }

  /** The lanes of `ls` that satisfy `keep`, in their order in `ls`. */
  function FilterLanes(ls: seq<LaneId>, keep: LaneId -> bool): (r: seq<LaneId>)
    ensures forall l :: l in r <==> l in ls && keep(l)
    ensures |r| <= |ls|
  {
    if |ls| == 0 then []
    else (if keep(ls[0]) then [ls[0]] else []) + FilterLanes(ls[1..], keep)
  }

  function EligibleLanes(j: Junction, blockSize: int): (r: seq<LaneId>)
    ensures forall l :: l in r <==> Eligible(j, l, blockSize)
  {
    LaneOrderIsPermutation();
    FilterLanes(LaneOrder, l => Eligible(j, l, blockSize))
  }

  /** The smallest minimum priority among the non-empty lanes of `ls`. */
  function TopPriority(j: Junction, ls: seq<LaneId>): (p: int)
    requires |ls| > 0
    requires forall l :: l in ls ==> |j.Queue(l)| > 0
    ensures forall l :: l in ls ==> p <= MinPriority(j.Queue(l))
    ensures exists l :: l in ls && MinPriority(j.Queue(l)) == p
  {
    if |ls| == 1 then MinPriority(j.Queue(ls[0]))
    else
      var rest := TopPriority(j, ls[1..]);
      var here := MinPriority(j.Queue(ls[0]));
      if here <= rest then here else rest
  }

  /** The eligible lanes that share the top priority, in `LaneOrder`. */
  function Finalists(j: Junction, blockSize: int): (r: seq<LaneId>)
    ensures forall l :: l in r <==> IsFinalist(j, l, blockSize)
  {
    var eligible := EligibleLanes(j, blockSize);
    if |eligible| == 0 then []
    else
      var top := TopPriority(j, eligible);
      FilterLanes(eligible, l => |j.Queue(l)| > 0 && MinPriority(j.Queue(l)) == top)
  }

  // ---------------------------------------------------------------------
  // Round robin
  // ---------------------------------------------------------------------

  /** The lane index the round-robin loop inspects on iteration `d`. */
  function Slot(cursor: int, d: int): int
  {
    LaneRem(LaneRem(cursor + 1) + d)
  }

  /** Iteration `d` of the round-robin loop finds a finalist. */
  predicate Hit(fin: seq<LaneId>, cursor: int, d: int)
  {
    LaneAt(Slot(cursor, d)).Some? && LaneAt(Slot(cursor, d)).value in fin
  }

  /** The first iteration, from `d` on, that finds a finalist; `LaneCount` if none does. */
  function ScanFrom(fin: seq<LaneId>, cursor: int, d: nat): (e: nat)
    requires d <= LaneCount
    ensures d <= e <= LaneCount
    ensures e < LaneCount ==> Hit(fin, cursor, e)
    ensures forall k :: d <= k < e ==> !Hit(fin, cursor, k)
    decreases LaneCount - d
  {
    if d == LaneCount then LaneCount
    else if Hit(fin, cursor, d) then d
    else ScanFrom(fin, cursor, d + 1)
  }

  /** The round-robin tie-break over the finalists, starting after `cursor`. */
  function RoundRobin(fin: seq<LaneId>, cursor: int): (r: Option<LaneId>)
    ensures r.Some? ==> r.value in fin
  {
    var e := ScanFrom(fin, cursor, 0);
    if e < LaneCount then LaneAt(Slot(cursor, e)) else None
  }

  /**
   * How many steps forward, cyclically, lane `l` lies from the lane just
   * after `cursor`: the scan inspects lanes in increasing distance.
   */
  function Distance(cursor: int, l: LaneId): (d: int)
    ensures 0 <= d < LaneCount
  {
    (IndexOf(l) - (cursor + 1)) % LaneCount
  }

  /** The winner of the normal path, if any. */
  function NormalWinner(j: Junction, blockSize: int): (r: Option<LaneId>)
    ensures r.Some? ==> IsFinalist(j, r.value, blockSize)
  {
    if |EligibleLanes(j, blockSize)| == 0 then None
    else
      Pick(Finalists(j, blockSize), j.lastProcessedLaneIndex)
  }

  /** A sole finalist wins outright; several go to the round robin. */
  function Pick(fin: seq<LaneId>, cursor: int): (r: Option<LaneId>)
    requires |fin| > 0
    ensures r.Some? ==> r.value in fin
  {
    if |fin| == 1 then Some(fin[0]) else RoundRobin(fin, cursor)
  }

  // ---------------------------------------------------------------------
  // The decision of one tick
  // ---------------------------------------------------------------------

  datatype Decision =
    | Skip               // busy, or nothing queued
    | Clear(lane: LaneId)  // start a full clearance of `lane`
    | Serve(lane: LaneId)  // start a normal episode on `lane`
    | Wait               // nothing eligible (or no round-robin winner)

  /** What one scheduler tick decides for junction `j`. */
  function Decide(j: Junction, blockSize: int): Decision
  {
    if j.isProcessing || AllEmpty(j) then Skip
    else
      var c := EmergencyCandidate(j);
      if RankLe(LaneRank(j.Queue(c)), Finite(FullClearanceThreshold)) then Clear(c)
      else
        match NormalWinner(j, blockSize)
        case None => Wait
        case Some(w) => Serve(w)
  }

  // ---------------------------------------------------------------------
  // Properties of the decision
  // ---------------------------------------------------------------------

  /** On a valid cursor, iteration `d` inspects the lane `d` steps after the cursor. */
  lemma SlotDistance(cursor: int, d: int)
    requires -1 <= cursor < LaneCount && 0 <= d < LaneCount
    ensures 0 <= Slot(cursor, d) < LaneCount
    ensures Distance(cursor, LaneOrder[Slot(cursor, d)]) == d
  {
    LaneOrderIsPermutation();
    var x := Slot(cursor, d);
    assert x == ((cursor + 1) % LaneCount + d) % LaneCount;
    assert IndexOf(LaneOrder[x]) == x;
    SlotArithmetic(cursor, d);
  }

  /** Going `d` steps forward from the slot after the cursor and back again. */
  lemma SlotArithmetic(cursor: int, d: int)
    requires -1 <= cursor < 4 && 0 <= d < 4
    ensures (((cursor + 1) % 4 + d) % 4 - (cursor + 1)) % 4 == d
  {
    if d == 0 {
      if cursor == -1 {} else if cursor == 0 {} else if cursor == 1 {} else if cursor == 2 {} else {}
    } else if d == 1 {
      if cursor == -1 {} else if cursor == 0 {} else if cursor == 1 {} else if cursor == 2 {} else {}
    } else if d == 2 {
      if cursor == -1 {} else if cursor == 0 {} else if cursor == 1 {} else if cursor == 2 {} else {}
    } else {
      if cursor == -1 {} else if cursor == 0 {} else if cursor == 1 {} else if cursor == 2 {} else {}
    }
  }

  /** The only lane at distance zero is the one right after the cursor. */
  lemma NextHasDistanceZero(cursor: int, l: LaneId)
    requires -1 <= cursor < LaneCount
    ensures Distance(cursor, l) == 0 <==> l == LaneOrder[(cursor + 1) % LaneCount]
  {
    LaneOrderIsPermutation();
  }

  /** On a valid cursor, every lane is inspected, at the iteration given by its distance. */
  lemma DistanceSlot(cursor: int, l: LaneId)
    requires -1 <= cursor < LaneCount
    ensures Slot(cursor, Distance(cursor, l)) == IndexOf(l)
  {
    var i := IndexOf(l);
    var d := Distance(cursor, l);
    assert d == (i - (cursor + 1)) % 4;
    assert Slot(cursor, d) == ((cursor + 1) % 4 + d) % 4;
    DistanceArithmetic(cursor, i);
  }

  /** Going back from lane index `i` to the slot after the cursor and forward again. */
  lemma DistanceArithmetic(cursor: int, i: int)
    requires -1 <= cursor < 4 && 0 <= i < 4
    ensures ((cursor + 1) % 4 + (i - (cursor + 1)) % 4) % 4 == i
  {
    if i == 0 {
      if cursor == -1 {} else if cursor == 0 {} else if cursor == 1 {} else if cursor == 2 {} else {}
    } else if i == 1 {
      if cursor == -1 {} else if cursor == 0 {} else if cursor == 1 {} else if cursor == 2 {} else {}
    } else if i == 2 {
      if cursor == -1 {} else if cursor == 0 {} else if cursor == 1 {} else if cursor == 2 {} else {}
    } else {
      if cursor == -1 {} else if cursor == 0 {} else if cursor == 1 {} else if cursor == 2 {} else {}
    }
  }

  /**
   * Round robin on a valid cursor always finds a winner when there is a
   * finalist, and the winner is the finalist nearest after the cursor.
   */
  lemma RoundRobinNearest(fin: seq<LaneId>, cursor: int)
    requires -1 <= cursor < LaneCount
    requires |fin| > 0
    ensures RoundRobin(fin, cursor).Some?
    ensures forall m :: m in fin ==>
              Distance(cursor, RoundRobin(fin, cursor).value) <= Distance(cursor, m)
  {
    var e := ScanFrom(fin, cursor, 0);
    var f := fin[0];
    DistanceSlot(cursor, f);
    assert LaneAt(Slot(cursor, Distance(cursor, f))) == Some(f);
    assert Hit(fin, cursor, Distance(cursor, f));
    assert e < LaneCount;
    SlotDistance(cursor, e);
    forall m | m in fin
      ensures Distance(cursor, RoundRobin(fin, cursor).value) <= Distance(cursor, m)
    {
      DistanceSlot(cursor, m);
      assert LaneAt(Slot(cursor, Distance(cursor, m))) == Some(m);
      assert Hit(fin, cursor, Distance(cursor, m));
    }
  }

  /** A tick skips exactly when the junction is busy or every lane is empty. */
  lemma DecideSkip(j: Junction, blockSize: int)
    ensures Decide(j, blockSize).Skip? <==> j.isProcessing || AllEmpty(j)
  {
  }

  /**
   * The emergency path: an idle junction starts a full clearance exactly
   * when some queued vehicle has priority at most 2. The cleared lane holds
   * the junction's minimum priority, and every lane earlier in `LaneOrder`
   * has a strictly larger one (ties go to the earliest lane).
   */
  lemma EmergencySelection(j: Junction, blockSize: int)
    requires !j.isProcessing
    ensures Decide(j, blockSize).Clear? <==> HasFullClearanceVehicle(j)
    ensures Decide(j, blockSize).Clear? ==>
              var l := Decide(j, blockSize).lane;
              && |j.Queue(l)| > 0
              && MinPriority(j.Queue(l)) <= FullClearanceThreshold
              && (forall m :: |j.Queue(m)| > 0 ==> MinPriority(j.Queue(l)) <= MinPriority(j.Queue(m)))
              && (forall m :: |j.Queue(m)| > 0 && IndexOf(m) < IndexOf(l) ==>
                    MinPriority(j.Queue(l)) < MinPriority(j.Queue(m)))
  {
    var c := EmergencyCandidate(j);
    CandidateMinimal(j);
    if !AllEmpty(j) {
      CandidateClears(j);
    } else {
      assert !HasFullClearanceVehicle(j);
    }
  }

  /**
   * The emergency candidate holds the smallest minimum priority of all
   * non-empty lanes, strictly smaller than every earlier lane's.
   */
  lemma CandidateMinimal(j: Junction)
    ensures forall m :: |j.Queue(m)| > 0 ==>
              && |j.Queue(EmergencyCandidate(j))| > 0
              && MinPriority(j.Queue(EmergencyCandidate(j))) <= MinPriority(j.Queue(m))
              && (IndexOf(m) < IndexOf(EmergencyCandidate(j)) ==>
                    MinPriority(j.Queue(EmergencyCandidate(j))) < MinPriority(j.Queue(m)))
  {
    var rs := Ranks(j);
    var k := FirstMin(rs);
    var c := EmergencyCandidate(j);
    assert c == LaneOrder[k];
    LaneOrderIsPermutation();
    assert IndexOf(c) == k;
    forall m | |j.Queue(m)| > 0
      ensures |j.Queue(c)| > 0
      ensures MinPriority(j.Queue(c)) <= MinPriority(j.Queue(m))
      ensures IndexOf(m) < IndexOf(c) ==> MinPriority(j.Queue(c)) < MinPriority(j.Queue(m))
    {
      assert rs[IndexOf(m)] == LaneRank(j.Queue(m));
      assert RankLe(rs[k], rs[IndexOf(m)]);
      if IndexOf(m) < k {
        assert !RankLe(rs[IndexOf(m)], rs[k]);
      }
    }
  }

  /** On a non-empty junction, the candidate's key passes the threshold exactly when some vehicle does. */
  lemma CandidateClears(j: Junction)
    requires !AllEmpty(j)
    ensures HasFullClearanceVehicle(j) <==>
              RankLe(LaneRank(j.Queue(EmergencyCandidate(j))), Finite(FullClearanceThreshold))
  {
    var c := EmergencyCandidate(j);
    CandidateMinimal(j);
    if HasFullClearanceVehicle(j) {
      var l :| |j.Queue(l)| > 0 && MinPriority(j.Queue(l)) <= FullClearanceThreshold;
      assert MinPriority(j.Queue(c)) <= MinPriority(j.Queue(l));
    }
    if RankLe(LaneRank(j.Queue(c)), Finite(FullClearanceThreshold)) {
      assert |j.Queue(c)| > 0 && MinPriority(j.Queue(c)) <= FullClearanceThreshold;
    }
  }

  /** Past the guard and the emergency path, the tick follows the normal winner. */
  lemma DecideNormalBranch(j: Junction, blockSize: int)
    ensures Decide(j, blockSize).Serve? ==>
              !j.isProcessing && !HasFullClearanceVehicle(j)
              && NormalWinner(j, blockSize) == Some(Decide(j, blockSize).lane)
    ensures !j.isProcessing && !AllEmpty(j) && !HasFullClearanceVehicle(j) ==>
              Decide(j, blockSize) == (if NormalWinner(j, blockSize).Some?
                                       then Serve(NormalWinner(j, blockSize).value) else Wait)
  {
    if !j.isProcessing && !AllEmpty(j) {
      CandidateClears(j);
    }
  }

  /**
   * With no full-clearance vehicle and no eligible lane, an idle tick
   * waits whatever the cursor: the early return of the eligibility filter.
   */
  lemma NoneEligibleWaits(j: Junction, blockSize: int)
    requires !j.isProcessing && !AllEmpty(j) && !HasFullClearanceVehicle(j)
    requires forall l :: !Eligible(j, l, blockSize)
    ensures Decide(j, blockSize) == Wait
  {
    DecideNormalBranch(j, blockSize);
  }

  /** A single finalist or a round-robin scan on a valid cursor picks the nearest finalist. */
  lemma NormalWinnerNearest(j: Junction, blockSize: int)
    requires -1 <= j.lastProcessedLaneIndex < LaneCount
    requires exists l :: Eligible(j, l, blockSize)
    ensures NormalWinner(j, blockSize).Some?
    ensures forall m :: IsFinalist(j, m, blockSize) ==>
              Distance(j.lastProcessedLaneIndex, NormalWinner(j, blockSize).value)
                <= Distance(j.lastProcessedLaneIndex, m)
  {
    var fin := Finalists(j, blockSize);
    FinalistExists(j, blockSize);
    var c := j.lastProcessedLaneIndex;
    PickNearest(fin, c);
    forall m | IsFinalist(j, m, blockSize)
      ensures Distance(c, NormalWinner(j, blockSize).value) <= Distance(c, m)
    {
      assert m in fin;
    }
  }

  /** On a valid cursor the pick exists and is the finalist nearest after the cursor. */
  lemma PickNearest(fin: seq<LaneId>, cursor: int)
    requires -1 <= cursor < LaneCount
    requires |fin| > 0
    ensures Pick(fin, cursor).Some?
    ensures forall m :: m in fin ==> Distance(cursor, Pick(fin, cursor).value) <= Distance(cursor, m)
  {
    if |fin| == 1 {
      assert fin == [fin[0]];
    } else {
      RoundRobinNearest(fin, cursor);
    }
  }

  /** When some lane is eligible, some lane is a finalist. */
  lemma FinalistExists(j: Junction, blockSize: int)
    requires exists l :: Eligible(j, l, blockSize)
    ensures |EligibleLanes(j, blockSize)| > 0
    ensures |Finalists(j, blockSize)| > 0
  {
    var eligible := EligibleLanes(j, blockSize);
    var e :| Eligible(j, e, blockSize);
    assert e in eligible;
    var top := TopPriority(j, eligible);
    var l :| l in eligible && MinPriority(j.Queue(l)) == top;
    assert IsFinalist(j, l, blockSize);
    assert l in Finalists(j, blockSize);
  }

  /**
   * The normal path: a normal episode serves a finalist, that is an
   * eligible lane of minimum priority among eligible lanes, and only when no
   * full clearance applies. On a valid cursor the finalist served is the
   * one nearest after the cursor in `LaneOrder`, cyclically.
   */
  lemma NormalSelection(j: Junction, blockSize: int)
    ensures Decide(j, blockSize).Serve? ==>
              && !HasFullClearanceVehicle(j)
              && IsFinalist(j, Decide(j, blockSize).lane, blockSize)
    ensures Decide(j, blockSize).Serve? && -1 <= j.lastProcessedLaneIndex < LaneCount ==>
              forall m :: IsFinalist(j, m, blockSize) ==>
                Distance(j.lastProcessedLaneIndex, Decide(j, blockSize).lane)
                  <= Distance(j.lastProcessedLaneIndex, m)
  {
    DecideNormalBranch(j, blockSize);
    if Decide(j, blockSize).Serve? && -1 <= j.lastProcessedLaneIndex < LaneCount {
      NormalWinnerNearest(j, blockSize);
    }
  }

  /**
   * With a valid cursor, the return for a missing round-robin winner is
   * unreachable: an idle, non-empty junction without a full-clearance
   * vehicle starts a normal episode exactly when some lane is eligible,
   * and otherwise waits.
   */
  lemma NormalSelectionComplete(j: Junction, blockSize: int)
    requires !j.isProcessing && !AllEmpty(j) && !HasFullClearanceVehicle(j)
    requires -1 <= j.lastProcessedLaneIndex < LaneCount
    ensures Decide(j, blockSize).Serve? <==> exists l :: Eligible(j, l, blockSize)
    ensures Decide(j, blockSize).Wait? <==> forall l :: !Eligible(j, l, blockSize)
  {
    DecideNormalBranch(j, blockSize);
    if exists l :: Eligible(j, l, blockSize) {
      NormalWinnerNearest(j, blockSize);
    } else {
      assert NormalWinner(j, blockSize).None?;
    }
  }

  /**
   * When all four lanes are finalists, the lane served is the one right
   * after the cursor, so successive episodes visit the lanes in
   * `LaneOrder`.
   */
  lemma AllFinalistsTakeTurns(j: Junction, blockSize: int)
    requires !j.isProcessing && !HasFullClearanceVehicle(j)
    requires -1 <= j.lastProcessedLaneIndex < LaneCount
    requires forall l :: IsFinalist(j, l, blockSize)
    ensures Decide(j, blockSize) == Serve(LaneOrder[(j.lastProcessedLaneIndex + 1) % LaneCount])
  {
    ServesNearestFinalist(j, blockSize, LaneOrder[(j.lastProcessedLaneIndex + 1) % LaneCount]);
  }

  /** A finalist right after the cursor is the lane served. */
  lemma ServesNearestFinalist(j: Junction, blockSize: int, target: LaneId)
    requires !j.isProcessing && !HasFullClearanceVehicle(j)
    requires -1 <= j.lastProcessedLaneIndex < LaneCount
    requires IsFinalist(j, target, blockSize)
    requires target == LaneOrder[(j.lastProcessedLaneIndex + 1) % LaneCount]
    ensures Decide(j, blockSize) == Serve(target)
  {
    assert !AllEmpty(j) by {
      assert |j.Queue(target)| > 0;
    }
    NextFinalistWins(j, blockSize, target);
    DecideNormalBranch(j, blockSize);
  }

  /** A finalist right after the cursor wins the normal path. */
  lemma NextFinalistWins(j: Junction, blockSize: int, target: LaneId)
    requires -1 <= j.lastProcessedLaneIndex < LaneCount
    requires IsFinalist(j, target, blockSize)
    requires target == LaneOrder[(j.lastProcessedLaneIndex + 1) % LaneCount]
    ensures NormalWinner(j, blockSize) == Some(target)
  {
    var c := j.lastProcessedLaneIndex;
    assert Eligible(j, target, blockSize);
    NormalWinnerNearest(j, blockSize);
    var w := NormalWinner(j, blockSize).value;
    assert Distance(c, w) <= Distance(c, target);
    NoneNearerThanNext(c, w, target);
  }

  /** No lane is nearer to the cursor than the lane right after it. */
  lemma NoneNearerThanNext(cursor: int, w: LaneId, next: LaneId)
    requires -1 <= cursor < LaneCount
    requires next == LaneOrder[(cursor + 1) % LaneCount]
    requires Distance(cursor, w) <= Distance(cursor, next)
    ensures w == next
  {
    NextHasDistanceZero(cursor, next);
    NextHasDistanceZero(cursor, w);
  }
}
