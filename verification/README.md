# Traffic junction right-of-way scheduler

This project is a Dafny model of the scheduler at the heart of a single-junction
traffic simulation. The junction has four FIFO lanes (North, East, South, West).
Each lane holds prioritised vehicles: Ambulance 1, Fire Truck 2, Police 3,
Bus 4, Car 5, where lower means more urgent.

A periodic tick decides what happens next:

- **Skip.** If the junction is busy or every lane is empty, nothing starts.
- **Emergency clearance.** If some queued vehicle has priority at most 2, the lane
  holding the most urgent vehicle is drained. The drain covers exactly the vehicles
  queued when the tick fired, one by one. It then goes to yellow and back to red.
  When lanes tie, the earliest lane in North, East, South, West order wins.
- **Normal service.** Otherwise, a lane is eligible when it holds a vehicle of
  priority at most 3 or at least `blockSize` vehicles. Among the eligible lanes
  with the best minimum priority, one is picked: a single finalist wins outright,
  and several go to a round-robin scan starting after `lastProcessedLaneIndex`.
  Its head vehicle then goes through green and yellow before leaving the queue.

The model is functional:

- Every state update of the source is a pure `Junction -> Junction` function
  (module `JunctionOps`).
- The decision of a tick is one pure function, `Selection.Decide`.
- Every delayed callback is an explicit `Callback` value waiting in `Sim.pending`
  (module `Episode`). The simulation advances by discrete events: a vehicle
  arrives, the interval ticks, the k-th pending timer fires, reset, the
  block-size control, and pause.

The modules are:

- `Types`: the data model of `types.ts`. Lanes are a record with one field per
  `LaneId`, so the lane map is total by construction.
- `Constants`: the priority table, the two thresholds, the lane order and the
  junction ids.
- `JunctionOps`: creation, reset, arrival, and the updaters each episode step
  applies.
- `Selection`: minimum priorities, the emergency candidate, eligibility,
  finalists, the round robin, and `Decide`.
- `Episode`: the callbacks, `RunCycle` (one tick), `Step` and `Run`, and the
  invariant and accounting kept by every event.
- `Properties`: the multi-event properties. They cover a clearance removing
  exactly its snapshot, a normal episode removing exactly its lane's head,
  round-robin progress, the idle guard, and reset.

Points where the code behaves differently from what one might assume:

- A full clearance also moves the round-robin cursor to the cleared lane
  (App.tsx:148), just as a normal episode does (App.tsx:218).
- `activeLane` is set exactly while `isProcessing` holds. The code sets and
  clears the two in the same update (App.tsx:120, 148, 204-205, 217), and the
  invariant `Episode.Inv` states this.
- Reset does not cancel pending timers. A callback pending at reset still
  fires on the fresh junction (`Properties.ResetLeavesTimerPending`).
- The first vehicle of a clearance leaves synchronously inside the tick, before
  the tick's own update marks the junction busy (App.tsx:146-148).
- Round robin is applied only when there is more than one finalist
  (App.tsx:168-179).
- The interval keeps ticking during an episode (App.tsx:224-230). Such a tick
  finds the junction busy and changes nothing, so an episode's outcome
  (`Properties.ClearanceRemovesSnapshot`, `Properties.NormalEpisodeServesHead`)
  holds whatever arrivals, timers, control changes and ticks fall inside it.

## Model

| member | source | states |
|---|---|---|
| Types.VehicleTypesEnumerated | types.ts:2-8 | there are exactly five vehicle categories, listed once each |
| Types.SignalStatesEnumerated | types.ts:18-22 | there are exactly three signal states: red, yellow and green |
| Types.LanesTotal | types.ts:25-34 | there are four lane ids; the lane record is total over them, and replacing one lane leaves the other three unchanged |
| Constants.PriorityValues | constants.tsx:5-11 | the priority table gives Ambulance 1, Fire Truck 2, Police 3, Bus 4, Car 5 |
| Constants.PriorityInjectiveAndBounded | constants.tsx:5-11 | no two categories share a priority, and every priority lies in 1..5 |
| Constants.ThresholdClasses | App.tsx:9-10 | priority at most 2 holds exactly for Ambulance and Fire Truck; priority at most 3 holds exactly for those two and Police |
| Constants.LaneOrderIsPermutation | constants.tsx:14 | the lane order lists the four lanes once each, and position lookup is its inverse |
| Constants.Priority | constants.tsx:5-11 | the priority table as a function; it has no contract of its own, and `Constants.PriorityValues`, `Constants.PriorityInjectiveAndBounded` and `Constants.ThresholdClasses` characterise it |
| Constants.IndexOf | App.tsx:184 | the position lookup that moves the cursor onto the served lane (here and at line 148): the result is a valid position at which the lane order holds that very lane, so it inverts the lane order (`Constants.LaneOrderIsPermutation`) |
| Constants.LaneAt | App.tsx:173 | reading the lane order at an arbitrary integer yields a lane exactly when the integer lies in 0..3, and that lane sits at that position; outside that range it yields nothing, as the out-of-range read yields undefined |
| Constants.SingleJunction | constants.tsx:13 | the only junction id is A |
| Constants.LaneRem | App.tsx:171-173 | the language's remainder by the lane count lies strictly between -4 and 4; it agrees with the mathematical remainder on non-negative numbers and is congruent to it otherwise |
| JunctionOps.InitialJunction | App.tsx:12-29 | the initial junction has all four queues empty, no active lane, a red signal, is not processing and has no passing vehicle; its cursor is -1, both counters are 0 and the status is the initial idle message |
| JunctionOps.ResetJunction | App.tsx:84-92 | reset yields a junction with every resting field at its initial value, all queues empty and both counters zero |
| JunctionOps.ResetIsInitial | App.tsx:84-92 | reset builds exactly the initial junction of the single junction id |
| JunctionOps.ResetIdempotent | App.tsx:84-92 | resetting twice equals resetting once |
| JunctionOps.NewVehicle | App.tsx:57-63 | a new vehicle carries its category, the priority the table gives that category, and its lane |
| JunctionOps.AppendVehicle | App.tsx:65-78 | an arrival appends exactly one vehicle to the tail of its lane; the other lanes and every non-queue field are unchanged; one more vehicle is queued, and one more emergency vehicle iff it is one |
| JunctionOps.Tail | App.tsx:138 | the head removal used by both episode kinds (here and at line 200): on a non-empty queue the old head followed by the result is the queue again, and an empty queue stays empty |
| JunctionOps.CountEmergency | App.tsx:128-135 | the number of vehicles of a queue that the counter would count as emergency vehicles, never more than the queue's length; `JunctionOps.CountEmergencyConcat` makes it additive, and `Properties.ClearanceRemovesSnapshot` raises the emergency counter by it |
| JunctionOps.ClearStep | App.tsx:126-142 | one clearance step's update; its own contract states only that it keeps the junction well formed, and its effect on the lane and the counters is stated by `JunctionOps.RemoveHead`, `Episode.CallbackSettles` and `Properties.ClearingStep` |
| JunctionOps.ClearFinish | App.tsx:118 | the update after the last snapshot vehicle; its own contract states only that it keeps the junction well formed, and `Episode.InEpisode` fixes its yellow, nothing-passing, lane-cleared state |
| JunctionOps.ClearRelease | App.tsx:120 | the update at the end of the clearance's yellow; its own contract states only that it keeps the junction well formed, and `Episode.CallbackSettles` states that the junction rests afterwards |
| JunctionOps.BeginEmergency | App.tsx:148 | the tick's own update when a clearance starts; its own contract states only that it keeps the junction well formed, and its effect is stated by `Episode.ClearanceStart` |
| JunctionOps.BeginNormal | App.tsx:213-220 | the tick's own update when a normal episode starts; its own contract states only that it keeps the junction well formed, and its effect is stated by `Episode.NormalStart` |
| JunctionOps.NormalYellow | App.tsx:188-191 | the update at the end of a normal episode's green; its own contract states only that it keeps the junction well formed, and `Episode.InEpisode` and `Properties.NormalEpisodeServesHead` state its effect |
| JunctionOps.NormalFinish | App.tsx:193-209 | the update at the end of a normal episode's yellow; its own contract states only that it keeps the junction well formed, and its effect is stated by `Properties.NormalEpisodeEffect` and `Properties.NormalEpisodeServesHead` |
| JunctionOps.IdleStatus | App.tsx:100 | the idle status update; its own contract states only that it keeps the junction well formed, and `Episode.QuietCycle` and `Properties.GuardedTick` state that it touches nothing but the status |
| JunctionOps.RemoveHead | App.tsx:126-142 | a dequeue drops the head of one lane only; the total counter rises by one and the emergency counter by one iff the vehicle has priority at most 3; when the vehicle is the head, queued plus cleared is conserved |
| JunctionOps.AppendThenRemoveHead | App.tsx:65-78 | on a non-empty lane, an arrival and a head removal commute: the arrival stays at the tail |
| JunctionOps.CountEmergencyConcat | App.tsx:128 | the number of emergency vehicles in two queues joined is the sum of the two counts |
| Selection.MinPriority | App.tsx:106 | the minimum priority of a non-empty queue is at most every priority in it and equals one of them |
| Selection.FirstMin | App.tsx:105-109 | the stable sort's first entry is the earliest lane holding the least rank, with empty lanes ranked last |
| Selection.EmergencyCandidate | App.tsx:105-112 | the lane at the front of the sorted lanes; it has no contract of its own, and `Selection.CandidateMinimal` and `Selection.EmergencySelection` characterise it |
| Selection.Eligible | App.tsx:152-157 | the filter's test on one lane; it has no contract of its own, and `Selection.EligibleLanes` states that the eligible lanes are exactly the lanes it accepts |
| Selection.EligibleLanes | App.tsx:152-157 | the eligible lanes are exactly those that are non-empty and hold a vehicle of priority at most 3 or at least blockSize vehicles |
| Selection.Finalists | App.tsx:161-165 | the finalists are exactly the eligible lanes whose minimum priority no eligible lane beats |
| Selection.NormalWinner | App.tsx:152-181 | the winner of the normal path, if any, is a finalist; `Selection.NormalSelection` adds that it is the finalist nearest after the cursor and `Selection.NormalSelectionComplete` that there is one iff some lane is eligible |
| Selection.Pick | App.tsx:167-179 | the chosen lane, if any, is one of the finalists; `Selection.PickNearest` states that a sole finalist wins and that otherwise the nearest one after the cursor does |
| Selection.ScanFrom | App.tsx:171-178 | the loop from iteration `d` on stops at the first iteration whose lane is a finalist, none of the iterations before it hits, and it runs out after four iterations when none does; `Selection.RoundRobinNearest` characterises the whole scan |
| Selection.RoundRobin | App.tsx:171-178 | the lane the loop picks, if any, is one of the finalists; `Selection.RoundRobinNearest` states that it always picks one, and the one fewest steps after the cursor |
| Selection.Decide | App.tsx:98-181 | the decision of one tick; it has no contract of its own, and `Selection.DecideSkip`, `Selection.EmergencySelection`, `Selection.NormalSelection` and `Selection.NormalSelectionComplete` characterise it |
| Selection.DecideSkip | App.tsx:98-103 | a tick starts nothing iff the junction is busy or every queue is empty |
| Selection.EmergencySelection | App.tsx:105-112 | when idle, a clearance starts iff some queued vehicle has priority at most 2; the cleared lane holds the global minimum priority, and every earlier lane in the order has a strictly larger minimum |
| Selection.CandidateMinimal | App.tsx:105-109 | the sorted-first lane is non-empty whenever some lane is, has the least minimum priority, and beats every earlier lane strictly |
| Selection.NormalSelection | App.tsx:152-181 | a normal service goes to a finalist when no clearance applies; on a valid cursor no finalist is nearer to the cursor than the winner |
| Selection.NormalSelectionComplete | App.tsx:159-181 | with no clearance due, a normal episode starts iff some lane is eligible, and the tick waits iff none is, so the early return at line 181 is unreachable |
| Selection.NoneEligibleWaits | App.tsx:152-159 | with no clearance due and no eligible lane, an idle tick waits, whatever the cursor |
| Selection.RoundRobinNearest | App.tsx:171-178 | the round-robin scan always finds a finalist, and finds the one fewest steps after the cursor |
| Selection.PickNearest | App.tsx:167-179 | a sole finalist wins outright; either way the winner is the finalist nearest after the cursor |
| Selection.AllFinalistsTakeTurns | App.tsx:167-179 | when every lane is a finalist, the lane right after the cursor is served |
| Selection.ServesNearestFinalist | App.tsx:167-179 | a finalist right after the cursor is the lane served |
| Selection.NextHasDistanceZero | App.tsx:171-173 | the scan inspects first exactly the lane right after the cursor |
| Episode.InitialSimInv | App.tsx:32-42 | the simulation starts idle and empty, with no timer pending, both counters zero and the invariant holding |
| Episode.RunCycle | App.tsx:94-221 | one scheduler tick as an update plus the timers it schedules; it has no contract of its own, and `Episode.ClearanceStart`, `Episode.NormalStart`, `Episode.QuietCycle`, `Episode.TickKeepsInv` and `Episode.CycleAccounting` characterise it |
| Episode.RunCallback | App.tsx:116-211 | one delayed callback of either episode kind; it has no contract of its own, and `Episode.CallbackSettles` and `Episode.TimeoutAccounting` characterise it |
| Episode.Step | App.tsx:56-92 | one event of the simulation; it has no contract of its own, and `Episode.StepKeepsInv` and `Episode.StepAccounting` characterise it |
| Episode.Run | App.tsx:223-232 | a sequence of events; it has no contract of its own, and `Properties.RunKeepsInv` and `Properties.RunAccounting` characterise it |
| Episode.BusyTickIsNoOp | App.tsx:98-102 | a tick on a busy junction changes nothing |
| Episode.ClearanceStart | App.tsx:111-148 | starting a clearance removes the head of the chosen lane at once; it marks the junction busy on that lane with green and the cursor on it; one timer for the next snapshot vehicle is left pending, and vehicle accounting is conserved |
| Episode.NormalStart | App.tsx:183-220 | starting a normal episode marks the junction busy on the winner with green, its head passing and the cursor on it, leaves the queues and counters alone, and leaves one timer for the end of green pending |
| Episode.ArriveKeepsInv | App.tsx:56-78 | an arrival keeps the episode invariant, even in the middle of an episode |
| Episode.TickKeepsInv | App.tsx:94-221 | a tick keeps the episode invariant: at most one timer pending, resting iff none |
| Episode.CallbackSettles | App.tsx:116-211 | firing the pending callback of an episode keeps the invariant and conserves vehicle accounting |
| Episode.TimeoutKeepsInv | App.tsx:116-211 | a timer firing keeps the episode invariant |
| Episode.StepKeepsInv | App.tsx:56-232 | every event keeps the invariant, reset while no episode is in flight included |
| Episode.CycleAccounting | App.tsx:94-221 | one tick from a resting junction conserves queued-plus-cleared, for all vehicles and for emergency vehicles, and never lowers a counter |
| Episode.TickAccounting | App.tsx:94-232 | a tick in any state the invariant allows, busy or resting, paused or not, conserves queued-plus-cleared and never lowers a counter |
| Episode.TimeoutAccounting | App.tsx:116-211 | a timer firing conserves queued-plus-cleared and never lowers a counter |
| Episode.StepAccounting | App.tsx:56-221 | each event other than reset raises queued-plus-cleared by exactly the number of vehicles it adds, and never lowers a counter |
| Episode.QuietCycle | App.tsx:98-103 | a tick that starts nothing changes at most the status message and schedules nothing; a tick with nothing eligible changes nothing at all |
| Properties.RunKeepsInv | App.tsx:56-232 | every reset-free event sequence keeps the invariant |
| Properties.RunAccounting | App.tsx:56-221 | over a reset-free run, queued plus cleared rises by exactly the number of arrivals, for all vehicles and for emergency vehicles |
| Properties.CountersCountDequeued | App.tsx:12-29 | from the initial state, each counter equals the arrivals minus the vehicles still queued |
| Properties.GuardedTick | App.tsx:98-103 | a tick on a busy or empty junction changes nothing but possibly the status message, and nothing at all while busy |
| Properties.NothingEligibleTick | App.tsx:159 | with no clearance due and no lane eligible, a tick changes nothing |
| Properties.ClearingStep | App.tsx:116-143 | during a clearance, each arrival, timer firing, control change, or tick while a timer is pending keeps the clearance on track; the lanes gain only the event's arrival and each snapshot vehicle that leaves is counted |
| Properties.ClearanceRest | App.tsx:116-143 | once the rest of a clearance has left no timer pending, the snapshot vehicles not yet gone have left the head of the lane, every arrival is queued in order, and the counters account for exactly those vehicles |
| Properties.ClearanceRemovesSnapshot | App.tsx:111-148 | a clearance that runs to its end removes exactly the snapshot and nothing appended during it, whatever arrivals, timers, control changes and ticks fall inside it; the total counter rises by the snapshot's length and the emergency counter by its emergency vehicles |
| Properties.NormalEpisodeEffect | App.tsx:183-220 | a normal episode, a tick and its two timers, removes exactly the head of the winner; both counters rise accordingly, the junction rests again and the cursor stays on the winner |
| Properties.ServingStep | App.tsx:187-211 | during a normal episode, each arrival, timer firing, control change, or tick while a timer is pending keeps the episode on track; the lanes gain only the event's arrival, and the head leaves and is counted exactly when yellow ends |
| Properties.NormalRest | App.tsx:187-211 | once the rest of a normal episode has left no timer pending, the vehicle it serves has left the head of the lane, every arrival is queued in order, and the counters account for that one vehicle |
| Properties.NormalEpisodeServesHead | App.tsx:183-220 | a normal episode that runs to its end removes exactly the head its tick saw and nothing appended during it, whatever arrivals, timers, control changes and ticks fall inside it; the total counter rises by one and the emergency counter by one iff that head is an emergency vehicle |
| Properties.CycleEpisode | App.tsx:161-220 | when no queued vehicle is more urgent than a common priority above 2 and the lanes from the one after the cursor on are eligible with exactly that minimum, a normal episode serves the lane after the cursor and keeps that situation for the lanes after it |
| Properties.RoundRobinVisitsLanesInOrder | App.tsx:161-181 | with all four lanes finalists at one common minimum priority above 2 and the cursor at its start or on West, four successive normal episodes serve North, East, South, West in turn, one head vehicle each |
| Properties.EachLaneServedOnce | App.tsx:183-210 | four episodes that each served one distinct lane have removed exactly one head from every lane |
| Properties.ResetTwiceIsOnce | App.tsx:84-92 | reset twice equals reset once; reset leaves the controls and the pending timers alone |
| Properties.ResetLeavesTimerPending | App.tsx:84-92 | a yellow-end timer pending at reset still fires and counts a cleared vehicle on the freshly reset junction |

## Left out

- Real time: the interval, the timeouts and their durations scaled by the
  floating-point simulation speed are left out. Timers are pending callbacks that
  fire in the order the events say, and speed has no model.
- Vehicle ids and arrival times: ids drawn from the clock and a random number,
  and the arrival timestamp, become a fresh natural-number counter (`Sim.nextId`);
  arrival time is not represented.
- The newly-added animation flag and its timer (App.tsx:80-81) are cosmetic.
- The delayed reset of `clearedLaneId` (App.tsx:121) is cosmetic. The model sets
  `clearedLaneId` when a clearance ends and never clears it later.
- Status messages are kinds of message (`Types.Status`), not strings. The idle
  guard only compares against the initial message, which the kind captures.
- React components, the CSV scenario upload and export, and user roles are
  rendering and input plumbing, and their code is not part of this model.
- An invalid lane id cannot occur: lane ids are a closed datatype.
- Stale callbacks after reset are modelled as the code behaves. Their safety is
  not claimed, because the code has no epoch guard.
- The tick reads the latest committed junction state (the ref at App.tsx:95-96).
  Each event is modelled as committed before the next one.
- The block-size control accepts any integer. The input range of the form is
  not modelled.
- The interval ticks junction A only, the one junction there is (App.tsx:226).
- Pause stops new ticks only, so in-flight timers still fire (App.tsx:225).
- Properties.ClearanceRemovesSnapshot: leaves out runs with a reset during the
  clearance, whose stale callbacks are the subject of
  `Properties.ResetLeavesTimerPending`, and ticks after the last timer has
  fired, which may start the next episode.
- Properties.NormalEpisodeServesHead: leaves out resets and ticks after the
  last timer for the same reasons. It does not restate the cursor and resting
  facts, which `Properties.NormalEpisodeEffect` gives for a tick followed
  directly by its two timers.
