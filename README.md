# AstroMind mission core in Dafny

This project models the computational core of the AstroMind mission-control dashboard and proves properties of that model. The core has three parts:

- **The A\* pathfinder.** It searches the 8-connected lattice of step `gridSize` that grows from the start point. It avoids circular asteroids widened by a safety margin, and it stops at the first expanded node that lies within one grid step of the goal (`Pathfinding`, class `AStarPathfinder`).
- **The telemetry simulator.** It holds one spacecraft record. Each tick:
  - adds random noise and integrates position;
  - clamps velocity, temperature, radiation and battery;
  - burns fuel: one ten-thousandth of the new speed plus a fixed 0.1, never below empty;
  - applies a one-sided health rule;
  - reclassifies the status.

  This is `TelemetryEngine`, class `TelemetrySimulator`.
- **The advisory engine** (`Advisory`). It has three pieces:
  - the threshold rules that turn one record into an ordered list of recommendations;
  - the fuel and risk estimate of a mission plan;
  - the anomaly detector, which keeps a history of at most 100 records in class `AIEngine` and checks trends over the last five.

The shared records (telemetry, asteroid, search node, recommendation, mission plan) are datatypes in `Mission`.

Modelling choices:
- **Numbers.** JavaScript numbers are modelled as exact `real`s.
- **Square roots.** Each `Math.sqrt` distance becomes an abstract function supplied by the caller. In the pathfinder this is the class constant `dist`; in the telemetry and advisory code it is the parameter `norm`. Lemmas that need a property of the Euclidean distance state it as a precondition (`IsLatticeMetric`, `IsEuclideanNorm`).
- **Goal and collision tests.** Both compare a square root with a bound. They are written on squared distances with a sign guard, which is exactly equivalent for every real bound.
- **Randomness.** The random draws of a tick are passed in as a `TickDraws` record, in the order the update makes them.
- **Clock readings.** These are passed in as integers.
- **Search nodes.** The search keeps its nodes in an arena. A node's parent is an arena index rather than an object reference. The closed set is a set of points rather than a set of `"x,y"` strings.
- **In-place updates.** The source's mutable objects (the pathfinder's open list, the simulator's record, the engine's history) are class fields or search states that the methods reassign.

## Model

| member | source | states |
|---|---|---|
| Pathfinding.AStarPathfinder.constructor | src/utils/pathfinding.ts:8-12 | the pathfinder keeps the asteroid field, grid step and safety margin it is given |
| Pathfinding.AStarPathfinder.StartNode | src/utils/pathfinding.ts:18-25 | the start node sits at the start point with no parent, g = 0, h = the distance to the goal and f = g + h |
| Pathfinding.AStarPathfinder.IsCollision | src/utils/pathfinding.ts:110-118 | a point collides exactly when some asteroid of the field is closer than its radius plus the safety margin |
| Pathfinding.AnyTooClose | src/utils/pathfinding.ts:110-118 | the collision test holds exactly when some asteroid's centre lies closer than its radius plus the safety margin |
| Pathfinding.GetNeighbors | src/utils/pathfinding.ts:84-108 | eight fresh nodes with zero costs and no parent, the k-th one step away in the k-th direction of the source's list; for a non-zero step they are distinct from each other and from the node |
| Pathfinding.SelectMin | src/utils/pathfinding.ts:30-34 | the chosen open entry has the least f of all open entries and is the first one with that f; the scan returns exactly `FirstMin` |
| Pathfinding.FirstMin | src/utils/pathfinding.ts:31-34 | the position, in the open list, of the entry `reduce` keeps: its f is the least of all open entries and every earlier entry has a strictly greater f, so ties go to the first |
| Pathfinding.FirstOpenAt | src/utils/pathfinding.ts:57 | the first open entry whose node lies at the given point: it is at that point and no earlier entry is; none exactly when no open entry is there |
| Pathfinding.FindOpen | src/utils/pathfinding.ts:57 | the linear scan returns exactly `FirstOpenAt`: the first open entry at the given point, or none exactly when no open entry is there |
| Pathfinding.RemovedAtKeepsOthers | src/utils/pathfinding.ts:34-35 | splicing one entry out of the open list keeps every other entry in order and drops only that one |
| Pathfinding.AStarPathfinder.Close | src/utils/pathfinding.ts:33-38 | the current node leaves the open list and its point joins the closed set; the search invariants still hold, every neighbour of every other closed point is still closed, colliding or open, the closed set grows by exactly one point, the start is among the closed points, and every closed point still has a closed node at it |
| Pathfinding.AStarPathfinder.Considered | src/utils/pathfinding.ts:49-69 | the search after one neighbour, case by case: unchanged when closed or colliding; otherwise `Pushed` when no open entry is at the neighbour, else `Relaxed` at the first such entry; the arena never shrinks and open indices stay inside it |
| Pathfinding.AStarPathfinder.Pushed | src/utils/pathfinding.ts:59-64 | exactly one node is appended after the unchanged old nodes and opened, at the neighbour, with parent the current node |
| Pathfinding.AStarPathfinder.Relaxed | src/utils/pathfinding.ts:65-69 | the open list and arena size are unchanged and the node keeps its position; either nothing changes or its g is at most the cost through the current node |
| Pathfinding.AStarPathfinder.ConsiderNeighbor | src/utils/pathfinding.ts:49-69 | the new search is exactly `Considered` of the old one; a closed or colliding neighbour changes nothing; otherwise the neighbour ends up open with g at most the cost through the current node; the search invariants are kept |
| Pathfinding.AStarPathfinder.ConsideredKeepsInv | src/utils/pathfinding.ts:49-69 | `Considered` keeps the search invariants, only extends the search, and leaves the neighbour closed, colliding or open at a cost no higher than the one through the current node |
| Pathfinding.AStarPathfinder.PushKeepsInv | src/utils/pathfinding.ts:59-64 | pushing a new neighbour with g = current.g + step cost, f = g + h and parent = current keeps the search invariants |
| Pathfinding.AStarPathfinder.RelaxKeepsInv | src/utils/pathfinding.ts:65-69 | lowering an open node's g to a cheaper cost through the current node, recomputing f and reparenting (or leaving it alone otherwise) keeps the search invariants and leaves g at most the cost through the current node |
| Pathfinding.AStarPathfinder.ExpandedUpTo | src/utils/pathfinding.ts:45-70 | the search after the neighbours in directions 0 to k - 1, in that order: the left fold of `Considered` over the first k directions; the arena never shrinks and open indices stay inside it |
| Pathfinding.AStarPathfinder.CoverageAdvances | src/utils/pathfinding.ts:48-70 | once the k-th neighbour is handled, the neighbours of the current node in directions 0 to k are covered, and those of other closed points stay covered |
| Pathfinding.AStarPathfinder.ExpandNeighbors | src/utils/pathfinding.ts:45-70 | the loop leaves exactly `ExpandedUpTo` of all eight directions; afterwards every neighbour of every closed point is closed, colliding or open, the closed set is unchanged, no g went up, and every closed point keeps its closed node |
| Pathfinding.AStarPathfinder.ReconstructPath | src/utils/pathfinding.ts:120-130 | the route is the chain of arena nodes from index 0 (the start node) to the given node, each the parent of the next; it starts with the start node, ends with the given node, each step is one lattice move onto a collision-free point, and g grows by the step cost; the route is exactly `PathTo` of the given node |
| Pathfinding.AStarPathfinder.ChainIsPathTo | src/utils/pathfinding.ts:120-130 | a chain of arena nodes from the start node, each the parent of the next and ending at a closed node, is exactly `PathTo` of its last node |
| Pathfinding.PathTo | src/utils/pathfinding.ts:120-130 | the route the parent links trace back from a node is non-empty and ends with that node |
| Pathfinding.AStarPathfinder.RouteCostGrows | src/utils/pathfinding.ts:55 | under the Euclidean step costs, g along a route grows by at least one grid step per move, so it strictly increases and the i-th node has g at least i grid steps |
| Pathfinding.AStarPathfinder.StepCostAtLeastGrid | src/utils/pathfinding.ts:55 | under the Euclidean step costs, each move of a route adds at least one grid step to g |
| Pathfinding.AStarPathfinder.CostAccumulates | src/utils/pathfinding.ts:55 | per-move growth of at least one step adds up: across j - i moves g grows by at least j - i steps |
| Pathfinding.AStarPathfinder.RouteIsSafeWalk | src/utils/pathfinding.ts:120-130 | a reconstructed route is a collision-free lattice walk from the start |
| Pathfinding.AStarPathfinder.WalkStaysClosed | src/utils/pathfinding.ts:51-53 | once the open list is empty, every collision-free lattice walk from the start stays inside the closed set |
| Pathfinding.AStarPathfinder.ClosedNodeReachable | src/utils/pathfinding.ts:63-68 | every closed arena node lies at the end of a collision-free lattice walk from the start |
| Pathfinding.AStarPathfinder.ClosedReachable | src/utils/pathfinding.ts:38 | when every closed point is owned by a closed node, every closed point is the end of a collision-free lattice walk from the start |
| Pathfinding.AStarPathfinder.ExhaustedMeansUnreachable | src/utils/pathfinding.ts:71-73 | with the open list empty, no collision-free lattice walk from the start ends within one grid step of the goal |
| Pathfinding.AStarPathfinder.InitialSearch | src/utils/pathfinding.ts:15-27 | before the loop, the arena holds the start node alone, it is the only open entry, and nothing is closed or expanded |
| Pathfinding.AStarPathfinder.Run | src/utils/pathfinding.ts:29-74 | the search loop as a function of the search state and the remaining expansions; whatever route it finds ends within one grid step of the goal |
| Pathfinding.AStarPathfinder.Round | src/utils/pathfinding.ts:30-70 | one pass of the loop body (close the first open entry of least f, answer its route if it is near the goal, otherwise consider its eight neighbours and go on); a route it finds ends within one grid step of the goal |
| Pathfinding.AStarPathfinder.RunFinds | src/utils/pathfinding.ts:30-43 | when the first open entry of least f lies within one grid step of the goal, `Run` answers the route its parent links trace in the search that has just closed it |
| Pathfinding.AStarPathfinder.RunContinues | src/utils/pathfinding.ts:30-70 | when that entry is not near the goal, `Run` goes on from the search after closing it and considering its eight neighbours, with one expansion less |
| Pathfinding.AStarPathfinder.RunStops | src/utils/pathfinding.ts:29 | with the open list empty `Run` answers no route; with the budget spent it gives up |
| Pathfinding.AStarPathfinder.Stopped | src/utils/pathfinding.ts:71-73 | when the loop stops, `Run` answers no route exactly when the open list is empty, and then no collision-free walk from the start reaches the goal; otherwise it gives up with `fuel` closed points, the start among them, each the end of a collision-free walk from the start |
| Pathfinding.AStarPathfinder.Arrive | src/utils/pathfinding.ts:41-43 | the route returned for a closed node near the goal is a valid route ending near the goal, and it is exactly the answer `Run` gives for the search before that node was closed |
| Pathfinding.AStarPathfinder.FindPath | src/utils/pathfinding.ts:14-74 | the answer is exactly `Run` of the initial search with the whole budget, so the expansion order is the source's (least f first, the earliest open entry on ties) and a found route is the one its parent links trace; a found route is a valid route whose last node is within one grid step of the goal; the empty answer is given only when no collision-free lattice walk from the start comes within one grid step of the goal; giving up means exactly `fuel` points were closed, the start among them, each the end of a collision-free lattice walk from the start, and none within one grid step of the goal |
| TelemetryEngine.Clamp | src/utils/telemetrySimulator.ts:54-56 | the clamped value lies in the range, equals the input inside it and the nearer end outside it |
| TelemetryEngine.Classify | src/utils/telemetrySimulator.ts:86-93 | critical exactly when fuel < 10 or health < 40; maintenance exactly when not critical but fuel < 30 or health < 70; active otherwise; never idle |
| TelemetryEngine.CriticalPrecedence | src/utils/telemetrySimulator.ts:87-88 | fuel 5 with health 90 classifies as critical |
| TelemetryEngine.NextHealth | src/utils/telemetrySimulator.ts:79-84 | with fuel or battery below 20, health above 30 drops to exactly one less or to 30, and never leaves [30, max(30, old)]; otherwise health below 100 rises to exactly 0.1 more or to 100, and never leaves [min(100, old), 100] |
| TelemetryEngine.HealthRule | src/utils/telemetrySimulator.ts:79-84 | health stays in [30, 100], moves by at most 1 down or 0.1 up, and fuel or battery is below 20 exactly when health falls or is held at 30 |
| TelemetryEngine.InitialTelemetry | src/utils/telemetrySimulator.ts:8-22 | the starting record is within every bound and active |
| TelemetryEngine.Tick | src/utils/telemetrySimulator.ts:42-96 | after a tick, velocity, fuel, temperature, radiation and battery lie within their bounds, status is the classification of the new fuel and health, identity is kept and the update time is the supplied clock reading |
| TelemetryEngine.TickKeepsNominal | src/utils/telemetrySimulator.ts:42-96 | a tick keeps the record within every bound, with health in [30, 100] and a status matching the classifier |
| TelemetryEngine.FuelNeverIncreases | src/utils/telemetrySimulator.ts:58-64 | fuel never goes up, and strictly goes down while any is left |
| TelemetryEngine.FuelBurnBounded | src/utils/telemetrySimulator.ts:53-64 | with velocity clamped, one tick burns at most 0.25 fuel |
| TelemetryEngine.TickDrift | src/utils/telemetrySimulator.ts:43-51 | position moves by a tenth of the old velocity plus noise within ±50 (±25 for z); each velocity axis, clamped, moves by at least -5 and less than 5 (2.5 for z) |
| TelemetryEngine.TickAll | src/utils/telemetrySimulator.ts:28-31 | after one or more ticks, each with its own draws and clock reading, the record is within every bound, its status matches the classifier, its update time is the last reading, and its identity is kept |
| TelemetryEngine.NominalForever | src/utils/telemetrySimulator.ts:24-31 | any number of ticks with any draws and clock readings keeps the record within every bound |
| TelemetryEngine.TelemetrySimulator.constructor | src/utils/telemetrySimulator.ts:8-22 | a new simulator holds the starting record, is not running and has no timer |
| TelemetryEngine.TelemetrySimulator.Start | src/utils/telemetrySimulator.ts:24-32 | starting a running simulator changes nothing; otherwise it is running with the given timer and the record untouched |
| TelemetryEngine.TelemetrySimulator.Stop | src/utils/telemetrySimulator.ts:34-40 | afterwards the simulator is not running, has no timer and the record is untouched |
| TelemetryEngine.StopIsIdempotent | src/utils/telemetrySimulator.ts:34-40 | stopping twice leaves the same state as stopping once |
| TelemetryEngine.TelemetrySimulator.UpdateTelemetry | src/utils/telemetrySimulator.ts:42-96 | the field-by-field update leaves exactly the record `Tick` describes, keeps the record invariant and leaves the timer state alone |
| TelemetryEngine.TelemetrySimulator.GetCurrentData | src/utils/telemetrySimulator.ts:98-100 | returns the current record |
| TelemetryEngine.TelemetrySimulator.SetMissionActive | src/utils/telemetrySimulator.ts:102-112 | activation sets velocity to [500,700) x [300,500) x [100,200) from the draws; deactivation scales each axis by 0.1; nothing else changes and the record invariant holds |
| Advisory.AnalyzeTelemetry | src/utils/aiEngine.ts:6-62 | abort advice exactly when fuel < 20; trajectory advice exactly when 20 <= fuel < 40; diagnostics exactly when health < 60; thermal advice exactly when temperature > 80 or < -50; radiation advice exactly when radiation > 1000; nothing else; at most four entries; empty exactly when no threshold is crossed |
| Advisory.AnalyzeInRuleOrder | src/utils/aiEngine.ts:9-59 | recommendations come out in rule order (fuel, health, temperature, radiation), each rule at most once |
| Advisory.AdvisoryCounts | src/utils/aiEngine.ts:9-59 | exactly one fuel recommendation when fuel < 40 and none otherwise; one maintenance recommendation per failed health or temperature rule; one navigation recommendation exactly when radiation > 1000; never a mission recommendation |
| Advisory.LowFuelAlone | src/utils/aiEngine.ts:10-17 | fuel 15 with health 94, temperature 23 and radiation 150 yields the abort recommendation alone |
| Advisory.PredictFuelUsage | src/utils/aiEngine.ts:64-76 | with non-negative speed and duration, the estimate is at least the base 0.1 per unit of duration when health is at most 100, and at most twice the speed-adjusted rate times the duration when health is at least 0 |
| Advisory.FuelUsageMonotone | src/utils/aiEngine.ts:64-76 | for the same velocity, lower health or a longer duration never lowers the estimate |
| Advisory.Risk | src/utils/aiEngine.ts:92-94 | high exactly when the requirement exceeds 80% of the fuel, medium exactly when it does not but exceeds 60%, low otherwise |
| Advisory.RiskMonotone | src/utils/aiEngine.ts:92-94 | a larger requirement or less fuel on board never lowers the risk level |
| Advisory.GenerateMissionPlan | src/utils/aiEngine.ts:78-117 | the duration is the straight-line distance from start to target divided by 10000; the trajectory is two parentless nodes, the start with g = h = f = 0 and the target with h = 0 and g = f = the distance; the fuel requirement is the usage predicted for that duration; the risk level follows the 80% and 60% thresholds; there are three objectives |
| Advisory.MaxOf | src/utils/aiEngine.ts:140 | the result is at least every entry and equal to one of them |
| Advisory.MinOf | src/utils/aiEngine.ts:140 | the result is at most every entry and equal to one of them |
| Advisory.SpreadExceeds | src/utils/aiEngine.ts:140-141 | max minus min exceeds a bound exactly when some two entries differ by more than it |
| Advisory.TemperatureSpread | src/utils/aiEngine.ts:139-141 | the temperature range test is the pairwise-difference test over the window |
| Advisory.Reported | src/utils/aiEngine.ts:134-150 | each anomaly is reported exactly when its check fired, in the fixed order fuel, temperature, health |
| Advisory.WindowAnomalies | src/utils/aiEngine.ts:129-151 | fuel depletion exactly when fuel fell by more than 10 across the window, temperature instability exactly when two temperatures differ by more than 30, health degradation exactly when health fell by more than 15, in that order |
| Advisory.TrendAnomalies | src/utils/aiEngine.ts:128-153 | nothing is reported until the history holds more than five records; after that, the window checks run on the last five |
| Advisory.FuelDropThreshold | src/utils/aiEngine.ts:133-136 | a drop from 90 to 75 across the window is reported and a drop from 90 to 82 is not |
| Advisory.Admit | src/utils/aiEngine.ts:123-126 | the new record is appended; the oldest record is dropped exactly when the history would exceed 100; the history never exceeds 100 |
| Advisory.AIEngine.constructor | src/utils/aiEngine.ts:3-4 | a new engine has an empty history |
| Advisory.AIEngine.DetectAnomalies | src/utils/aiEngine.ts:119-154 | the history becomes the old one with the record admitted (at most 100 kept), and the anomalies reported are exactly the trend anomalies of the new history |

## Left out

- Timers and the tick callback: `setInterval` and `clearInterval` are outside the model. `Start` receives the handle the timer would return, and the periodic call of the update is represented by repeated `Tick`s (`TickAll`).
- Clock readings (`new Date()`, `Date.now()`) are integer parameters. Recommendation timestamps and a mission plan's id, name and launch window are not modelled.
- Recommendation and anomaly texts: a recommendation keeps its kind, priority, action tag and the reading its message quotes, not the formatted message. An anomaly is an enumeration whose `Message` gives the source's text.
- Floating point: rounding, `NaN` and infinities are not modelled. Numbers are exact reals.
- The `"x,y"` string keys of the closed set: these are modelled as points, which identifies the same positions for finite numbers.
- The square root is abstract (`dist`, `norm`). Only the lemmas that say so assume it is the Euclidean length.
- Pathfinding.AStarPathfinder.FindPath: the original loops until the open list is empty. On an unbounded lattice this need not happen, so the model takes an expansion budget and reports `GaveUp` when it runs out. The other two outcomes are proved for every budget.
- Pathfinding.AStarPathfinder.FindPath: route optimality is not claimed. The heuristic is the Euclidean distance and the search stops at the first expanded node near the goal; the model proves validity and completeness of the answer, not least cost.
- TelemetryEngine.TelemetrySimulator.GetCurrentData: the original's copy is shallow, so the position and velocity objects are shared with the simulator. The model returns a value, so this aliasing is not captured; neither is the same sharing in the callback copy.
- Pathfinding.AStarPathfinder.SafeWalk and RouteOk: one might expect no route node to lie within an obstacle's radius plus the margin. The code never applies the collision test to the start node, and neither does the model: only nodes after the first are proved collision-free.
- Pathfinding.AStarPathfinder.FindPath: one might expect an enclosed goal to yield an empty route. The code returns the empty route only when the open list runs empty. On the unbounded lattice that happens only when the collision-free points reachable from the start are finitely many; otherwise the original keeps searching, and the model ends in `GaveUp` once its budget is spent. The model follows the code: `NoRoute` is proved to mean that no collision-free walk from the start comes within a grid step of the goal.
- Input validation: one might expect non-finite coordinates, a non-positive grid step or margin and a negative radius to be rejected. The code validates nothing, and neither does the model; a non-positive grid step simply makes the goal test always false.
- The route-length bound for obstacle-free straight lines is not stated: it depends on the numeric value of the square root, which is abstract here.
- Calling `analyzeTelemetry` twice on the same record gives lists that differ only in their timestamps, since each entry is stamped with the current time. The model drops timestamps, so its two lists are equal because `AnalyzeTelemetry` is a function; no separate lemma states it.
- Default arguments: the constructor's defaults `gridSize = 10` and `safetyMargin = 50` (src/utils/pathfinding.ts:8) and `start`'s default `interval = 2000` (src/utils/telemetrySimulator.ts:24) are not modelled. The constructor always receives both values, and the tick interval belongs to the timer, which is outside the model.
- The `Idle` status exists in the type, but no operation assigns it.
- The asteroid-field record (`AsteroidField`) is not part of this model: no core operation reads it.
- The dashboard components and the chat assistant are not part of this model.
