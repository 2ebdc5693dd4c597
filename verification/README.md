# SimAndLearning core, modelled in Dafny

SimAndLearning has two halves.

The first half is a traffic simulator written in Go. It is a cellular
automaton: roads are chains of cells, and a cell holds vehicles up to its
capacity. Some cells are traffic lights that open and close on a fixed
cycle. Vehicles are generated with random speed, acceleration and slowing
probability. Each one is given an origin, a destination and a planned path.
A vehicle waits in the origin's buffer, enters the road and moves with a
Nagel–Schreckenberg-style velocity rule. It records trace points at
checkpoints on its path and leaves at its destination. Finished trips are
written as CSV rows, and trace points are grouped by simulated day.

The second half is a Python learning pipeline. It reads the trip table and
the trace table and derives features:
- a time bucket;
- one-hot origin and destination digits;
- the number of traffic lights crossed.

It then adds, for each group of records, a mean and a standard deviation of
the travel time over several look-back windows. A window that holds no
records is searched again one simulated day earlier, up to five days back.
The results are smoothed by averaging a forward fill and a backward fill.
Finally, the training drivers choose a test day and a test period from a
list of day ranges.

This project models that core with immutable datatypes and pure functions.
It has one module per source file:

| module | models |
|---|---|
| `TimeFeature` | `CreateTimeFeature.py` |
| `FeatureEngineering` | `FeatureEngineering.py` |
| `DateSelection` | the date-selection parts of the three `LearningForRingBySampling*.py` drivers |
| `CommonCell`, `TrafficLight`, `Link`, `Vehicle` | the `element` package |
| `GraphGenerator`, `TraceProcessor`, `VehicleGenerator` | the `simulator` package |
| `TraceRecorder`, `VehicleRecorder` | the `recorder` package |
| `Config` | the defaulting part of `config.go` |

Five helper modules support them:
- `Wrappers`: `Option` and `Result`.
- `Arith`: Go's truncating division and Python's floor division, and the increment of the shared cell and vehicle ID counters.
- `Text`: decimal rendering and parsing of integers, `Join` and `Split`.
- `Seqs`: small sequence facts.
- `Digraph`: the directed graph as sets of nodes and edges, standing in for gonum's `simple.DirectedGraph`.

Several things the source takes from outside are parameters of the model:
- random draws;
- Go map iteration order;
- floating-point formatting;
- the standard deviation and `round(x, 3)` of the Python side, bundled as `Numerics`.

`Config.LegacyGraphFields` models the backward-compatibility block of
`LoadConfig`. It is the identity, because the simulation section declares
no field for the lookup to find.

Where descriptions of the intended behaviour and the code disagree, the
model follows the code:
- **Backtracking constants.** The backtracking search shifts by the constant
  57600 steps and tries the shifts k = 0..5. These are fixed constants, not
  parameters.
- **First simulated day.** The global warm-up filter keeps the rows whose
  `Date` is greater than 0. It does not compare against the minimum date.
- **Per-group warm-up.** The warm-up filter keeps rows with
  `t >= t_min + W·G`, so a row exactly at the threshold is kept.
- **Random velocity and acceleration.** The random velocity is 1 or 2 and the
  random acceleration is 1, 2 or 3. These are the ranges the code draws
  from; its doc comments say 1–3 and 1–4.
- **Legacy grid size.** The legacy copy of the grid size from the simulation
  section never fires.

## Model

| member | source | states |
|---|---|---|
| TimeFeature.SortByTime | Learning/Method/CreateTimeFeature.py:60 | the sorted group is ordered by entry time and is a permutation of the group |
| TimeFeature.SortSorted | Learning/Method/CreateTimeFeature.py:60 | a group already in time order is left as it is |
| TimeFeature.SortKeepsRows | Learning/Method/CreateTimeFeature.py:60 | a row is in the sorted group exactly when it is in the group |
| TimeFeature.FindWithBacktracking | Learning/Method/CreateTimeFeature.py:69-80 | the result is the first of the intervals shifted back 0 to 5 days that holds a row, with that interval's rows; it is none exactly when all six are empty |
| TimeFeature.MeanOf | Learning/Method/CreateTimeFeature.py:78 | the mean skips missing values; it is NaN exactly when no value is defined, else it times the count of defined values is their sum |
| TimeFeature.StdOf | Learning/Method/CreateTimeFeature.py:78 | the sample deviation is NaN exactly when fewer than two values are defined |
| TimeFeature.WindowEmptyIsNaN | Learning/Method/CreateTimeFeature.py:69-97 | when no row of the group lies in any of the six shifted intervals of a window, that window's mean or deviation is NaN |
| TimeFeature.WindowUsesFirstNonEmptyShift | Learning/Method/CreateTimeFeature.py:69-97 | when shift k is the first shift of a window holding a row, the window's value is the rounded statistic of the target values of exactly the rows in shift k |
| TimeFeature.KeptRowsSpec | Learning/Method/CreateTimeFeature.py:60-63 | the rows kept after warm-up are in time order and, as a multiset, exactly the group's rows at or after its earliest time plus the window count times the gap |
| TimeFeature.Specs | Learning/Method/CreateTimeFeature.py:100-103 | there is one column pair for every target and every window 1..W, and no other |
| TimeFeature.SpecKeys | Learning/Method/CreateTimeFeature.py:100-103 | a feature key exists exactly for each target with its spaces removed and each window 1..W |
| TimeFeature.Strip | Learning/Method/CreateTimeFeature.py:102 | removing spaces keeps exactly the characters of the name that are not spaces |
| TimeFeature.StripIsFilter | Learning/Method/CreateTimeFeature.py:102 | removing spaces keeps the characters that are not spaces, in their order, and nothing else |
| TimeFeature.StripNoSpace | Learning/Method/CreateTimeFeature.py:102 | a name without spaces is unchanged |
| TimeFeature.FeaturesAt | Learning/Method/CreateTimeFeature.py:99-103 | an output row carries exactly the feature columns of all targets and windows |
| TimeFeature.FeatureValue | Learning/Method/CreateTimeFeature.py:99-113 | a row's value in a feature column is that column's smoothed value at the row's position |
| TimeFeature.ForwardScan | Learning/Method/CreateTimeFeature.py:106 | the loop computes the forward fill: at each index, the last defined value at or before it |
| TimeFeature.BackwardScan | Learning/Method/CreateTimeFeature.py:107 | the loop computes the backward fill: at each index, the first defined value at or after it |
| TimeFeature.SmoothScan | Learning/Method/CreateTimeFeature.py:106-107 | the loops compute the column-wise average of forward and backward fill |
| TimeFeature.SmoothKeepsDefined | Learning/Method/CreateTimeFeature.py:106-113 | a defined value survives smoothing unchanged |
| TimeFeature.SmoothNoNaN | Learning/Method/CreateTimeFeature.py:106-113 | a column without NaN is unchanged |
| TimeFeature.SmoothInterior | Learning/Method/CreateTimeFeature.py:106-113 | a cell in a gap between two defined values becomes the mean of those two values |
| TimeFeature.SmoothLeadingNaN | Learning/Method/CreateTimeFeature.py:106-113 | a cell with no defined value at or before it stays NaN |
| TimeFeature.SmoothTrailingNaN | Learning/Method/CreateTimeFeature.py:106-113 | a cell with no defined value at or after it stays NaN |
| TimeFeature.SmoothDefinedIff | Learning/Method/CreateTimeFeature.py:106-113 | a smoothed cell is defined exactly when some value is defined at or before it and some at or after it |
| TimeFeature.SmoothIdempotent | Learning/Method/CreateTimeFeature.py:106-113 | smoothing a smoothed column changes nothing |
| TimeFeature.FirstMissing | Learning/Method/CreateTimeFeature.py:76 | none exactly when every target is a column of the group; otherwise a target that is not |
| TimeFeature.ProcessGroup | Learning/Method/CreateTimeFeature.py:59-115 | a group fails only when a window is evaluated on a kept row, naming a target column it lacks or, with every column present, a target listed twice; otherwise it outputs exactly its kept rows in time order, each with exactly the feature columns, whose values are the smoothed window statistics of that row |
| TimeFeature.ProcessGroupFailsIff | Learning/Method/CreateTimeFeature.py:59-115 | a group fails exactly when there is a window, some row is kept and some target column is missing or some target is listed twice; the missing column is the error reported whenever there is one |
| TimeFeature.GroupKeys | Learning/Method/CreateTimeFeature.py:122 | the group names are in strictly ascending order and are exactly the keys present in the table |
| TimeFeature.RunRowConservation | Learning/Method/CreateTimeFeature.py:122-127 | the output rows are, as a multiset, exactly the input rows at or after their own group's warm-up threshold and, when the first day is dropped, dated after day 0 |
| TimeFeature.RunRowCount | Learning/Method/CreateTimeFeature.py:122-127 | each input row appears in the output as often as it passes both filters |
| TimeFeature.NoCrossGroupLeakage | Learning/Method/CreateTimeFeature.py:119-124 | the output rows of a key are exactly what processing that key's rows alone gives, after the same date filter |
| TimeFeature.RunFailsIff | Learning/Method/CreateTimeFeature.py:122-124 | the run fails exactly when the table is empty or some group fails |
| FeatureEngineering.NewConfig | Learning/Method/FeatureEngineering.py:21-22 | construction fails exactly for a zero light or zone width; with positive spacing the lights fit on the ring |
| FeatureEngineering.Bucket | Learning/Method/FeatureEngineering.py:43-47 | the date and the time within the day recompose the time step; the hour (0..23) and the ten-minute quarter (0..143) contain the time within the day, and six quarters make an hour |
| FeatureEngineering.Dig | Learning/Method/FeatureEngineering.py:58-69 | for a positive width the zone of a non-zero cell is the one that contains it; cell 0 gets the last zone of the ring |
| FeatureEngineering.OriginZeroWrapsAround | Learning/Method/FeatureEngineering.py:60-69 | cell 0 falls in the same zone as the ring's last cell |
| FeatureEngineering.ODLabelParses | Learning/Method/FeatureEngineering.py:70 | the origin–destination label splits at `_` into two parts that parse back as the two zones |
| FeatureEngineering.ODLabelInjective | Learning/Method/FeatureEngineering.py:70 | different zone pairs get different labels |
| FeatureEngineering.DistanceDig | Learning/Method/FeatureEngineering.py:81-82 | NaN exactly for a zero width; otherwise the bucket that contains the path length |
| FeatureEngineering.LightPositions | Learning/Method/FeatureEngineering.py:91 | there is one light per multiple of the spacing, as many as the constructor counted |
| FeatureEngineering.LightsOnRing | Learning/Method/FeatureEngineering.py:91 | with the constructor's light count every light lies on the ring |
| FeatureEngineering.LightsPassed | Learning/Method/FeatureEngineering.py:99-108 | a light is passed exactly when it lies on the clockwise arc after the origin, up to and including the destination |
| FeatureEngineering.FullCircle | Learning/Method/FeatureEngineering.py:104-108 | a trip that ends where it started goes once round the ring and passes every light |
| FeatureEngineering.ThereAndBack | Learning/Method/FeatureEngineering.py:99-108 | between two distinct cells every light is passed in exactly one direction, so the two counts add up to all lights |
| FeatureEngineering.LightCountIsFlagTotal | Learning/Method/FeatureEngineering.py:112-115 | the light count of a trip is the sum of its light flags |
| FeatureEngineering.Run | Learning/Method/FeatureEngineering.py:31-75 | the run fails exactly for a zero width; otherwise the rows are the trips with positive travel time and path longer than the minimum, in input order |
| FeatureEngineering.RunKeepsExactly | Learning/Method/FeatureEngineering.py:31-75 | a trip is in the output exactly when it is an input trip with positive travel time and a path longer than the minimum |
| TrafficLight.NewTrafficLightCell | element/trafficLightCell.go:19-34 | construction succeeds exactly for a positive interval and 0 <= start < end <= interval; the light is then a fresh cell, red, at count 0 |
| TrafficLight.Cycle | element/trafficLightCell.go:37-49 | only count and phase change; the count stays in 1..interval and the light is green exactly when the count lies in (start, end] |
| TrafficLight.AdmitStepsGreen | element/trafficLightCell.go:37-58 | over any run of steps a vehicle that fits is admitted on exactly the green steps, and one that does not fit on none |
| TrafficLight.AdmissionsPerCycle | element/trafficLightCell.go:37-58 | over a full cycle a light admits a vehicle that fits on exactly end - start steps, and one that does not fit on none |
| TrafficLight.SetCount | element/trafficLightCell.go:92-97 | a count is accepted exactly within 1..interval and only the count changes |
| TrafficLight.GreenShare | element/trafficLightCell.go:37-49 | over any interval of consecutive steps a light is green exactly end - start times |
| TrafficLight.FullCycleReturns | element/trafficLightCell.go:37-42 | after a full interval of steps a light that has stepped before is back at its count |
| TrafficLight.ChangeToTrafficLightCell | element/commonCell.go:82-84 | the light keeps the cell's ID, speed limit and capacity but starts empty; it fails on an invalid phase |
| CommonCell.NewCommonCell | element/commonCell.go:24-33 | a new cell has the given ID, speed limit and capacity, no occupants, an empty buffer and zero occupation |
| CommonCell.Load | element/commonCell.go:94-105 | loading succeeds exactly when the vehicle fits; it then adds the vehicle and its size, and changes nothing else |
| CommonCell.Unload | element/commonCell.go:108-119 | unloading succeeds exactly when the vehicle is present; it then removes the vehicle and subtracts its size, and changes nothing else |
| CommonCell.LoadableIsLoadCheck | element/commonCell.go:87-105 | the admission check is exactly the check a load makes, and a load it allows stays within capacity |
| CommonCell.NewCellConsistent | element/commonCell.go:24-33 | a new cell's occupation is the total size of its occupants |
| CommonCell.LoadPreserves | element/commonCell.go:98-104 | loading an absent vehicle keeps the occupation equal to the total size of the occupants |
| CommonCell.UnloadPreserves | element/commonCell.go:112-118 | unloading keeps the occupation equal to the total size of the occupants |
| CommonCell.LoadTwiceOvercounts | element/commonCell.go:98-104 | loading a vehicle already present succeeds but the occupation no longer matches the occupants |
| CommonCell.LoadThenUnload | element/commonCell.go:98-118 | loading an absent vehicle and unloading it restores the cell |
| CommonCell.BufferLoad | element/commonCell.go:122-129 | queuing always succeeds: the vehicle goes to the back, the vehicles already waiting keep their order, and nothing else changes |
| CommonCell.BufferIsFifo | element/commonCell.go:70-79 | the buffer lists vehicles front to back in the order they were queued, after those already waiting |
| CommonCell.BufferUnload | element/commonCell.go:131-143 | removal from the buffer succeeds exactly when the vehicle is in it, and only the buffer changes |
| CommonCell.BufferLoadThenUnload | element/commonCell.go:121-143 | pushing an absent vehicle to the back of the buffer and removing it restores the cell |
| CommonCell.BufferUnloadKeepsOrder | element/commonCell.go:135-142 | removal takes out the vehicle's first entry and keeps the other vehicles in order |
| Arith.NextID | element/link.go:14-16 | an ID counter hands out IDs strictly above every ID it handed out before |
| Link.NewLink | element/link.go:30-48 | construction fails exactly with fewer than two cells; otherwise the link has that many fresh cells with increasing IDs taken from the counter, which advances by the cell count |
| Link.FlatLength | element/link.go:56-69 | the flattened link lists the link's cells in order and has the link's length |
| Link.GetCell | element/link.go:127-136 | the cell at an index in range, which is a cell of the flattened link; none otherwise |
| Link.AddToGraph | element/link.go:72-79 | adding a link succeeds exactly when no cell follows itself and adds exactly the edges between consecutive cells |
| Link.AddToGraphChain | element/link.go:76-78 | with increasing cell IDs, cell i has an edge to cell j exactly when j = i + 1 |
| Link.AddFromNode | element/link.go:82-87 | exactly the edge from the node to the first cell is added, unless it would be a self edge |
| Link.AddToNode | element/link.go:90-95 | exactly the edge from the last cell to the node is added, unless it would be a self edge |
| Digraph.AddPath | simulator/graphGenerator.go:261-271 | adding a path succeeds exactly when no step stays on one node; it adds exactly the path's nodes and the edges between consecutive nodes |
| Vehicle.NewVehicle | element/vehicle.go:40-65 | construction succeeds exactly for non-negative speed and acceleration, positive size and slowing probability in [0, 1]; the vehicle starts in state 0 with an empty trace |
| Vehicle.SetOD | element/vehicle.go:154-166 | origin and destination are rejected exactly when they share an ID, leaving the vehicle as it was; otherwise both are set and the state becomes 1 |
| Vehicle.SetPath | element/vehicle.go:169-207 | a path is accepted exactly in state 1 when it is non-empty, runs from the origin to the destination and holds only cells and links; its expansion becomes the remaining path and its length the path length |
| Vehicle.SetPathPartialWrite | element/vehicle.go:189-201 | a path rejected at a node that is neither cell nor link still overwrites the planned path, and leaves the expansion of the nodes before it as the remaining path |
| Vehicle.ExpandLength | element/vehicle.go:193-204 | the expanded path has one entry per cell node plus every cell of each link |
| Vehicle.BufferIn | element/vehicle.go:210-226 | entering the buffer succeeds exactly in state 2 with an origin cell; the vehicle joins the back of the origin's buffer, gets its entry time and state 3 |
| Vehicle.UpdateActiveState | element/vehicle.go:229-253 | only the active flag changes; it is set exactly when the vehicle is in the buffer and the occupation plus the sizes of the vehicles up to and including it fit the capacity |
| Vehicle.AdmittedIff | element/vehicle.go:238-252 | the buffer scan admits a vehicle exactly when it is in the buffer and the vehicles up to and including it fit into the remaining capacity |
| Vehicle.AdmittedVehicleFits | element/vehicle.go:238-277 | an active vehicle can be taken out of the origin's buffer and loaded into the origin cell |
| Vehicle.SystemIn | element/vehicle.go:256-278 | entering succeeds exactly in state 3 when active, with an origin cell and a non-empty path; the vehicle moves from the buffer into the cell, takes the first remaining cell and gets state 4 |
| Vehicle.SystemOut | element/vehicle.go:282-311 | leaving succeeds exactly in state 4 or 5 with a position and unloads the vehicle from its cell; from state 4 it stamps the arrival time and sets state 5 |
| Vehicle.Gap | element/vehicle.go:447-481 | the gap is the leading run of remaining cells that would take the vehicle and let it through, at most the limit checked |
| Vehicle.GapIsFastest | element/vehicle.go:447-481 | the free cells ahead, looked at no further than the accelerated speed, are the largest safe speed up to it |
| Vehicle.NewVelocity | element/vehicle.go:432-488 | without the random slow-down the new speed is the largest safe speed (within the remaining path, only cells that take and pass the vehicle) up to the accelerated speed; with it, one less but not below zero; a negative accelerated speed is kept, or floored at zero by the slow-down |
| Vehicle.Drive | element/vehicle.go:332-426 | on the road, a negative new speed fails, speed 0 stays put at speed 0, and a positive speed moves exactly that many cells down the remaining path, crossing only cells that take and pass the vehicle, failing only when it uses up a path that has no destination |
| Vehicle.Move | element/vehicle.go:315-427 | a vehicle outside the network only records its start; a negative new speed fails, speed 0 stays put, and a positive speed moves exactly that many cells down the remaining path, failing only when it uses up a path that has no destination; without a hop nothing moves; arrival happens exactly when the move uses up the path |
| Vehicle.MoveGoesAsFarAsSafe | element/vehicle.go:315-427 | without the random slow-down a vehicle advances exactly the largest safe distance within its accelerated speed |
| Vehicle.Advance | element/vehicle.go:348-425 | the vehicle moves its speed in cells down the path and hops from its cell to the last one crossed; it fails exactly at the path's end without a destination; on arrival it records the last cell, stamps the time and takes state 5 |
| Vehicle.HopPreserves | element/vehicle.go:370-372 | moving a vehicle between two consistent cells keeps both consistent and moves its size from one occupation to the other |
| GraphGenerator.InitialCount | simulator/graphGenerator.go:78-82 | a light's initial count lies in 1..interval-1, or is 1 when the interval leaves no choice |
| GraphGenerator.MakeLight | simulator/graphGenerator.go:68-82 | a light is built exactly for a valid phase; it is then red, well formed, with its initial count |
| GraphGenerator.PlaceRingCells | simulator/graphGenerator.go:50-99 | placement succeeds exactly when the short green phase is valid, and the long one too when there is more than one light; the nodes are 0..n-1, without edges, with a light at every multiple of the spacing and an ordinary cell elsewhere |
| GraphGenerator.ChainCells | simulator/graphGenerator.go:102-104 | the edges are exactly those from each cell to the next |
| GraphGenerator.CreateCycleGraph | simulator/graphGenerator.go:29-109 | the ring is built exactly for at least two cells, positive spacing and interval and valid phases; its edges are 0 -> 1 -> ... -> n-1 -> 0 and it has a light at every multiple of the spacing |
| GraphGenerator.RingSuccessor | simulator/graphGenerator.go:102-106 | each ring cell's only successor is the next cell, wrapping round at the end |
| GraphGenerator.CreateStarRingGraph | simulator/graphGenerator.go:122-282 | the star-ring is built exactly for positive chain lengths and an interval of at least 4; its nodes are the five junctions and all chain cells, its edges the walks of the sixteen connections, and its lights end the four chains into the centre |
| GraphGenerator.PhasesPartition | simulator/graphGenerator.go:224-228 | at every count of the cycle exactly one of the four lights into the centre is green |
| GraphGenerator.PhaseValid | simulator/graphGenerator.go:224-238 | a light's quarter is a valid phase exactly when the interval is at least 4, or it is the last quarter |
| GraphGenerator.WalkShape | simulator/graphGenerator.go:207-275 | a connection's walk has no self step and adds exactly the next block of fresh cell IDs |
| GraphGenerator.ConnectionInNetwork | simulator/graphGenerator.go:261-275 | every edge of a connection's walk is an edge of the network of it and the later connections |
| GraphGenerator.PlaceChainCells | simulator/graphGenerator.go:214-258 | a chain is placed exactly when its light, if it has one, has a valid phase; it adds the chain's cells and only that light |
| GraphGenerator.BuildConnection | simulator/graphGenerator.go:207-276 | a connection is built unless it is the first one into the centre and the interval is below 4; the built network then covers one more connection |
| TraceRecorder.DaySteps | recorder/traceDataRecorder.go:106-116 | the day length is the configured one when positive, else 86400 |
| TraceRecorder.DayOfTimeStep | recorder/traceDataRecorder.go:105-119 | a non-negative step t lies in day d with (d-1)·D <= t < d·D; a non-positive step lies in day 1 or before |
| TraceRecorder.SameDay | recorder/traceDataRecorder.go:105-119 | two non-negative steps share a day exactly when they lie in the same block of D steps |
| TraceRecorder.NegativeStepIsDayOne | recorder/traceDataRecorder.go:118 | truncating division files step -1 under day 1, where floor division would give day 0 |
| TraceRecorder.TraceData | recorder/traceDataRecorder.go:284-316 | an empty trace gives nothing; otherwise there is one row per traced node, in iteration order, with the vehicle ID, the time and the node |
| TraceRecorder.TraceDataRoundTrip | recorder/traceDataRecorder.go:301-315 | the rows parse back into the trace when its IDs and times fit 64 bits |
| TraceRecorder.Convert | recorder/traceDataRecorder.go:516-530 | there are at most as many converted rows as rows, each with one to three fields |
| TraceRecorder.ConvertTruncates | recorder/traceDataRecorder.go:519-528 | the converted rows are, in order, the non-empty rows cut to their first three fields |
| TraceRecorder.ConvertIdempotent | recorder/traceDataRecorder.go:516-530 | converting converted rows changes nothing |
| TraceRecorder.SaveTraceData | recorder/traceDataRecorder.go:510-541 | an empty batch changes nothing; otherwise one batch is appended after the earlier ones and the record count advances: when its first row has more than three fields, the empty rows are dropped and each remaining row is cut to at most its first three fields, in order; otherwise the batch is stored unchanged |
| TraceRecorder.GroupByDayKeepsFirst | recorder/traceDataRecorder.go:413-443 | a day's table has a key exactly when some row of that day has it, and it holds the first such row; no day's table is empty |
| TraceRecorder.UniqueKeepsLast | recorder/traceDataRecorder.go:462-471 | the single table has a key exactly when some row of three fields has it, and it holds the last such row |
| TraceRecorder.FirstVersusLast | recorder/traceDataRecorder.go:413-471 | of two copies of a record, splitting by day keeps the first and the single table keeps the last |
| TraceRecorder.WriteToTraceDataCSV | recorder/traceDataRecorder.go:359-492 | an empty cache writes nothing; otherwise the cache is emptied, and the output has an entry exactly where the first-by-day or last-in-table rule files a cached row, holding that row; no day table is empty |
| TraceProcessor.TargetCount | simulator/traceProcessor.go:54-67 | a positive configured interval is the target; otherwise it is 4 for paths up to 20, 8 above 100, else 6 |
| TraceProcessor.MidIndices | simulator/traceProcessor.go:70-76 | the intermediate indices lie strictly inside the path in non-decreasing order, fewer than the target, and none for paths of at most two nodes |
| TraceProcessor.CheckpointsShape | simulator/traceProcessor.go:48-76 | the checkpoints start with the path's first node, followed by the nodes at the intermediate indices |
| TraceProcessor.CheckpointsEnd | simulator/traceProcessor.go:79-84 | a path of several nodes ends its checkpoints with its last node, appended only when not already last; a one-node path has only its start |
| TraceProcessor.CheckpointsCount | simulator/traceProcessor.go:70-84 | there are never more checkpoints than the target, or two |
| TraceProcessor.CheckpointsOnPath | simulator/traceProcessor.go:50-84 | every checkpoint is a node of the path |
| TraceProcessor.SetupVehicleCheckpoints | simulator/traceProcessor.go:29-90 | with tracing on and a non-empty path the vehicle's checkpoints are stored under its ID; otherwise the store is unchanged |
| TraceProcessor.IsCheckpoint | simulator/traceProcessor.go:129-135 | the search finds a node exactly when it is in the list |
| TraceProcessor.CheckVehicleCheckpoints | simulator/traceProcessor.go:98-144 | a trace point at the current node and time is added exactly when tracing is on and the vehicle stands on one of its checkpoints; otherwise the vehicle is unchanged |
| TraceProcessor.ClearVehicleCheckpoints | simulator/traceProcessor.go:151-161 | with tracing on exactly that vehicle's entry is removed; otherwise the store is unchanged |
| TraceProcessor.SetupCheckClear | simulator/traceProcessor.go:29-161 | after setup a vehicle records at its origin and at its destination, and after clearing it records nowhere |
| VehicleGenerator.VehicleIDsIncrease | simulator/vehicleGenerator.go:18-20 | vehicles generated one after another get the IDs counter+1, counter+2, ..., so no two share one |
| VehicleGenerator.RandomVelocity | simulator/vehicleGenerator.go:23-25 | the speed is 1 or 2, one more than the draw |
| VehicleGenerator.RandomAcceleration | simulator/vehicleGenerator.go:28-30 | the acceleration is 1, 2 or 3, one more than the draw |
| VehicleGenerator.RandomSlowingProbability | simulator/vehicleGenerator.go:33-35 | the slowing probability lies in [0, 0.5) |
| VehicleGenerator.GenerateVehicle | simulator/vehicleGenerator.go:97-104 | a generated vehicle has the next ID, speed 1 or 2, acceleration 1 to 3, slowing probability below 0.5, size one, state 0 and no trace |
| VehicleGenerator.AddNodeToTraceNodesIfMissing | simulator/vehicleGenerator.go:244-252 | the node is appended exactly when no listed node has its ID |
| VehicleGenerator.WithNode | simulator/vehicleGenerator.go:244-252 | afterwards the node's ID is listed and the old list is a prefix of at most one node less |
| VehicleGenerator.WithNodeIdempotent | simulator/vehicleGenerator.go:244-252 | adding a node twice is adding it once |
| VehicleGenerator.WithNodeKeepsDistinct | simulator/vehicleGenerator.go:244-252 | a list without two nodes of one ID keeps that property |
| VehicleGenerator.AddTripEnds | simulator/vehicleGenerator.go:91-92 | after a trip's two ends are added both are listed, the old list is a prefix and at most two nodes were added |
| VehicleRecorder.FormatSimplePath | recorder/vehicleDataRecorder.go:57-68 | a path is rendered between brackets, and as `[]` exactly when empty |
| VehicleRecorder.FormatSimplePathRoundTrip | recorder/vehicleDataRecorder.go:57-68 | the path column parses back as the node IDs when they fit 64 bits |
| VehicleRecorder.GetVehicleData | recorder/vehicleDataRecorder.go:26-54 | a record exists exactly when the vehicle has origin and destination; it has the twelve columns of the header, the next trip ID, the closed flag and the path column |
| VehicleRecorder.VehicleDataReadsBack | recorder/vehicleDataRecorder.go:40-53 | the integer columns and the path column of a record parse back as the trip's values when they fit 64 bits |
| VehicleRecorder.RecordVehicleData | recorder/vehicleDataRecorder.go:20-24 | recording succeeds exactly when the vehicle has origin and destination; it appends one record to the cache and advances the trip counter by one |
| VehicleRecorder.WriteToVehicleDataCSV | recorder/vehicleDataRecorder.go:77-85 | a write emits every cached record in order, empties the cache and keeps the counter |
| VehicleRecorder.RecordTwiceThenWrite | recorder/vehicleDataRecorder.go:20-28 | two trips recorded one after the other are written in order with consecutive trip IDs, and the cache ends empty |
| Config.ApplyDefaults | config/config.go:146-234 | afterwards every default is in place: each missing or non-positive setting takes its documented default, the write interval falls back to the other-data interval, and memory monitoring is on; every setting already valid is kept, and untouched sections are kept |
| Config.DefaultedUnchanged | config/config.go:146-234 | a configuration with every default already in place loads unchanged |
| Config.ApplyDefaultsIdempotent | config/config.go:146-234 | applying the defaults twice is applying them once |
| DateSelection.ProcessedDates | Learning/Method/LearningForRingBySamplingCPU.py:158-202 | when testing on the last day of a period or on the next day, every copy of the list's last date is skipped and every other date processed; when sampling a period, every date is processed |
| DateSelection.TrainRows | Learning/Method/LearningForRingBySamplingCPU.py:174-177 | the training rows are exactly those dated in the window up to the test date: all earlier dates, or only the last k |
| DateSelection.NextDayRows | Learning/Method/LearningForRingBySamplingCPU.py:210-211 | the next-day rows are exactly those dated the day after |
| DateSelection.PeriodRows | Learning/Method/LearningForRingBySamplingCPU.py:197-198 | the period rows are exactly those dated inside the period |
| DateSelection.NextDayDisjoint | Learning/Method/LearningForRingBySamplingCPU.py:204-211 | no next-day row is also a training row |
| DateSelection.TestDateCPU | Learning/Method/LearningForRingBySamplingCPU.py:170-172 | as written: the test date is the last day of the LAST period ending after the date; with no match, the previous test date, or failure when there is none |
| DateSelection.LastMatchIsLastPeriod | Learning/Method/LearningForRingBySamplingCPU.py:170-172 | with periods in order, once any period qualifies the CPU scan ends on the last period of the list |
| DateSelection.TestRangeCPU | Learning/Method/LearningForRingBySamplingCPU.py:185-187 | as written: the test period is the last qualifying one; with no match, the previous one, or failure |
| DateSelection.ExampleSelections | Learning/Method/LearningForRingBySamplingCPU.py:123 | on the day ranges (0,9), (10,19), (20,29) and date 3, the CPU driver tests on day 29, the GPU driver on day 9, and the multi-GPU driver samples days 20-29 where 0-9 was meant |
| DateSelection.TestDateGPU | Learning/Method/LearningForRingBySamplingGPU.py:189-192 | the test date is the last day of the FIRST period ending after the date; with no match, the previous test date, or failure |
| DateSelection.FirstMatchIsNearest | Learning/Method/LearningForRingBySamplingGPU.py:189-192 | with periods in order, the first qualifying period is the one that ends soonest |
| DateSelection.TestRangeGPU | Learning/Method/LearningForRingBySamplingGPU.py:205-208 | the test period is the first qualifying one; with no match, the previous one, or failure |
| DateSelection.TestDateMulGPU | Learning/Method/LearningForRingBySamplingMulGPU.py:234-240 | the test date is the end of the first qualifying period, unless there is none or it is 0, when the last date of the list is used |
| DateSelection.TestRangeMulGPU | Learning/Method/LearningForRingBySamplingMulGPU.py:254-260 | as written: the first qualifying period, replaced by the last period of the list when there is none or either of its ends is 0 |
| DateSelection.TestRangeMulGPUIntended | Learning/Method/LearningForRingBySamplingMulGPU.py:254-260 | corrected: the first qualifying period, and the last period of the list only when none qualifies |
| DateSelection.MulGPUIntendedAgrees | Learning/Method/LearningForRingBySamplingMulGPU.py:255-258 | when a period qualifies, the corrected choice is the GPU driver's and ends on or after the date; it differs from the written one only when that period starts or ends at day 0 |
| DateSelection.EarlyStoppingRounds | Learning/Method/LearningForRingBySamplingMulGPU.py:70 | the rounds are a tenth of the estimators, truncated, and at least 1 |

## Left out

- Floating point: the green share of a light is rounded from 0.3/0.7 in the source. It is an integer parameter of the ring builders. `ChangeInterval` is not modelled.
- `%.4f` rendering of the slowing probability and the tag is a parameter `format4`.
- The float index of intermediate checkpoints is modelled as an exact rational floor (`StepIndex`). Float rounding could differ by one near an integer.
- `int(n*0.1)` in the date-selection drivers is modelled as the truncated tenth.
- Standard deviation, `round(x, 3)` and the log1p standardisation of the Python side are parameters (`Numerics`) or not modelled.
- Randomness is a parameter: the velocity, acceleration, slowing and tag draws, the random slow-down, the light's initial count and the origin and destination choice.
- Concurrency is not modelled: mutexes, atomics, goroutines, and joblib's parallel group processing. The latter is a sequential map over the groups.
- File, CSV and JSON I/O, the recorders' files and their flush timing are not modelled. A write returns the rows it would emit.
- gonum's graph is modelled as node and edge sets (`Digraph`). Path search is not modelled: paths are inputs.
- Go map iteration order is a parameter (`order`) where output depends on it.
- The trip, vehicle and cell counters are unbounded integers. The int64 wrap-around is not modelled, since it takes 2^63 increments.
- Configuration fields that no modelled operation reads are not modelled.
- `RecordTraceData` is modelled only as the `recorded` flag that `CheckVehicleCheckpoints` returns.
- Memory monitoring, garbage collection and logging are not modelled.
- Model training, hyper-parameter search and `train_test_split` in the learning drivers are not modelled. Only the date and period selection and the row filters are.
- TimeFeature.StdOf: the value of the sample deviation comes from the `Numerics` parameter; the contract states only when it is NaN.
- TimeFeature.SortByTime: pandas' default quicksort is not stable, but the model sorts stably. Only the order of rows with equal timestamps can differ.
- TraceProcessor.SetupVehicleCheckpoints: the enabled flag and the nil configuration are one boolean parameter `enabled`.
- CommonCell.LoadThenUnload: occupation and capacity are `float64` in the source but exact reals here, so adding and then subtracting a vehicle's size restores the occupation exactly; in `float64` it can be off by a rounding error.
- CommonCell.LoadPreserves, CommonCell.UnloadPreserves and Vehicle.HopPreserves: the occupation equals the total size of the occupants only over exact reals; with `float64` sums it holds up to rounding, and a fit decided at the capacity boundary can differ.
- Vehicle.Move: a vehicle with speed 0 records at its own trace interval, as the code does. The model keeps that branch as written.

## Findings

| source | as written | input that shows it | evidently intended | confidence | as-written member | corrected member |
|---|---|---|---|---|---|---|
| Learning/Method/LearningForRingBySamplingCPU.py:170-172 | the loop over the day ranges has no `break`, so the test date is the end of the LAST qualifying period | day ranges [(0,9),(10,19),(20,29)] and date 3: the test date is 29, not 9 | the first qualifying period, as the GPU driver takes with its `break` | not executed | DateSelection.TestDateCPU | DateSelection.TestDateGPU |
| Learning/Method/LearningForRingBySamplingMulGPU.py:255-260 | `if not test_date1 or not test_date2` also fires when the matched period starts at day 0, because 0 is falsy | day ranges [(0,9),(10,19),(20,29)] and date 3: the period is (20,29), not (0,9) | fall back only when no period matched | not executed | DateSelection.TestRangeMulGPU | DateSelection.TestRangeMulGPUIntended |

The first row is exhibited by `DateSelection.ExampleSelections` and
`DateSelection.LastMatchIsLastPeriod`. The second is exhibited by
`DateSelection.MulGPUIntendedAgrees`. `TestRangeCPU` has the same missing
`break` as `TestDateCPU`.
