/** Checkpoints for trace recording: when a vehicle sets off, a handful of
    the node IDs on its planned path are stored; whenever the vehicle
    stands on one of them a trace point is added. The store is the
    process-wide map from vehicle ID to checkpoint list; `enabled` stands
    for "a configuration is loaded and tracing is on". */
module TraceProcessor {
  import opened Wrappers
  import Vehicle
  import Arith

  /** Vehicle ID -> the node IDs it records at. */
  type Store = map<int, seq<int>>

  /** How many checkpoints to aim for: a positive `interval` decides,
      otherwise 4, 6 or 8 by path length. */
  function TargetCount(pathLength: int, interval: int): (n: int)
    ensures interval > 0 ==> n == interval
    ensures interval <= 0 ==> n in {4, 6, 8} && (n == 4 <==> pathLength <= 20) && (n == 8 <==> pathLength > 100)
  {
    if interval > 0 then interval
    else if pathLength <= 20 then 4
    else if pathLength <= 100 then 6
    else 8
  }

  /** The path index the `i`-th of `n - 1` equal steps lands on, rounded
      down. */
  function StepIndex(pathLength: int, n: int, i: int): int
    requires n > 1 && i >= 0 && pathLength >= 1
  {
    (pathLength - 1) * i / (n - 1)
  }

  lemma DivMonotone(a: int, b: int, d: int)
    requires 0 <= a <= b && d > 0
    ensures a / d <= b / d
  {
    var qa, qb := a / d, b / d;
    assert (qa - qb) * d < d by {
      assert qa * d <= a && b < qb * d + d;
    }
    if qa - qb >= 1 {
      Arith.MulAtLeast(qa - qb, d);
    }
  }

  lemma MulMonotone(x: int, i: int, j: int)
    requires x >= 0 && i <= j
    ensures x * i <= x * j
  {
  }

  lemma StepIndexBelowEnd(pathLength: int, n: int, i: int)
    requires n > 1 && 0 <= i < n - 1 && pathLength > 1
    ensures StepIndex(pathLength, n, i) < pathLength - 1
  {
    var x := pathLength - 1;
    MulMonotone(x, i, n - 2);
    assert x * (n - 2) + x == x * (n - 1);
    var q := x * i / (n - 1);
    assert q * (n - 1) <= x * i;
    if q >= x {
      MulMonotone(n - 1, x, q);
      assert (n - 1) * x <= x * i;
    }
  }

  /** The intermediate indices the steps `i .. n - 2` land on, keeping
      only those inside the path and past its start. */
  function MidIndices(pathLength: int, n: int, i: int): (r: seq<int>)
    requires i >= 1 && pathLength >= 1
    ensures |r| <= if n - 1 - i > 0 then n - 1 - i else 0
    ensures forall k :: 0 <= k < |r| ==> 0 < r[k] < pathLength - 1
    ensures pathLength <= 2 ==> r == []
    ensures forall k :: 0 <= k < |r| ==> r[k] >= (pathLength - 1) * i / (if n > 1 then n - 1 else 1)
    ensures forall k, m :: 0 <= k < m < |r| ==> r[k] <= r[m]
    decreases n - i
  {
    if i >= n - 1 then []
    else
      var j := StepIndex(pathLength, n, i);
      var rest := MidIndices(pathLength, n, i + 1);
      assert forall k :: 0 <= k < |rest| ==> rest[k] >= j by {
        MulMonotone(pathLength - 1, i, i + 1);
        DivMonotone((pathLength - 1) * i, (pathLength - 1) * (i + 1), n - 1);
      }
      if 0 < j < pathLength then
        assert j < pathLength - 1 by {
          StepIndexBelowEnd(pathLength, n, i);
        }
        [j] + rest
      else rest
  }

  /** The checkpoint list of a non-empty path of node IDs: the start, the
      intermediate step indices, and the end unless it is already last. */
  function Checkpoints(path: seq<int>, interval: int): (cps: seq<int>)
    requires |path| > 0
  {
    var n := TargetCount(|path|, interval);
    var mids := MidIndices(|path|, n, 1);
    var list := [path[0]] + seq(|mids|, k requires 0 <= k < |mids| => path[mids[k]]);
    if |path| > 1 && list[|list| - 1] != path[|path| - 1] then list + [path[|path| - 1]] else list
  }

  /** The checkpoints of a path are the path's entries at the index 0,
      then at the intermediate indices (strictly inside the path, in
      non-decreasing order by `MidIndices`), then at the last index. */
  lemma CheckpointsShape(path: seq<int>, interval: int)
    requires |path| > 0
    ensures var cps := Checkpoints(path, interval); var mids := MidIndices(|path|, TargetCount(|path|, interval), 1);
      && |cps| >= 1 + |mids| && cps[0] == path[0]
      && forall k :: 0 <= k < |mids| ==> cps[k + 1] == path[mids[k]]
  {
    var mids := MidIndices(|path|, TargetCount(|path|, interval), 1);
    var list := [path[0]] + seq(|mids|, k requires 0 <= k < |mids| => path[mids[k]]);
    var cps := Checkpoints(path, interval);
    assert cps[..|list|] == list;
    assert forall k :: 0 <= k < |mids| ==> list[k + 1] == path[mids[k]];
  }

  /** A path of more than one node ends its checkpoints with its last
      node, which is appended only when its ID is not already last; a
      one-node path has only its start. */
  lemma CheckpointsEnd(path: seq<int>, interval: int)
    requires |path| > 0
    ensures var cps := Checkpoints(path, interval); var mids := MidIndices(|path|, TargetCount(|path|, interval), 1);
      && (|path| > 1 ==> cps[|cps| - 1] == path[|path| - 1])
      && (|path| > 1 && |cps| == |mids| + 2 ==> cps[|cps| - 2] != path[|path| - 1])
      && (|path| == 1 ==> cps == [path[0]])
  {
    if |path| == 1 {
      CheckpointsOfOneNode(path, interval);
    } else {
      CheckpointsOfLongerPath(path, interval);
    }
  }

  lemma CheckpointsOfOneNode(path: seq<int>, interval: int)
    requires |path| == 1
    ensures Checkpoints(path, interval) == [path[0]]
  {
    assert MidIndices(|path|, TargetCount(|path|, interval), 1) == [];
  }

  lemma CheckpointsOfLongerPath(path: seq<int>, interval: int)
    requires |path| > 1
    ensures var cps := Checkpoints(path, interval); var mids := MidIndices(|path|, TargetCount(|path|, interval), 1);
      && cps[|cps| - 1] == path[|path| - 1]
      && (|cps| == |mids| + 2 ==> cps[|cps| - 2] != path[|path| - 1])
  {
    var mids := MidIndices(|path|, TargetCount(|path|, interval), 1);
    var list := [path[0]] + seq(|mids|, k requires 0 <= k < |mids| => path[mids[k]]);
    var cps := Checkpoints(path, interval);
    assert |list| == |mids| + 1;
    if list[|list| - 1] != path[|path| - 1] {
      assert cps == list + [path[|path| - 1]];
    } else {
      assert cps == list;
    }
  }

  /** There are never more checkpoints than the target count, or two. */
  lemma CheckpointsCount(path: seq<int>, interval: int)
    requires |path| > 0
    ensures |Checkpoints(path, interval)| <= (if TargetCount(|path|, interval) > 2 then TargetCount(|path|, interval) else 2)
  {
  }

  /** Every checkpoint is a node of the path. */
  lemma CheckpointsOnPath(path: seq<int>, interval: int)
    requires |path| > 0
    ensures forall x :: x in Checkpoints(path, interval) ==> x in path
  {
    var mids := MidIndices(|path|, TargetCount(|path|, interval), 1);
    var cps := Checkpoints(path, interval);
    forall k | 0 <= k < |cps|
      ensures cps[k] in path
    {
      if 0 < k <= |mids| {
        assert cps[k] == path[mids[k - 1]];
      }
    }
  }

  /** Stores the checkpoints of a vehicle that sets off; with tracing off
      or an empty path nothing is stored. */
  function SetupVehicleCheckpoints(store: Store, enabled: bool, v: Vehicle.Vehicle, interval: int): (r: Store)
    ensures !enabled || |v.simplePath| == 0 ==> r == store
    ensures enabled && |v.simplePath| > 0 ==> r == store[v.index := Checkpoints(Vehicle.PathIDs(v.simplePath), interval)]
  {
    if !enabled || |v.simplePath| == 0 then store
    else store[v.index := Checkpoints(Vehicle.PathIDs(v.simplePath), interval)]
  }

  /** The linear search over a checkpoint list. */
  method IsCheckpoint(cps: seq<int>, id: int) returns (found: bool)
    ensures found <==> id in cps
  {
    found := false;
    var i := 0;
    while i < |cps|
      invariant 0 <= i <= |cps|
      invariant found <==> id in cps[..i]
    {
      if cps[i] == id {
        found := true;
        assert id in cps[..i + 1];
        break;
      }
      assert cps[..i + 1] == cps[..i] + [cps[i]];
      i := i + 1;
    }
    assert found || cps[..i] == cps;
  }

  /** Adds a trace point (and hands the trace to the recorder, reported
      as `recorded`) exactly when tracing is on, the vehicle stands on a
      cell, and that cell is one of its stored checkpoints. */
  function CheckVehicleCheckpoints(store: Store, enabled: bool, v: Vehicle.Vehicle, time: int): (r: (Vehicle.Vehicle, bool))
    ensures r.1 <==> enabled && v.pos.Some? && v.index in store && v.pos.value in store[v.index]
    ensures r.1 ==> r.0 == Vehicle.Record(v, v.pos.value, time) && r.0.trace[v.pos.value] == time
    ensures !r.1 ==> r.0 == v
  {
    if enabled && v.pos.Some? && v.index in store && v.pos.value in store[v.index] then (Vehicle.Record(v, v.pos.value, time), true)
    else (v, false)
  }

  /** Forgets a vehicle's checkpoints when tracing is on. */
  function ClearVehicleCheckpoints(store: Store, enabled: bool, vehicleID: int): (r: Store)
    ensures enabled ==> vehicleID !in r && forall id :: id in store && id != vehicleID ==> id in r && r[id] == store[id]
    ensures enabled ==> forall id :: id in r ==> id in store
    ensures !enabled ==> r == store
  {
    if enabled then store - {vehicleID} else store
  }

  /** Once checkpoints are set up, a vehicle standing on its origin or on
      its destination records a trace point there; after the checkpoints
      are cleared it records nowhere. */
  lemma SetupCheckClear(store: Store, v: Vehicle.Vehicle, interval: int, time: int)
    requires |v.simplePath| > 0
    ensures var s := SetupVehicleCheckpoints(store, true, v, interval);
      && CheckVehicleCheckpoints(s, true, v.(pos := Some(Vehicle.NodeID(v.simplePath[0]))), time).1
      && CheckVehicleCheckpoints(s, true, v.(pos := Some(Vehicle.NodeID(v.simplePath[|v.simplePath| - 1]))), time).1
      && forall p :: !CheckVehicleCheckpoints(ClearVehicleCheckpoints(s, true, v.index), true, v.(pos := p), time).1
  {
    var ids := Vehicle.PathIDs(v.simplePath);
    CheckpointsShape(ids, interval);
  }
}
