/** A vehicle of the cellular automaton and its life cycle:
    0 created, 1 origin and destination set, 2 path set, 3 queued in the
    origin cell's buffer, 4 in the network, 5 arrived. Cells are values
    here, so an operation that touches a cell takes the cell its pointer
    refers to and returns that cell as changed. The random draws of a step
    (slowing down, passing an intersection) and the loadability of the
    cells ahead are parameters. */
module Vehicle {
  import Seqs
  import opened Wrappers
  import CommonCell
  import Link

  /** A node of a path: a cell, a link, or anything else (which a path
      must not hold). */
  datatype Node = CellNode(id: int) | LinkNode(link: Link.Link) | OtherNode(id: int)

  function NodeID(n: Node): int {
    match n
    case CellNode(id) => id
    case LinkNode(l) => l.id
    case OtherNode(id) => id
  }

  /** The IDs of a planned path's nodes. */
  function PathIDs(path: seq<Node>): (ids: seq<int>)
    ensures |ids| == |path|
    ensures forall i :: 0 <= i < |path| ==> ids[i] == NodeID(path[i])
  {
    seq(|path|, i requires 0 <= i < |path| => NodeID(path[i]))
  }

  datatype Vehicle = Vehicle(
    index: int, velocity: int, acceleration: int, occupy: real, slowingProb: real,
    tag: real, flag: bool, state: int,
    origin: Option<Node>, destination: Option<Node>,
    simplePath: seq<Node>, residualPath: seq<int>, pathLength: int,
    inTime: int, outTime: int,
    trace: map<int, int>, traceInterval: int, lastTraceTime: int,
    active: bool, pos: Option<int>)

  datatype VehicleError =
    | NegativeVelocity | NegativeAcceleration | NonPositiveOccupy | SlowingProbOutOfRange
    | SameOriginDestination | WrongState | EmptyPath | PathNotFromOrigin | PathNotToDestination
    | NotCellOrLink | OriginNotCell | NotActivated | PosNotCell | IndexOutOfRange | NoDestination

  /** The vehicle as the cells see it. */
  function Me(v: Vehicle): CommonCell.Occupant {
    CommonCell.Occupant(v.index, v.occupy)
  }

  /** Builds a vehicle; `tag` stands for the random label drawn at creation. */
  function NewVehicle(index: int, velocity: int, acceleration: int, occupy: real, slowingProb: real, flag: bool, tag: real): (r: Result<Vehicle, VehicleError>)
    ensures r.Success? <==> velocity >= 0 && acceleration >= 0 && occupy > 0.0 && 0.0 <= slowingProb <= 1.0
    ensures r.Success? ==> r.value.state == 0 && r.value.trace == map[] && r.value.lastTraceTime == 0
    ensures r.Success? ==> r.value.index == index && r.value.velocity == velocity && r.value.occupy == occupy
  {
    if velocity < 0 then Failure(NegativeVelocity)
    else if acceleration < 0 then Failure(NegativeAcceleration)
    else if occupy <= 0.0 then Failure(NonPositiveOccupy)
    else if slowingProb < 0.0 || slowingProb > 1.0 then Failure(SlowingProbOutOfRange)
    else Success(Vehicle(index, velocity, acceleration, occupy, slowingProb, tag, flag, 0,
                         None, None, [], [], 0, 0, 0, map[], 0, 0, false, None))
  }

  /** The `(bool, error)` result of `SetOD` and `SetPath` with the vehicle
      after the call: `SetPath` may change the vehicle and still fail. */
  datatype Outcome = Outcome(v: Vehicle, err: Option<VehicleError>)

  /** Sets origin and destination; any earlier state is overwritten. */
  function SetOD(v: Vehicle, origin: Node, destination: Node): (r: Outcome)
    ensures r.err.Some? <==> NodeID(origin) == NodeID(destination)
    ensures r.err.Some? ==> r.v == v
    ensures r.err.None? ==> r.v == v.(origin := Some(origin), destination := Some(destination), state := 1)
  {
    if NodeID(origin) == NodeID(destination) then Outcome(v, Some(SameOriginDestination))
    else Outcome(v.(origin := Some(origin), destination := Some(destination), state := 1), None)
  }

  // ---------------------------------------------------------------------
  // Paths

  /** The cells of a path with every link expanded into its cells, up to
      the first node that is neither. */
  function Expand(path: seq<Node>): seq<int> {
    if |path| == 0 then []
    else match path[0]
      case CellNode(id) => [id] + Expand(path[1..])
      case LinkNode(l) => Link.CellIDs(Link.Flat(l)) + Expand(path[1..])
      case OtherNode(_) => []
  }

  /** The cells a routable node stands for. */
  function Head(n: Node): seq<int>
    requires !n.OtherNode?
  {
    match n
    case CellNode(id) => [id]
    case LinkNode(l) => Link.CellIDs(Link.Flat(l))
  }

  predicate Routable(path: seq<Node>) {
    forall i :: 0 <= i < |path| ==> !path[i].OtherNode?
  }

  /** Cells a path occupies: one per cell, `Length` per link. */
  function CellCount(path: seq<Node>): int {
    if |path| == 0 then 0
    else match path[0]
      case CellNode(_) => 1 + CellCount(path[1..])
      case LinkNode(l) => Link.Length(l) + CellCount(path[1..])
      case OtherNode(_) => 0
  }

  lemma {:induction false} ExpandLength(path: seq<Node>)
    requires forall i :: 0 <= i < |path| && path[i].LinkNode? ==> Link.WellFormed(path[i].link)
    ensures |Expand(path)| == CellCount(path)
  {
    if |path| > 0 {
      ExpandLength(path[1..]);
      if path[0].LinkNode? {
        Link.FlatLength(path[0].link);
      }
    }
  }

  lemma {:induction false} ExpandConcat(a: seq<Node>, b: seq<Node>)
    requires Routable(a)
    ensures Expand(a + b) == Expand(a) + Expand(b)
  {
    if |a| == 0 {
      assert a + b == b;
    } else {
      var ab := a + b;
      assert !a[0].OtherNode?;
      Seqs.DropConcat(a, b);
      ExpandConcat(a[1..], b);
      assert Expand(ab) == Head(a[0]) + Expand(ab[1..]);
      assert Expand(a) == Head(a[0]) + Expand(a[1..]);
    }
  }

  function SetPath(v: Vehicle, path: seq<Node>): (r: Outcome)
    ensures r.err.None? <==> (v.state == 1 && |path| > 0 && v.origin == Some(path[0])
      && v.destination == Some(path[|path| - 1]) && Routable(path))
    ensures r.err.None? ==> r.v == v.(simplePath := path, residualPath := Expand(path), pathLength := |Expand(path)|, state := 2)
    ensures r.err.Some? ==> r.v.state == v.state
  {
    if v.state != 1 then Outcome(v, Some(WrongState))
    else if |path| == 0 then Outcome(v, Some(EmptyPath))
    else if v.origin != Some(path[0]) then Outcome(v, Some(PathNotFromOrigin))
    else if v.destination != Some(path[|path| - 1]) then Outcome(v, Some(PathNotToDestination))
    else
      var w := v.(simplePath := path, residualPath := Expand(path));
      if !Routable(path) then Outcome(w, Some(NotCellOrLink))
      else Outcome(w.(pathLength := |Expand(path)|, state := 2), None)
  }

  /** A path that holds something other than cells and links is rejected,
      but only after the path was stored and partly expanded. */
  lemma SetPathPartialWrite(v: Vehicle, path: seq<Node>, k: nat)
    requires v.state == 1 && |path| > 0 && v.origin == Some(path[0]) && v.destination == Some(path[|path| - 1])
    requires k < |path| && path[k].OtherNode? && Routable(path[..k])
    ensures SetPath(v, path).err == Some(NotCellOrLink)
    ensures SetPath(v, path).v.simplePath == path
    ensures SetPath(v, path).v.residualPath == Expand(path[..k])
  {
    assert path == path[..k] + path[k..];
    ExpandConcat(path[..k], path[k..]);
  }

  // ---------------------------------------------------------------------
  // Entering the network

  function OriginCell(v: Vehicle): Option<int> {
    if v.origin.Some? && v.origin.value.CellNode? then Some(v.origin.value.id) else None
  }

  /** Queues the vehicle in its origin cell `cell`. */
  function BufferIn(v: Vehicle, cell: CommonCell.Cell, inTime: int): (r: Result<(Vehicle, CommonCell.Cell), VehicleError>)
    ensures r.Success? <==> v.state == 2 && OriginCell(v).Some?
    ensures r.Success? ==> r.value.0 == v.(inTime := inTime, state := 3)
    ensures r.Success? ==> CommonCell.ListBuffer(r.value.1) == CommonCell.ListBuffer(cell) + [Me(v)]
  {
    if v.state != 2 then Failure(WrongState)
    else if OriginCell(v).None? then Failure(OriginNotCell)
    else Success((v.(inTime := inTime, state := 3), CommonCell.BufferLoad(cell, Me(v))))
  }

  /** The space taken by a run of queued vehicles. */
  function SumOccupy(s: seq<CommonCell.Occupant>): real {
    if |s| == 0 then 0.0 else s[0].occupy + SumOccupy(s[1..])
  }

  /** The walk of `UpdateActiveState` down the buffer: add each vehicle's
      space to the running total, fail once the total exceeds capacity,
      succeed on reaching `me`. */
  function Admitted(total: real, buffer: seq<CommonCell.Occupant>, capacity: real, me: CommonCell.Occupant): bool
    decreases |buffer|
  {
    if |buffer| == 0 then false
    else
      var t := total + buffer[0].occupy;
      if t > capacity then false
      else if buffer[0] == me then true
      else Admitted(t, buffer[1..], capacity, me)
  }

  predicate NonNegativeSpaces(s: seq<CommonCell.Occupant>) {
    forall i :: 0 <= i < |s| ==> s[i].occupy >= 0.0
  }

  /** A vehicle is admitted exactly when it is queued and everything up to
      and including its first place in the queue fits into the cell. */
  lemma {:induction false} AdmittedIff(total: real, buffer: seq<CommonCell.Occupant>, capacity: real, me: CommonCell.Occupant)
    requires NonNegativeSpaces(buffer)
    ensures Admitted(total, buffer, capacity, me) <==>
      me in buffer && total + SumOccupy(buffer[..CommonCell.FirstIndex(buffer, me) + 1]) <= capacity
    decreases |buffer|
  {
    if |buffer| > 0 {
      var t := total + buffer[0].occupy;
      if buffer[0] != me {
        AdmittedIff(t, buffer[1..], capacity, me);
        if me in buffer {
          var i := CommonCell.FirstIndex(buffer, me);
          assert buffer[..i + 1] == [buffer[0]] + buffer[1..][..i];
          assert CommonCell.FirstIndex(buffer[1..], me) == i - 1;
          SumOccupyNonNegative(buffer[1..][..i]);
        }
      } else {
        assert buffer[..1] == [buffer[0]];
      }
    }
  }

  lemma {:induction false} SumOccupyNonNegative(s: seq<CommonCell.Occupant>)
    requires NonNegativeSpaces(s)
    ensures SumOccupy(s) >= 0.0
  {
    if |s| > 0 {
      SumOccupyNonNegative(s[1..]);
    }
  }

  /** Whether the vehicle may enter its origin cell `cell` now. */
  function UpdateActiveState(v: Vehicle, cell: CommonCell.Cell): (r: Result<Vehicle, VehicleError>)
    ensures r.Success? <==> OriginCell(v).Some?
    ensures r.Success? ==> r.value == v.(active := r.value.active)
    ensures r.Success? && NonNegativeSpaces(cell.buffer) ==>
      (r.value.active <==> (Me(v) in cell.buffer
        && cell.occupation + SumOccupy(cell.buffer[..CommonCell.FirstIndex(cell.buffer, Me(v)) + 1]) <= cell.capacity))
  {
    if OriginCell(v).None? then Failure(OriginNotCell)
    else
      assert NonNegativeSpaces(cell.buffer) ==> (Admitted(cell.occupation, cell.buffer, cell.capacity, Me(v)) <==>
        (Me(v) in cell.buffer
        && cell.occupation + SumOccupy(cell.buffer[..CommonCell.FirstIndex(cell.buffer, Me(v)) + 1]) <= cell.capacity)) by {
        if NonNegativeSpaces(cell.buffer) {
          AdmittedIff(cell.occupation, cell.buffer, cell.capacity, Me(v));
        }
      }
      Success(v.(active := Admitted(cell.occupation, cell.buffer, cell.capacity, Me(v))))
  }

  /** Moves the vehicle from the buffer of its origin cell `cell` into the
      cell. The two cell operations report failure without stopping the
      call; a vehicle with an empty remaining path cannot enter. */
  function SystemIn(v: Vehicle, cell: CommonCell.Cell): (r: Result<(Vehicle, CommonCell.Cell), VehicleError>)
    ensures r.Success? <==> v.state == 3 && v.active && OriginCell(v).Some? && |v.residualPath| > 0
    ensures r.Success? ==> r.value.0 == v.(pos := OriginCell(v), residualPath := v.residualPath[1..], state := 4)
    ensures r.Success? ==> r.value.1 == CommonCell.Load(CommonCell.BufferUnload(cell, Me(v)).cell, Me(v)).cell
  {
    if v.state != 3 then Failure(WrongState)
    else if !v.active then Failure(NotActivated)
    else if OriginCell(v).None? then Failure(OriginNotCell)
    else if |v.residualPath| == 0 then Failure(IndexOutOfRange)
    else
      var unqueued := CommonCell.BufferUnload(cell, Me(v)).cell;
      Success((v.(pos := OriginCell(v), residualPath := v.residualPath[1..], state := 4),
               CommonCell.Load(unqueued, Me(v)).cell))
  }

  /** A vehicle admitted by `UpdateActiveState` fits into the cell when it
      enters: leaving the buffer and loading both succeed. */
  lemma AdmittedVehicleFits(v: Vehicle, cell: CommonCell.Cell)
    requires OriginCell(v).Some? && NonNegativeSpaces(cell.buffer)
    requires UpdateActiveState(v, cell).value.active
    ensures CommonCell.BufferUnload(cell, Me(v)).ok
    ensures CommonCell.Load(CommonCell.BufferUnload(cell, Me(v)).cell, Me(v)).ok
  {
    var b := cell.buffer;
    var i := CommonCell.FirstIndex(b, Me(v));
    assert b[..i + 1] == b[..i] + [Me(v)];
    SumOccupyConcat(b[..i], [Me(v)]);
    SumOccupyNonNegative(b[..i]);
  }

  lemma {:induction false} SumOccupyConcat(a: seq<CommonCell.Occupant>, b: seq<CommonCell.Occupant>)
    ensures SumOccupy(a + b) == SumOccupy(a) + SumOccupy(b)
  {
    if |a| == 0 {
      assert a + b == b;
    } else {
      assert (a + b)[1..] == a[1..] + b;
      SumOccupyConcat(a[1..], b);
    }
  }

  /** Leaves the network: a vehicle that arrived during `Move` is only
      unloaded from its cell `cell`; one still in the network also records
      its exit time. */
  function SystemOut(v: Vehicle, cell: CommonCell.Cell, time: int): (r: Result<(Vehicle, CommonCell.Cell), VehicleError>)
    ensures r.Success? <==> (v.state == 5 || v.state == 4) && v.pos.Some?
    ensures r.Success? ==> r.value.1 == CommonCell.Unload(cell, Me(v)).cell
    ensures r.Success? && v.state == 5 ==> r.value.0 == v
    ensures r.Success? && v.state == 4 ==> r.value.0 == v.(outTime := time, state := 5)
  {
    if v.state == 5 then
      if v.pos.None? then Failure(PosNotCell) else Success((v, CommonCell.Unload(cell, Me(v)).cell))
    else if v.state != 4 then Failure(WrongState)
    else if v.pos.None? then Failure(PosNotCell)
    else Success((v.(outTime := time, state := 5), CommonCell.Unload(cell, Me(v)).cell))
  }

  // ---------------------------------------------------------------------
  // One step in the network

  /** The inputs of one `Move` that come from outside the vehicle: the
      speed limit of the current cell, whether the i-th remaining cell would
      take the vehicle, whether the vehicle gets through the i-th remaining
      cell (always, unless it is an intersection and the random draw says
      no), whether it slows down at random, and the trace interval of the
      configuration (`None` when tracing is off). */
  datatype Surroundings = Surroundings(
    maxSpeed: int, loadable: nat -> bool, passes: nat -> bool, slowDown: bool, configInterval: Option<int>)

  /** The free cells ahead: the leading run of remaining cells that would
      take the vehicle and let it through, at most `maxCheck` long. */
  function Gap(env: Surroundings, maxCheck: int, i: nat): (g: nat)
    requires i <= maxCheck || maxCheck < 0
    ensures i <= g && (maxCheck >= 0 ==> g <= maxCheck)
    ensures forall k: nat :: i <= k < g ==> env.loadable(k) && env.passes(k)
    ensures g < maxCheck ==> !(env.loadable(g) && env.passes(g))
    decreases maxCheck - i
  {
    if i >= maxCheck || !env.loadable(i) || !env.passes(i) then i else Gap(env, maxCheck, i + 1)
  }

  function Min(a: int, b: int): int {
    if a < b then a else b
  }

  /** The first phase of a step: speed up by the acceleration, capped by
      the speed limit. */
  function Accelerated(v: Vehicle, env: Surroundings): int {
    Min(v.velocity + v.acceleration, env.maxSpeed)
  }

  /** Going `s` cells stays on the remaining path and only passes cells
      that take the vehicle and let it through. */
  predicate SafeSpeed(v: Vehicle, env: Surroundings, s: int) {
    && 0 <= s <= |v.residualPath|
    && forall k: nat :: k < s ==> env.loadable(k) && env.passes(k)
  }

  /** `s` is the largest safe speed not above `bound`. */
  predicate Fastest(v: Vehicle, env: Surroundings, bound: int, s: int) {
    && s <= bound
    && SafeSpeed(v, env, s)
    && forall t :: s < t <= bound ==> !SafeSpeed(v, env, t)
  }

  /** There is only one largest safe speed. */
  lemma FastestUnique(v: Vehicle, env: Surroundings, bound: int, s: int, t: int)
    requires Fastest(v, env, bound, s) && Fastest(v, env, bound, t)
    ensures s == t
  {
  }

  /** Accelerate towards the speed limit, keep within the free cells ahead,
      then slow down at random (never below zero). Without the random
      slow-down the vehicle takes the largest safe speed up to the
      accelerated one; with it, one less, but not below zero. */
  function NewVelocity(v: Vehicle, env: Surroundings): (vel: int)
    ensures vel == 0 || vel <= Accelerated(v, env)
    ensures vel > 0 ==> SafeSpeed(v, env, vel)
    ensures Accelerated(v, env) >= 0 && !env.slowDown ==> Fastest(v, env, Accelerated(v, env), vel)
    ensures Accelerated(v, env) >= 0 && env.slowDown ==>
      Fastest(v, env, Accelerated(v, env), vel + 1) || (vel == 0 && Fastest(v, env, Accelerated(v, env), 0))
    ensures Accelerated(v, env) < 0 ==> vel == (if env.slowDown then 0 else Accelerated(v, env))
  {
    var accelerated := Accelerated(v, env);
    var kept := Min(accelerated, Gap(env, Min(accelerated, |v.residualPath|), 0));
    assert accelerated >= 0 ==> Fastest(v, env, accelerated, kept) by {
      if accelerated >= 0 {
        GapIsFastest(v, env);
      }
    }
    if env.slowDown then (if kept - 1 > 0 then kept - 1 else 0) else kept
  }

  /** The free cells ahead, looked at no further than the accelerated
      speed, give the largest safe speed up to it. */
  lemma GapIsFastest(v: Vehicle, env: Surroundings)
    requires Accelerated(v, env) >= 0
    ensures Fastest(v, env, Accelerated(v, env), Gap(env, Min(Accelerated(v, env), |v.residualPath|), 0))
  {
    var acc := Accelerated(v, env);
    var m := Min(acc, |v.residualPath|);
    var g := Gap(env, m, 0);
    forall t | g < t <= acc
      ensures !SafeSpeed(v, env, t)
    {
      if t <= |v.residualPath| {
        assert g < m;
        assert !(env.loadable(g) && env.passes(g));
      }
    }
  }

  /** Records a trace point. */
  function Record(v: Vehicle, node: int, time: int): Vehicle {
    v.(trace := v.trace[node := time], lastTraceTime := time)
  }

  /** The first call after entering the buffer records the origin. */
  function RecordStart(v: Vehicle, time: int): (r: Vehicle)
    ensures r == v.(trace := r.trace, lastTraceTime := r.lastTraceTime)
  {
    if v.state >= 3 && |v.trace| == 0 && v.origin.Some? then Record(v, NodeID(v.origin.value), time) else v
  }

  /** Recording the origin does not change how fast the vehicle goes. */
  lemma RecordStartKeepsVelocity(v0: Vehicle, time: int, env: Surroundings)
    ensures NewVelocity(RecordStart(v0, time), env) == NewVelocity(v0, env)
  {
    var v := RecordStart(v0, time);
    assert v.velocity == v0.velocity && v.acceleration == v0.acceleration && v.residualPath == v0.residualPath;
    assert Accelerated(v, env) == Accelerated(v0, env);
  }

  /** What one `Move` did: whether the vehicle arrived, the vehicle after
      the step, and the cells it left and entered when it moved. */
  datatype Step = Step(arrived: bool, v: Vehicle, hop: Option<(int, int)>)

  /** The trace interval in force: the vehicle's own, else the
      configuration's when tracing is enabled, else 10. */
  function TraceInterval(v: Vehicle, configInterval: Option<int>): (i: int)
    ensures v.traceInterval > 0 ==> i == v.traceInterval
    ensures v.traceInterval <= 0 && configInterval.None? ==> i == 10
  {
    if v.traceInterval > 0 then v.traceInterval
    else if configInterval.Some? then configInterval.value else 10
  }

  /** The moving half of a step: go `velocity` cells down the remaining
      path, trace the new cell when due (always at the destination), and
      arrive once the path is used up. */
  function Advance(v: Vehicle, time: int, configInterval: Option<int>): (r: Result<Step, VehicleError>)
    requires 0 < v.velocity <= |v.residualPath| && v.pos.Some?
    ensures r.Failure? <==> v.velocity == |v.residualPath| && v.destination.None?
    ensures r.Success? ==> r.value.hop == Some((v.pos.value, v.residualPath[v.velocity - 1]))
    ensures r.Success? ==> r.value.v.pos == Some(v.residualPath[v.velocity - 1])
    ensures r.Success? ==> r.value.v.residualPath == v.residualPath[v.velocity..]
    ensures r.Success? ==> r.value.v.velocity == v.velocity
    ensures r.Success? ==> (r.value.arrived <==> v.velocity == |v.residualPath|)
    ensures r.Success? && r.value.arrived ==> (r.value.v.state == 5 && r.value.v.outTime == time
      && r.value.v.trace == v.trace[v.residualPath[v.velocity - 1] := time])
    ensures r.Success? && !r.value.arrived ==> r.value.v.state == v.state
  {
    var target := v.residualPath[v.velocity - 1];
    var from := v.pos.value;
    var atEnd := |v.residualPath| == v.velocity;
    if atEnd && v.destination.None? then Failure(NoDestination)
    else
      var v := v.(pos := Some(target));
      var due := atEnd && target == NodeID(v.destination.value);
      var interval := TraceInterval(v, configInterval);
      var v := if due then v else v.(traceInterval := interval);
      var v := if due || time - v.lastTraceTime >= interval then Record(v, target, time) else v;
      var v := v.(residualPath := v.residualPath[v.velocity..]);
      if atEnd then Success(Step(true, Record(v.(outTime := time, state := 5), target, time), Some((from, target))))
      else Success(Step(false, v, Some((from, target))))
  }

  /** The step of a vehicle on the road: stay put at speed 0, fail on a
      negative speed, and otherwise advance that many cells. */
  function Drive(v: Vehicle, time: int, env: Surroundings): (r: Result<Step, VehicleError>)
    requires v.state == 4 && v.pos.Some?
    ensures var vel := NewVelocity(v, env);
      && (vel < 0 ==> r.Failure?)
      && (vel == 0 ==> r.Success? && r.value.hop.None? && !r.value.arrived && r.value.v.velocity == 0)
      && (vel > 0 ==> (r.Failure? <==> vel == |v.residualPath| && v.destination.None?))
      && (vel > 0 && r.Success? ==> r.value.hop.Some? && r.value.v.velocity == vel)
    ensures r.Success? ==> (r.value.arrived <==> r.value.hop.Some? && r.value.v.residualPath == [])
    ensures r.Success? && r.value.hop.None? ==> r.value.v.residualPath == v.residualPath && r.value.v.pos == v.pos
    ensures r.Success? && r.value.hop.Some? ==>
      var vel := r.value.v.velocity;
      && 0 < vel <= Accelerated(v, env)
      && SafeSpeed(v, env, vel)
      && r.value.v.residualPath == v.residualPath[vel..]
      && r.value.hop == Some((v.pos.value, v.residualPath[vel - 1]))
  {
    var vel := NewVelocity(v, env);
    if vel == 0 then
      var v := v.(velocity := 0);
      var v := if time - v.lastTraceTime >= v.traceInterval then Record(v, v.pos.value, time) else v;
      Success(Step(false, v, None))
    else if vel < 0 then Failure(IndexOutOfRange)
    else Advance(v.(velocity := Min(vel, |v.residualPath|)), time, env.configInterval)
  }

  /** One step of the Nagel-Schreckenberg rule. The cell the vehicle heads
      for is among the free cells ahead, so it always takes the vehicle and
      the step never has to be drawn again. */
  function Move(v0: Vehicle, time: int, env: Surroundings): (r: Result<Step, VehicleError>)
    ensures v0.state != 4 ==> r == Success(Step(false, RecordStart(v0, time), None))
    ensures v0.state == 4 && v0.pos.None? ==> r.Failure?
    ensures v0.state == 4 && v0.pos.Some? ==>
      var vel := NewVelocity(v0, env);
      && (vel < 0 ==> r.Failure?)
      && (vel == 0 ==> r.Success? && r.value.hop.None? && !r.value.arrived && r.value.v.velocity == 0)
      && (vel > 0 ==> (r.Failure? <==> vel == |v0.residualPath| && v0.destination.None?))
      && (vel > 0 && r.Success? ==> r.value.hop.Some? && r.value.v.velocity == vel)
    ensures r.Success? ==> (r.value.arrived <==> r.value.hop.Some? && r.value.v.residualPath == [])
    ensures r.Success? && r.value.hop.None? ==> r.value.v.residualPath == v0.residualPath && r.value.v.pos == v0.pos
    ensures r.Success? && r.value.hop.Some? ==>
      var vel := r.value.v.velocity;
      && 0 < vel <= |v0.residualPath|
      && vel <= Min(v0.velocity + v0.acceleration, env.maxSpeed)
      && (forall k: nat :: k < vel ==> env.loadable(k) && env.passes(k))
      && r.value.v.residualPath == v0.residualPath[vel..]
      && r.value.hop == Some((v0.pos.value, v0.residualPath[vel - 1]))
  {
    var v := RecordStart(v0, time);
    if v.state != 4 then Success(Step(false, v, None))
    else if v.pos.None? then Failure(PosNotCell)
    else
      RecordStartKeepsVelocity(v0, time, env);
      Drive(v, time, env)
  }

  /** Without the random slow-down, a vehicle that moves goes exactly as far
      as is safe within its accelerated speed, and one that stays had no
      safe cell ahead. */
  lemma MoveGoesAsFarAsSafe(v0: Vehicle, time: int, env: Surroundings)
    requires v0.state == 4 && v0.pos.Some? && !env.slowDown && Accelerated(v0, env) >= 0
    requires Move(v0, time, env).Success?
    ensures Fastest(v0, env, Accelerated(v0, env), |v0.residualPath| - |Move(v0, time, env).value.v.residualPath|)
  {
    var r := Move(v0, time, env);
    var vel := NewVelocity(v0, env);
    if vel > 0 {
      assert r.value.v.residualPath == v0.residualPath[vel..];
    }
  }

  /** The hop of a step moves the vehicle between the two cells: it leaves
      the cell it was in and enters the target, whose admission the step has
      checked. */
  function Hop(from: CommonCell.Cell, to: CommonCell.Cell, o: CommonCell.Occupant): (cells: (CommonCell.Cell, CommonCell.Cell))
    ensures cells.0 == CommonCell.Unload(from, o).cell && cells.1 == CommonCell.Load(to, o).cell
  {
    (CommonCell.Unload(from, o).cell, CommonCell.Load(to, o).cell)
  }

  /** A hop between two consistent cells keeps both consistent and moves
      the vehicle's space from one to the other. */
  lemma HopPreserves(from: CommonCell.Cell, to: CommonCell.Cell, o: CommonCell.Occupant)
    requires CommonCell.Consistent(from) && CommonCell.Consistent(to)
    requires o in from.container && o !in to.container && CommonCell.Loadable(to, o)
    ensures CommonCell.Consistent(Hop(from, to, o).0) && CommonCell.Consistent(Hop(from, to, o).1)
    ensures Hop(from, to, o).0.occupation == from.occupation - o.occupy
    ensures Hop(from, to, o).1.occupation == to.occupation + o.occupy
  {
    CommonCell.UnloadPreserves(from, o);
    CommonCell.LoadPreserves(to, o);
  }
}
