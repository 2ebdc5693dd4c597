/** The upstream feature derivation of the learning pipeline: per-trip
    travel time, day and time-of-day buckets, origin/destination zone
    indices, distance buckets, and the traffic lights a trip crosses on the
    ring road. The standardised and logarithmic travel-time columns are
    floating point and are not part of this model. */
module FeatureEngineering {
  import opened Wrappers
  import Arith
  import Text
  import Seqs

  /** Simulation steps in one day, as hard-coded in the derivation. */
  const DaySteps: int := 57600
  /** Steps in one hour (a day is 24 hours) and in one quarter (10 minutes). */
  const HourSteps: int := 2400
  const QuarterSteps: int := 400

  /** One row of the vehicle-data table, reduced to the columns the
      derivation reads. */
  datatype Trip = Trip(inTime: int, arrivalTime: int, origin: int, destination: int, pathLength: int)

  /** Constructor arguments and the two quotients the constructor computes. */
  datatype Config = Config(
    numCells: int, gapLights: int, gapDigs: int, minDist: int, groupDist: int,
    numLights: int, numDigs: int)

  datatype Error = ZeroDivision

  /** The constructor: Python's integer `//` raises on a zero divisor. */
  function NewConfig(numCells: int, gapLights: int, gapDigs: int, minDist: int, groupDist: int): (r: Result<Config, Error>)
    ensures r.Failure? <==> gapLights == 0 || gapDigs == 0
    ensures r.Success? ==> r.value.gapLights != 0 && r.value.gapDigs != 0
    ensures r.Success? ==> r.value.numLights * gapLights <= numCells || gapLights < 0
  {
    if gapLights == 0 || gapDigs == 0 then Failure(ZeroDivision)
    else Success(Config(numCells, gapLights, gapDigs, minDist, groupDist,
                        Arith.FloorDiv(numCells, gapLights), Arith.FloorDiv(numCells, gapDigs)))
  }

  predicate Valid(c: Config) {
    c.gapLights != 0 && c.gapDigs != 0
  }

  // ---------------------------------------------------------------------
  // Time buckets

  datatype TimeOfDay = TimeOfDay(date: int, actual: int, hour: int, quarter: int)

  /** `Date`, `Actual In Time`, `Hour` and `Quarter` of a time step. */
  function Bucket(t: int): (b: TimeOfDay)
    ensures b.date * DaySteps + b.actual == t
    ensures 0 <= b.actual < DaySteps
    ensures 0 <= b.hour < 24 && 0 <= b.quarter < 144
    ensures b.hour * HourSteps <= b.actual < b.hour * HourSteps + HourSteps
    ensures b.quarter * QuarterSteps <= b.actual < b.quarter * QuarterSteps + QuarterSteps
    ensures b.hour == b.quarter / 6
  {
    var actual := Arith.FloorMod(t, DaySteps);
    var h := Arith.FloorDiv(actual, HourSteps);
    var q := Arith.FloorDiv(actual, QuarterSteps);
    assert h * 6 * QuarterSteps <= actual < h * 6 * QuarterSteps + 6 * QuarterSteps;
    assert h * 6 <= q < h * 6 + 6;
    TimeOfDay(Arith.FloorDiv(t, DaySteps), actual, h, q)
  }

  // ---------------------------------------------------------------------
  // Origin / destination zones

  /** The three zone widths: the configured one and 5 and 10 times it. */
  function DigGaps(c: Config): seq<int> {
    [c.gapDigs, c.gapDigs * 5, c.gapDigs * 10]
  }

  /** Zone of a cell for one width; cell 0 belongs to the last zone of the
      ring. */
  function Dig(pos: int, gap: int, numCells: int): (z: int)
    requires gap != 0
    ensures pos != 0 && gap > 0 ==> z * gap <= pos < z * gap + gap
    ensures pos == 0 ==> z == Arith.FloorDiv(numCells, gap) - 1
  {
    if pos == 0 then Arith.FloorDiv(numCells, gap) - 1 else Arith.FloorDiv(pos, gap)
  }

  /** On a ring of `n` cells split into whole zones, cell 0 takes the zone of
      the cell just before it (cell n - 1 wraps to cell 0). */
  lemma OriginZeroWrapsAround(n: int, gap: int)
    requires gap > 0 && n > 0 && n % gap == 0
    ensures Dig(0, gap, n) == Dig(n - 1, gap, n)
  {
    var k := n / gap;
    assert k * gap == n;
    assert (k - 1) * gap <= n - 1 < (k - 1) * gap + gap;
  }

  /** The `OD_Dig_i` label: the two zone numbers joined by an underscore. */
  function ODLabel(o: int, d: int): string {
    Text.IntToString(o) + "_" + Text.IntToString(d)
  }

  /** The label can be parsed back into the zone pair, so distinct pairs get
      distinct labels. */
  lemma ODLabelParses(o: int, d: int)
    requires Text.Int64Min <= o <= Text.Int64Max && Text.Int64Min <= d <= Text.Int64Max
    ensures |Text.Split(ODLabel(o, d), '_')| == 2
    ensures Text.Atoi(Text.Split(ODLabel(o, d), '_')[0]) == Some(o)
    ensures Text.Atoi(Text.Split(ODLabel(o, d), '_')[1]) == Some(d)
  {
    var parts := [Text.IntToString(o), Text.IntToString(d)];
    Text.IntToStringAvoids(o, '_');
    Text.IntToStringAvoids(d, '_');
    assert Text.Join(parts, "_") == ODLabel(o, d);
    Text.SplitJoin(parts, '_');
    Text.AtoiOfIntToString(o);
    Text.AtoiOfIntToString(d);
  }

  lemma ODLabelInjective(o1: int, d1: int, o2: int, d2: int)
    requires Text.Int64Min <= o1 <= Text.Int64Max && Text.Int64Min <= d1 <= Text.Int64Max
    requires Text.Int64Min <= o2 <= Text.Int64Max && Text.Int64Min <= d2 <= Text.Int64Max
    requires ODLabel(o1, d1) == ODLabel(o2, d2)
    ensures o1 == o2 && d1 == d2
  {
    ODLabelParses(o1, d1);
    ODLabelParses(o2, d2);
  }

  // ---------------------------------------------------------------------
  // Distance buckets

  function DistanceGaps(c: Config): seq<int> {
    [c.groupDist, c.groupDist * 4, c.groupDist * 8]
  }

  /** `PathLength // gap` on an integer column; pandas yields a non-integer
      (infinite or NaN) value for a zero width, modelled as `None`. */
  function DistanceDig(pathLength: int, gap: int): (z: Option<int>)
    ensures z.None? <==> gap == 0
    ensures z.Some? && gap > 0 ==> z.value * gap <= pathLength < z.value * gap + gap
  {
    if gap == 0 then None else Some(Arith.FloorDiv(pathLength, gap))
  }

  // ---------------------------------------------------------------------
  // Traffic lights

  /** Cells holding a light: every `gapLights`-th cell from 0, one per whole
      light interval of the ring. */
  function LightPositions(c: Config): (ls: seq<int>)
    ensures |ls| == if c.numLights < 0 then 0 else c.numLights
    ensures forall j :: 0 <= j < |ls| ==> ls[j] == j * c.gapLights
  {
    seq(if c.numLights < 0 then 0 else c.numLights, j => j * c.gapLights)
  }

  /** With a positive spacing every light sits on a cell of the ring. */
  lemma LightsOnRing(c: Config)
    requires Valid(c) && c.gapLights > 0
    requires c.numLights == Arith.FloorDiv(c.numCells, c.gapLights)
    ensures forall l :: l in LightPositions(c) ==> 0 <= l < c.numCells
  {
    var ls := LightPositions(c);
    forall l | l in ls
      ensures 0 <= l < c.numCells
    {
      var j :| 0 <= j < |ls| && ls[j] == l;
      assert j <= c.numLights - 1;
      assert j * c.gapLights <= (c.numLights - 1) * c.gapLights;
    }
  }

  /** Whether the trip from `o` to `d` passes the light at `l`: within
      `(o, d]` going forward, otherwise around the end of the ring. */
  function Crossed(o: int, d: int): int -> bool {
    (l: int) => if o < d then o < l <= d else o < l || l <= d
  }

  function LightsPassed(o: int, d: int, lights: seq<int>): (ps: seq<int>)
    ensures forall l :: l in ps <==> l in lights && Crossed(o, d)(l)
  {
    Seqs.Filter(lights, Crossed(o, d))
  }

  /** A trip that ends where it starts goes once round the whole ring. */
  lemma FullCircle(o: int, lights: seq<int>)
    ensures LightsPassed(o, o, lights) == lights
  {
    Seqs.FilterAll(lights, Crossed(o, o));
  }

  /** Going from `o` to `d` and then back from `d` to `o` passes every light
      exactly once. */
  lemma ThereAndBack(o: int, d: int, lights: seq<int>)
    requires o != d
    ensures |LightsPassed(o, d, lights)| + |LightsPassed(d, o, lights)| == |lights|
    ensures forall l :: l in lights ==> (l in LightsPassed(o, d, lights) <==> l !in LightsPassed(d, o, lights))
  {
    Seqs.FilterComplement(lights, Crossed(o, d), Crossed(d, o));
  }

  /** The `Traffic Light j` flags. */
  function LightFlags(c: Config, passed: seq<int>): (fs: seq<int>)
    ensures |fs| == |LightPositions(c)|
  {
    seq(|LightPositions(c)|, j => if j * c.gapLights in passed then 1 else 0)
  }

  // ---------------------------------------------------------------------
  // The derived table

  datatype Features = Features(
    trip: Trip, travelTime: int, time: TimeOfDay, actualArrival: int,
    oDig: seq<int>, dDig: seq<int>, odDig: seq<string>,
    distanceDig: seq<Option<int>>, lightCount: nat, lightFlags: seq<int>)

  function Derive(c: Config, t: Trip): (f: Features)
    requires Valid(c)
    ensures f.trip == t
    ensures |f.oDig| == 3 && |f.dDig| == 3 && |f.odDig| == 3 && |f.distanceDig| == 3
  {
    var gaps := DigGaps(c);
    var os := seq(3, i requires 0 <= i < 3 => Dig(t.origin, gaps[i], c.numCells));
    var ds := seq(3, i requires 0 <= i < 3 => Dig(t.destination, gaps[i], c.numCells));
    var passed := LightsPassed(t.origin, t.destination, LightPositions(c));
    Features(
      t, t.arrivalTime - t.inTime, Bucket(t.inTime), Arith.FloorMod(t.arrivalTime, DaySteps),
      os, ds, seq(3, i requires 0 <= i < 3 => ODLabel(os[i], ds[i])),
      seq(3, i requires 0 <= i < 3 => DistanceDig(t.pathLength, DistanceGaps(c)[i])),
      |passed|, LightFlags(c, passed))
  }

  /** The `Traffic Light Count` equals the number of flags set to 1. */
  lemma LightCountIsFlagTotal(c: Config, t: Trip)
    requires Valid(c)
    ensures Derive(c, t).lightCount == Seqs.Total(Derive(c, t).lightFlags)
  {
    var ls := LightPositions(c);
    var p := Crossed(t.origin, t.destination);
    var passed := LightsPassed(t.origin, t.destination, ls);
    assert LightFlags(c, passed) == Seqs.Indicator(ls, p) by {
      forall j | 0 <= j < |ls|
        ensures LightFlags(c, passed)[j] == Seqs.Indicator(ls, p)[j]
      {
        assert ls[j] in ls;
      }
    }
    Seqs.IndicatorTotal(ls, p);
  }

  function PositiveTravel(t: Trip): bool {
    t.arrivalTime - t.inTime > 0
  }

  function LongerThan(minDist: int): Trip -> bool {
    (t: Trip) => t.pathLength > minDist
  }

  function Trips(fs: seq<Features>): (ts: seq<Trip>)
    ensures |ts| == |fs|
    ensures forall j :: 0 <= j < |fs| ==> ts[j] == fs[j].trip
  {
    seq(|fs|, j requires 0 <= j < |fs| => fs[j].trip)
  }

  /** The whole derivation: build the configuration, drop trips without a
      positive travel time, then trips no longer than `minDist`, and derive
      the columns of the rest in order. */
  function Run(numCells: int, gapLights: int, gapDigs: int, minDist: int, groupDist: int, trips: seq<Trip>): (r: Result<seq<Features>, Error>)
    ensures r.Failure? <==> gapLights == 0 || gapDigs == 0
    ensures r.Success? ==> |r.value| <= |trips|
    ensures r.Success? ==> Trips(r.value) == Seqs.Filter(Seqs.Filter(trips, PositiveTravel), LongerThan(minDist))
    ensures r.Success? ==> forall f :: f in r.value ==> f.travelTime > 0 && f.trip.pathLength > minDist
  {
    var c :- NewConfig(numCells, gapLights, gapDigs, minDist, groupDist);
    Success(DeriveAll(c, Seqs.Filter(Seqs.Filter(trips, PositiveTravel), LongerThan(minDist))))
  }

  function DeriveAll(c: Config, ts: seq<Trip>): (fs: seq<Features>)
    requires Valid(c)
    ensures Trips(fs) == ts
    ensures forall f :: f in fs ==> f.trip in ts && f.travelTime == f.trip.arrivalTime - f.trip.inTime
  {
    var fs := seq(|ts|, j requires 0 <= j < |ts| => Derive(c, ts[j]));
    assert forall j :: 0 <= j < |fs| ==> fs[j].trip == ts[j];
    fs
  }

  /** A trip reaches the table exactly when its travel time is positive and
      its path is longer than `minDist`. */
  lemma RunKeepsExactly(numCells: int, gapLights: int, gapDigs: int, minDist: int, groupDist: int, trips: seq<Trip>, t: Trip)
    requires gapLights != 0 && gapDigs != 0
    ensures t in Trips(Run(numCells, gapLights, gapDigs, minDist, groupDist, trips).value)
        <==> t in trips && t.arrivalTime - t.inTime > 0 && t.pathLength > minDist
  {
  }
}
