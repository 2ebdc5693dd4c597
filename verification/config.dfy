/** The simulator's configuration after JSON decoding, and the defaults
    loading fills in: a missing (zero) or non-positive number and an empty
    name are replaced, and memory monitoring is always switched on. Only
    the sections defaulting looks at, plus the fields the rest of the model
    reads, are kept. */
module Config {

  datatype Simulation = Simulation(oneDayTimeSteps: int, simDay: int)

  datatype Logging = Logging(intervalWriteToLog: int, intervalWriteOtherData: int)

  datatype Trace = Trace(
    enabled: bool, traceRecordInterval: int, writeInterval: int, maxCacheSize: int,
    memoryThreshold: int, enableMemoryMonitor: bool, memoryCheckInterval: int, splitByDay: bool)

  datatype Graph = Graph(graphType: string, numCell: int, lightIndexInterval: int,
                         ringCellsPerDirection: int, starCellsPerDirection: int)

  datatype Path = Path(pathMethod: string, k: int, selectionStrategy: string, lengthWeightFactor: real)

  datatype TripDistance = TripDistance(enableDistanceLimit: bool, minDistMultiplier: real, maxDistMultiplier: real)

  datatype Config = Config(simulation: Simulation, logging: Logging, trace: Trace, graph: Graph,
                           path: Path, tripDistance: TripDistance)

  /** The value kept when positive, else the default. */
  function PositiveOr(x: int, default: int): (r: int)
    ensures x > 0 ==> r == x
    ensures x <= 0 ==> r == default
  {
    if x > 0 then x else default
  }

  function PositiveRealOr(x: real, default: real): (r: real)
    ensures x > 0.0 ==> r == x
    ensures x <= 0.0 ==> r == default
  {
    if x > 0.0 then x else default
  }

  function NonEmptyOr(s: string, default: string): (r: string)
    ensures s != "" ==> r == s
    ensures s == "" ==> r == default
  {
    if s == "" then default else s
  }

  /** A configuration every default of which is already in place. The
      trace write interval falls back to the other-data interval, which
      itself has no default, so it need not be positive. */
  predicate Defaulted(c: Config) {
    && c.trace.traceRecordInterval > 0
    && (c.trace.writeInterval > 0 || c.trace.writeInterval == c.logging.intervalWriteOtherData)
    && c.trace.maxCacheSize > 0 && c.trace.memoryThreshold > 0 && c.trace.memoryCheckInterval > 0
    && c.trace.enableMemoryMonitor
    && c.graph.graphType != "" && c.graph.numCell > 0 && c.graph.lightIndexInterval > 0
    && c.graph.ringCellsPerDirection > 0 && c.graph.starCellsPerDirection > 0
    && c.path.pathMethod != "" && c.path.k > 0 && c.path.selectionStrategy != "" && c.path.lengthWeightFactor > 0.0
    && c.tripDistance.minDistMultiplier > 0.0 && c.tripDistance.maxDistMultiplier > 0.0
  }

  /** The backward-compatibility step that would copy the cycle-graph size
      from the simulation section: that section declares no such fields, so
      the lookup finds nothing and the configuration is unchanged. */
  function LegacyGraphFields(c: Config): Config {
    c
  }

  /** The defaulting part of `LoadConfig`. */
  function ApplyDefaults(c: Config): (r: Config)
    ensures Defaulted(r)
    ensures r.simulation == c.simulation && r.logging == c.logging
    ensures r.trace.enabled == c.trace.enabled && r.trace.splitByDay == c.trace.splitByDay
    ensures r.tripDistance.enableDistanceLimit == c.tripDistance.enableDistanceLimit
    ensures c.trace.traceRecordInterval <= 0 ==> r.trace.traceRecordInterval == 10
    ensures c.trace.writeInterval <= 0 ==> r.trace.writeInterval == c.logging.intervalWriteOtherData
    ensures c.trace.maxCacheSize <= 0 ==> r.trace.maxCacheSize == 10000
    ensures c.trace.memoryThreshold <= 0 ==> r.trace.memoryThreshold == 500
    ensures c.trace.memoryCheckInterval <= 0 ==> r.trace.memoryCheckInterval == 1000
    ensures c.graph.graphType == "" ==> r.graph.graphType == "cycle"
    ensures c.graph.numCell <= 0 ==> r.graph.numCell == 8000
    ensures c.graph.lightIndexInterval <= 0 ==> r.graph.lightIndexInterval == 800
    ensures c.graph.ringCellsPerDirection <= 0 ==> r.graph.ringCellsPerDirection == 100
    ensures c.graph.starCellsPerDirection <= 0 ==> r.graph.starCellsPerDirection == 80
    ensures c.path.pathMethod == "" ==> r.path.pathMethod == "shortest"
    ensures c.path.k <= 0 ==> r.path.k == 3
    ensures c.path.selectionStrategy == "" ==> r.path.selectionStrategy == "random"
    ensures c.path.lengthWeightFactor <= 0.0 ==> r.path.lengthWeightFactor == 1.0
    ensures c.tripDistance.minDistMultiplier <= 0.0 ==> r.tripDistance.minDistMultiplier == 1.0
    ensures c.tripDistance.maxDistMultiplier <= 0.0 ==> r.tripDistance.maxDistMultiplier == 1.0
    ensures c.trace.traceRecordInterval > 0 ==> r.trace.traceRecordInterval == c.trace.traceRecordInterval
    ensures c.trace.writeInterval > 0 ==> r.trace.writeInterval == c.trace.writeInterval
    ensures c.trace.maxCacheSize > 0 ==> r.trace.maxCacheSize == c.trace.maxCacheSize
    ensures c.trace.memoryThreshold > 0 ==> r.trace.memoryThreshold == c.trace.memoryThreshold
    ensures c.trace.memoryCheckInterval > 0 ==> r.trace.memoryCheckInterval == c.trace.memoryCheckInterval
    ensures c.graph.graphType != "" ==> r.graph.graphType == c.graph.graphType
    ensures c.graph.numCell > 0 ==> r.graph.numCell == c.graph.numCell
    ensures c.graph.lightIndexInterval > 0 ==> r.graph.lightIndexInterval == c.graph.lightIndexInterval
    ensures c.graph.ringCellsPerDirection > 0 ==> r.graph.ringCellsPerDirection == c.graph.ringCellsPerDirection
    ensures c.graph.starCellsPerDirection > 0 ==> r.graph.starCellsPerDirection == c.graph.starCellsPerDirection
    ensures c.path.pathMethod != "" ==> r.path.pathMethod == c.path.pathMethod
    ensures c.path.k > 0 ==> r.path.k == c.path.k
    ensures c.path.selectionStrategy != "" ==> r.path.selectionStrategy == c.path.selectionStrategy
    ensures c.path.lengthWeightFactor > 0.0 ==> r.path.lengthWeightFactor == c.path.lengthWeightFactor
    ensures c.tripDistance.minDistMultiplier > 0.0 ==> r.tripDistance.minDistMultiplier == c.tripDistance.minDistMultiplier
    ensures c.tripDistance.maxDistMultiplier > 0.0 ==> r.tripDistance.maxDistMultiplier == c.tripDistance.maxDistMultiplier
  {
    var t := c.trace;
    var trace := t.(
      traceRecordInterval := PositiveOr(t.traceRecordInterval, 10),
      writeInterval := PositiveOr(t.writeInterval, c.logging.intervalWriteOtherData),
      maxCacheSize := PositiveOr(t.maxCacheSize, 10000),
      memoryThreshold := PositiveOr(t.memoryThreshold, 500),
      memoryCheckInterval := PositiveOr(t.memoryCheckInterval, 1000),
      enableMemoryMonitor := true);
    var c1 := LegacyGraphFields(c.(trace := trace, graph := c.graph.(graphType := NonEmptyOr(c.graph.graphType, "cycle"))));
    var g := c1.graph;
    var graph := g.(
      numCell := PositiveOr(g.numCell, 8000),
      lightIndexInterval := PositiveOr(g.lightIndexInterval, 800),
      ringCellsPerDirection := PositiveOr(g.ringCellsPerDirection, 100),
      starCellsPerDirection := PositiveOr(g.starCellsPerDirection, 80));
    var p := c1.path;
    var path := p.(
      pathMethod := NonEmptyOr(p.pathMethod, "shortest"),
      k := PositiveOr(p.k, 3),
      selectionStrategy := NonEmptyOr(p.selectionStrategy, "random"),
      lengthWeightFactor := PositiveRealOr(p.lengthWeightFactor, 1.0));
    var d := c1.tripDistance;
    var trip := d.(
      minDistMultiplier := PositiveRealOr(d.minDistMultiplier, 1.0),
      maxDistMultiplier := PositiveRealOr(d.maxDistMultiplier, 1.0));
    c1.(graph := graph, path := path, tripDistance := trip)
  }

  /** A configuration whose every field is already valid loads unchanged. */
  lemma DefaultedUnchanged(c: Config)
    requires Defaulted(c)
    ensures ApplyDefaults(c) == c
  {
    var r := ApplyDefaults(c);
    assert r.trace == c.trace;
    assert r.graph == c.graph;
    assert r.path == c.path;
    assert r.tripDistance == c.tripDistance;
  }

  /** Defaulting twice is defaulting once. */
  lemma ApplyDefaultsIdempotent(c: Config)
    ensures ApplyDefaults(ApplyDefaults(c)) == ApplyDefaults(c)
  {
    DefaultedUnchanged(ApplyDefaults(c));
  }
}
