/** Construction of the two road networks of the simulator: a one-way ring
    of cells with a traffic light every few cells, and a star-ring of five
    junction cells joined by sixteen one-way cell chains, with a light at
    the end of each chain into the centre. Every cell has speed limit 5 and
    capacity 1. The random initial count of each light is drawn from
    `draws`; the rounded green shares of the ring's lights are parameters. */
module GraphGenerator {
  import opened Wrappers
  import CommonCell
  import TrafficLight
  import Digraph
  import Arith

  const MaxSpeed: int := 5
  const Capacity: real := 1.0

  /** A node of the network: an ordinary cell or a traffic light. */
  datatype Element = Plain(cell: CommonCell.Cell) | Signal(light: TrafficLight.Light)

  datatype Network = Network(graph: Digraph.Graph, elements: map<int, Element>, lights: map<int, TrafficLight.Light>)

  datatype GenError = NonPositiveArgument | BadLight(TrafficLight.LightError) | BadEdge(Digraph.GraphError)

  /** The IDs `0 .. n-1`. */
  function Range(n: int): (s: set<int>)
    ensures forall i :: i in s <==> 0 <= i < n
    decreases n
  {
    if n <= 0 then {} else Range(n - 1) + {n - 1}
  }

  lemma RangeStep(n: int)
    requires n >= 0
    ensures Range(n + 1) == Range(n) + {n}
  {
  }

  /** The initial count of a light: a random value in `[1, interval-1]`, or
      1 when the interval leaves no choice. */
  function InitialCount(interval: int, draw: int): (c: int)
    ensures interval > 1 ==> 1 <= c <= interval - 1
    ensures interval <= 1 ==> c == 1
  {
    if interval > 1 then draw % (interval - 1) + 1 else 1
  }

  /** A light as the generators leave it: red, its count set once. */
  function PlacedLight(id: int, interval: int, start: int, end: int, draw: int): TrafficLight.Light {
    TrafficLight.Light(CommonCell.NewCommonCell(id, MaxSpeed, Capacity), false, start, end, interval, InitialCount(interval, draw))
  }

  /** Builds a light and sets its random initial count; the count is always
      in range, so only the phase can be rejected. */
  function MakeLight(id: int, interval: int, start: int, end: int, draw: int): (r: Result<TrafficLight.Light, GenError>)
    ensures r.Success? <==> TrafficLight.ValidPhase(interval, start, end)
    ensures r.Success? ==> r.value == PlacedLight(id, interval, start, end, draw) && TrafficLight.WellFormed(r.value)
  {
    var made := TrafficLight.NewTrafficLightCell(id, MaxSpeed, Capacity, interval, start, end);
    if made.Failure? then Failure(BadLight(made.error))
    else
      Success(TrafficLight.SetCount(made.value, InitialCount(interval, draw)).value)
  }

  lemma {:induction false} CeilStep(i: int, n: int)
    requires i >= 0 && n > 0
    ensures i % n == 0 ==> (i + n - 1) / n == i / n && (i + n) / n == i / n + 1
    ensures i % n != 0 ==> (i + n) / n == (i + n - 1) / n
  {
    var q, m := i / n, i % n;
    assert i == q * n + m;
    if m == 0 {
      Arith.DivUnique(i + n - 1, n, q, n - 1);
      Arith.DivUnique(i + n, n, q + 1, 0);
    } else {
      Arith.DivUnique(i + n - 1, n, q + 1, m - 1);
      Arith.DivUnique(i + n, n, q + 1, m);
    }
  }

  // ---------------------------------------------------------------------
  // The ring

  /** The light at ring position `i`: the k-th light gets the short green
      share when k is even and the long one when k is odd. */
  function RingLight(i: int, lightGap: int, interval: int, shortEnd: int, longEnd: int, draws: nat -> int): TrafficLight.Light
    requires i >= 0 && lightGap > 0
  {
    var k := i / lightGap;
    PlacedLight(i, interval, 0, if k % 2 == 0 then shortEnd else longEnd, draws(k))
  }

  /** The edge from ring position `i` to the next. */
  function Forward(i: int): (int, int) {
    (i, i + 1)
  }

  function ChainEdges(n: int): set<(int, int)> {
    set i | 0 <= i < n - 1 :: Forward(i)
  }

  /** The ring's edges: the chain `0 -> 1 -> ... -> n-1` and the edge back. */
  function RingEdges(n: int): set<(int, int)> {
    ChainEdges(n) + {(n - 1, 0)}
  }

  predicate RingArguments(cellNum: int, lightGap: int, interval: int, shortEnd: int, longEnd: int) {
    && cellNum > 1 && lightGap > 0 && interval > 0
    && TrafficLight.ValidPhase(interval, 0, shortEnd)
    && (cellNum > lightGap ==> TrafficLight.ValidPhase(interval, 0, longEnd))
  }

  /** What the node loop has built after placing cells `0 .. i-1`: a light
      at every multiple of the light gap and an ordinary cell elsewhere. */
  ghost predicate RingCells(elements: map<int, Element>, lights: map<int, TrafficLight.Light>, i: int,
                      lightGap: int, interval: int, shortEnd: int, longEnd: int, draws: nat -> int)
    requires lightGap > 0
  {
    && elements.Keys == Range(i)
    && (forall j :: j in lights <==> 0 <= j < i && j % lightGap == 0)
    && (forall j :: j in lights ==>
         lights[j] == RingLight(j, lightGap, interval, shortEnd, longEnd, draws) && elements[j] == Signal(lights[j]))
    && (forall j :: j in elements && j !in lights ==> elements[j] == Plain(CommonCell.NewCommonCell(j, MaxSpeed, Capacity)))
  }

  /** What the node loop of the ring keeps: the cells `0 .. i-1` are in
      the graph, without edges, and `ratio` lights have been placed. */
  ghost predicate RingLoop(g: Digraph.Graph, elements: map<int, Element>, lights: map<int, TrafficLight.Light>, ratio: int, i: int,
                           lightGap: int, interval: int, shortEnd: int, longEnd: int, draws: nat -> int)
    requires lightGap > 0
  {
    && i >= 0 && g.nodes == Range(i) && g.edges == {}
    && ratio >= 0 && ratio == (i + lightGap - 1) / lightGap
    && RingCells(elements, lights, i, lightGap, interval, shortEnd, longEnd, draws)
    && (i > 0 ==> TrafficLight.ValidPhase(interval, 0, shortEnd))
    && (i > lightGap ==> TrafficLight.ValidPhase(interval, 0, longEnd))
  }

  /** One turn of the node loop: place cell `i`. */
  method PlaceRingCell(g: Digraph.Graph, elements: map<int, Element>, lights: map<int, TrafficLight.Light>, ratio: int, i: int,
                       lightGap: int, interval: int, shortEnd: int, longEnd: int, draws: nat -> int)
    returns (r: Result<(Digraph.Graph, map<int, Element>, map<int, TrafficLight.Light>, int), GenError>)
    requires lightGap > 0 && interval > 0
    requires RingLoop(g, elements, lights, ratio, i, lightGap, interval, shortEnd, longEnd, draws)
    ensures r.Failure? ==> !TrafficLight.ValidPhase(interval, 0, shortEnd) || (i >= lightGap && !TrafficLight.ValidPhase(interval, 0, longEnd))
    ensures r.Success? ==> RingLoop(r.value.0, r.value.1, r.value.2, r.value.3, i + 1, lightGap, interval, shortEnd, longEnd, draws)
  {
    CeilStep(i, lightGap);
    RangeStep(i);
    assert i == 0 ==> ratio == 0 by {
      if i == 0 {
        Arith.DivUnique(lightGap - 1, lightGap, 0, lightGap - 1);
      }
    }
    assert i == lightGap ==> i % lightGap == 0 && i / lightGap == 1 by {
      if i == lightGap {
        Arith.DivUnique(i, lightGap, 1, 0);
      }
    }
    var g' := Digraph.AddNode(g, i).value;
    if i % lightGap == 0 {
      var light := MakeLight(i, interval, 0, if ratio % 2 == 0 then shortEnd else longEnd, draws(ratio));
      if light.Failure? {
        assert ratio % 2 == 1 ==> i >= lightGap by {
          if i < lightGap {
            Arith.DivUnique(i, lightGap, 0, i);
          }
        }
        return light.PropagateFailure();
      }
      assert ratio == i / lightGap;
      assert light.value == RingLight(i, lightGap, interval, shortEnd, longEnd, draws);
      RingCellsAddLight(elements, lights, i, lightGap, interval, shortEnd, longEnd, draws);
      return Success((g', elements[i := Signal(light.value)], lights[i := light.value], ratio + 1));
    }
    RingCellsAddPlain(elements, lights, i, lightGap, interval, shortEnd, longEnd, draws);
    return Success((g', elements[i := Plain(CommonCell.NewCommonCell(i, MaxSpeed, Capacity))], lights, ratio));
  }

  /** Places the cells of the ring, a light at every multiple of the light
      gap, alternating between the short and the long green share. */
  method PlaceRingCells(cellNum: int, lightGap: int, interval: int, shortEnd: int, longEnd: int, draws: nat -> int)
    returns (r: Result<(Digraph.Graph, map<int, Element>, map<int, TrafficLight.Light>), GenError>)
    requires cellNum > 0 && lightGap > 0 && interval > 0
    ensures r.Success? <==> (TrafficLight.ValidPhase(interval, 0, shortEnd)
      && (cellNum > lightGap ==> TrafficLight.ValidPhase(interval, 0, longEnd)))
    ensures r.Success? ==> r.value.0.nodes == Range(cellNum) && r.value.0.edges == {}
    ensures r.Success? ==> RingCells(r.value.1, r.value.2, cellNum, lightGap, interval, shortEnd, longEnd, draws)
  {
    RingLoopStart(lightGap, interval, shortEnd, longEnd, draws);
    var placed := PlaceRingCellsFrom(Digraph.Empty(), map[], map[], 0, 0, cellNum, lightGap, interval, shortEnd, longEnd, draws);
    if placed.Failure? {
      return placed.PropagateFailure();
    }
    return Success((placed.value.0, placed.value.1, placed.value.2));
  }

  /** The node loop from cell `i` on. */
  method PlaceRingCellsFrom(g: Digraph.Graph, elements: map<int, Element>, lights: map<int, TrafficLight.Light>, ratio: int, i: int,
                            cellNum: int, lightGap: int, interval: int, shortEnd: int, longEnd: int, draws: nat -> int)
    returns (r: Result<(Digraph.Graph, map<int, Element>, map<int, TrafficLight.Light>, int), GenError>)
    requires lightGap > 0 && interval > 0 && i <= cellNum
    requires RingLoop(g, elements, lights, ratio, i, lightGap, interval, shortEnd, longEnd, draws)
    ensures r.Failure? ==> !TrafficLight.ValidPhase(interval, 0, shortEnd) || (cellNum > lightGap && !TrafficLight.ValidPhase(interval, 0, longEnd))
    ensures r.Success? ==> RingLoop(r.value.0, r.value.1, r.value.2, r.value.3, cellNum, lightGap, interval, shortEnd, longEnd, draws)
    decreases cellNum - i
  {
    if i == cellNum {
      return Success((g, elements, lights, ratio));
    }
    var placed := PlaceRingCell(g, elements, lights, ratio, i, lightGap, interval, shortEnd, longEnd, draws);
    if placed.Failure? {
      return placed.PropagateFailure();
    }
    var (g', elements', lights', ratio') := placed.value;
    r := PlaceRingCellsFrom(g', elements', lights', ratio', i + 1, cellNum, lightGap, interval, shortEnd, longEnd, draws);
  }

  lemma RingLoopStart(lightGap: int, interval: int, shortEnd: int, longEnd: int, draws: nat -> int)
    requires lightGap > 0
    ensures RingLoop(Digraph.Empty(), map[], map[], 0, 0, lightGap, interval, shortEnd, longEnd, draws)
  {
    Arith.DivUnique(lightGap - 1, lightGap, 0, lightGap - 1);
  }

  lemma RingCellsAddLight(elements: map<int, Element>, lights: map<int, TrafficLight.Light>, i: int,
                          lightGap: int, interval: int, shortEnd: int, longEnd: int, draws: nat -> int)
    requires lightGap > 0 && i >= 0 && i % lightGap == 0
    requires RingCells(elements, lights, i, lightGap, interval, shortEnd, longEnd, draws)
    ensures var l := RingLight(i, lightGap, interval, shortEnd, longEnd, draws);
      RingCells(elements[i := Signal(l)], lights[i := l], i + 1, lightGap, interval, shortEnd, longEnd, draws)
  {
    RangeStep(i);
  }

  lemma RingCellsAddPlain(elements: map<int, Element>, lights: map<int, TrafficLight.Light>, i: int,
                          lightGap: int, interval: int, shortEnd: int, longEnd: int, draws: nat -> int)
    requires lightGap > 0 && i >= 0 && i % lightGap != 0
    requires RingCells(elements, lights, i, lightGap, interval, shortEnd, longEnd, draws)
    ensures RingCells(elements[i := Plain(CommonCell.NewCommonCell(i, MaxSpeed, Capacity))], lights, i + 1,
                      lightGap, interval, shortEnd, longEnd, draws)
  {
    RangeStep(i);
  }

  /** Joins cells `0 .. n-1` into a chain. */
  method ChainCells(g0: Digraph.Graph, n: int) returns (g: Digraph.Graph)
    requires n > 0 && g0.nodes == Range(n) && g0.edges == {}
    ensures g.nodes == Range(n) && g.edges == ChainEdges(n)
  {
    g := g0;
    var k := 0;
    while k < n - 1
      invariant 0 <= k <= n - 1
      invariant g.nodes == Range(n) && g.edges == ChainEdges(k + 1)
    {
      g := Digraph.SetEdge(g, k, k + 1).value;
      assert ChainEdges(k + 2) == ChainEdges(k + 1) + {Forward(k)};
      k := k + 1;
    }
  }

  method CreateCycleGraph(cellNum: int, lightGap: int, interval: int, shortEnd: int, longEnd: int, draws: nat -> int)
    returns (r: Result<Network, GenError>)
    ensures r.Success? <==> RingArguments(cellNum, lightGap, interval, shortEnd, longEnd)
    ensures r.Success? ==> r.value.graph.nodes == Range(cellNum) && r.value.graph.edges == RingEdges(cellNum)
    ensures r.Success? ==> RingCells(r.value.elements, r.value.lights, cellNum, lightGap, interval, shortEnd, longEnd, draws)
  {
    if cellNum <= 0 || lightGap <= 0 || interval <= 0 {
      return Failure(NonPositiveArgument);
    }
    var placed := PlaceRingCells(cellNum, lightGap, interval, shortEnd, longEnd, draws);
    if placed.Failure? {
      return placed.PropagateFailure();
    }
    var (g0, elements, lights) := placed.value;
    var g := ChainCells(g0, cellNum);
    var closed := Digraph.SetEdge(g, cellNum - 1, 0);
    if closed.Failure? {
      return Failure(BadEdge(closed.error));
    }
    assert Range(cellNum) + {cellNum - 1, 0} == Range(cellNum);
    return Success(Network(closed.value, elements, lights));
  }

  /** The ring is a single cycle: every cell has exactly one successor, the
      next cell round the ring. */
  lemma RingSuccessor(n: int, i: int)
    requires n > 1 && 0 <= i < n
    ensures Digraph.Successors(Digraph.Graph(Range(n), RingEdges(n)), i) == {(i + 1) % n}
  {
    var g := Digraph.Graph(Range(n), RingEdges(n));
    var next := if i < n - 1 then i + 1 else 0;
    Arith.DivUnique(i + 1, n, if i < n - 1 then 0 else 1, next);
    assert (i, next) in g.edges by {
      if i < n - 1 {
        assert Forward(i) in ChainEdges(n);
      }
    }
    assert next in Digraph.Successors(g, i);
    forall t | t in Digraph.Successors(g, i)
      ensures t == next
    {
      var e :| e in g.edges && e.0 == i && e.1 == t;
      if e != (n - 1, 0) {
        var j :| 0 <= j < n - 1 && e == Forward(j);
      }
    }
  }

  // ---------------------------------------------------------------------
  // The star-ring

  /** Nodes 0 to 3 are the ring junctions A to D and node 4 is the centre
      E. The sixteen one-way connections in the order they are built: the
      ring clockwise, the ring anticlockwise, into the centre, out of it. */
  const Connections: seq<(int, int)> := [
    (0, 1), (1, 2), (2, 3), (3, 0),
    (1, 0), (2, 1), (3, 2), (0, 3),
    (0, 4), (1, 4), (2, 4), (3, 4),
    (4, 0), (4, 1), (4, 2), (4, 3)]

  /** Cells of connection `c`: `ring` on the ring, `star` to and from the
      centre. */
  function ChainLength(c: int, ring: int, star: int): int {
    if c < 8 then ring else star
  }

  /** The ID of the first cell of connection `c`; IDs are handed out
      consecutively after the five junctions. */
  function FirstCell(c: int, ring: int, star: int): int {
    5 + (if c <= 8 then c * ring else 8 * ring + (c - 8) * star)
  }

  function NodeCount(ring: int, star: int): int {
    5 + 8 * ring + 8 * star
  }

  /** The IDs `start .. start+n-1`. */
  function Cells(start: int, n: nat): (ids: seq<int>)
    ensures |ids| == n && forall k :: 0 <= k < n ==> ids[k] == start + k
  {
    seq(n, k => start + k)
  }

  /** The walk of connection `c`: from its junction through its cells to
      the other junction. */
  function Walk(c: int, ring: int, star: int): seq<int>
    requires 0 <= c < 16 && ring > 0 && star > 0
  {
    [Connections[c].0] + Cells(FirstCell(c, ring, star), ChainLength(c, ring, star)) + [Connections[c].1]
  }

  /** The edges of the first `k` connections. */
  function StarEdges(k: int, ring: int, star: int): set<(int, int)>
    requires 0 <= k <= 16 && ring > 0 && star > 0
    decreases k
  {
    if k == 0 then {} else StarEdges(k - 1, ring, star) + Digraph.PathEdges(Walk(k - 1, ring, star))
  }

  /** The light on connection `c`, numbered 0 to 3, or -1: only the
      connections into the centre carry one. */
  function LightIndex(c: int): int {
    if 8 <= c < 12 then c - 8 else -1
  }

  /** Light `idx` is green for the `idx`-th quarter of the cycle; the last
      quarter runs to the end of the cycle. */
  function Phase(idx: int, interval: int): (int, int) {
    (idx * (interval / 4), if idx == 3 then interval else (idx + 1) * (interval / 4))
  }

  /** The cell that carries light `idx`: the last cell into the centre. */
  function LightCell(idx: int, ring: int, star: int): int {
    FirstCell(8 + idx, ring, star) + star - 1
  }

  function StarLight(idx: int, ring: int, star: int, interval: int, draws: nat -> int): TrafficLight.Light
    requires 0 <= idx
  {
    PlacedLight(LightCell(idx, ring, star), interval, Phase(idx, interval).0, Phase(idx, interval).1, draws(idx))
  }

  /** The light cells of the first `k` connections. */
  function LightCells(k: int, ring: int, star: int): set<int> {
    set idx | 0 <= idx < 4 && 8 + idx < k :: LightCell(idx, ring, star)
  }

  /** The elements after building the first `k` connections: the lights
      of the connections into the centre built so far and ordinary cells
      everywhere else. */
  ghost predicate StarCells(elements: map<int, Element>, lights: map<int, TrafficLight.Light>, k: int,
                            ring: int, star: int, interval: int, draws: nat -> int)
  {
    && lights.Keys == LightCells(k, ring, star)
    && (forall idx :: 0 <= idx < 4 && 8 + idx < k ==>
         LightCell(idx, ring, star) in lights && lights[LightCell(idx, ring, star)] == StarLight(idx, ring, star, interval, draws))
    && Tagged(elements, lights)
  }

  /** The four phases split the cycle: light `idx` is green at count `n`
      exactly when `n` lies in its quarter, so exactly one light into the
      centre is green at any count of the cycle. */
  function PhaseOwner(interval: int, n: int): int {
    var q := interval / 4;
    if n <= q then 0 else if n <= 2 * q then 1 else if n <= 3 * q then 2 else 3
  }

  lemma PhasesPartition(interval: int, n: int, idx: int)
    requires interval >= 4 && 1 <= n <= interval && 0 <= idx < 4
    ensures Phase(idx, interval).0 < n <= Phase(idx, interval).1 <==> idx == PhaseOwner(interval, n)
  {
    var q := interval / 4;
    assert 4 * q <= interval;
    if idx == 0 {
      assert Phase(idx, interval) == (0, q);
    } else if idx == 1 {
      assert Phase(idx, interval) == (q, 2 * q);
    } else if idx == 2 {
      assert Phase(idx, interval) == (2 * q, 3 * q);
    } else {
      assert Phase(idx, interval) == (3 * q, interval);
    }
  }

  /** A light's phase is accepted for every quarter once the cycle has at
      least four steps; below that only the last quarter is. */
  lemma PhaseValid(idx: int, interval: int)
    requires 0 <= idx < 4 && interval > 0
    ensures TrafficLight.ValidPhase(interval, Phase(idx, interval).0, Phase(idx, interval).1) <==> interval >= 4 || idx == 3
  {
    var q := interval / 4;
    assert 4 * q <= interval < 4 * q + 4;
    if idx == 0 {
      assert Phase(idx, interval) == (0, q);
    } else if idx == 1 {
      assert Phase(idx, interval) == (q, 2 * q);
    } else if idx == 2 {
      assert Phase(idx, interval) == (2 * q, 3 * q);
    } else {
      assert Phase(idx, interval) == (3 * q, interval);
    }
  }

  lemma FirstCellStep(c: int, ring: int, star: int)
    requires 0 <= c && ring > 0 && star > 0
    ensures FirstCell(c + 1, ring, star) == FirstCell(c, ring, star) + ChainLength(c, ring, star)
    ensures FirstCell(c, ring, star) >= 5
  {
    if c < 8 {
      assert (c + 1) * ring == c * ring + ring;
      MulNonNegative(c, ring);
    } else if c == 8 {
      assert 8 * ring + 1 * star == 8 * ring + star;
    } else {
      assert (c + 1 - 8) * star == (c - 8) * star + star;
      MulNonNegative(c - 8, star);
    }
  }

  lemma MulNonNegative(x: int, y: int)
    requires x >= 0 && y >= 0
    ensures x * y >= 0
  {
  }

  /** Cells of earlier connections come before those of later ones. */
  lemma {:induction false} FirstCellMonotone(a: int, b: int, ring: int, star: int)
    requires 0 <= a <= b && ring > 0 && star > 0
    ensures FirstCell(a, ring, star) <= FirstCell(b, ring, star)
    decreases b - a
  {
    if a < b {
      FirstCellStep(a, ring, star);
      FirstCellMonotone(a + 1, b, ring, star);
    }
  }

  lemma LightCellsStep(c: int, ring: int, star: int)
    requires 0 <= c
    ensures LightCells(c + 1, ring, star)
      == LightCells(c, ring, star) + (if LightIndex(c) >= 0 then {LightCell(LightIndex(c), ring, star)} else {})
  {
    if LightIndex(c) >= 0 {
      assert LightCell(c - 8, ring, star) in LightCells(c + 1, ring, star);
    }
  }

  /** Light cells of the first `c` connections lie below the first cell of
      connection `c`. */
  lemma LightCellsBelow(c: int, ring: int, star: int, id: int)
    requires 0 <= c && ring > 0 && star > 0 && id in LightCells(c, ring, star)
    ensures id < FirstCell(c, ring, star)
  {
    var idx :| 0 <= idx < 4 && 8 + idx < c && id == LightCell(idx, ring, star);
    FirstCellStep(8 + idx, ring, star);
    FirstCellMonotone(9 + idx, c, ring, star);
  }

  /** The walk of a connection has no self step and touches only the two
      junctions and the connection's own cells. */
  lemma WalkShape(c: int, ring: int, star: int)
    requires 0 <= c < 16 && ring > 0 && star > 0
    ensures Digraph.NoSelfStep(Walk(c, ring, star))
    ensures Range(FirstCell(c, ring, star)) + Digraph.PathNodes(Walk(c, ring, star)) == Range(FirstCell(c + 1, ring, star))
  {
    FirstCellStep(c, ring, star);
    var w := Walk(c, ring, star);
    var start, n := FirstCell(c, ring, star), ChainLength(c, ring, star);
    assert |w| == n + 2 && w[0] < 5 && w[n + 1] < 5;
    assert forall k :: 1 <= k <= n ==> w[k] == start + k - 1;
    var lhs, rhs := Range(start) + Digraph.PathNodes(w), Range(start + n);
    forall id | id in rhs
      ensures id in lhs
    {
      if id >= start {
        assert id == w[id - start + 1];
      }
    }
  }

  /** Every element is the light at its ID, or an ordinary cell. */
  ghost predicate Tagged(elements: map<int, Element>, lights: map<int, TrafficLight.Light>) {
    forall id :: id in elements ==>
      elements[id] == if id in lights then Signal(lights[id]) else Plain(CommonCell.NewCommonCell(id, MaxSpeed, Capacity))
  }

  /** Cells `0 .. n-1` are in the graph, with `edges` as its edges, and
      the elements agree with the lights. */
  ghost predicate Placed(g: Digraph.Graph, el: map<int, Element>, li: map<int, TrafficLight.Light>, n: int, edges: set<(int, int)>) {
    g.nodes == Range(n) && g.edges == edges && el.Keys == g.nodes && Tagged(el, li)
  }

  /** Adding an ordinary cell with the next ID. */
  lemma PlacedAddPlain(g: Digraph.Graph, el: map<int, Element>, li: map<int, TrafficLight.Light>, n: int, edges: set<(int, int)>)
    requires n >= 0 && Placed(g, el, li, n, edges) && n !in li
    ensures Digraph.AddNode(g, n).Success?
    ensures Placed(Digraph.AddNode(g, n).value, el[n := Plain(CommonCell.NewCommonCell(n, MaxSpeed, Capacity))], li, n + 1, edges)
  {
    RangeStep(n);
  }

  /** Adding a light with the next ID. */
  lemma PlacedAddLight(g: Digraph.Graph, el: map<int, Element>, li: map<int, TrafficLight.Light>, n: int, edges: set<(int, int)>,
                       l: TrafficLight.Light)
    requires n >= 0 && Placed(g, el, li, n, edges)
    ensures Digraph.AddNode(g, n).Success?
    ensures Placed(Digraph.AddNode(g, n).value, el[n := Signal(l)], li[n := l], n + 1, edges)
  {
    RangeStep(n);
  }

  /** Creates the cells `start .. start+n-1` of one connection, the last
      one a light when `idx` names one. */
  method PlaceChainCells(g0: Digraph.Graph, el0: map<int, Element>, li0: map<int, TrafficLight.Light>,
                         start: int, n: int, idx: int, ring: int, star: int, interval: int, draws: nat -> int)
    returns (r: Result<(Digraph.Graph, map<int, Element>, map<int, TrafficLight.Light>), GenError>)
    requires start >= 0 && n >= 1 && (idx >= 0 ==> LightCell(idx, ring, star) == start + n - 1)
    requires Placed(g0, el0, li0, start, g0.edges)
    requires forall id :: id in li0 ==> id < start
    ensures r.Success? <==> (idx >= 0 ==> TrafficLight.ValidPhase(interval, Phase(idx, interval).0, Phase(idx, interval).1))
    ensures r.Success? ==> r.value.2 == if idx >= 0 then li0[LightCell(idx, ring, star) := StarLight(idx, ring, star, interval, draws)] else li0
    ensures r.Success? ==> Placed(r.value.0, r.value.1, r.value.2, start + n, g0.edges)
  {
    // The loop of the source with its last turn, the only one that can
    // place a light, taken out.
    var g, el := PlacePlainCells(g0, el0, li0, start, n - 1);
    var last := start + n - 1;
    if idx >= 0 {
      var light := MakeLight(last, interval, Phase(idx, interval).0, Phase(idx, interval).1, draws(idx));
      if light.Failure? {
        return light.PropagateFailure();
      }
      PlacedAddLight(g, el, li0, last, g0.edges, light.value);
      return Success((Digraph.AddNode(g, last).value, el[last := Signal(light.value)], li0[last := light.value]));
    }
    PlacedAddPlain(g, el, li0, last, g0.edges);
    return Success((Digraph.AddNode(g, last).value, el[last := Plain(CommonCell.NewCommonCell(last, MaxSpeed, Capacity))], li0));
  }

  /** Ordinary cells `start .. start+count-1`. */
  method PlacePlainCells(g0: Digraph.Graph, el0: map<int, Element>, li: map<int, TrafficLight.Light>, start: int, count: int)
    returns (g: Digraph.Graph, el: map<int, Element>)
    requires start >= 0 && count >= 0
    requires Placed(g0, el0, li, start, g0.edges)
    requires forall id :: id in li ==> id < start
    ensures Placed(g, el, li, start + count, g0.edges)
  {
    g, el := g0, el0;
    var j := 0;
    while j < count
      invariant 0 <= j <= count && Placed(g, el, li, start + j, g0.edges)
    {
      PlacedAddPlain(g, el, li, start + j, g0.edges);
      g := Digraph.AddNode(g, start + j).value;
      el := el[start + j := Plain(CommonCell.NewCommonCell(start + j, MaxSpeed, Capacity))];
      j := j + 1;
    }
  }

  lemma StarCellsStep(li0: map<int, TrafficLight.Light>, li: map<int, TrafficLight.Light>,
                      c: int, ring: int, star: int, interval: int, draws: nat -> int)
    requires 0 <= c < 16 && ring > 0 && star > 0
    requires li0.Keys == LightCells(c, ring, star)
    requires forall idx :: 0 <= idx < 4 && 8 + idx < c ==>
      LightCell(idx, ring, star) in li0 && li0[LightCell(idx, ring, star)] == StarLight(idx, ring, star, interval, draws)
    requires li == if LightIndex(c) >= 0 then li0[LightCell(LightIndex(c), ring, star) := StarLight(LightIndex(c), ring, star, interval, draws)] else li0
    ensures li.Keys == LightCells(c + 1, ring, star)
    ensures forall idx :: 0 <= idx < 4 && 8 + idx < c + 1 ==>
      LightCell(idx, ring, star) in li && li[LightCell(idx, ring, star)] == StarLight(idx, ring, star, interval, draws)
  {
    LightCellsStep(c, ring, star);
    if LightIndex(c) >= 0 {
      forall idx | 0 <= idx < 4 && 8 + idx < c
        ensures LightCell(idx, ring, star) != LightCell(LightIndex(c), ring, star)
      {
        LightCellsBelow(c, ring, star, LightCell(idx, ring, star));
      }
    }
  }

  /** What the connection loop keeps after `c` connections. */
  ghost predicate StarLoop(g: Digraph.Graph, el: map<int, Element>, li: map<int, TrafficLight.Light>, c: int,
                           ring: int, star: int, interval: int, draws: nat -> int)
    requires 0 <= c <= 16 && ring > 0 && star > 0
  {
    && Placed(g, el, li, FirstCell(c, ring, star), StarEdges(c, ring, star))
    && StarCells(el, li, c, ring, star, interval, draws)
    && (c > 8 ==> interval >= 4)
  }

  /** Builds the cells of connection `c`, a light on the last one when the
      connection leads into the centre, and joins them into its walk. */
  method BuildConnection(g0: Digraph.Graph, el0: map<int, Element>, li0: map<int, TrafficLight.Light>,
                         c: int, ring: int, star: int, interval: int, draws: nat -> int)
    returns (r: Result<(Digraph.Graph, map<int, Element>, map<int, TrafficLight.Light>), GenError>)
    requires 0 <= c < 16 && ring > 0 && star > 0 && interval > 0
    requires StarLoop(g0, el0, li0, c, ring, star, interval, draws)
    ensures r.Success? <==> (c == 8 ==> interval >= 4)
    ensures r.Success? ==> StarLoop(r.value.0, r.value.1, r.value.2, c + 1, ring, star, interval, draws)
  {
    FirstCellStep(c, ring, star);
    var start, n := FirstCell(c, ring, star), ChainLength(c, ring, star);
    forall id | id in li0
      ensures id < start
    {
      LightCellsBelow(c, ring, star, id);
    }
    if LightIndex(c) >= 0 {
      PhaseValid(LightIndex(c), interval);
    }
    var placed := PlaceChainCells(g0, el0, li0, start, n, LightIndex(c), ring, star, interval, draws);
    if placed.Failure? {
      return placed;
    }
    var (g, el, li) := placed.value;
    ConnectionJoined(g0, el0, li0, g, el, li, c, ring, star, interval, draws);
    return Success((Digraph.AddPath(g, Walk(c, ring, star)).value, el, li));
  }

  /** Once its cells are placed, joining a connection's walk completes
      the loop's step. */
  lemma ConnectionJoined(g0: Digraph.Graph, el0: map<int, Element>, li0: map<int, TrafficLight.Light>,
                         g: Digraph.Graph, el: map<int, Element>, li: map<int, TrafficLight.Light>,
                         c: int, ring: int, star: int, interval: int, draws: nat -> int)
    requires 0 <= c < 16 && ring > 0 && star > 0
    requires StarLoop(g0, el0, li0, c, ring, star, interval, draws)
    requires Placed(g, el, li, FirstCell(c, ring, star) + ChainLength(c, ring, star), g0.edges)
    requires li == if LightIndex(c) >= 0 then li0[LightCell(LightIndex(c), ring, star) := StarLight(LightIndex(c), ring, star, interval, draws)] else li0
    requires c == 8 ==> interval >= 4
    ensures Digraph.AddPath(g, Walk(c, ring, star)).Success?
    ensures StarLoop(Digraph.AddPath(g, Walk(c, ring, star)).value, el, li, c + 1, ring, star, interval, draws)
  {
    StarCellsStep(li0, li, c, ring, star, interval, draws);
    WalkJoined(g, c, ring, star);
    FirstCellStep(c, ring, star);
    var h := Digraph.AddPath(g, Walk(c, ring, star)).value;
    assert el.Keys == h.nodes && Tagged(el, li);
    assert StarCells(el, li, c + 1, ring, star, interval, draws);
    assert Placed(h, el, li, FirstCell(c + 1, ring, star), StarEdges(c + 1, ring, star));
  }

  /** Joining a connection's walk into a graph holding exactly the cells
      placed so far and the earlier walks gives the next connection's
      starting graph. */
  lemma WalkJoined(g: Digraph.Graph, c: int, ring: int, star: int)
    requires 0 <= c < 16 && ring > 0 && star > 0
    requires g.nodes == Range(FirstCell(c, ring, star) + ChainLength(c, ring, star))
    requires g.edges == StarEdges(c, ring, star)
    ensures Digraph.AddPath(g, Walk(c, ring, star)).Success?
    ensures Digraph.AddPath(g, Walk(c, ring, star)).value.nodes == Range(FirstCell(c + 1, ring, star))
    ensures Digraph.AddPath(g, Walk(c, ring, star)).value.edges == StarEdges(c + 1, ring, star)
  {
    FirstCellStep(c, ring, star);
    WalkShape(c, ring, star);
  }

  method CreateStarRingGraph(ring: int, star: int, interval: int, draws: nat -> int) returns (r: Result<Network, GenError>)
    ensures r.Success? <==> ring > 0 && star > 0 && interval >= 4
    ensures r.Success? ==> r.value.graph.nodes == Range(NodeCount(ring, star)) && r.value.elements.Keys == r.value.graph.nodes
    ensures r.Success? ==> r.value.graph.edges == StarEdges(16, ring, star)
    ensures r.Success? ==> StarCells(r.value.elements, r.value.lights, 16, ring, star, interval, draws)
  {
    if ring <= 0 || star <= 0 || interval <= 0 {
      return Failure(NonPositiveArgument);
    }
    // The five junctions A to E are ordinary cells 0 to 4.
    var li: map<int, TrafficLight.Light> := map[];
    var g, el := PlacePlainCells(Digraph.Empty(), map[], li, 0, 5);
    StarLoopStart(g, el, ring, star, interval, draws);
    var built := BuildConnectionsFrom(g, el, li, 0, ring, star, interval, draws);
    if built.Failure? {
      return built.PropagateFailure();
    }
    var (g', el', li') := built.value;
    StarLoopDone(g', el', li', ring, star, interval, draws);
    return Success(Network(g', el', li'));
  }

  lemma StarLoopStart(g: Digraph.Graph, el: map<int, Element>, ring: int, star: int, interval: int, draws: nat -> int)
    requires ring > 0 && star > 0
    requires Placed(g, el, map[], 5, {})
    ensures StarLoop(g, el, map[], 0, ring, star, interval, draws)
  {
    assert StarEdges(0, ring, star) == {};
    assert LightCells(0, ring, star) == {};
  }

  lemma StarLoopDone(g: Digraph.Graph, el: map<int, Element>, li: map<int, TrafficLight.Light>,
                     ring: int, star: int, interval: int, draws: nat -> int)
    requires ring > 0 && star > 0
    requires StarLoop(g, el, li, 16, ring, star, interval, draws)
    ensures g.nodes == Range(NodeCount(ring, star)) && el.Keys == g.nodes
    ensures g.edges == StarEdges(16, ring, star)
    ensures StarCells(el, li, 16, ring, star, interval, draws)
  {
    assert FirstCell(16, ring, star) == NodeCount(ring, star);
  }

  /** The connection loop from connection `c` on. */
  method BuildConnectionsFrom(g: Digraph.Graph, el: map<int, Element>, li: map<int, TrafficLight.Light>,
                              c: int, ring: int, star: int, interval: int, draws: nat -> int)
    returns (r: Result<(Digraph.Graph, map<int, Element>, map<int, TrafficLight.Light>), GenError>)
    requires 0 <= c <= 16 && ring > 0 && star > 0 && interval > 0
    requires StarLoop(g, el, li, c, ring, star, interval, draws)
    ensures r.Success? <==> (c <= 8 ==> interval >= 4)
    ensures r.Success? ==> StarLoop(r.value.0, r.value.1, r.value.2, 16, ring, star, interval, draws)
    decreases 16 - c
  {
    if c == 16 {
      return Success((g, el, li));
    }
    var built := BuildConnection(g, el, li, c, ring, star, interval, draws);
    if built.Failure? {
      return built.PropagateFailure();
    }
    var (g', el', li') := built.value;
    r := BuildConnectionsFrom(g', el', li', c + 1, ring, star, interval, draws);
  }

  /** Every connection ends up as its chain in the finished network: the
      edge from its junction into its first cell, the edges between its
      consecutive cells, and the edge from its last cell to the other
      junction. */
  lemma {:induction false} ConnectionInNetwork(c: int, k: int, ring: int, star: int)
    requires 0 <= c < k <= 16 && ring > 0 && star > 0
    ensures Digraph.PathEdges(Walk(c, ring, star)) <= StarEdges(k, ring, star)
    decreases k
  {
    if c < k - 1 {
      ConnectionInNetwork(c, k - 1, ring, star);
    }
  }
}
