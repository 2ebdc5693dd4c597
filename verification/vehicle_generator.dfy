/** The pieces of vehicle generation that do not depend on the road graph:
    the vehicle ID counter, the random ranges of a new vehicle's speed,
    acceleration and slowing probability, and the list of nodes that
    tracing watches. Each random draw is a parameter within the range the
    generator draws it from. */
module VehicleGenerator {
  import opened Wrappers
  import Arith
  import Vehicle

  /** The IDs of `n` vehicles generated one after the other. */
  function VehicleIDs(counter: int, n: nat): (ids: seq<int>)
    decreases n
  {
    if n == 0 then [] else [Arith.NextID(counter)] + VehicleIDs(Arith.NextID(counter), n - 1)
  }

  /** Successive IDs are strictly increasing and start just after the
      counter, so no two vehicles share one. */
  lemma {:induction false} VehicleIDsIncrease(counter: int, n: nat)
    ensures |VehicleIDs(counter, n)| == n
    ensures forall i :: 0 <= i < n ==> VehicleIDs(counter, n)[i] == counter + 1 + i
    ensures forall i, j :: 0 <= i < j < n ==> VehicleIDs(counter, n)[i] < VehicleIDs(counter, n)[j]
    decreases n
  {
    if n > 0 {
      VehicleIDsIncrease(counter + 1, n - 1);
    }
  }

  /** `1 + rand.IntN(2)`, with `draw` the value of `rand.IntN(2)`. */
  function RandomVelocity(draw: int): (v: int)
    requires 0 <= draw < 2
    ensures v in {1, 2}
    ensures v - 1 == draw
  {
    1 + draw
  }

  /** `1 + rand.IntN(3)`. */
  function RandomAcceleration(draw: int): (a: int)
    requires 0 <= draw < 3
    ensures a in {1, 2, 3}
    ensures a - 1 == draw
  {
    1 + draw
  }

  /** `rand.Float64() / 2`, with `draw` in `[0, 1)`. */
  function RandomSlowingProbability(draw: real): (p: real)
    requires 0.0 <= draw < 1.0
    ensures 0.0 <= p < 0.5
  {
    draw / 2.0
  }

  /** A vehicle as the generator builds it: the next ID, the random speed,
      acceleration and slowing probability, and one cell of length. The
      draws always satisfy the vehicle's constructor. */
  function GenerateVehicle(counter: int, velocityDraw: int, accelerationDraw: int, slowingDraw: real, closed: bool, tag: real): (r: (Vehicle.Vehicle, int))
    requires 0 <= velocityDraw < 2 && 0 <= accelerationDraw < 3 && 0.0 <= slowingDraw < 1.0
    ensures var (v, next) := r;
      && next == counter + 1 && v.index == next
      && v.velocity in {1, 2} && v.acceleration in {1, 2, 3} && v.occupy == 1.0 && 0.0 <= v.slowingProb < 0.5
      && v.flag == closed && v.state == 0 && v.trace == map[]
  {
    var id := Arith.NextID(counter);
    var built := Vehicle.NewVehicle(id, RandomVelocity(velocityDraw), RandomAcceleration(accelerationDraw), 1.0,
                                    RandomSlowingProbability(slowingDraw), closed, tag);
    (built.value, id)
  }

  // ---------------------------------------------------------------------
  // Trace nodes

  /** Whether a node with this ID is listed. */
  predicate Listed(nodes: seq<Vehicle.Node>, id: int) {
    exists i :: 0 <= i < |nodes| && Vehicle.NodeID(nodes[i]) == id
  }

  /** No two listed nodes share an ID. */
  predicate DistinctIDs(nodes: seq<Vehicle.Node>) {
    forall i, j :: 0 <= i < j < |nodes| ==> Vehicle.NodeID(nodes[i]) != Vehicle.NodeID(nodes[j])
  }

  /** Scans the list for the node's ID and appends the node only when the
      ID is missing. */
  method AddNodeToTraceNodesIfMissing(nodes: seq<Vehicle.Node>, node: Vehicle.Node) returns (r: seq<Vehicle.Node>)
    ensures Listed(nodes, Vehicle.NodeID(node)) ==> r == nodes
    ensures !Listed(nodes, Vehicle.NodeID(node)) ==> r == nodes + [node]
    ensures r == WithNode(nodes, node)
  {
    var i := 0;
    while i < |nodes|
      invariant 0 <= i <= |nodes|
      invariant !Listed(nodes[..i], Vehicle.NodeID(node))
    {
      if Vehicle.NodeID(nodes[i]) == Vehicle.NodeID(node) {
        return nodes;
      }
      assert forall k :: 0 <= k < i + 1 ==> nodes[..i + 1][k] == nodes[k];
      i := i + 1;
    }
    assert nodes[..i] == nodes;
    return nodes + [node];
  }

  /** What `AddNodeToTraceNodesIfMissing` returns, as a value. */
  function WithNode(nodes: seq<Vehicle.Node>, node: Vehicle.Node): (r: seq<Vehicle.Node>)
    ensures Listed(r, Vehicle.NodeID(node))
    ensures |nodes| <= |r| <= |nodes| + 1 && r[..|nodes|] == nodes
  {
    if Listed(nodes, Vehicle.NodeID(node)) then nodes
    else
      assert Vehicle.NodeID((nodes + [node])[|nodes|]) == Vehicle.NodeID(node);
      nodes + [node]
  }

  /** Adding a node twice is adding it once. */
  lemma WithNodeIdempotent(nodes: seq<Vehicle.Node>, node: Vehicle.Node)
    ensures WithNode(WithNode(nodes, node), node) == WithNode(nodes, node)
  {
  }

  /** The list never holds two nodes with one ID. */
  lemma WithNodeKeepsDistinct(nodes: seq<Vehicle.Node>, node: Vehicle.Node)
    requires DistinctIDs(nodes)
    ensures DistinctIDs(WithNode(nodes, node))
  {
  }

  /** Adding the origin and then the destination of a trip keeps every
      node listed before, lists both ends, and adds at most two nodes. */
  lemma AddTripEnds(nodes: seq<Vehicle.Node>, origin: Vehicle.Node, destination: Vehicle.Node)
    ensures var r := WithNode(WithNode(nodes, origin), destination);
      && r[..|nodes|] == nodes && |r| <= |nodes| + 2
      && Listed(r, Vehicle.NodeID(origin)) && Listed(r, Vehicle.NodeID(destination))
  {
    var once := WithNode(nodes, origin);
    var r := WithNode(once, destination);
    var i :| 0 <= i < |once| && Vehicle.NodeID(once[i]) == Vehicle.NodeID(origin);
    assert r[i] == once[i];
    assert r[..|nodes|] == once[..|nodes|];
  }
}
