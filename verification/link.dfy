/** A link: a chain of at least two ordinary cells between two nodes of
    the road network. Every cell gets its ID from one process-wide counter
    that starts at 1000000 and is advanced before each use; the counter is
    threaded through the model explicitly. */
module Link {
  import opened Wrappers
  import Arith
  import CommonCell
  import Digraph

  /** The counter's value before the first cell ID is handed out. */
  const InitialCellIndex: int := 1000000

  datatype Link = Link(id: int, cells: seq<CommonCell.Cell>, numCells: int, speedLimit: int, capacity: real)

  datatype LinkError = TooFewCells

  function CellIDs(cells: seq<CommonCell.Cell>): (ids: seq<int>)
    ensures |ids| == |cells|
    ensures forall i :: 0 <= i < |cells| ==> ids[i] == cells[i].id
  {
    seq(|cells|, i requires 0 <= i < |cells| => cells[i].id)
  }

  /** Builds the link's cells, each with the next ID from the counter. */
  method NewLink(id: int, numCells: int, speed: int, capacity: real, counter: int) returns (r: Result<(Link, int), LinkError>)
    ensures r.Failure? <==> numCells < 2
    ensures r.Success? ==> var (l, after) := r.value;
      && |l.cells| == numCells == l.numCells
      && l.id == id && l.speedLimit == speed && l.capacity == capacity
      && after == counter + numCells
      && (forall i :: 0 <= i < numCells ==> l.cells[i] == CommonCell.NewCommonCell(l.cells[i].id, speed, capacity))
      && (forall i :: 0 <= i < numCells ==> counter < l.cells[i].id <= after)
      && (forall i, j :: 0 <= i < j < numCells ==> l.cells[i].id < l.cells[j].id)
  {
    if numCells < 2 {
      return Failure(TooFewCells);
    }
    var cells: seq<CommonCell.Cell> := [];
    var c := counter;
    var i := 0;
    while i < numCells
      invariant 0 <= i <= numCells && |cells| == i && c == counter + i
      invariant forall k :: 0 <= k < i ==> cells[k] == CommonCell.NewCommonCell(cells[k].id, speed, capacity)
      invariant forall k :: 0 <= k < i ==> counter < cells[k].id <= c
      invariant forall k, m :: 0 <= k < m < i ==> cells[k].id < cells[m].id
    {
      c := Arith.NextID(c);
      cells := cells + [CommonCell.NewCommonCell(c, speed, capacity)];
      i := i + 1;
    }
    return Success((Link(id, cells, numCells, speed, capacity), c));
  }

  /** A copy of the cells, in order. */
  function Flat(l: Link): seq<CommonCell.Cell> {
    l.cells
  }

  function Length(l: Link): int {
    l.numCells
  }

  /** A link as built holds exactly `Length` cells. */
  predicate WellFormed(l: Link) {
    |l.cells| == l.numCells && l.numCells >= 2
  }

  lemma FlatLength(l: Link)
    requires WellFormed(l)
    ensures |Flat(l)| == Length(l)
    ensures forall i :: 0 <= i < Length(l) ==> Flat(l)[i] == l.cells[i]
  {
  }

  function GetCell(l: Link, index: int): (r: Option<CommonCell.Cell>)
    ensures r.Some? <==> 0 <= index < |l.cells|
    ensures r.Some? ==> r.value == l.cells[index] && r.value in Flat(l)
  {
    if index < 0 || index >= |l.cells| then None else Some(l.cells[index])
  }

  /** Adds the edges between consecutive cells of the link. */
  function AddToGraph(g: Digraph.Graph, l: Link): (r: Result<Digraph.Graph, Digraph.GraphError>)
    ensures r.Success? <==> Digraph.NoSelfStep(CellIDs(l.cells))
    ensures r.Success? ==> r.value.edges == g.edges + Digraph.PathEdges(CellIDs(l.cells))
  {
    Digraph.AddPath(g, CellIDs(l.cells))
  }

  /** A link whose cell IDs are increasing gets all its inner edges, and an
      edge joins two cells exactly when they are neighbours in the link. */
  lemma AddToGraphChain(g: Digraph.Graph, l: Link, i: int, j: int)
    requires forall a, b :: 0 <= a < b < |l.cells| ==> l.cells[a].id < l.cells[b].id
    requires 0 <= i < |l.cells| && 0 <= j < |l.cells|
    ensures AddToGraph(g, l).Success?
    ensures (l.cells[i].id, l.cells[j].id) in Digraph.PathEdges(CellIDs(l.cells)) <==> j == i + 1
  {
    var ids := CellIDs(l.cells);
    if j == i + 1 {
      assert (ids[i], ids[j]) == Digraph.Step(ids, i);
    }
    if (ids[i], ids[j]) in Digraph.PathEdges(ids) {
      var k :| 0 <= k < |ids| - 1 && (ids[i], ids[j]) == Digraph.Step(ids, k);
      assert ids[k] == ids[i] && ids[k + 1] == ids[j];
    }
  }

  /** Joins `node` to the first cell of the link. */
  function AddFromNode(g: Digraph.Graph, l: Link, node: int): (r: Result<Digraph.Graph, Digraph.GraphError>)
    requires WellFormed(l)
    ensures r.Success? <==> node != l.cells[0].id
    ensures r.Success? ==> r.value.edges == g.edges + {(node, l.cells[0].id)}
  {
    Digraph.SetEdge(g, node, l.cells[0].id)
  }

  /** Joins the last cell of the link to `node`. */
  function AddToNode(g: Digraph.Graph, l: Link, node: int): (r: Result<Digraph.Graph, Digraph.GraphError>)
    requires WellFormed(l)
    ensures r.Success? <==> node != l.cells[|l.cells| - 1].id
    ensures r.Success? ==> r.value.edges == g.edges + {(l.cells[|l.cells| - 1].id, node)}
  {
    Digraph.SetEdge(g, l.cells[|l.cells| - 1].id, node)
  }
}
