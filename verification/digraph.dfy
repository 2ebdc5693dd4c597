/** The directed graph the simulator builds its road network in (gonum's
    `simple.DirectedGraph`), reduced to node and edge sets over node IDs.
    The library is not part of this model; its two mutators are modelled
    after their documented behaviour: adding a node whose ID is taken
    panics, and setting an edge panics on a self edge and otherwise adds
    any missing endpoint. */
module Digraph {
  import opened Wrappers

  datatype Graph = Graph(nodes: set<int>, edges: set<(int, int)>)

  datatype GraphError = NodeIDCollision(id: int) | SelfEdge(id: int)

  /** Every edge joins two nodes of the graph. */
  predicate Closed(g: Graph) {
    forall e :: e in g.edges ==> e.0 in g.nodes && e.1 in g.nodes
  }

  function Empty(): (g: Graph)
    ensures Closed(g) && g.nodes == {} && g.edges == {}
  {
    Graph({}, {})
  }

  function AddNode(g: Graph, id: int): (r: Result<Graph, GraphError>)
    ensures r.Failure? <==> id in g.nodes
    ensures r.Success? ==> r.value.nodes == g.nodes + {id} && r.value.edges == g.edges
    ensures r.Success? && Closed(g) ==> Closed(r.value)
  {
    if id in g.nodes then Failure(NodeIDCollision(id)) else Success(Graph(g.nodes + {id}, g.edges))
  }

  function SetEdge(g: Graph, f: int, t: int): (r: Result<Graph, GraphError>)
    ensures r.Failure? <==> f == t
    ensures r.Success? ==> r.value.nodes == g.nodes + {f, t} && r.value.edges == g.edges + {(f, t)}
    ensures r.Success? && Closed(g) ==> Closed(r.value)
  {
    if f == t then Failure(SelfEdge(f)) else Success(Graph(g.nodes + {f, t}, g.edges + {(f, t)}))
  }

  /** Setting an edge that is already there, between nodes already there,
      changes nothing. */
  lemma SetEdgeIdempotent(g: Graph, f: int, t: int)
    requires f != t && f in g.nodes && t in g.nodes && (f, t) in g.edges
    ensures SetEdge(g, f, t) == Success(g)
  {
    assert g.nodes + {f, t} == g.nodes;
    assert g.edges + {(f, t)} == g.edges;
  }

  /** The successors of node `n`. */
  function Successors(g: Graph, n: int): set<int> {
    set e | e in g.edges && e.0 == n :: e.1
  }

  /** The edges of the walk `ids[0] -> ids[1] -> ... -> ids[n-1]`. */
  function PathEdges(ids: seq<int>): set<(int, int)> {
    set i | 0 <= i < |ids| - 1 :: Step(ids, i)
  }

  /** The edge leaving the `i`-th node of a walk. */
  function Step(ids: seq<int>, i: int): (int, int)
    requires 0 <= i < |ids| - 1
  {
    (ids[i], ids[i + 1])
  }

  /** The nodes a walk touches once it has at least one edge. */
  function PathNodes(ids: seq<int>): set<int> {
    if |ids| < 2 then {} else set i | 0 <= i < |ids| :: ids[i]
  }

  predicate NoSelfStep(ids: seq<int>) {
    forall i :: 0 <= i < |ids| - 1 ==> ids[i] != ids[i + 1]
  }

  /** Sets the edges of a walk one after the other, stopping at the first
      self edge. */
  function AddPath(g: Graph, ids: seq<int>): (r: Result<Graph, GraphError>)
    ensures r.Success? <==> NoSelfStep(ids)
    ensures r.Success? ==> r.value.edges == g.edges + PathEdges(ids)
    ensures r.Success? ==> r.value.nodes == g.nodes + PathNodes(ids)
    ensures r.Success? && Closed(g) ==> Closed(r.value)
    decreases |ids|
  {
    if |ids| < 2 then Success(g)
    else
      var g1 :- SetEdge(g, ids[0], ids[1]);
      var r := AddPath(g1, ids[1..]);
      assert r.Success? ==> r.value.edges == g.edges + PathEdges(ids) by {
        if r.Success? {
          PathEdgesCons(ids);
        }
      }
      assert r.Success? ==> r.value.nodes == g.nodes + PathNodes(ids) by {
        if r.Success? {
          PathNodesCons(ids);
        }
      }
      r
  }

  lemma PathEdgesCons(ids: seq<int>)
    requires |ids| >= 2
    ensures PathEdges(ids) == {(ids[0], ids[1])} + PathEdges(ids[1..])
  {
    assert (ids[0], ids[1]) == Step(ids, 0);
    var t := ids[1..];
    forall e | e in PathEdges(ids)
      ensures e in {(ids[0], ids[1])} + PathEdges(t)
    {
      var i :| 0 <= i < |ids| - 1 && e == Step(ids, i);
      if i > 0 {
        assert e == Step(t, i - 1);
      }
    }
    forall e | e in PathEdges(t)
      ensures e in PathEdges(ids)
    {
      var i :| 0 <= i < |t| - 1 && e == Step(t, i);
      assert e == Step(ids, i + 1);
    }
  }

  lemma PathNodesCons(ids: seq<int>)
    requires |ids| >= 2
    ensures PathNodes(ids) == {ids[0], ids[1]} + PathNodes(ids[1..])
  {
    var t := ids[1..];
    forall n | n in PathNodes(ids)
      ensures n in {ids[0], ids[1]} + PathNodes(t)
    {
      var i :| 0 <= i < |ids| && n == ids[i];
      if i > 1 {
        assert n == t[i - 1];
      }
    }
    forall n | n in PathNodes(t)
      ensures n in PathNodes(ids)
    {
      var i :| 0 <= i < |t| && n == t[i];
      assert n == ids[i + 1];
    }
  }
}
