/** The rotation system that replaces the angle code of `getNextCCWEdge`.
    Around every vertex the neighbours are listed once, in the cyclic order in
    which the smallest-angle comparison visits them; for the graph at hand the
    order is cut down to the neighbours the vertex still has, so the same
    rotation serves every graph obtained by removing nodes. */
module Rotation {
  import opened Graphs

  type RotationSystem = map<Vertex, seq<Vertex>>

  /** The node `getNextCCWEdge` turns at: the end of `e` that is not `from`
      (the source when `from` is the target, the target otherwise). */
  function Far(e: Edge, from: Vertex): Vertex
  {
    if from == e.tgt then e.src else e.tgt
  }

  /** The cyclic order around `t`, restricted to the neighbours `t` has in `g`. */
  function Ring(g: Graph, rot: RotationSystem, t: Vertex): (r: seq<Vertex>)
    ensures forall u :: u in r ==> u in Neighbors(g, t)
  {
    RingFrom(g, if t in rot then rot[t] else [], t)
  }

  function RingFrom(g: Graph, order: seq<Vertex>, t: Vertex): (r: seq<Vertex>)
    ensures forall u :: u in r ==> u in order && u in Neighbors(g, t)
  {
    if order == [] then []
    else (if order[0] in Neighbors(g, t) then [order[0]] else []) + RingFrom(g, order[1..], t)
  }

  /** `getNextCCWEdge(e, from)`: at the far end `t` of `e`, the edge to the
      neighbour that follows `e`'s other end in the cyclic order around `t`.
      `None` stands for the `null` the source returns when no edge qualifies
      (here: `e`'s other end is missing from the order around `t`). */
  function NextCCW(g: Graph, rot: RotationSystem, e: Edge, from: Vertex): (r: Option<Edge>)
    ensures r.Some? ==> r.value in g.edges && r.value.Touches(Far(e, from))
  {
    var t := Far(e, from);
    var ring := Ring(g, rot, t);
    var back := e.Opposite(t);
    if back !in ring then None
    else
      var next := ring[(IndexOf(ring, back) + 1) % |ring|];
      assert next in ring;
      FindEdge(g.edges, t, next)
  }

  /** The successor a face walk uses: which edge comes after `e` when `e` is
      entered from `from`. */
  type Successor = (Edge, Vertex) -> Option<Edge>

  /** A successor that only ever answers edges of `g`. */
  ghost predicate StaysIn(g: Graph, next: Successor)
  {
    forall e, from :: next(e, from).Some? ==> next(e, from).value in g.edges
  }

  /** `getNextCCWEdge` on graph `g` with rotation `rot`, as a successor. */
  function RotationSuccessor(g: Graph, rot: RotationSystem): (next: Successor)
    ensures StaysIn(g, next)
  {
    (e, from) => NextCCW(g, rot, e, from)
  }
}
