/** The abstract graph the shift-method core works on: integer vertex ids in
    place of yFiles node objects, edges as (source, target) pairs, and node
    centres as points in screen coordinates (x grows to the right, y grows
    downward). */
module Graphs {

  datatype Option<+T> = None | Some(value: T)

  type Vertex = int

  datatype Point = Point(x: real, y: real)

  /** Node centres. A node of a graph always has a centre; `Center` answers the
      origin for an id that is not a node, which the model never asks for. */
  type Layout = map<Vertex, Point>

  function Center(pos: Layout, v: Vertex): Point
  {
    if v in pos then pos[v] else Point(0.0, 0.0)
  }

  /** An edge keeps the orientation it was created with; faces and walks use it
      in both directions. */
  datatype Edge = Edge(src: Vertex, tgt: Vertex) {
    predicate Touches(v: Vertex) { src == v || tgt == v }

    /** The other end seen from `v`, as yFiles' `neighbors` and the face walk's
        step to the next node compute it. */
    function Opposite(v: Vertex): (u: Vertex)
      ensures Touches(v) ==> Touches(u)
      ensures Touches(v) && src != tgt ==> u != v
    {
      if src == v then tgt else src
    }
  }

  datatype Graph = Graph(nodes: seq<Vertex>, edges: seq<Edge>)

  predicate Connects(e: Edge, a: Vertex, b: Vertex)
  {
    (e.src == a && e.tgt == b) || (e.src == b && e.tgt == a)
  }

  /** First position of `x` in `s` (JavaScript's `findIndex` on identity). */
  function IndexOf<T(==)>(s: seq<T>, x: T): (i: nat)
    requires x in s
    ensures i < |s| && s[i] == x && x !in s[..i]
  {
    if s[0] == x then 0 else
      var j := IndexOf(s[1..], x);
      assert s[..j + 1] == [s[0]] + s[1..][..j];
      j + 1
  }

  predicate Distinct<T(==)>(s: seq<T>)
  {
    forall i, j :: 0 <= i < j < |s| ==> s[i] != s[j]
  }

  /** The edges of `es` incident to `v`, in edge-list order. */
  function TouchingIn(es: seq<Edge>, v: Vertex): (r: seq<Edge>)
    ensures |r| <= |es|
    ensures forall e :: e in r <==> e in es && e.Touches(v)
  {
    if es == [] then []
    else (if es[0].Touches(v) then [es[0]] else []) + TouchingIn(es[1..], v)
  }

  /** yFiles' `edgesAt`: modelled as the incident edges in the order of the
      graph's edge list. */
  function EdgesAt(g: Graph, v: Vertex): seq<Edge>
  {
    TouchingIn(g.edges, v)
  }

  /** yFiles' `neighbors`: the opposite end of every incident edge. */
  function Neighbors(g: Graph, v: Vertex): (r: seq<Vertex>)
    ensures |r| == |EdgesAt(g, v)|
    ensures forall u :: u in r <==> Edge(v, u) in g.edges || Edge(u, v) in g.edges
  {
    var es := EdgesAt(g, v);
    var r := seq(|es|, i requires 0 <= i < |es| => es[i].Opposite(v));
    forall u ensures u in r <==> Edge(v, u) in g.edges || Edge(u, v) in g.edges {
      if Edge(v, u) in g.edges {
        assert Edge(v, u) in es;
        var i := IndexOf(es, Edge(v, u));
        assert r[i] == u;
      } else if Edge(u, v) in g.edges {
        assert Edge(u, v) in es;
        var i := IndexOf(es, Edge(u, v));
        assert r[i] == u;
      }
      if u in r {
        var i :| 0 <= i < |r| && r[i] == u;
        assert es[i] in es;
      }
    }
    r
  }

  /** The first edge joining `a` and `b` in either orientation
      (`graph.edges.find(...)`); `None` stands for `undefined`. */
  function FindEdge(es: seq<Edge>, a: Vertex, b: Vertex): (r: Option<Edge>)
    ensures r.Some? ==> r.value in es && Connects(r.value, a, b)
    ensures r.None? <==> forall e :: e in es ==> !Connects(e, a, b)
  {
    if es == [] then None
    else if Connects(es[0], a, b) then Some(es[0])
    else FindEdge(es[1..], a, b)
  }

  /** `nodes` without `v`, order kept. */
  function Without(nodes: seq<Vertex>, v: Vertex): (r: seq<Vertex>)
    ensures forall u :: u in r <==> u in nodes && u != v
    ensures |r| <= |nodes|
  {
    if nodes == [] then []
    else (if nodes[0] == v then [] else [nodes[0]]) + Without(nodes[1..], v)
  }

  /** The edges of `es` not incident to `v`, order kept. */
  function Avoiding(es: seq<Edge>, v: Vertex): (r: seq<Edge>)
    ensures forall e :: e in r <==> e in es && !e.Touches(v)
  {
    if es == [] then []
    else (if es[0].Touches(v) then [] else [es[0]]) + Avoiding(es[1..], v)
  }

  /** `graph.remove(node)`: the node goes together with its incident edges. */
  function RemoveNode(g: Graph, v: Vertex): Graph
  {
    Graph(Without(g.nodes, v), Avoiding(g.edges, v))
  }

  /** The nodes of `nodes` inside `keep`, order kept. */
  function Keep(nodes: seq<Vertex>, keep: set<Vertex>): (r: seq<Vertex>)
    ensures forall u :: u in r <==> u in nodes && u in keep
  {
    if nodes == [] then []
    else (if nodes[0] in keep then [nodes[0]] else []) + Keep(nodes[1..], keep)
  }

  /** The edges of `es` with both ends inside `keep`, order kept. */
  function KeepEdges(es: seq<Edge>, keep: set<Vertex>): (r: seq<Edge>)
    ensures forall e :: e in r <==> e in es && e.src in keep && e.tgt in keep
  {
    if es == [] then []
    else (if es[0].src in keep && es[0].tgt in keep then [es[0]] else []) + KeepEdges(es[1..], keep)
  }

  /** The subgraph of `orig` induced by `keep`: what is left of the working
      graph once every node outside `keep` has been removed. */
  function InducedBy(orig: Graph, keep: set<Vertex>): Graph
  {
    Graph(Keep(orig.nodes, keep), KeepEdges(orig.edges, keep))
  }

  lemma {:induction false} WithoutKeep(nodes: seq<Vertex>, keep: set<Vertex>, v: Vertex)
    ensures Without(Keep(nodes, keep), v) == Keep(nodes, keep - {v})
  {
    if nodes != [] {
      WithoutKeep(nodes[1..], keep, v);
      var rest := Keep(nodes[1..], keep);
      if nodes[0] in keep {
        assert Keep(nodes, keep) == [nodes[0]] + rest;
        assert ([nodes[0]] + rest)[1..] == rest;
      } else {
        assert Keep(nodes, keep) == rest;
      }
    }
  }

  lemma {:induction false} AvoidingKeepEdges(es: seq<Edge>, keep: set<Vertex>, v: Vertex)
    ensures Avoiding(KeepEdges(es, keep), v) == KeepEdges(es, keep - {v})
  {
    if es != [] {
      AvoidingKeepEdges(es[1..], keep, v);
      var rest := KeepEdges(es[1..], keep);
      if es[0].src in keep && es[0].tgt in keep {
        assert KeepEdges(es, keep) == [es[0]] + rest;
        assert ([es[0]] + rest)[1..] == rest;
      } else {
        assert KeepEdges(es, keep) == rest;
      }
    }
  }

  /** Removing a node from an induced subgraph gives the subgraph induced by
      one node fewer. */
  lemma RemoveFromInduced(orig: Graph, keep: set<Vertex>, v: Vertex)
    ensures RemoveNode(InducedBy(orig, keep), v) == InducedBy(orig, keep - {v})
  {
    WithoutKeep(orig.nodes, keep, v);
    AvoidingKeepEdges(orig.edges, keep, v);
  }

  lemma {:induction false} TouchingKeptCount(es: seq<Edge>, keep: set<Vertex>, v: Vertex)
    requires v in keep
    ensures |TouchingIn(KeepEdges(es, keep), v)| <= |TouchingIn(es, v)|
    ensures |TouchingIn(KeepEdges(es, keep), v)| == |TouchingIn(es, v)|
            <==> forall e :: e in es && e.Touches(v) ==> e.Opposite(v) in keep
  {
    if es != [] {
      TouchingKeptCount(es[1..], keep, v);
      assert KeepEdges(es, keep) == (if es[0].src in keep && es[0].tgt in keep then [es[0]] else []) + KeepEdges(es[1..], keep);
      var rest := KeepEdges(es[1..], keep);
      if es[0].src in keep && es[0].tgt in keep {
        assert KeepEdges(es, keep) == [es[0]] + rest;
        assert KeepEdges(es, keep)[1..] == rest;
      } else {
        assert KeepEdges(es, keep) == rest;
      }
    }
  }

  /** `checkNeighborhood`: in the working graph (the original restricted to the
      nodes not yet removed) a node's degree differs from its original degree
      exactly when one of its original neighbours has been removed. */
  lemma LostNeighbourIff(orig: Graph, keep: set<Vertex>, v: Vertex)
    requires v in keep
    ensures |Neighbors(InducedBy(orig, keep), v)| != |Neighbors(orig, v)|
            <==> exists u :: u in Neighbors(orig, v) && u !in keep
  {
    TouchingKeptCount(orig.edges, keep, v);
    if exists u :: u in Neighbors(orig, v) && u !in keep {
      var u :| u in Neighbors(orig, v) && u !in keep;
      var e := if Edge(v, u) in orig.edges then Edge(v, u) else Edge(u, v);
      assert e in orig.edges && e.Touches(v) && e.Opposite(v) == u;
    } else {
      forall e | e in orig.edges && e.Touches(v) ensures e.Opposite(v) in keep {
        assert e == Edge(v, e.Opposite(v)) || e == Edge(e.Opposite(v), v);
      }
    }
  }

  /** Every edge joins two nodes of the graph. */
  predicate WellFormed(g: Graph)
  {
    forall e :: e in g.edges ==> e.src in g.nodes && e.tgt in g.nodes
  }

  lemma {:induction false} KeepAll(nodes: seq<Vertex>, keep: set<Vertex>)
    requires forall i :: 0 <= i < |nodes| ==> nodes[i] in keep
    ensures Keep(nodes, keep) == nodes
  {
    if nodes != [] {
      KeepAll(nodes[1..], keep);
      assert Keep(nodes, keep) == [nodes[0]] + Keep(nodes[1..], keep);
      assert nodes == [nodes[0]] + nodes[1..];
    }
  }

  lemma {:induction false} KeepEdgesAll(es: seq<Edge>, keep: set<Vertex>)
    requires forall i :: 0 <= i < |es| ==> es[i].src in keep && es[i].tgt in keep
    ensures KeepEdges(es, keep) == es
  {
    if es != [] {
      KeepEdgesAll(es[1..], keep);
      assert KeepEdges(es, keep) == [es[0]] + KeepEdges(es[1..], keep);
      assert es == [es[0]] + es[1..];
    }
  }

  /** Keeping every node of a well-formed graph keeps the whole graph. */
  lemma InducedByAll(g: Graph)
    requires WellFormed(g)
    ensures InducedBy(g, set v | v in g.nodes) == g
  {
    KeepAll(g.nodes, set v | v in g.nodes);
    KeepEdgesAll(g.edges, set v | v in g.nodes);
  }

  lemma {:induction false} KeepDistinct(nodes: seq<Vertex>, keep: set<Vertex>)
    requires Distinct(nodes)
    ensures Distinct(Keep(nodes, keep))
  {
    if nodes != [] {
      KeepDistinct(nodes[1..], keep);
      assert nodes[0] !in nodes[1..];
    }
  }

  lemma {:induction false} KeepIgnoresOthers(nodes: seq<Vertex>, keep: set<Vertex>, v: Vertex)
    requires v !in nodes
    ensures Keep(nodes, keep - {v}) == Keep(nodes, keep)
  {
    if nodes != [] {
      KeepIgnoresOthers(nodes[1..], keep, v);
    }
  }

  /** Dropping one kept node of a list without repetitions shortens what is
      kept by exactly one. */
  lemma {:induction false} KeepDrop(nodes: seq<Vertex>, keep: set<Vertex>, v: Vertex)
    requires Distinct(nodes) && v in nodes && v in keep
    ensures |Keep(nodes, keep - {v})| + 1 == |Keep(nodes, keep)|
  {
    if nodes[0] == v {
      assert v !in nodes[1..];
      KeepIgnoresOthers(nodes[1..], keep, v);
    } else {
      KeepDrop(nodes[1..], keep, v);
    }
  }
}
