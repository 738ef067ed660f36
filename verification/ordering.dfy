/** The canonical ordering (`canonicalOrdering` and its step `Ordering`):
    the two lowest hull nodes `u1`, `u2` are fixed as anchors, then nodes are
    peeled off the outer face one per step, each prepended to the ordering
    and labelled with its rank. */
module Ordering {
  import opened Graphs
  import opened Rotation
  import opened Faces
  import opened OuterFace
  import opened Boundary
  import opened Sorting

  // ---------------------------------------------------------------------
  // Anchors and start point
  // ---------------------------------------------------------------------

  /** `Math.ceil(r)`. */
  function Ceil(r: real): (c: int)
    ensures r <= c as real < r + 1.0
  {
    -((-r).Floor)
  }

  /** `Math.ceil(v / 30) * 30`: the grid line at or after `v`. */
  function SnapUp(v: real): (s: real)
    ensures v <= s < v + 30.0
    ensures s == 30.0 * (Ceil(v / 30.0) as real)
  {
    30.0 * (Ceil(v / 30.0) as real)
  }

  /** Index of the first node (in node order) whose centre has height `y`,
      skipping `except`. */
  function FirstAtHeight(nodes: seq<Vertex>, pos: Layout, y: real, except: Option<Vertex>): (r: Option<nat>)
    ensures r.Some? ==> r.value < |nodes| && Center(pos, nodes[r.value]).y == y && except != Some(nodes[r.value])
    ensures r.Some? ==> forall i :: 0 <= i < r.value ==> Center(pos, nodes[i]).y != y || except == Some(nodes[i])
    ensures r.None? ==> forall i :: 0 <= i < |nodes| ==> Center(pos, nodes[i]).y != y || except == Some(nodes[i])
  {
    if nodes == [] then None
    else if Center(pos, nodes[0]).y == y && except != Some(nodes[0]) then Some(0)
    else match FirstAtHeight(nodes[1..], pos, y, except)
      case None => None
      case Some(i) => Some(i + 1)
  }

  function Lower(p: Point): real { -p.y }

  /** The hull points sorted by descending y (lowest on screen first). */
  function ByDescendingY(hull: seq<Point>): seq<Point>
  {
    SortBy(hull, Lower)
  }

  datatype Anchors = Anchors(u1: Vertex, u2: Vertex, start: Point)

  /** The anchors of `canonicalOrdering`: `u1` is the first node at the
      height of the lowest hull point, `u2` the first other node at the
      height of the next one; the start point is the grid point at or after
      the left one of those two hull points. `None` when the hull has fewer
      than two points or no such node exists (the source throws). */
  function FindAnchors(g: Graph, pos: Layout, hull: seq<Point>): (r: Option<Anchors>)
    ensures r.Some? ==> r.value.u1 != r.value.u2 && r.value.u1 in g.nodes && r.value.u2 in g.nodes
  {
    var sorted := ByDescendingY(hull);
    if |sorted| < 2 then None
    else
      var lowest1, lowest2 := sorted[0], sorted[1];
      match FirstAtHeight(g.nodes, pos, lowest1.y, None)
      case None => None
      case Some(i1) =>
        match FirstAtHeight(g.nodes, pos, lowest2.y, Some(g.nodes[i1]))
        case None => None
        case Some(i2) =>
          var startPoint1 := if lowest2.x < lowest1.x then lowest2 else lowest1;
          Some(Anchors(g.nodes[i1], g.nodes[i2], Point(SnapUp(startPoint1.x), SnapUp(startPoint1.y))))
  }

  /** `u1` is at the height of the lowest hull point, and at most one hull
      point lies lower than `u2`. */
  lemma AnchorsAreLowest(g: Graph, pos: Layout, hull: seq<Point>)
    requires FindAnchors(g, pos, hull).Some?
    ensures var a := FindAnchors(g, pos, hull).value;
            forall p :: p in hull ==> p.y <= Center(pos, a.u1).y
    ensures var a := FindAnchors(g, pos, hull).value;
            forall p, q :: p in hull && q in hull && p.y > Center(pos, a.u2).y && q.y > Center(pos, a.u2).y ==> p == q
  {
    var sorted := ByDescendingY(hull);
    SortBySorted(hull, Lower);
    var a := FindAnchors(g, pos, hull).value;
    assert Center(pos, a.u1).y == sorted[0].y && Center(pos, a.u2).y == sorted[1].y;
    forall p | p in hull ensures p.y <= sorted[0].y && (p.y > sorted[1].y ==> p == sorted[0]) {
      assert p in multiset(sorted);
      var i :| 0 <= i < |sorted| && sorted[i] == p;
      if i > 0 {
        assert Lower(sorted[0]) <= Lower(sorted[i]);
        if i > 1 {
          assert Lower(sorted[1]) <= Lower(sorted[i]);
        }
      }
    }
  }

  /** The start point is the grid point at or just after the left one of
      the two lowest hull points (the first on a tie). */
  lemma StartPointSnaps(g: Graph, pos: Layout, hull: seq<Point>)
    requires FindAnchors(g, pos, hull).Some?
    ensures var s := FindAnchors(g, pos, hull).value.start;
            var sorted := ByDescendingY(hull);
            var p := if sorted[1].x < sorted[0].x then sorted[1] else sorted[0];
            && p.x <= s.x < p.x + 30.0 && p.y <= s.y < p.y + 30.0
            && p.x <= sorted[0].x && p.x <= sorted[1].x
  {
  }

  // ---------------------------------------------------------------------
  // Candidates and chords
  // ---------------------------------------------------------------------

  /** `outerNodes2` before sorting: the outer nodes other than the anchors. */
  function Others(nodes: seq<Vertex>, u1: Vertex, u2: Vertex): (r: seq<Vertex>)
    ensures forall v :: v in r <==> v in nodes && v != u1 && v != u2
  {
    if nodes == [] then []
    else (if nodes[0] != u1 && nodes[0] != u2 then [nodes[0]] else []) + Others(nodes[1..], u1, u2)
  }

  function Height(pos: Layout): Vertex -> real
  {
    v => Center(pos, v).y
  }

  /** `outerNodes2`: the outer nodes other than the anchors, by ascending y. */
  function Candidates(outer: seq<Vertex>, u1: Vertex, u2: Vertex, pos: Layout): (r: seq<Vertex>)
    ensures multiset(r) == multiset(Others(outer, u1, u2))
    ensures SortedBy(r, Height(pos))
  {
    SortBySorted(Others(outer, u1, u2), Height(pos));
    SortBy(Others(outer, u1, u2), Height(pos))
  }

  /** The edge `graph.edges.find` returns between `w` and its neighbour `o`
      is not on the outer face (`undefined` is on no face). */
  predicate ChordTo(g: Graph, outerEdges: seq<Edge>, w: Vertex, o: Vertex)
  {
    o in Neighbors(g, w) &&
    match FindEdge(g.edges, w, o)
    case None => true
    case Some(e) => e !in outerEdges
  }

  /** The flag `outerNodesChords[w]`: `w` has a chord to one of the outer
      nodes, scanned in order. */
  predicate HasChord(g: Graph, outerNodes: seq<Vertex>, outerEdges: seq<Edge>, w: Vertex)
    decreases |outerNodes|
  {
    outerNodes != [] &&
    (HasChord(g, outerNodes[..|outerNodes| - 1], outerEdges, w) || ChordTo(g, outerEdges, w, outerNodes[|outerNodes| - 1]))
  }

  /** The flag is set exactly when some outer node is joined by a chord. */
  lemma {:induction false} HasChordIff(g: Graph, outerNodes: seq<Vertex>, outerEdges: seq<Edge>, w: Vertex)
    ensures HasChord(g, outerNodes, outerEdges, w) <==>
            exists e :: 0 <= e < |outerNodes| && ChordTo(g, outerEdges, w, outerNodes[e])
  {
    if outerNodes != [] {
      var init := outerNodes[..|outerNodes| - 1];
      HasChordIff(g, init, outerEdges, w);
      assert forall e :: 0 <= e < |init| ==> init[e] == outerNodes[e];
    }
  }

  /** No two edges join the same pair of nodes. */
  predicate Simple(g: Graph)
  {
    forall i, j :: 0 <= i < j < |g.edges| ==> !Connects(g.edges[i], g.edges[j].src, g.edges[j].tgt)
  }

  /** Without parallel edges, the edge `find` returns is the only one. */
  lemma FindEdgeUnique(g: Graph, e: Edge, a: Vertex, b: Vertex)
    requires Simple(g) && e in g.edges && Connects(e, a, b)
    ensures FindEdge(g.edges, a, b) == Some(e)
  {
    var f := FindEdge(g.edges, a, b).value;
    var i := IndexOf(g.edges, f);
    var j := IndexOf(g.edges, e);
    assert Connects(g.edges[i], g.edges[j].src, g.edges[j].tgt);
    assert Connects(g.edges[j], g.edges[i].src, g.edges[i].tgt);
    assert i == j;
  }

  lemma ChordGivesEdge(g: Graph, outerNodes: seq<Vertex>, outerEdges: seq<Edge>, w: Vertex)
    requires HasChord(g, outerNodes, outerEdges, w)
    ensures exists e :: e in g.edges && e.Touches(w) && e.Opposite(w) in outerNodes && e !in outerEdges
  {
    HasChordIff(g, outerNodes, outerEdges, w);
    var k :| 0 <= k < |outerNodes| && ChordTo(g, outerEdges, w, outerNodes[k]);
    var o := outerNodes[k];
    assert Edge(w, o) in g.edges || Edge(o, w) in g.edges;
    var e := FindEdge(g.edges, w, o).value;
    assert e.Opposite(w) == o;
  }

  lemma EdgeGivesChord(g: Graph, outerNodes: seq<Vertex>, outerEdges: seq<Edge>, w: Vertex, e: Edge)
    requires Simple(g)
    requires e in g.edges && e.Touches(w) && e.Opposite(w) in outerNodes && e !in outerEdges
    ensures HasChord(g, outerNodes, outerEdges, w)
  {
    var o := e.Opposite(w);
    var k :| 0 <= k < |outerNodes| && outerNodes[k] == o;
    assert e == Edge(w, o) || e == Edge(o, w);
    assert o in Neighbors(g, w);
    FindEdgeUnique(g, e, w, o);
    assert ChordTo(g, outerEdges, w, outerNodes[k]);
    HasChordIff(g, outerNodes, outerEdges, w);
  }

  /** In a graph without parallel edges, the flag says exactly that some edge
      joins `w` to an outer node without lying on the outer face. */
  lemma ChordIff(g: Graph, outerNodes: seq<Vertex>, outerEdges: seq<Edge>, w: Vertex)
    requires Simple(g)
    ensures HasChord(g, outerNodes, outerEdges, w) <==>
      exists e :: e in g.edges && e.Touches(w) && e.Opposite(w) in outerNodes && e !in outerEdges
  {
    if HasChord(g, outerNodes, outerEdges, w) {
      ChordGivesEdge(g, outerNodes, outerEdges, w);
    }
    if exists e :: e in g.edges && e.Touches(w) && e.Opposite(w) in outerNodes && e !in outerEdges {
      var e :| e in g.edges && e.Touches(w) && e.Opposite(w) in outerNodes && e !in outerEdges;
      EdgeGivesChord(g, outerNodes, outerEdges, w, e);
    }
  }

  /** The double loop filling `outerNodesChords`. */
  method ChordFlags(g: Graph, cands: seq<Vertex>, outerNodes: seq<Vertex>, outerEdges: seq<Edge>)
    returns (flags: array<int>)
    ensures flags.Length == |cands|
    ensures forall w :: 0 <= w < |cands| ==> flags[w] == if HasChord(g, outerNodes, outerEdges, cands[w]) then 1 else 0
  {
    flags := new int[|cands|](_ => 0);
    for w := 0 to |cands|
      invariant forall v :: 0 <= v < w ==> flags[v] == if HasChord(g, outerNodes, outerEdges, cands[v]) then 1 else 0
      invariant forall v :: w <= v < |cands| ==> flags[v] == 0
    {
      MarkChords(g, cands, outerNodes, outerEdges, flags, w);
    }
  }

  /** The inner loop for candidate `w`: its flag goes to 1 at the first
      outer node it has a chord to. */
  method MarkChords(g: Graph, cands: seq<Vertex>, outerNodes: seq<Vertex>, outerEdges: seq<Edge>, flags: array<int>, w: nat)
    requires w < |cands| == flags.Length && flags[w] == 0
    modifies flags
    ensures flags[w] == if HasChord(g, outerNodes, outerEdges, cands[w]) then 1 else 0
    ensures forall v :: 0 <= v < flags.Length && v != w ==> flags[v] == old(flags[v])
  {
    var oNode := cands[w];
    for e := 0 to |outerNodes|
      invariant flags[w] == if HasChord(g, outerNodes[..e], outerEdges, oNode) then 1 else 0
      invariant forall v :: 0 <= v < flags.Length && v != w ==> flags[v] == old(flags[v])
    {
      assert outerNodes[..e + 1][..e] == outerNodes[..e];
      var oNode2 := outerNodes[e];
      if oNode2 in Neighbors(g, oNode) {
        var conEdge := FindEdge(g.edges, oNode, oNode2);
        if conEdge.None? || conEdge.value !in outerEdges {
          flags[w] := 1;
        }
      }
    }
    assert outerNodes[..|outerNodes|] == outerNodes;
  }

  // ---------------------------------------------------------------------
  // Choosing the next node
  // ---------------------------------------------------------------------

  datatype Choice = Chosen(v: Vertex) | NoneLegal | Threw

  /** The first two conditions of the selection: `checkNeighborhood` (or the
      very first step) and no chord. */
  predicate Eligible(orig: Graph, g: Graph, t: int, v: Vertex, flag: int)
  {
    (|Neighbors(orig, v)| != |Neighbors(g, v)| || |g.nodes| == t) && flag == 0
  }

  /** The selection loop from candidate `r` on: the first eligible candidate
      whose neighbours are consecutive on the boundary. */
  function FirstLegal(orig: Graph, g: Graph, next: Successor, pos: Layout, u1: Vertex, u2: Vertex, t: int, fuel: nat,
                      cands: seq<Vertex>, flags: seq<int>, r: nat): (c: Choice)
    requires |flags| == |cands| && r <= |cands|
    ensures c.Chosen? ==> exists i :: r <= i < |cands| && cands[i] == c.v && Eligible(orig, g, t, cands[i], flags[i])
                                     && ConsecutiveNeighbors(g, next, pos, cands[i], u1, u2, fuel) == Some(true)
    ensures c.NoneLegal? ==> forall i :: r <= i < |cands| && Eligible(orig, g, t, cands[i], flags[i]) ==>
                                     ConsecutiveNeighbors(g, next, pos, cands[i], u1, u2, fuel) == Some(false)
    decreases |cands| - r
  {
    if r == |cands| then NoneLegal
    else if Eligible(orig, g, t, cands[r], flags[r]) then
      match ConsecutiveNeighbors(g, next, pos, cands[r], u1, u2, fuel)
      case None => Threw
      case Some(ok) => if ok then Chosen(cands[r]) else FirstLegal(orig, g, next, pos, u1, u2, t, fuel, cands, flags, r + 1)
    else FirstLegal(orig, g, next, pos, u1, u2, t, fuel, cands, flags, r + 1)
  }

  /** A selection that does not throw within `f` rounds per walk makes the
      same choice for every larger bound. */
  lemma {:induction false} FirstLegalMono(orig: Graph, g: Graph, next: Successor, pos: Layout, u1: Vertex, u2: Vertex,
                                          t: int, f: nat, f': nat, cands: seq<Vertex>, flags: seq<int>, r: nat)
    requires |flags| == |cands| && r <= |cands| && f <= f'
    requires !FirstLegal(orig, g, next, pos, u1, u2, t, f, cands, flags, r).Threw?
    ensures FirstLegal(orig, g, next, pos, u1, u2, t, f', cands, flags, r)
         == FirstLegal(orig, g, next, pos, u1, u2, t, f, cands, flags, r)
    decreases |cands| - r
  {
    if r < |cands| {
      if Eligible(orig, g, t, cands[r], flags[r]) {
        ConsecutiveNeighborsMono(g, next, pos, cands[r], u1, u2, f, f');
      }
      if !Eligible(orig, g, t, cands[r], flags[r]) || ConsecutiveNeighbors(g, next, pos, cands[r], u1, u2, f) == Some(false) {
        FirstLegalMono(orig, g, next, pos, u1, u2, t, f, f', cands, flags, r + 1);
      }
    }
  }

  /** A candidate that is not eligible, or whose neighbours are not
      consecutive, passes the search on to the next one. */
  lemma FirstLegalSkips(orig: Graph, g: Graph, next: Successor, pos: Layout, u1: Vertex, u2: Vertex, t: int, fuel: nat,
                        cands: seq<Vertex>, flags: seq<int>, r: nat)
    requires |flags| == |cands| && r < |cands|
    requires !Eligible(orig, g, t, cands[r], flags[r]) || ConsecutiveNeighbors(g, next, pos, cands[r], u1, u2, fuel) == Some(false)
    ensures FirstLegal(orig, g, next, pos, u1, u2, t, fuel, cands, flags, r)
         == FirstLegal(orig, g, next, pos, u1, u2, t, fuel, cands, flags, r + 1)
  {
  }

  /** Candidate `v` is passed over by the selection: it fails one of the
      first two conditions, or its neighbours are found not consecutive. */
  predicate Rejected(orig: Graph, g: Graph, next: Successor, pos: Layout, u1: Vertex, u2: Vertex, t: int, fuel: nat,
                     v: Vertex, flag: int)
  {
    !Eligible(orig, g, t, v, flag) || ConsecutiveNeighbors(g, next, pos, v, u1, u2, fuel) == Some(false)
  }

  /** A chosen candidate is the first one the selection does not pass over. */
  lemma {:induction false} ChosenIsFirst(orig: Graph, g: Graph, next: Successor, pos: Layout, u1: Vertex, u2: Vertex,
                        t: int, fuel: nat, cands: seq<Vertex>, flags: seq<int>, r: nat)
    requires |flags| == |cands| && r <= |cands|
    ensures var c := FirstLegal(orig, g, next, pos, u1, u2, t, fuel, cands, flags, r);
            c.Chosen? ==> exists i :: r <= i < |cands| && cands[i] == c.v
                                      && Eligible(orig, g, t, cands[i], flags[i])
                                      && ConsecutiveNeighbors(g, next, pos, cands[i], u1, u2, fuel) == Some(true)
                                      && forall j :: r <= j < i ==> Rejected(orig, g, next, pos, u1, u2, t, fuel, cands[j], flags[j])
    decreases |cands| - r
  {
    if r < |cands| {
      var c := FirstLegal(orig, g, next, pos, u1, u2, t, fuel, cands, flags, r);
      if Rejected(orig, g, next, pos, u1, u2, t, fuel, cands[r], flags[r]) {
        ChosenIsFirst(orig, g, next, pos, u1, u2, t, fuel, cands, flags, r + 1);
        FirstLegalSkips(orig, g, next, pos, u1, u2, t, fuel, cands, flags, r);
        if c.Chosen? {
          var i :| r + 1 <= i < |cands| && cands[i] == c.v
                   && Eligible(orig, g, t, cands[i], flags[i])
                   && ConsecutiveNeighbors(g, next, pos, cands[i], u1, u2, fuel) == Some(true)
                   && forall j :: r + 1 <= j < i ==> Rejected(orig, g, next, pos, u1, u2, t, fuel, cands[j], flags[j]);
          assert forall j :: r <= j < i ==> Rejected(orig, g, next, pos, u1, u2, t, fuel, cands[j], flags[j]);
        }
      } else if c.Chosen? {
        assert cands[r] == c.v;
      }
    }
  }

  /** The selection throws exactly when `checkConsecutiveNeighbors` fails on
      the first eligible candidate it does not pass over: it throws, or its
      walk does not return within `fuel` rounds. */
  lemma {:induction false} ThrewIff(orig: Graph, g: Graph, next: Successor, pos: Layout, u1: Vertex, u2: Vertex,
                        t: int, fuel: nat, cands: seq<Vertex>, flags: seq<int>, r: nat)
    requires |flags| == |cands| && r <= |cands|
    ensures FirstLegal(orig, g, next, pos, u1, u2, t, fuel, cands, flags, r).Threw? <==>
            exists i :: r <= i < |cands| && Eligible(orig, g, t, cands[i], flags[i])
                        && ConsecutiveNeighbors(g, next, pos, cands[i], u1, u2, fuel).None?
                        && forall j :: r <= j < i ==> Rejected(orig, g, next, pos, u1, u2, t, fuel, cands[j], flags[j])
    decreases |cands| - r
  {
    if r < |cands| && Rejected(orig, g, next, pos, u1, u2, t, fuel, cands[r], flags[r]) {
      ThrewIff(orig, g, next, pos, u1, u2, t, fuel, cands, flags, r + 1);
      FirstLegalSkips(orig, g, next, pos, u1, u2, t, fuel, cands, flags, r);
    }
  }

  /** Nothing is chosen exactly when every candidate is passed over. */
  lemma {:induction false} NoneLegalIff(orig: Graph, g: Graph, next: Successor, pos: Layout, u1: Vertex, u2: Vertex,
                        t: int, fuel: nat, cands: seq<Vertex>, flags: seq<int>, r: nat)
    requires |flags| == |cands| && r <= |cands|
    ensures FirstLegal(orig, g, next, pos, u1, u2, t, fuel, cands, flags, r).NoneLegal? <==>
            forall i :: r <= i < |cands| ==> Rejected(orig, g, next, pos, u1, u2, t, fuel, cands[i], flags[i])
    decreases |cands| - r
  {
    if r < |cands| && Rejected(orig, g, next, pos, u1, u2, t, fuel, cands[r], flags[r]) {
      NoneLegalIff(orig, g, next, pos, u1, u2, t, fuel, cands, flags, r + 1);
      FirstLegalSkips(orig, g, next, pos, u1, u2, t, fuel, cands, flags, r);
    }
  }

  /** The loop `for (var r = 0; r < length7; r++)` with its `break`. */
  method SelectCandidate(orig: Graph, g: Graph, next: Successor, pos: Layout, u1: Vertex, u2: Vertex, t: int, fuel: nat,
                         cands: seq<Vertex>, flags: array<int>) returns (c: Choice)
    requires flags.Length == |cands|
    ensures c == FirstLegal(orig, g, next, pos, u1, u2, t, fuel, cands, flags[..], 0)
  {
    ghost var fl := flags[..];
    ghost var goal := FirstLegal(orig, g, next, pos, u1, u2, t, fuel, cands, fl, 0);
    var r := 0;
    while r < |cands|
      invariant 0 <= r <= |cands|
      invariant goal == FirstLegal(orig, g, next, pos, u1, u2, t, fuel, cands, fl, r)
    {
      var possible := cands[r];
      var neighbourhood := |Neighbors(orig, possible)| != |Neighbors(g, possible)|;
      assert flags[r] == fl[r];
      if (neighbourhood || |g.nodes| == t) && flags[r] == 0 {
        var consecutive := CheckConsecutiveNeighbors(g, next, pos, possible, u1, u2, fuel);
        if consecutive.None? {
          return Threw;
        }
        if consecutive.value {
          return Chosen(possible);
        }
      }
      FirstLegalSkips(orig, g, next, pos, u1, u2, t, fuel, cands, fl, r);
      r := r + 1;
    }
    return NoneLegal;
  }

  /** One general step of `Ordering` up to the choice of the node to remove:
      faces, outer face, candidates, chord flags and the selection. An outer
      face that is not found leaves `outerNodes` empty, so nothing is chosen. */
  function GeneralChoice(orig: Graph, g: Graph, next: Successor, pos: Layout, hullOf: HullOf,
                         u1: Vertex, u2: Vertex, t: int, fuel: nat): Choice
  {
    match FacesOf(g, next)
    case None => Threw
    case Some(fs) =>
      var fv := FacesAsVertices(fs);
      match OuterFaceIndex(fv, HullOfGraph(g, pos, hullOf), pos)
      case None => NoneLegal
      case Some(k) =>
        var cands := Candidates(fv[k], u1, u2, pos);
        var flags := seq(|cands|, w requires 0 <= w < |cands| =>
                           if HasChord(g, fv[k], fs[k], cands[w]) then 1 else 0);
        FirstLegal(orig, g, next, pos, u1, u2, t, fuel, cands, flags, 0)
  }
  /** A general step that does not throw within `f` rounds per walk makes
      the same choice for every larger bound. */
  lemma GeneralChoiceMono(orig: Graph, g: Graph, next: Successor, pos: Layout, hullOf: HullOf,
                          u1: Vertex, u2: Vertex, t: int, f: nat, f': nat)
    requires f <= f' && !GeneralChoice(orig, g, next, pos, hullOf, u1, u2, t, f).Threw?
    ensures GeneralChoice(orig, g, next, pos, hullOf, u1, u2, t, f') == GeneralChoice(orig, g, next, pos, hullOf, u1, u2, t, f)
  {
    var fs := FacesOf(g, next).value;
    var fv := FacesAsVertices(fs);
    if OuterFaceIndex(fv, HullOfGraph(g, pos, hullOf), pos).Some? {
      var k := OuterFaceIndex(fv, HullOfGraph(g, pos, hullOf), pos).value;
      var cands := Candidates(fv[k], u1, u2, pos);
      var flags := seq(|cands|, w requires 0 <= w < |cands| =>
                         if HasChord(g, fv[k], fs[k], cands[w]) then 1 else 0);
      FirstLegalMono(orig, g, next, pos, u1, u2, t, f, f', cands, flags, 0);
    }
  }


  method ChooseNext(orig: Graph, g: Graph, next: Successor, pos: Layout, hullOf: HullOf,
                    u1: Vertex, u2: Vertex, t: int, fuel: nat) returns (c: Choice)
    ensures c == GeneralChoice(orig, g, next, pos, hullOf, u1, u2, t, fuel)
  {
    var faces := FindFaces(g, next);
    if faces.None? {
      return Threw;
    }
    var fs := faces.value;
    var fv := FacesAsVertices(fs);
    var k := OuterFaceIndex(fv, HullOfGraph(g, pos, hullOf), pos);
    if k.None? {
      return NoneLegal;
    }
    var outerNodes := fv[k.value];
    var cands := Candidates(outerNodes, u1, u2, pos);
    var flags := ChordFlags(g, cands, outerNodes, fs[k.value]);
    c := SelectCandidate(orig, g, next, pos, u1, u2, t, fuel, cands, flags);
    assert flags[..] == seq(|cands|, w requires 0 <= w < |cands| =>
                              if HasChord(g, outerNodes, fs[k.value], cands[w]) then 1 else 0);
  }

  /** A chosen node is a node of the outer face other than the anchors, has
      no chord, has lost a neighbour since the start (or it is the first
      step), and its neighbours were found consecutive on the boundary. */
  lemma ChosenIsOuterAndLegal(orig: Graph, g: Graph, next: Successor, pos: Layout, hullOf: HullOf,
                              u1: Vertex, u2: Vertex, t: int, fuel: nat)
    requires GeneralChoice(orig, g, next, pos, hullOf, u1, u2, t, fuel).Chosen?
    ensures var v := GeneralChoice(orig, g, next, pos, hullOf, u1, u2, t, fuel).v;
            var fs := FacesOf(g, next).value;
            var fv := FacesAsVertices(fs);
            var k := OuterFaceIndex(fv, HullOfGraph(g, pos, hullOf), pos).value;
            && v in fv[k] && v != u1 && v != u2
            && !HasChord(g, fv[k], fs[k], v)
            && (|Neighbors(orig, v)| != |Neighbors(g, v)| || |g.nodes| == t)
            && ConsecutiveNeighbors(g, next, pos, v, u1, u2, fuel) == Some(true)
  {
    var fs := FacesOf(g, next).value;
    var fv := FacesAsVertices(fs);
    var k := OuterFaceIndex(fv, HullOfGraph(g, pos, hullOf), pos).value;
    var cands := Candidates(fv[k], u1, u2, pos);
    var v := GeneralChoice(orig, g, next, pos, hullOf, u1, u2, t, fuel).v;
    var i :| 0 <= i < |cands| && cands[i] == v;
    assert v in multiset(Others(fv[k], u1, u2));
  }

  /** Every outer node ahead of the chosen one in ascending-y order was
      passed over: it fails one of the first two conditions, or its
      neighbours are not consecutive. */
  lemma ChosenIsFirstCandidate(orig: Graph, g: Graph, next: Successor, pos: Layout, hullOf: HullOf,
                               u1: Vertex, u2: Vertex, t: int, fuel: nat)
    requires GeneralChoice(orig, g, next, pos, hullOf, u1, u2, t, fuel).Chosen?
    ensures var v := GeneralChoice(orig, g, next, pos, hullOf, u1, u2, t, fuel).v;
            var fs := FacesOf(g, next).value;
            var fv := FacesAsVertices(fs);
            var k := OuterFaceIndex(fv, HullOfGraph(g, pos, hullOf), pos).value;
            var cands := Candidates(fv[k], u1, u2, pos);
            exists i :: 0 <= i < |cands| && cands[i] == v &&
              forall j :: 0 <= j < i ==>
                !((|Neighbors(orig, cands[j])| != |Neighbors(g, cands[j])| || |g.nodes| == t) && !HasChord(g, fv[k], fs[k], cands[j]))
                || ConsecutiveNeighbors(g, next, pos, cands[j], u1, u2, fuel) == Some(false)
  {
    var fs := FacesOf(g, next).value;
    var fv := FacesAsVertices(fs);
    var k := OuterFaceIndex(fv, HullOfGraph(g, pos, hullOf), pos).value;
    var cands := Candidates(fv[k], u1, u2, pos);
    var flags := seq(|cands|, w requires 0 <= w < |cands| =>
                       if HasChord(g, fv[k], fs[k], cands[w]) then 1 else 0);
    ChosenIsFirst(orig, g, next, pos, u1, u2, t, fuel, cands, flags, 0);
    var i :| 0 <= i < |cands| && cands[i] == GeneralChoice(orig, g, next, pos, hullOf, u1, u2, t, fuel).v
             && forall j :: 0 <= j < i ==> Rejected(orig, g, next, pos, u1, u2, t, fuel, cands[j], flags[j]);
  }

  /** The anchors are never chosen. */
  lemma ChosenIsNotAnchor(orig: Graph, g: Graph, next: Successor, pos: Layout, hullOf: HullOf,
                          u1: Vertex, u2: Vertex, t: int, fuel: nat)
    requires GeneralChoice(orig, g, next, pos, hullOf, u1, u2, t, fuel).Chosen?
    ensures GeneralChoice(orig, g, next, pos, hullOf, u1, u2, t, fuel).v != u1
    ensures GeneralChoice(orig, g, next, pos, hullOf, u1, u2, t, fuel).v != u2
  {
    ChosenIsOuterAndLegal(orig, g, next, pos, hullOf, u1, u2, t, fuel);
  }

  // ---------------------------------------------------------------------
  // The elimination state machine
  // ---------------------------------------------------------------------

  /** The labels of a finished ordering: the first two nodes of `order`
      carry 2 and 1, every later one its position plus one. */
  predicate FinalLabels(order: seq<Vertex>, labels: map<Vertex, int>)
  {
    && |order| >= 2
    && (forall i :: 0 <= i < |order| ==> order[i] in labels)
    && labels[order[0]] == 2 && labels[order[1]] == 1
    && (forall i :: 2 <= i < |order| ==> labels[order[i]] == i + 1)
  }

  /** The labels an ordering carries. */
  ghost function Ranks(order: seq<Vertex>, labels: map<Vertex, int>): set<int>
    requires forall i :: 0 <= i < |order| ==> order[i] in labels
  {
    set i | 0 <= i < |order| :: labels[order[i]]
  }

  /** A finished ordering gives each of its nodes a different label, and the
      labels are exactly 1 to `|order|`, so the layout, which reads nodes by
      label, meets every node once; it meets the first two in the reverse of
      their order. */
  lemma FinalLabelsAreRanks(order: seq<Vertex>, labels: map<Vertex, int>)
    requires FinalLabels(order, labels) && Distinct(order)
    ensures forall i, j :: 0 <= i < j < |order| ==> labels[order[i]] != labels[order[j]]
    ensures forall k :: k in Ranks(order, labels) <==> 1 <= k <= |order|
  {
    forall k | 1 <= k <= |order| ensures k in Ranks(order, labels) {
      var i := if k == 1 then 1 else if k == 2 then 0 else k - 1;
      assert labels[order[i]] == k;
    }
  }

  /** Putting `v` with label `base` in front of an ordering labelled from
      `base + 1` upwards gives an ordering labelled from `base` upwards, and
      leaves every earlier label alone. */
  lemma PrependRank(before: seq<Vertex>, ranks: map<Vertex, int>, v: Vertex, base: int)
    requires v !in before && v !in ranks
    requires forall i :: 0 <= i < |before| ==> before[i] in ranks && ranks[before[i]] == base + 1 + i
    ensures forall i :: 0 <= i < |[v] + before| ==> ranks[v := base][([v] + before)[i]] == base + i
    ensures forall u :: u in ranks ==> ranks[v := base][u] == ranks[u]
  {
    var order := [v] + before;
    assert forall i :: 1 <= i < |order| ==> order[i] == before[i - 1];
  }

  lemma PrependTwice(a: Vertex, b: Vertex, s: seq<Vertex>)
    ensures [a] + ([b] + s) == [a, b] + s
  {
  }

  /** Two distinct nodes holding both anchors are the anchors. */
  lemma TwoLeftAreAnchors(nodes: seq<Vertex>, u1: Vertex, u2: Vertex)
    requires |nodes| == 2 && Distinct(nodes) && u1 in nodes && u2 in nodes && u1 != u2
    ensures {nodes[1], nodes[0]} == {u1, u2}
  {
  }

  /** Putting the two anchors, labelled 2 and 1, in front of an ordering
      labelled from 3 upwards finishes it. */
  lemma TwoLastLabels(before: seq<Vertex>, ranks: map<Vertex, int>, n0: Vertex, n1: Vertex)
    requires n0 != n1 && n0 !in before && n1 !in before
    requires forall i :: 0 <= i < |before| ==> before[i] in ranks && ranks[before[i]] == i + 3
    ensures FinalLabels([n1, n0] + before, ranks[n0 := 1][n1 := 2])
  {
    var order := [n1, n0] + before;
    assert forall i :: 2 <= i < |order| ==> order[i] == before[i - 2];
  }

  /** `canonicalOrdering` with its closure: the fixed anchors, the node
      count `t`, the step counter, the working graph and `orderedNodes`,
      with the labels written into the copy graph. */
  class CanonicalOrdering {
    const orig: Graph
    const pos: Layout
    const rot: RotationSystem
    const hullOf: HullOf
    const fuel: nat
    const u1: Vertex
    const u2: Vertex
    const start: Point
    const t: int
    var graph: Graph
    var counter: int
    var order: seq<Vertex>
    var labels: map<Vertex, int>

    /** The nodes not removed yet. */
    ghost function Rest(): set<Vertex>
      reads this
    {
      set v | v in orig.nodes && v !in order
    }

    /** The working graph is the original one without the ordered nodes,
        and each ordered node has a label. */
    ghost predicate Shape()
      reads this
    {
      && Distinct(orig.nodes) && t == |orig.nodes|
      && u1 != u2 && u1 in orig.nodes && u2 in orig.nodes
      && graph == InducedBy(orig, Rest())
      && |graph.nodes| + |order| == t
      && Distinct(order) && (forall v :: v in order ==> v in orig.nodes)
      && labels.Keys == set v | v in order
    }

    /** How the counter, the ordering and the labels stay in step: while no
        step has failed, the ordered nodes carry the labels `t - counter + 1`
        upwards; after a failed step more than three nodes stay forever;
        once the graph is empty the labels are final. */
    ghost predicate Valid()
      reads this
    {
      && Shape()
      && |graph.nodes| != 1
      && ((u1 in graph.nodes && u2 in graph.nodes) || graph.nodes == [])
      && (graph.nodes != [] ==> counter >= |order|)
      && (graph.nodes == [] ==> counter >= t - 1)
      && (graph.nodes != [] && counter > |order| ==> |graph.nodes| > 3)
      && (graph.nodes != [] && counter == |order| ==>
            forall i :: 0 <= i < |order| ==> labels[order[i]] == t - counter + 1 + i)
      && (graph.nodes == [] ==> FinalLabels(order, labels))
    }

    /** The set-up of `canonicalOrdering`: anchors and start point from the
        hull of the whole graph, an empty ordering and a zero counter. */
    constructor (orig: Graph, pos: Layout, rot: RotationSystem, hullOf: HullOf, fuel: nat)
      requires WellFormed(orig) && Distinct(orig.nodes)
      requires FindAnchors(orig, pos, HullOfGraph(orig, pos, hullOf)).Some?
      ensures Valid()
      ensures var a := FindAnchors(orig, pos, HullOfGraph(orig, pos, hullOf)).value;
              u1 == a.u1 && u2 == a.u2 && start == a.start
      ensures this.orig == orig && this.pos == pos && this.rot == rot && this.hullOf == hullOf && this.fuel == fuel
      ensures t == |orig.nodes| && graph == orig && counter == 0 && order == [] && labels == map[]
    {
      var a := FindAnchors(orig, pos, HullOfGraph(orig, pos, hullOf)).value;
      this.orig, this.pos, this.rot, this.hullOf, this.fuel := orig, pos, rot, hullOf, fuel;
      u1, u2, start := a.u1, a.u2, a.start;
      t := |orig.nodes|;
      graph, counter, order, labels := orig, 0, [], map[];
      new;
      assert Rest() == set v | v in orig.nodes;
      InducedByAll(orig);
      assert u1 in graph.nodes && u2 in graph.nodes;
    }

    /** `graph.remove(v)` together with `unshift` into `orderedNodes` and
        the new label of `v`. */
    method Peel(v: Vertex, rank: int)
      requires Shape() && v in graph.nodes
      modifies this
      ensures Shape()
      ensures graph == RemoveNode(old(graph), v) && |graph.nodes| + 1 == |old(graph.nodes)|
      ensures order == [v] + old(order) && labels == old(labels)[v := rank] && counter == old(counter)
      ensures v !in old(order) && v in old(Rest()) && Rest() == old(Rest()) - {v}
    {
      assert v in Rest();
      ghost var rest := Rest();
      RemoveFromInduced(orig, rest, v);
      KeepDrop(orig.nodes, rest, v);
      graph := RemoveNode(graph, v);
      order := [v] + order;
      labels := labels[v := rank];
      assert Rest() == rest - {v};
    }

    /** A node of the working graph is a node not yet ordered. */
    lemma InGraph(v: Vertex)
      requires Shape()
      ensures v in graph.nodes <==> v in orig.nodes && v !in order
    {
    }

    /** The first node that is not an anchor, as the loop over `nodes` in
        the three-node case picks it. */
    method FirstOther() returns (r: Option<Vertex>)
      ensures r.Some? ==> r.value in graph.nodes && r.value != u1 && r.value != u2
      ensures r.None? ==> forall v :: v in graph.nodes ==> v == u1 || v == u2
    {
      var w := 0;
      while w < |graph.nodes|
        invariant 0 <= w <= |graph.nodes|
        invariant forall k :: 0 <= k < w ==> graph.nodes[k] == u1 || graph.nodes[k] == u2
      {
        if graph.nodes[w] != u1 && graph.nodes[w] != u2 {
          return Some(graph.nodes[w]);
        }
        w := w + 1;
      }
      return None;
    }

    /** A general step (`counter < t - 2` once raised): the first legal
        candidate, if there is one and it is a node of the working graph, is
        removed and labelled `t - counter + 1`. */
    method GeneralStep() returns (c: Choice, removed: seq<Vertex>)
      requires Valid() && counter + 1 < t - 2
      modifies this
      ensures Valid()
      ensures counter == old(counter) + 1
      ensures order == removed + old(order)
      ensures forall v :: v in old(labels) ==> labels[v] == old(labels)[v]
      ensures c == GeneralChoice(orig, old(graph), RotationSuccessor(old(graph), rot), pos, hullOf, u1, u2, t, fuel)
      ensures removed == (if c.Chosen? && c.v in old(graph.nodes) then [c.v] else [])
      ensures removed != [] ==> labels[removed[0]] == t - counter + 1
    {
      c := ChooseNext(orig, graph, RotationSuccessor(graph, rot), pos, hullOf, u1, u2, t, fuel);
      if c.Chosen? {
        ChosenIsNotAnchor(orig, graph, RotationSuccessor(graph, rot), pos, hullOf, u1, u2, t, fuel);
      }
      removed := Apply(c);
    }

    /** The rest of a general step once the choice is made: `answer` is the
        index of the chosen node in the working graph, and -1 (nothing
        removed) when there is no such node. */
    method Apply(c: Choice) returns (removed: seq<Vertex>)
      requires Valid() && counter + 1 < t - 2
      requires c.Chosen? ==> c.v != u1 && c.v != u2
      modifies this
      ensures Valid()
      ensures counter == old(counter) + 1
      ensures order == removed + old(order)
      ensures forall v :: v in old(labels) ==> labels[v] == old(labels)[v]
      ensures removed == (if c.Chosen? && c.v in old(graph.nodes) then [c.v] else [])
      ensures removed != [] ==> labels[removed[0]] == t - counter + 1
    {
      if c.Chosen? && c.v in graph.nodes {
        RemoveChosen(c.v);
        removed := [c.v];
      } else {
        Skip();
        removed := [];
        assert order == removed + old(order);
      }
    }

    /** A general step that removes `v`, labelled `t - counter + 1`. */
    method RemoveChosen(v: Vertex)
      requires Valid() && counter + 1 < t - 2 && v in graph.nodes && v != u1 && v != u2
      modifies this
      ensures Valid()
      ensures counter == old(counter) + 1
      ensures graph == RemoveNode(old(graph), v)
      ensures order == [v] + old(order) && labels == old(labels)[v := t - counter + 1]
    {
      counter := counter + 1;
      ghost var before, ranks := order, labels;
      ghost var exact := counter - 1 == |order|;
      Peel(v, t - counter + 1);
      if exact {
        PrependRank(before, ranks, v, t - counter + 1);
      }
    }

    /** A step that removes nothing: a general step without a legal
        candidate, or a late step with neither three nor two nodes left. */
    method Skip()
      requires Valid() && (counter + 1 < t - 2 || (|graph.nodes| != 2 && |graph.nodes| != 3))
      modifies this
      ensures Valid()
      ensures counter == old(counter) + 1 && graph == old(graph) && order == old(order) && labels == old(labels)
    {
      counter := counter + 1;
    }

    /** Three nodes left: the one that is not an anchor goes, with label 3. */
    method LastThree() returns (removed: seq<Vertex>)
      requires Valid() && counter + 1 >= t - 2 && |graph.nodes| == 3
      modifies this
      ensures Valid()
      ensures counter == old(counter) + 1
      ensures order == removed + old(order)
      ensures forall v :: v in old(labels) ==> labels[v] == old(labels)[v]
      ensures |removed| == 1 && removed[0] in old(graph.nodes) && removed[0] != u1 && removed[0] != u2
      ensures labels[removed[0]] == 3
    {
      counter := counter + 1;
      KeepDistinct(orig.nodes, Rest());
      assert graph.nodes[0] in graph.nodes && graph.nodes[1] in graph.nodes && graph.nodes[2] in graph.nodes;
      var other := FirstOther();
      if other.None? {
        assert false;
      }
      ghost var before, ranks := order, labels;
      Peel(other.value, t - counter + 1);
      removed := [other.value];
      PrependRank(before, ranks, other.value, t - counter + 1);
    }

    /** Two nodes left, the anchors: `nodes.at(1)` goes in front with label
        2, `nodes.at(0)` behind it with label 1. */
    method LastTwo() returns (removed: seq<Vertex>)
      requires Valid() && counter + 1 >= t - 2 && |graph.nodes| == 2
      modifies this
      ensures Valid()
      ensures counter == old(counter) + 1
      ensures order == removed + old(order)
      ensures forall v :: v in old(labels) ==> labels[v] == old(labels)[v]
      ensures removed == [old(graph.nodes)[1], old(graph.nodes)[0]] && {removed[0], removed[1]} == {u1, u2}
      ensures labels[removed[0]] == 2 && labels[removed[1]] == 1
      ensures graph.nodes == []
    {
      counter := counter + 1;
      var n0, n1 := graph.nodes[0], graph.nodes[1];
      KeepDistinct(orig.nodes, Rest());
      TwoLeftAreAnchors(graph.nodes, u1, u2);
      ghost var before, ranks := order, labels;
      assert forall i :: 0 <= i < |before| ==> ranks[before[i]] == i + 3;
      Peel(n0, 1);
      Peel(n1, 2);
      removed := [n1, n0];
      PrependTwice(n1, n0, before);
      TwoLastLabels(before, ranks, n0, n1);
    }

    /** One call of `Ordering`. The counter always advances; the branch is
        chosen on the raised counter and on the number of nodes left.
        `threw` reports a general step whose choice throws (face enumeration
        or `checkConsecutiveNeighbors` meeting a `null` edge) or whose
        boundary walk does not return within `fuel` rounds; such a step
        removes nothing, and the caller is to stop stepping. */
    method Step() returns (removed: seq<Vertex>, threw: bool)
      requires Valid()
      modifies this
      ensures Valid()
      ensures threw <==> (counter < t - 2 &&
        GeneralChoice(orig, old(graph), RotationSuccessor(old(graph), rot), pos, hullOf, u1, u2, t, fuel).Threw?)
      ensures counter == old(counter) + 1
      ensures order == removed + old(order)
      ensures forall v :: v in old(labels) ==> labels[v] == old(labels)[v]
      ensures counter < t - 2 ==>
        var c := GeneralChoice(orig, old(graph), RotationSuccessor(old(graph), rot), pos, hullOf, u1, u2, t, fuel);
        removed == (if c.Chosen? && c.v in old(graph.nodes) then [c.v] else [])
      ensures counter < t - 2 && removed != [] ==> labels[removed[0]] == t - counter + 1
      ensures counter >= t - 2 && |old(graph.nodes)| == 3 ==>
        |removed| == 1 && removed[0] in old(graph.nodes) && removed[0] != u1 && removed[0] != u2 && labels[removed[0]] == 3
      ensures counter >= t - 2 && |old(graph.nodes)| == 2 ==>
        removed == [old(graph.nodes)[1], old(graph.nodes)[0]] && {removed[0], removed[1]} == {u1, u2}
        && labels[removed[0]] == 2 && labels[removed[1]] == 1
      ensures counter >= t - 2 && |old(graph.nodes)| != 2 && |old(graph.nodes)| != 3 ==> removed == []
    {
      threw := false;
      if counter + 1 < t - 2 {
        var c;
        c, removed := GeneralStep();
        threw := c.Threw?;
      } else if |graph.nodes| == 3 {
        removed := LastThree();
      } else if |graph.nodes| == 2 {
        removed := LastTwo();
      } else {
        Skip();
        removed := [];
      }
    }
  }

  /** `canonicalOrdering` failing to find its anchors throws; otherwise it
      yields the state the steps start from. */
  method Begin(orig: Graph, pos: Layout, rot: RotationSystem, hullOf: HullOf, fuel: nat)
    returns (r: Option<CanonicalOrdering>)
    requires WellFormed(orig) && Distinct(orig.nodes)
    ensures r.None? <==> FindAnchors(orig, pos, HullOfGraph(orig, pos, hullOf)).None?
    ensures r.Some? ==> fresh(r.value) && r.value.Valid() && r.value.graph == orig && r.value.order == []
  {
    if FindAnchors(orig, pos, HullOfGraph(orig, pos, hullOf)).None? {
      return None;
    }
    var o := new CanonicalOrdering(orig, pos, rot, hullOf, fuel);
    return Some(o);
  }
}
