/** Recognising the outer face by the convex hull of the node centres
    (`findOuterface`, and the same search inside `checkTriangularity` and
    `Ordering`), and the inner-triangulation test `checkTriangularity`. */
module OuterFace {
  import opened Graphs
  import opened Rotation
  import opened Faces

  /** The hull computation of the geometry library, taken as given. */
  type HullOf = seq<Point> -> seq<Point>

  /** The centres of `nodes`, in order (`nodeCenters`). */
  function Centers(pos: Layout, nodes: seq<Vertex>): (r: seq<Point>)
    ensures |r| == |nodes|
    ensures forall i :: 0 <= i < |nodes| ==> r[i] == Center(pos, nodes[i])
  {
    seq(|nodes|, i requires 0 <= i < |nodes| => Center(pos, nodes[i]))
  }

  /** How many vertices of `face` sit exactly on point `p`. */
  function Hits(face: seq<Vertex>, pos: Layout, p: Point): nat
  {
    if face == [] then 0
    else Hits(face[..|face| - 1], pos, p) + (if Center(pos, face[|face| - 1]) == p then 1 else 0)
  }

  /** The counter `b`: over every hull point, the face vertices on it. */
  function MatchCount(hull: seq<Point>, face: seq<Vertex>, pos: Layout): nat
  {
    if hull == [] then 0
    else MatchCount(hull[..|hull| - 1], face, pos) + Hits(face, pos, hull[|hull| - 1])
  }

  /** The acceptance test of the search: `b == convexHull.size`. The face's
      own size plays no part. */
  predicate MatchesHull(hull: seq<Point>, face: seq<Vertex>, pos: Layout)
  {
    MatchCount(hull, face, pos) == |hull|
  }

  /** Index of the first face that matches the hull, searching from `k`;
      `None` when no face does (`myOuterface` stays `undefined`). */
  function FirstMatchFrom(faces: seq<seq<Vertex>>, hull: seq<Point>, pos: Layout, k: nat): (r: Option<nat>)
    requires k <= |faces|
    ensures r.Some? ==> k <= r.value < |faces| && MatchesHull(hull, faces[r.value], pos)
    ensures r.Some? ==> forall l :: k <= l < r.value ==> !MatchesHull(hull, faces[l], pos)
    ensures r.None? ==> forall l :: k <= l < |faces| ==> !MatchesHull(hull, faces[l], pos)
    decreases |faces| - k
  {
    if k == |faces| then None
    else if MatchesHull(hull, faces[k], pos) then Some(k)
    else FirstMatchFrom(faces, hull, pos, k + 1)
  }

  /** The outer-face search: the first face, in face order, that matches. */
  function OuterFaceIndex(faces: seq<seq<Vertex>>, hull: seq<Point>, pos: Layout): Option<nat>
  {
    FirstMatchFrom(faces, hull, pos, 0)
  }

  lemma {:induction false} HitsIff(face: seq<Vertex>, pos: Layout, p: Point)
    ensures Hits(face, pos, p) <= |face|
    ensures Hits(face, pos, p) == 0 <==> forall r :: 0 <= r < |face| ==> Center(pos, face[r]) != p
  {
    if face != [] {
      var face' := face[..|face| - 1];
      HitsIff(face', pos, p);
      assert forall r :: 0 <= r < |face'| ==> face'[r] == face[r];
    }
  }

  /** With no two face vertices on the same point, a point is hit at most once. */
  lemma {:induction false} HitsAtMostOnce(face: seq<Vertex>, pos: Layout, p: Point)
    requires Distinct(Centers(pos, face))
    ensures Hits(face, pos, p) <= 1
  {
    if face != [] {
      var face' := face[..|face| - 1];
      assert Centers(pos, face') == Centers(pos, face)[..|face'|];
      HitsAtMostOnce(face', pos, p);
      if Center(pos, face[|face| - 1]) == p {
        HitsIff(face', pos, p);
        forall r | 0 <= r < |face'| ensures Center(pos, face'[r]) != p {
          assert Centers(pos, face)[r] != Centers(pos, face)[|face| - 1];
        }
      }
    }
  }

  lemma {:induction false} MatchCountBound(hull: seq<Point>, face: seq<Vertex>, pos: Layout)
    requires Distinct(Centers(pos, face))
    ensures MatchCount(hull, face, pos) <= |hull|
    ensures MatchCount(hull, face, pos) == |hull| <==> forall j :: 0 <= j < |hull| ==> Hits(face, pos, hull[j]) == 1
  {
    if hull != [] {
      var hull' := hull[..|hull| - 1];
      MatchCountBound(hull', face, pos);
      HitsAtMostOnce(face, pos, hull[|hull| - 1]);
      forall j | 0 <= j < |hull'| ensures hull'[j] == hull[j] && Hits(face, pos, hull[j]) <= 1 {
        HitsAtMostOnce(face, pos, hull[j]);
      }
    }
  }

  /** When no two vertices of a face share a centre, the face matches the hull
      exactly when every hull point is the centre of one of its vertices,
      however many other vertices the face has. */
  lemma MatchIffCovers(hull: seq<Point>, face: seq<Vertex>, pos: Layout)
    requires Distinct(Centers(pos, face))
    ensures MatchesHull(hull, face, pos) <==>
            forall j :: 0 <= j < |hull| ==> exists r :: 0 <= r < |face| && Center(pos, face[r]) == hull[j]
  {
    MatchCountBound(hull, face, pos);
    forall j | 0 <= j < |hull|
      ensures Hits(face, pos, hull[j]) == 1 <==> exists r :: 0 <= r < |face| && Center(pos, face[r]) == hull[j]
    {
      HitsIff(face, pos, hull[j]);
      HitsAtMostOnce(face, pos, hull[j]);
    }
  }

  /** The final test of `checkTriangularity`: every face with more than three
      vertices is the outer face found by the search. */
  predicate InnerTriangulated(faces: seq<seq<Vertex>>, outer: Option<nat>)
  {
    forall r :: 0 <= r < |faces| && |faces[r]| > 3 ==> outer == Some(r)
  }

  /** The scan for a non-triangular inner face, from index `r` on. */
  function NoLargeInnerFrom(faces: seq<seq<Vertex>>, outer: Option<nat>, r: nat): (ok: bool)
    requires r <= |faces|
    ensures ok <==> forall l :: r <= l < |faces| && |faces[l]| > 3 ==> outer == Some(l)
    decreases |faces| - r
  {
    if r == |faces| then true
    else if |faces[r]| > 3 && outer != Some(r) then false
    else NoLargeInnerFrom(faces, outer, r + 1)
  }

  /** The hull of all node centres of `g`. */
  function HullOfGraph(g: Graph, pos: Layout, hullOf: HullOf): seq<Point>
  {
    hullOf(Centers(pos, g.nodes))
  }

  /** `checkTriangularity`: `None` when the face enumeration throws. */
  function CheckTriangularity(g: Graph, next: Successor, pos: Layout, hullOf: HullOf): (r: Option<bool>)
    ensures r.None? <==> FacesOf(g, next).None?
    ensures r.Some? ==>
      var fv := FacesAsVertices(FacesOf(g, next).value);
      r.value <==> InnerTriangulated(fv, OuterFaceIndex(fv, HullOfGraph(g, pos, hullOf), pos))
  {
    match FacesOf(g, next)
    case None => None
    case Some(fs) =>
      var fv := FacesAsVertices(fs);
      Some(NoLargeInnerFrom(fv, OuterFaceIndex(fv, HullOfGraph(g, pos, hullOf), pos), 0))
  }

  /** Passing the test leaves at most one face with more than three
      vertices: the first face that matches the hull, which, when no two of
      its vertices share a centre, holds every hull point. */
  lemma TriangulatedHasOneLargeFace(g: Graph, next: Successor, pos: Layout, hullOf: HullOf, r: nat)
    requires CheckTriangularity(g, next, pos, hullOf) == Some(true)
    requires r < |FacesAsVertices(FacesOf(g, next).value)|
    requires |FacesAsVertices(FacesOf(g, next).value)[r]| > 3
    ensures var fv := FacesAsVertices(FacesOf(g, next).value);
            var hull := HullOfGraph(g, pos, hullOf);
            && OuterFaceIndex(fv, hull, pos) == Some(r)
            && (forall l :: 0 <= l < r ==> !MatchesHull(hull, fv[l], pos))
            && (forall l :: 0 <= l < |fv| && l != r ==> |fv[l]| <= 3)
            && (Distinct(Centers(pos, fv[r])) ==>
                  forall j :: 0 <= j < |hull| ==> exists q :: 0 <= q < |fv[r]| && Center(pos, fv[r][q]) == hull[j])
  {
    var fv := FacesAsVertices(FacesOf(g, next).value);
    var hull := HullOfGraph(g, pos, hullOf);
    if Distinct(Centers(pos, fv[r])) {
      MatchIffCovers(hull, fv[r], pos);
    }
  }

  /** When `findOuterface`, over all nodes, finds no outer face, the test
      passes exactly when every face is a triangle or smaller. */
  lemma NoOuterFaceMeansAllSmall(g: Graph, next: Successor, pos: Layout, hullOf: HullOf)
    requires FindOuterface(g, next, pos, g.nodes, hullOf).Undefined?
    ensures var fv := FacesAsVertices(FacesOf(g, next).value);
            CheckTriangularity(g, next, pos, hullOf) == Some(true) <==> forall r :: 0 <= r < |fv| ==> |fv[r]| <= 3
  {
  }

  /** What `findOuterface` yields: the vertex list of the outer face,
      `Undefined` when no face matches, `Thrown` when the face enumeration
      throws. */
  datatype OuterResult = Thrown | Undefined | Found(vertices: seq<Vertex>)

  /** `findOuterface`: the hull is taken over the labelled nodes `labelled`. */
  function FindOuterface(g: Graph, next: Successor, pos: Layout, labelled: seq<Vertex>, hullOf: HullOf): (r: OuterResult)
    ensures r.Thrown? <==> FacesOf(g, next).None?
    ensures r.Undefined? <==>
      FacesOf(g, next).Some? && OuterFaceIndex(FacesAsVertices(FacesOf(g, next).value), hullOf(Centers(pos, labelled)), pos).None?
    ensures r.Found? ==>
      var fv := FacesAsVertices(FacesOf(g, next).value);
      var hull := hullOf(Centers(pos, labelled));
      && OuterFaceIndex(fv, hull, pos).Some?
      && r.vertices == fv[OuterFaceIndex(fv, hull, pos).value]
      && MatchesHull(hull, r.vertices, pos)
      && forall l :: 0 <= l < OuterFaceIndex(fv, hull, pos).value ==> !MatchesHull(hull, fv[l], pos)
  {
    match FacesOf(g, next)
    case None => Thrown
    case Some(fs) =>
      var fv := FacesAsVertices(fs);
      match OuterFaceIndex(fv, hullOf(Centers(pos, labelled)), pos)
      case None => Undefined
      case Some(k) => Found(fv[k])
  }
}
