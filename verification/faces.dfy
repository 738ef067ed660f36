/** Face enumeration (`findFaces2`) and the conversion of faces from edge
    lists to vertex lists (`findFaces3`). */
module Faces {
  import opened Graphs
  import opened Rotation

  // ---------------------------------------------------------------------
  // One face walk
  // ---------------------------------------------------------------------

  /** How a walk ends: back at its first edge, past the length bound (the
      `error` flag), or on a `null` edge (the source then throws). */
  datatype WalkOutcome = Closed(face: seq<Edge>) | TooLong | Broken

  /** The walk of `findFaces2` from `start`, having collected `face` and
      standing on its last edge with `nodee` the node it was entered from. */
  function WalkOn(g: Graph, next: Successor, start: Edge, face: seq<Edge>, nodee: Vertex): (w: WalkOutcome)
    requires 1 <= |face| <= |g.nodes| + 1
    ensures w.Closed? ==> face <= w.face && |w.face| <= |g.nodes| + 1
    ensures w.Closed? && StaysIn(g, next) && (forall e :: e in face ==> e in g.edges) ==>
              forall e :: e in w.face ==> e in g.edges
    decreases |g.nodes| + 1 - |face|
  {
    var edge1 := face[|face| - 1];
    match next(edge1, nodee)
    case None => Broken
    case Some(edge2) =>
      if edge2 == start then Closed(face)
      else if |face| + 1 > |g.nodes| + 1 then TooLong
      else WalkOn(g, next, start, face + [edge2], edge1.Opposite(nodee))
  }

  /** The walk started from edge `start` at node `node`. */
  function Walk(g: Graph, next: Successor, start: Edge, node: Vertex): WalkOutcome
  {
    WalkOn(g, next, start, [start], node)
  }

  /** The node the walk along `face` has reached after `i` edges. */
  function NodeAt(face: seq<Edge>, node: Vertex, i: nat): Vertex
    requires i <= |face|
  {
    if i == 0 then node else face[i - 1].Opposite(NodeAt(face, node, i - 1))
  }

  lemma {:induction false} NodeAtPrefix(p: seq<Edge>, f: seq<Edge>, node: Vertex, i: nat)
    requires p <= f && i <= |p|
    ensures NodeAt(p, node, i) == NodeAt(f, node, i)
  {
    if i > 0 {
      NodeAtPrefix(p, f, node, i - 1);
    }
  }

  /** The first `k` steps of `face` each take the next counter-clockwise edge. */
  ghost predicate FollowsRotation(g: Graph, next: Successor, face: seq<Edge>, node: Vertex, k: nat)
    requires k < |face|
  {
    forall i :: 0 <= i < k ==> next(face[i], NodeAt(face, node, i)) == Some(face[i + 1])
  }

  /** A face in the sense of `findFaces2`: every step takes the next
      counter-clockwise edge, the step after the last edge returns to the
      first, the first edge is not met again before, and the face is no longer
      than the number of nodes plus one. */
  ghost predicate IsFaceWalk(g: Graph, next: Successor, face: seq<Edge>, node: Vertex)
  {
    && 1 <= |face| <= |g.nodes| + 1
    && face[0] !in face[1..]
    && FollowsRotation(g, next, face, node, |face| - 1)
    && next(face[|face| - 1], NodeAt(face, node, |face| - 1)) == Some(face[0])
  }

  /** A walk prefix the walk from `start` can have collected so far. */
  ghost predicate WalkPrefix(g: Graph, next: Successor, start: Edge, p: seq<Edge>, node: Vertex)
  {
    && 1 <= |p| <= |g.nodes| + 1
    && p[0] == start && start !in p[1..]
    && FollowsRotation(g, next, p, node, |p| - 1)
  }

  lemma WalkPrefixExtend(g: Graph, next: Successor, start: Edge, p: seq<Edge>, node: Vertex, e2: Edge)
    requires WalkPrefix(g, next, start, p, node) && |p| + 1 <= |g.nodes| + 1 && e2 != start
    requires next(p[|p| - 1], NodeAt(p, node, |p| - 1)) == Some(e2)
    ensures WalkPrefix(g, next, start, p + [e2], node)
    ensures NodeAt(p + [e2], node, |p|) == p[|p| - 1].Opposite(NodeAt(p, node, |p| - 1))
  {
    var p' := p + [e2];
    assert p'[1..] == p[1..] + [e2];
    forall i | 0 <= i < |p'| - 1
      ensures next(p'[i], NodeAt(p', node, i)) == Some(p'[i + 1])
    {
      NodeAtPrefix(p, p', node, i);
    }
    NodeAtPrefix(p, p', node, |p| - 1);
  }

  /** On a face walk extending `p`, the step after `p` is the face's next edge. */
  lemma FaceWalkStep(g: Graph, next: Successor, p: seq<Edge>, f: seq<Edge>, node: Vertex)
    requires 1 <= |p| < |f| && p <= f && IsFaceWalk(g, next, f, node)
    ensures next(p[|p| - 1], NodeAt(p, node, |p| - 1)) == Some(f[|p|])
  {
    NodeAtPrefix(p, f, node, |p| - 1);
    assert f[|p| - 1] == p[|p| - 1];
  }

  lemma {:induction false} WalkOnSound(g: Graph, next: Successor, start: Edge, p: seq<Edge>, node: Vertex)
    requires WalkPrefix(g, next, start, p, node)
    ensures WalkOn(g, next, start, p, NodeAt(p, node, |p| - 1)).Closed? ==>
            IsFaceWalk(g, next, WalkOn(g, next, start, p, NodeAt(p, node, |p| - 1)).face, node)
    decreases |g.nodes| + 1 - |p|
  {
    var nodee := NodeAt(p, node, |p| - 1);
    match next(p[|p| - 1], nodee)
    case None =>
    case Some(e2) =>
      if e2 != start && |p| + 1 <= |g.nodes| + 1 {
        WalkPrefixExtend(g, next, start, p, node, e2);
        WalkOnSound(g, next, start, p + [e2], node);
      }
  }

  lemma {:induction false} WalkOnComplete(g: Graph, next: Successor, start: Edge, p: seq<Edge>, node: Vertex, f: seq<Edge>)
    requires WalkPrefix(g, next, start, p, node) && p <= f && IsFaceWalk(g, next, f, node)
    ensures WalkOn(g, next, start, p, NodeAt(p, node, |p| - 1)) == Closed(f)
    decreases |g.nodes| + 1 - |p|
  {
    var nodee := NodeAt(p, node, |p| - 1);
    if |f| == |p| {
      assert f == p;
    } else {
      FaceWalkStep(g, next, p, f, node);
      var e2 := f[|p|];
      assert e2 != start by {
        assert f[0] == start && e2 in f[1..];
      }
      WalkPrefixExtend(g, next, start, p, node, e2);
      assert p + [e2] <= f;
      WalkOnComplete(g, next, start, p + [e2], node, f);
    }
  }

  /** A walk closes exactly on the faces that start with its edge. */
  lemma WalkClosedIff(g: Graph, next: Successor, start: Edge, node: Vertex, f: seq<Edge>)
    ensures Walk(g, next, start, node) == Closed(f) <==> |f| >= 1 && f[0] == start && IsFaceWalk(g, next, f, node)
  {
    assert [start][1..] == [];
    assert WalkPrefix(g, next, start, [start], node);
    WalkOnSound(g, next, start, [start], node);
    if |f| >= 1 && f[0] == start && IsFaceWalk(g, next, f, node) {
      assert [start] <= f;
      WalkOnComplete(g, next, start, [start], node, f);
    }
  }

  // ---------------------------------------------------------------------
  // The enumeration
  // ---------------------------------------------------------------------

  /** The (node, incident edge) pairs at one node, in `edgesAt` order. */
  function PairsAt(g: Graph, v: Vertex): (r: seq<(Vertex, Edge)>)
    ensures |r| == |EdgesAt(g, v)|
    ensures forall i :: 0 <= i < |r| ==> r[i] == (v, EdgesAt(g, v)[i])
  {
    var es := EdgesAt(g, v);
    seq(|es|, i requires 0 <= i < |es| => (v, es[i]))
  }

  /** The (node, edge) pairs the two loops of `findFaces2` try, in order. */
  function Starts(g: Graph, nodes: seq<Vertex>): seq<(Vertex, Edge)>
  {
    if nodes == [] then [] else Starts(g, nodes[..|nodes| - 1]) + PairsAt(g, nodes[|nodes| - 1])
  }

  lemma {:induction false} StartsAppend(g: Graph, a: seq<Vertex>, b: seq<Vertex>)
    ensures Starts(g, a + b) == Starts(g, a) + Starts(g, b)
    decreases |b|
  {
    if b == [] {
      assert a + b == a;
    } else {
      var b' := b[..|b| - 1];
      assert (a + b)[..|a + b| - 1] == a + b';
      StartsAppend(g, a, b');
    }
  }

  lemma StartEdgesAreEdges(g: Graph, nodes: seq<Vertex>)
    ensures forall q :: q in Starts(g, nodes) ==> q.1 in g.edges
  {
    if nodes != [] {
      StartEdgesAreEdges(g, nodes[..|nodes| - 1]);
      var v := nodes[|nodes| - 1];
      forall q | q in PairsAt(g, v) ensures q.1 in g.edges {
        var i :| 0 <= i < |PairsAt(g, v)| && PairsAt(g, v)[i] == q;
        assert EdgesAt(g, v)[i] in EdgesAt(g, v);
      }
    }
  }

  /** How often edge `e` occurs in the stored faces: the value of
      `traversedEdges` for `e`. */
  function CountIn(faces: seq<seq<Edge>>, e: Edge): nat
  {
    if faces == [] then 0 else CountIn(faces[..|faces| - 1], e) + multiset(faces[|faces| - 1])[e]
  }

  /** The duplicate test of `findFaces2`: same length, and every edge of
      `face` occurs in `stored`. */
  predicate SameFace(stored: seq<Edge>, face: seq<Edge>)
  {
    |stored| == |face| && forall m :: 0 <= m < |face| ==> face[m] in stored
  }

  predicate IsNew(faces: seq<seq<Edge>>, face: seq<Edge>)
  {
    forall l :: 0 <= l < |faces| ==> !SameFace(faces[l], face)
  }

  /** One iteration of the inner loop: walk from the edge unless it was
      traversed twice already; keep a closed walk that is not a duplicate. */
  function Visit(g: Graph, next: Successor, faces: seq<seq<Edge>>, q: (Vertex, Edge)): Option<seq<seq<Edge>>>
  {
    if CountIn(faces, q.1) >= 2 then Some(faces)
    else match Walk(g, next, q.1, q.0)
      case Broken => None
      case TooLong => Some(faces)
      case Closed(f) => if IsNew(faces, f) then Some(faces + [f]) else Some(faces)
  }

  function Enumerate(g: Graph, next: Successor, qs: seq<(Vertex, Edge)>): Option<seq<seq<Edge>>>
  {
    if qs == [] then Some([])
    else match Enumerate(g, next, qs[..|qs| - 1])
      case None => None
      case Some(fs) => Visit(g, next, fs, qs[|qs| - 1])
  }

  /** The faces `findFaces2` returns; `None` when it throws. */
  function FacesOf(g: Graph, next: Successor): Option<seq<seq<Edge>>>
  {
    Enumerate(g, next, Starts(g, g.nodes))
  }

  lemma {:induction false} EnumerateNoneStays(g: Graph, next: Successor, qs: seq<(Vertex, Edge)>, rest: seq<(Vertex, Edge)>)
    requires Enumerate(g, next, qs) == None
    ensures Enumerate(g, next, qs + rest) == None
    decreases |rest|
  {
    if rest == [] {
      assert qs + rest == qs;
    } else {
      var rest' := rest[..|rest| - 1];
      assert (qs + rest)[..|qs + rest| - 1] == qs + rest';
      EnumerateNoneStays(g, next, qs, rest');
    }
  }

  /** Every stored face is a closed walk from one of the start pairs. */
  ghost predicate FromStarts(g: Graph, next: Successor, qs: seq<(Vertex, Edge)>, fs: seq<seq<Edge>>)
  {
    forall i :: 0 <= i < |fs| ==> exists q :: q in qs && Walk(g, next, q.1, q.0) == Closed(fs[i])
  }

  /** No stored face duplicates an earlier one. */
  predicate NoDuplicates(fs: seq<seq<Edge>>)
  {
    forall i, j :: 0 <= i < j < |fs| ==> !SameFace(fs[i], fs[j])
  }

  /** Each face was walked from an edge the faces before it use fewer than
      twice. */
  predicate FewTraversals(fs: seq<seq<Edge>>)
  {
    forall i :: 0 <= i < |fs| ==> |fs[i]| >= 1 && CountIn(fs[..i], fs[i][0]) < 2
  }

  /** What `findFaces2` promises about the faces it stores from the start
      pairs `qs`. */
  ghost predicate StoredFaces(g: Graph, next: Successor, qs: seq<(Vertex, Edge)>, fs: seq<seq<Edge>>)
  {
    FromStarts(g, next, qs, fs) && NoDuplicates(fs) && FewTraversals(fs)
  }

  lemma StoredFacesKeep(g: Graph, next: Successor, qs: seq<(Vertex, Edge)>, q: (Vertex, Edge), fs: seq<seq<Edge>>)
    requires StoredFaces(g, next, qs, fs)
    ensures StoredFaces(g, next, qs + [q], fs)
  {
    assert forall x :: x in qs ==> x in qs + [q];
  }

  lemma StoredFacesAdd(g: Graph, next: Successor, qs: seq<(Vertex, Edge)>, q: (Vertex, Edge), fs: seq<seq<Edge>>, f: seq<Edge>)
    requires StoredFaces(g, next, qs, fs)
    requires CountIn(fs, q.1) < 2 && Walk(g, next, q.1, q.0) == Closed(f) && IsNew(fs, f)
    ensures StoredFaces(g, next, qs + [q], fs + [f])
  {
    var fs' := fs + [f];
    assert [q.1] <= f;
    forall i | 0 <= i < |fs'| ensures |fs'[i]| >= 1 && CountIn(fs'[..i], fs'[i][0]) < 2 {
      if i < |fs| {
        assert fs'[..i] == fs[..i];
      } else {
        assert fs'[..i] == fs;
      }
    }
    forall i | 0 <= i < |fs'| ensures exists x :: x in qs + [q] && Walk(g, next, x.1, x.0) == Closed(fs'[i]) {
      if i == |fs| {
        assert q in qs + [q];
      } else {
        var x :| x in qs && Walk(g, next, x.1, x.0) == Closed(fs[i]);
        assert x in qs + [q];
      }
    }
  }

  lemma {:induction false} EnumerateStoresFaces(g: Graph, next: Successor, qs: seq<(Vertex, Edge)>)
    ensures Enumerate(g, next, qs).Some? ==> StoredFaces(g, next, qs, Enumerate(g, next, qs).value)
  {
    if qs != [] {
      var qs' := qs[..|qs| - 1];
      var q := qs[|qs| - 1];
      assert qs == qs' + [q];
      EnumerateStoresFaces(g, next, qs');
      match Enumerate(g, next, qs')
      case None =>
      case Some(fs) =>
        if CountIn(fs, q.1) < 2 && Walk(g, next, q.1, q.0).Closed? && IsNew(fs, Walk(g, next, q.1, q.0).face) {
          StoredFacesAdd(g, next, qs', q, fs, Walk(g, next, q.1, q.0).face);
        } else {
          StoredFacesKeep(g, next, qs', q, fs);
        }
    }
  }

  /** Every stored face is a face walk that starts at one of the nodes. */
  lemma FacesAreFaceWalks(g: Graph, next: Successor, fs: seq<seq<Edge>>, i: nat)
    requires FacesOf(g, next) == Some(fs) && i < |fs|
    ensures exists v :: v in g.nodes && IsFaceWalk(g, next, fs[i], v)
    ensures StaysIn(g, next) ==> forall e :: e in fs[i] ==> e in g.edges
  {
    EnumerateStoresFaces(g, next, Starts(g, g.nodes));
    var q :| q in Starts(g, g.nodes) && Walk(g, next, q.1, q.0) == Closed(fs[i]);
    WalkClosedIff(g, next, q.1, q.0, fs[i]);
    StartEdgesAreEdges(g, g.nodes);
    StartNodesAreNodes(g, g.nodes);
    assert [q.1] <= fs[i];
  }

  lemma StartNodesAreNodes(g: Graph, nodes: seq<Vertex>)
    ensures forall q :: q in Starts(g, nodes) ==> q.0 in nodes
  {
    if nodes != [] {
      StartNodesAreNodes(g, nodes[..|nodes| - 1]);
      assert forall v :: v in nodes[..|nodes| - 1] ==> v in nodes;
    }
  }

  // ---------------------------------------------------------------------
  // The imperative enumeration
  // ---------------------------------------------------------------------

  /** The `while (true)` walk of `findFaces2` from `edge` at `node1`. */
  method TraceFace(g: Graph, next: Successor, edge: Edge, node1: Vertex) returns (w: WalkOutcome)
    ensures w == Walk(g, next, edge, node1)
  {
    var face := [edge];
    var edge1 := edge;
    var nodee := node1;
    while true
      invariant 1 <= |face| <= |g.nodes| + 1 && edge1 == face[|face| - 1]
      invariant WalkOn(g, next, edge, face, nodee) == Walk(g, next, edge, node1)
      decreases |g.nodes| + 1 - |face|
    {
      var next := next(edge1, nodee);
      if next.None? {
        return Broken;
      }
      var edge2 := next.value;
      if edge2 == edge {
        return Closed(face);
      }
      face := face + [edge2];
      // `else if (nodee = edge1.targetNode)` assigns and is always taken
      if nodee == edge1.src {
        nodee := edge1.tgt;
      } else {
        nodee := edge1.src;
      }
      edge1 := edge2;
      if |face| > |g.nodes| + 1 {
        return TooLong;
      }
    }
  }

  /** How many elements of `s` occur in `t` (the counter `c`). */
  function MemberCount(s: seq<Edge>, t: seq<Edge>): (c: nat)
    ensures c <= |s|
  {
    if s == [] then 0 else MemberCount(s[..|s| - 1], t) + (if s[|s| - 1] in t then 1 else 0)
  }

  lemma {:induction false} MemberCountFull(s: seq<Edge>, t: seq<Edge>)
    ensures MemberCount(s, t) == |s| <==> forall m :: 0 <= m < |s| ==> s[m] in t
  {
    if s != [] {
      var s' := s[..|s| - 1];
      MemberCountFull(s', t);
      assert forall m :: 0 <= m < |s'| ==> s'[m] == s[m];
    }
  }

  /** The duplicate search of `findFaces2` over the stored faces. */
  method IsNewFace(faces: seq<seq<Edge>>, face: seq<Edge>) returns (b: bool)
    ensures b == IsNew(faces, face)
  {
    b := true;
    for l := 0 to |faces|
      invariant b == forall q :: 0 <= q < l ==> !SameFace(faces[q], face)
    {
      var c := 0;
      var tFace := faces[l];
      for m := 0 to |face|
        invariant c == MemberCount(face[..m], tFace)
      {
        assert face[..m + 1][..m] == face[..m];
        if face[m] in tFace {
          c := c + 1;
        }
      }
      assert face[..|face|] == face;
      MemberCountFull(face, tFace);
      if c == |face| && |tFace| == |face| {
        b := false;
      }
    }
  }

  /** `traversedEdges` holds, at the first position of every edge, how often
      the stored faces use it. */
  ghost predicate Counted(edges: seq<Edge>, traversed: seq<int>, faces: seq<seq<Edge>>)
  {
    traversed == Tallies(edges, faces, [])
  }

  /** The counters once the edges of `extra` are counted on top of `faces`:
      the count sits at the first position of each edge, later positions of
      a repeated edge stay 0. */
  ghost function Tallies(edges: seq<Edge>, faces: seq<seq<Edge>>, extra: seq<Edge>): (t: seq<int>)
    ensures |t| == |edges|
  {
    seq(|edges|, k requires 0 <= k < |edges| =>
      if edges[k] in edges[..k] then 0 else CountIn(faces, edges[k]) + multiset(extra)[edges[k]])
  }

  lemma TakeOneMore<T>(before: seq<T>, s: seq<T>, i: nat)
    requires i < |s|
    ensures before + s[..i + 1] == (before + s[..i]) + [s[i]]
  {
    assert s[..i + 1] == s[..i] + [s[i]];
  }

  lemma EnumerateSnoc(g: Graph, next: Successor, qs: seq<(Vertex, Edge)>, q: (Vertex, Edge))
    ensures Enumerate(g, next, qs + [q]) ==
      match Enumerate(g, next, qs)
      case None => None
      case Some(fs) => Visit(g, next, fs, q)
  {
    assert (qs + [q])[..|qs|] == qs;
  }

  /** Once a walk breaks, the whole enumeration fails. */
  lemma BrokenAborts(g: Graph, next: Successor, j: nat, i: nat)
    requires j < |g.nodes| && i < |PairsAt(g, g.nodes[j])|
    requires Enumerate(g, next, Starts(g, g.nodes[..j]) + PairsAt(g, g.nodes[j])[..i + 1]) == None
    ensures FacesOf(g, next) == None
  {
    var ps := PairsAt(g, g.nodes[j]);
    var before := Starts(g, g.nodes[..j]);
    var after := Starts(g, g.nodes[j + 1..]);
    var done := before + ps[..i + 1];
    var rest := ps[i + 1..] + after;
    assert g.nodes[..j + 1][..j] == g.nodes[..j];
    calc {
      Starts(g, g.nodes);
      { assert g.nodes == g.nodes[..j + 1] + g.nodes[j + 1..]; }
      Starts(g, g.nodes[..j + 1] + g.nodes[j + 1..]);
      { StartsAppend(g, g.nodes[..j + 1], g.nodes[j + 1..]); }
      Starts(g, g.nodes[..j + 1]) + after;
      (before + ps) + after;
      { assert ps == ps[..i + 1] + ps[i + 1..]; }
      (before + (ps[..i + 1] + ps[i + 1..])) + after;
      done + rest;
    }
    EnumerateNoneStays(g, next, done, rest);
  }

  /** Counting a newly stored face: every edge of the face is counted once per
      occurrence at its position in the edge list. */
  method TallyFace(traversed: array<int>, edges: seq<Edge>, faces: seq<seq<Edge>>, face: seq<Edge>)
    requires Counted(edges, traversed[..], faces)
    modifies traversed
    ensures Counted(edges, traversed[..], faces + [face])
  {
    assert face[..0] == [];
    for n := 0 to |face|
      invariant traversed[..] == Tallies(edges, faces, face[..n])
    {
      assert face[..n + 1] == face[..n] + [face[n]];
      ghost var before := traversed[..];
      // `findIndex` finds every edge a walk can meet; an index of -1 would
      // only set a property no later lookup reads
      if face[n] in edges {
        var ind := IndexOf(edges, face[n]);
        traversed[ind] := traversed[ind] + 1;
        forall k | 0 <= k < |edges| ensures traversed[k] == Tallies(edges, faces, face[..n + 1])[k] {
          if k != ind && edges[k] == face[n] {
            assert edges[ind] in edges[..k] by {
              assert ind < k;
              assert edges[..k][ind] == edges[ind];
            }
          }
        }
      }
    }
    assert face[..|face|] == face;
    assert (faces + [face])[..|faces|] == faces;
    assert traversed[..] == Tallies(edges, faces + [face], []);
  }

  /** One iteration of the inner loop of `findFaces2` on pair `q`. */
  method VisitPair(g: Graph, next: Successor, faces: seq<seq<Edge>>, traversed: array<int>, q: (Vertex, Edge))
    returns (r: Option<seq<seq<Edge>>>)
    requires Counted(g.edges, traversed[..], faces) && q.1 in g.edges
    modifies traversed
    ensures r == Visit(g, next, faces, q)
    ensures r.Some? ==> Counted(g.edges, traversed[..], r.value)
  {
    var index := IndexOf(g.edges, q.1);
    if traversed[index] >= 2 {
      return Some(faces);
    }
    var outcome := TraceFace(g, next, q.1, q.0);
    if outcome.Broken? {
      return None;
    }
    if outcome.TooLong? {
      return Some(faces);
    }
    var isNew := IsNewFace(faces, outcome.face);
    if isNew {
      TallyFace(traversed, g.edges, faces, outcome.face);
      return Some(faces + [outcome.face]);
    }
    return Some(faces);
  }

  /** The inner loop of `findFaces2` over the edges at node `j`. */
  method VisitNode(g: Graph, next: Successor, j: nat, faces0: seq<seq<Edge>>, traversed: array<int>)
    returns (r: Option<seq<seq<Edge>>>)
    requires j < |g.nodes|
    requires Enumerate(g, next, Starts(g, g.nodes[..j])) == Some(faces0)
    requires Counted(g.edges, traversed[..], faces0)
    modifies traversed
    ensures r.Some? ==> Enumerate(g, next, Starts(g, g.nodes[..j + 1])) == r
    ensures r.Some? ==> Counted(g.edges, traversed[..], r.value)
    ensures r.None? ==> FacesOf(g, next) == None
  {
    var node1 := g.nodes[j];
    var nEdges := EdgesAt(g, node1);
    var before := Starts(g, g.nodes[..j]);
    var ps := PairsAt(g, node1);
    var faces := faces0;
    assert before + ps[..0] == before;
    for i := 0 to |nEdges|
      invariant Enumerate(g, next, before + ps[..i]) == Some(faces)
      invariant Counted(g.edges, traversed[..], faces)
    {
      TakeOneMore(before, ps, i);
      EnumerateSnoc(g, next, before + ps[..i], (node1, nEdges[i]));
      assert nEdges[i] in g.edges;
      var step := VisitPair(g, next, faces, traversed, (node1, nEdges[i]));
      if step.None? {
        BrokenAborts(g, next, j, i);
        return None;
      }
      faces := step.value;
    }
    assert g.nodes[..j + 1][..j] == g.nodes[..j];
    assert Starts(g, g.nodes[..j + 1]) == before + ps[..|nEdges|] by {
      assert ps[..|nEdges|] == ps;
    }
    return Some(faces);
  }

  /** `findFaces2`: `None` when a walk meets a `null` edge and the source
      throws. */
  method FindFaces(g: Graph, next: Successor) returns (r: Option<seq<seq<Edge>>>)
    ensures r == FacesOf(g, next)
  {
    var faces: seq<seq<Edge>> := [];
    var traversed := new int[|g.edges|](_ => 0);
    assert traversed[..] == Tallies(g.edges, faces, []);
    for j := 0 to |g.nodes|
      invariant Enumerate(g, next, Starts(g, g.nodes[..j])) == Some(faces)
      invariant Counted(g.edges, traversed[..], faces)
    {
      var step := VisitNode(g, next, j, faces, traversed);
      if step.None? {
        return None;
      }
      faces := step.value;
    }
    assert g.nodes[..|g.nodes|] == g.nodes;
    r := Some(faces);
  }

  // ---------------------------------------------------------------------
  // findFaces3
  // ---------------------------------------------------------------------

  function AddUnique(s: seq<Vertex>, v: Vertex): seq<Vertex>
  {
    if v in s then s else s + [v]
  }

  /** The endpoints of the edges of a face in visiting order: target, then
      source, edge after edge. */
  function Endpoints(face: seq<Edge>): (r: seq<Vertex>)
    ensures |r| == 2 * |face|
  {
    if face == [] then [] else Endpoints(face[..|face| - 1]) + [face[|face| - 1].tgt, face[|face| - 1].src]
  }

  /** First occurrences only, in order. */
  function Dedup(s: seq<Vertex>): seq<Vertex>
  {
    if s == [] then [] else AddUnique(Dedup(s[..|s| - 1]), s[|s| - 1])
  }

  /** `findFaces3` for one face: each endpoint once, target before source. */
  function FaceVertices(face: seq<Edge>): seq<Vertex>
  {
    if face == [] then []
    else
      var e := face[|face| - 1];
      AddUnique(AddUnique(FaceVertices(face[..|face| - 1]), e.tgt), e.src)
  }

  /** `findFaces3`. */
  function FacesAsVertices(faces: seq<seq<Edge>>): (r: seq<seq<Vertex>>)
    ensures |r| == |faces|
    ensures forall i :: 0 <= i < |faces| ==> r[i] == FaceVertices(faces[i])
  {
    seq(|faces|, i requires 0 <= i < |faces| => FaceVertices(faces[i]))
  }

  lemma {:induction false} FaceVerticesIsDedup(face: seq<Edge>)
    ensures FaceVertices(face) == Dedup(Endpoints(face))
  {
    if face != [] {
      var face' := face[..|face| - 1];
      var e := face[|face| - 1];
      FaceVerticesIsDedup(face');
      var s := Endpoints(face);
      assert s[..|s| - 1] == Endpoints(face') + [e.tgt];
      assert s[..|s| - 1][..|s| - 2] == Endpoints(face');
    }
  }

  lemma {:induction false} IndexOfAppend(s: seq<Vertex>, t: seq<Vertex>, y: Vertex)
    requires y in s
    ensures IndexOf(s + t, y) == IndexOf(s, y)
  {
    if s[0] != y {
      assert (s + t)[1..] == s[1..] + t;
      IndexOfAppend(s[1..], t, y);
    }
  }

  lemma {:induction false} DedupFacts(s: seq<Vertex>)
    ensures Distinct(Dedup(s))
    ensures forall v :: v in Dedup(s) <==> v in s
    ensures forall i, j :: 0 <= i < j < |Dedup(s)| ==> IndexOf(s, Dedup(s)[i]) < IndexOf(s, Dedup(s)[j])
  {
    if s != [] {
      var s' := s[..|s| - 1];
      var x := s[|s| - 1];
      DedupFacts(s');
      var d := Dedup(s');
      assert s == s' + [x];
      forall v | v in s' ensures IndexOf(s, v) == IndexOf(s', v) {
        IndexOfAppend(s', [x], v);
      }
      if x !in d {
        assert IndexOf(s, x) == |s'| by {
          assert x !in s';
          assert s[..|s'|] == s';
        }
        forall i | 0 <= i < |d| ensures IndexOf(s, d[i]) < IndexOf(s, x) {
          assert d[i] in d;
        }
        assert Dedup(s) == d + [x];
      }
    }
  }

  /** `findFaces3`: the vertex list of a face holds every endpoint of its
      edges exactly once, in order of first appearance (target before source). */
  lemma FaceVerticesFacts(face: seq<Edge>)
    ensures Distinct(FaceVertices(face))
    ensures forall v :: v in FaceVertices(face) <==> v in Endpoints(face)
    ensures forall i, j :: 0 <= i < j < |FaceVertices(face)| ==>
      IndexOf(Endpoints(face), FaceVertices(face)[i]) < IndexOf(Endpoints(face), FaceVertices(face)[j])
  {
    FaceVerticesIsDedup(face);
    DedupFacts(Endpoints(face));
  }

  lemma {:induction false} EndpointsTouch(face: seq<Edge>)
    ensures forall v :: v in Endpoints(face) <==> exists e :: e in face && e.Touches(v)
  {
    if face != [] {
      var face' := face[..|face| - 1];
      var last := face[|face| - 1];
      EndpointsTouch(face');
      assert face == face' + [last];
      forall v ensures v in Endpoints(face) <==> exists e :: e in face && e.Touches(v) {
        if v in Endpoints(face') {
          var e :| e in face' && e.Touches(v);
          assert e in face;
        } else if v == last.tgt || v == last.src {
          assert last in face;
        }
      }
    }
  }
}
