/** `checkConsecutiveNeighbors`: a walk around the outer boundary of the
    working graph, from the edge between the two anchors `u1` and `u2`, that
    steps over the candidate node, while a counter measures the current run
    of the candidate's neighbours among the visited nodes. */
module Boundary {
  import opened Graphs
  import opened Rotation

  /** The state the walk starts its loop in. */
  datatype Start = Start(edge12: Edge, edge: Edge, leftest: Vertex)

  /** The opening steps: find the anchor edge, leave it from the anchor with
      the smaller x (`u1` on a tie), step over `node` if the first edge
      touches it, and stand at the other anchor. `None` when an edge turns
      out `undefined` or `null` and the source throws. */
  function WalkStart(g: Graph, next: Successor, pos: Layout, node: Vertex, u1: Vertex, u2: Vertex): (r: Option<Start>)
    ensures r.None? <==>
      (FindEdge(g.edges, u1, u2).None? ||
       var first := if Center(pos, u1).x > Center(pos, u2).x then u2 else u1;
       var e := next(FindEdge(g.edges, u1, u2).value, first);
       e.None? || (e.value.Touches(node) && next(e.value, node).None?))
    ensures r.Some? ==> r.value.edge12 in g.edges && Connects(r.value.edge12, u1, u2)
    ensures r.Some? ==> (r.value.leftest == u1 || r.value.leftest == u2)
    ensures r.Some? ==>
      Center(pos, r.value.leftest).x >= Center(pos, u1).x && Center(pos, r.value.leftest).x >= Center(pos, u2).x
  {
    match FindEdge(g.edges, u1, u2)
    case None => None
    case Some(edge12) =>
      var swap := Center(pos, u1).x > Center(pos, u2).x;
      var first := if swap then u2 else u1;
      var other := if swap then u1 else u2;
      match next(edge12, first)
      case None => None
      case Some(edge) =>
        if edge.src == node || edge.tgt == node then
          match next(edge, node)
          case None => None
          case Some(edge2) => Some(Start(edge12, edge2, other))
        else Some(Start(edge12, edge, other))
  }

  function Prepend(v: Vertex, w: Option<seq<Vertex>>): (r: Option<seq<Vertex>>)
    ensures r.Some? <==> w.Some?
    ensures r.Some? ==> r.value == [v] + w.value
  {
    match w
    case None => None
    case Some(vs) => Some([v] + vs)
  }

  /** Where the walk stands: the current boundary edge and `leftest`. */
  datatype Position = Position(edge: Edge, leftest: Vertex)

  /** One round of the `while (edge !== edge12)` loop: when the next boundary
      edge touches the candidate, step over it and stand at its other end;
      otherwise move `leftest` across the edge just walked. `None` when an
      edge comes back `null` and the source throws. */
  function Advance(next: Successor, node: Vertex, edge: Edge, leftest: Vertex): (r: Option<Position>)
    ensures r.Some? ==> next(edge, leftest).Some?
  {
    match next(edge, leftest)
    case None => None
    case Some(edge1) =>
      if edge1.src == node || edge1.tgt == node then
        var l := if edge1.src == node then edge1.tgt else edge1.src;
        match next(edge1, node)
        case None => None
        case Some(edge2) => Some(Position(edge2, l))
      else
        var l := if edge.src == leftest then edge.tgt else if edge.tgt == leftest then edge.src else leftest;
        Some(Position(edge1, l))
  }

  /** The loop: the successive values of `leftest` until the walk is back on
      the anchor edge. `fuel` bounds the number of rounds, and running out of
      it stands for a walk that never returns to the anchor edge. */
  function WalkLoop(next: Successor, node: Vertex, edge12: Edge, edge: Edge, leftest: Vertex, fuel: nat): (r: Option<seq<Vertex>>)
    ensures r.Some? ==> |r.value| <= fuel
    decreases fuel
  {
    if edge == edge12 then Some([])
    else if fuel == 0 then None
    else match Advance(next, node, edge, leftest)
      case None => None
      case Some(p) => Prepend(p.leftest, WalkLoop(next, node, edge12, p.edge, p.leftest, fuel - 1))
  }

  /** More rounds do not change a walk that came back: `fuel` only decides
      how long a walk that never returns is followed. */
  lemma {:induction false} WalkLoopMono(next: Successor, node: Vertex, edge12: Edge, edge: Edge, leftest: Vertex,
                                        f: nat, f': nat)
    requires f <= f' && WalkLoop(next, node, edge12, edge, leftest, f).Some?
    ensures WalkLoop(next, node, edge12, edge, leftest, f') == WalkLoop(next, node, edge12, edge, leftest, f)
    decreases f
  {
    if edge != edge12 {
      var p := Advance(next, node, edge, leftest).value;
      WalkLoopMono(next, node, edge12, p.edge, p.leftest, f - 1, f' - 1);
    }
  }

  /** The counter `counter5` after visiting `s`: the length of the run of
      members of `list` at the end of `s`. */
  function RunLen(s: seq<Vertex>, list: seq<Vertex>): (n: nat)
    ensures n <= |s|
  {
    if s == [] then 0
    else if s[|s| - 1] in list then RunLen(s[..|s| - 1], list) + 1
    else 0
  }

  /** The flag `bool` after visiting `s`: after some visit past the first,
      the counter was raised to exactly `size`. */
  predicate Reached(s: seq<Vertex>, list: seq<Vertex>, size: nat)
  {
    if |s| <= 1 then false
    else Reached(s[..|s| - 1], list, size) || (s[|s| - 1] in list && RunLen(s, list) == size)
  }

  /** The run at the end of `s`, described without recursion: its last
      `RunLen` elements are members and the one before them is not. */
  lemma {:induction false} RunLenIsMaximalRun(s: seq<Vertex>, list: seq<Vertex>)
    ensures forall k :: |s| - RunLen(s, list) <= k < |s| ==> s[k] in list
    ensures RunLen(s, list) < |s| ==> s[|s| - RunLen(s, list) - 1] !in list
  {
    if s != [] {
      var s' := s[..|s| - 1];
      RunLenIsMaximalRun(s', list);
      assert forall k :: 0 <= k < |s'| ==> s'[k] == s[k];
    }
  }

  /** A run of members from `a` up to `b`, preceded by the start or by a
      non-member, has length `RunLen(s[..b])`. */
  lemma {:induction false} MaximalRunIsRunLen(s: seq<Vertex>, list: seq<Vertex>, a: nat, b: nat)
    requires a <= b <= |s|
    requires forall k :: a <= k < b ==> s[k] in list
    requires a == 0 || s[a - 1] !in list
    ensures RunLen(s[..b], list) == b - a
    decreases b - a
  {
    if a < b {
      MaximalRunIsRunLen(s, list, a, b - 1);
      assert s[..b][..b - 1] == s[..b - 1];
    } else if a > 0 {
      assert s[..a][..a - 1] == s[..a - 1];
    }
  }

  /** The run at the end of the prefix `s[..b]`. */
  ghost predicate RunEndsAt(s: seq<Vertex>, list: seq<Vertex>, size: nat, b: nat)
  {
    2 <= b <= |s| && size >= 1 && b >= size &&
    (forall k :: b - size <= k < b ==> s[k] in list) &&
    (b == size || s[b - size - 1] !in list)
  }

  lemma {:induction false} ReachedAt(s: seq<Vertex>, list: seq<Vertex>, size: nat)
    ensures Reached(s, list, size) <==>
            exists b :: 2 <= b <= |s| && s[b - 1] in list && RunLen(s[..b], list) == size
  {
    if |s| > 1 {
      var s' := s[..|s| - 1];
      ReachedAt(s', list, size);
      forall b | 2 <= b <= |s'| ensures s'[..b] == s[..b] && s'[b - 1] == s[b - 1] { }
      assert s[..|s|] == s;
      if Reached(s, list, size) && !Reached(s', list, size) {
        assert s[|s| - 1] in list && RunLen(s[..|s|], list) == size;
      }
      if exists b :: 2 <= b <= |s| && s[b - 1] in list && RunLen(s[..b], list) == size {
        var b :| 2 <= b <= |s| && s[b - 1] in list && RunLen(s[..b], list) == size;
        if b < |s| {
          assert s'[..b] == s[..b];
        }
      }
    }
  }

  /** The flag is raised exactly when some stretch of exactly `size`
      consecutive visited nodes are all neighbours, the stretch ends after the
      first visit, and it starts at the beginning or right after a node that
      is not a neighbour. */
  lemma ReachedIff(s: seq<Vertex>, list: seq<Vertex>, size: nat)
    ensures Reached(s, list, size) <==> exists b: nat :: RunEndsAt(s, list, size, b)
  {
    ReachedAt(s, list, size);
    if Reached(s, list, size) {
      var b :| 2 <= b <= |s| && s[b - 1] in list && RunLen(s[..b], list) == size;
      RunLenIsMaximalRun(s[..b], list);
      assert size >= 1;
      assert RunEndsAt(s, list, size, b);
    }
    if exists b: nat :: RunEndsAt(s, list, size, b) {
      var b: nat :| RunEndsAt(s, list, size, b);
      MaximalRunIsRunLen(s, list, b - size, b);
    }
  }

  /** The verdict once the walk's remaining visits `w` are known. */
  function Verdict(visited: seq<Vertex>, list: seq<Vertex>, w: Option<seq<Vertex>>): Option<bool>
  {
    match w
    case None => None
    case Some(rest) => Some(Reached(visited + rest, list, |list|))
  }

  /** What `checkConsecutiveNeighbors(node, neighbors(node), u1, u2)`
      returns; `None` when it throws or does not come back within `fuel`
      rounds. */
  function ConsecutiveNeighbors(g: Graph, next: Successor, pos: Layout, node: Vertex, u1: Vertex, u2: Vertex, fuel: nat): Option<bool>
  {
    match WalkStart(g, next, pos, node, u1, u2)
    case None => None
    case Some(st) => Verdict([st.leftest], Neighbors(g, node), WalkLoop(next, node, st.edge12, st.edge, st.leftest, fuel))
  }

  /** A verdict found within `f` rounds is the verdict for every larger
      bound: only the failure answer depends on the bound. */
  lemma ConsecutiveNeighborsMono(g: Graph, next: Successor, pos: Layout, node: Vertex, u1: Vertex, u2: Vertex,
                                 f: nat, f': nat)
    requires f <= f' && ConsecutiveNeighbors(g, next, pos, node, u1, u2, f).Some?
    ensures ConsecutiveNeighbors(g, next, pos, node, u1, u2, f') == ConsecutiveNeighbors(g, next, pos, node, u1, u2, f)
  {
    var st := WalkStart(g, next, pos, node, u1, u2).value;
    WalkLoopMono(next, node, st.edge12, st.edge, st.leftest, f, f');
  }

  lemma VerdictStep(visited: seq<Vertex>, list: seq<Vertex>, l: Vertex, w: Option<seq<Vertex>>)
    ensures Verdict(visited, list, Prepend(l, w)) == Verdict(visited + [l], list, w)
  {
    if w.Some? {
      assert visited + ([l] + w.value) == (visited + [l]) + w.value;
    }
  }

  /** Visiting one more node: the counter grows on a member and drops to
      zero otherwise, and the flag is raised when it reaches `size`. */
  lemma VisitOne(visited: seq<Vertex>, list: seq<Vertex>, size: nat, l: Vertex)
    requires |visited| >= 1
    ensures RunLen(visited + [l], list) == if l in list then RunLen(visited, list) + 1 else 0
    ensures Reached(visited + [l], list, size) ==
            (Reached(visited, list, size) || (l in list && RunLen(visited, list) + 1 == size))
  {
    assert (visited + [l])[..|visited|] == visited;
  }

  /** The loop body of `checkConsecutiveNeighbors` up to the counter. */
  method AdvanceStep(next: Successor, node: Vertex, edge: Edge, leftest: Vertex) returns (r: Option<Position>)
    ensures r == Advance(next, node, edge, leftest)
  {
    var step := next(edge, leftest);
    if step.None? {
      return None;
    }
    var edge1 := step.value;
    var l := leftest;
    if edge1.src == node {
      var edge2 := next(edge1, node);
      l := edge1.tgt;
      if edge2.None? {
        return None;
      }
      edge1 := edge2.value;
    } else if edge1.tgt == node {
      var edge2 := next(edge1, node);
      l := edge1.src;
      if edge2.None? {
        return None;
      }
      edge1 := edge2.value;
    } else if edge.src == leftest {
      l := edge.tgt;
    } else if edge.tgt == leftest {
      l := edge.src;
    }
    return Some(Position(edge1, l));
  }

  /** One round of the loop moves the verdict one visit on. */
  lemma LoopStep(visited: seq<Vertex>, list: seq<Vertex>, next: Successor, node: Vertex,
                 edge12: Edge, edge: Edge, leftest: Vertex, rounds: nat)
    requires edge != edge12 && rounds > 0 && Advance(next, node, edge, leftest).Some?
    ensures var p := Advance(next, node, edge, leftest).value;
            Verdict(visited, list, WalkLoop(next, node, edge12, edge, leftest, rounds))
            == Verdict(visited + [p.leftest], list, WalkLoop(next, node, edge12, p.edge, p.leftest, rounds - 1))
  {
    var p := Advance(next, node, edge, leftest).value;
    VerdictStep(visited, list, p.leftest, WalkLoop(next, node, edge12, p.edge, p.leftest, rounds - 1));
  }

  /** The `while (edge !== edge12)` loop with the counter `counter5` and the
      flag `bool`, started after the first visit. */
  method RunLoop(list: seq<Vertex>, next: Successor, node: Vertex, edge12: Edge, edge0: Edge, leftest0: Vertex, fuel: nat)
    returns (r: Option<bool>)
    ensures r == Verdict([leftest0], list, WalkLoop(next, node, edge12, edge0, leftest0, fuel))
  {
    var edge, leftest := edge0, leftest0;
    var counter5 := 0;
    var found := false;
    if leftest in list {
      counter5 := counter5 + 1;
    }
    ghost var visited := [leftest];
    assert visited[..0] == [];
    var rounds := fuel;
    while edge != edge12
      invariant |visited| >= 1
      invariant counter5 == RunLen(visited, list)
      invariant found == Reached(visited, list, |list|)
      invariant Verdict([leftest0], list, WalkLoop(next, node, edge12, edge0, leftest0, fuel))
                == Verdict(visited, list, WalkLoop(next, node, edge12, edge, leftest, rounds))
      decreases rounds
    {
      if rounds == 0 {
        return None;
      }
      var step := AdvanceStep(next, node, edge, leftest);
      if step.None? {
        return None;
      }
      LoopStep(visited, list, next, node, edge12, edge, leftest, rounds);
      leftest := step.value.leftest;
      VisitOne(visited, list, |list|, leftest);
      if leftest in list {
        counter5 := counter5 + 1;
        if counter5 == |list| {
          found := true;
        }
      } else {
        counter5 := 0;
      }
      visited := visited + [leftest];
      edge := step.value.edge;
      rounds := rounds - 1;
    }
    assert visited + [] == visited;
    return Some(found);
  }

  /** `checkConsecutiveNeighbors`: the opening steps, then the loop. */
  method CheckConsecutiveNeighbors(g: Graph, next: Successor, pos: Layout, node: Vertex, u1: Vertex, u2: Vertex, fuel: nat)
    returns (r: Option<bool>)
    ensures r == ConsecutiveNeighbors(g, next, pos, node, u1, u2, fuel)
  {
    var start := WalkStart(g, next, pos, node, u1, u2);
    if start.None? {
      return None;
    }
    r := RunLoop(Neighbors(g, node), next, node, start.value.edge12, start.value.edge, start.value.leftest, fuel);
  }
}
