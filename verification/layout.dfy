/** The drawing phase of the shift method (`shiftMethod` and its `Step`),
    together with `leftest`, `rightest` and `internalNeighbors`. Nodes are
    copied into the drawing one per step in label order; from the fourth
    node on, part of the outer face is shifted right by one or two grid
    squares (30 px each) and the new node is put where the 45-degree
    diagonals through its leftmost and rightmost neighbours meet. */
module Shift {
  import opened Graphs
  import opened Rotation
  import opened OuterFace

  function X(pos: Layout, v: Vertex): real { Center(pos, v).x }
  function Y(pos: Layout, v: Vertex): real { Center(pos, v).y }

  // ---------------------------------------------------------------------
  // leftest, rightest, internalNeighbors
  // ---------------------------------------------------------------------

  /** The index `leftest` settles on: the scan keeps the current index
      unless a later node is strictly further left, so among nodes of equal
      x the first one wins. */
  function LeftmostIndex(pos: Layout, list: seq<Vertex>): (k: nat)
    requires list != []
    ensures k < |list|
    ensures forall i :: 0 <= i < |list| ==> X(pos, list[k]) <= X(pos, list[i])
    ensures forall i :: 0 <= i < k ==> X(pos, list[i]) > X(pos, list[k])
  {
    if |list| == 1 then 0
    else
      var m := LeftmostIndex(pos, list[..|list| - 1]);
      if X(pos, list[|list| - 1]) < X(pos, list[m]) then |list| - 1 else m
  }

  /** The index `rightest` settles on: the first node of largest x. */
  function RightmostIndex(pos: Layout, list: seq<Vertex>): (k: nat)
    requires list != []
    ensures k < |list|
    ensures forall i :: 0 <= i < |list| ==> X(pos, list[k]) >= X(pos, list[i])
    ensures forall i :: 0 <= i < k ==> X(pos, list[i]) < X(pos, list[k])
  {
    if |list| == 1 then 0
    else
      var m := RightmostIndex(pos, list[..|list| - 1]);
      if X(pos, list[|list| - 1]) > X(pos, list[m]) then |list| - 1 else m
  }

  function Leftmost(pos: Layout, list: seq<Vertex>): Vertex
    requires list != []
  {
    list[LeftmostIndex(pos, list)]
  }

  function Rightmost(pos: Layout, list: seq<Vertex>): Vertex
    requires list != []
  {
    list[RightmostIndex(pos, list)]
  }

  /** `leftest(nodeList)`; an empty list makes the source throw, so the
      callers check for it first. */
  method Leftest(pos: Layout, nodeList: seq<Vertex>) returns (finalNode: Vertex)
    requires nodeList != []
    ensures finalNode == Leftmost(pos, nodeList)
  {
    var min := X(pos, nodeList[0]);
    var index := 0;
    for i := 1 to |nodeList|
      invariant index == LeftmostIndex(pos, nodeList[..i])
      invariant min == X(pos, nodeList[index])
    {
      assert nodeList[..i + 1][..i] == nodeList[..i];
      if X(pos, nodeList[i]) < min {
        min := X(pos, nodeList[i]);
        index := i;
      }
    }
    assert nodeList[..|nodeList|] == nodeList;
    finalNode := nodeList[index];
  }

  /** `rightest(nodeList)`. */
  method Rightest(pos: Layout, nodeList: seq<Vertex>) returns (finalNode: Vertex)
    requires nodeList != []
    ensures finalNode == Rightmost(pos, nodeList)
  {
    var max := X(pos, nodeList[0]);
    var index := 0;
    for i := 1 to |nodeList|
      invariant index == RightmostIndex(pos, nodeList[..i])
      invariant max == X(pos, nodeList[index])
    {
      assert nodeList[..i + 1][..i] == nodeList[..i];
      if X(pos, nodeList[i]) > max {
        max := X(pos, nodeList[i]);
        index := i;
      }
    }
    assert nodeList[..|nodeList|] == nodeList;
    finalNode := nodeList[index];
  }

  /** `list.filter(item => item !== a && item !== b)`. */
  function Except(list: seq<Vertex>, a: Vertex, b: Vertex): (r: seq<Vertex>)
    ensures |r| <= |list|
    ensures forall u :: u in r <==> u in list && u != a && u != b
  {
    if list == [] then []
    else (if list[0] != a && list[0] != b then [list[0]] else []) + Except(list[1..], a, b)
  }

  /** Filtering two members out of a list without repetitions removes
      exactly those two (one, when they coincide). */
  lemma {:induction false} ExceptCount(list: seq<Vertex>, a: Vertex, b: Vertex)
    requires Distinct(list) && a in list && b in list
    ensures |Except(list, a, b)| == |list| - (if a == b then 1 else 2)
  {
    var rest := list[1..];
    assert Distinct(rest);
    if list[0] == a || list[0] == b {
      assert list[0] !in rest;
      var other := if list[0] == a then b else a;
      if other == list[0] {
        ExceptNone(rest, a, b);
      } else {
        assert other in rest;
        ExceptOne(rest, a, b, other);
      }
    } else {
      ExceptCount(rest, a, b);
    }
  }

  lemma {:induction false} ExceptNone(list: seq<Vertex>, a: Vertex, b: Vertex)
    requires a !in list && b !in list
    ensures Except(list, a, b) == list
  {
    if list != [] {
      ExceptNone(list[1..], a, b);
      assert list == [list[0]] + list[1..];
    }
  }

  lemma {:induction false} ExceptOne(list: seq<Vertex>, a: Vertex, b: Vertex, c: Vertex)
    requires Distinct(list) && c in list && (c == a || c == b)
    requires a !in list || b !in list || a == b
    ensures |Except(list, a, b)| == |list| - 1
  {
    var rest := list[1..];
    assert Distinct(rest);
    if list[0] == c {
      assert c !in rest;
      ExceptNone(rest, a, b);
    } else {
      ExceptOne(rest, a, b, c);
    }
  }

  /** `internalNeighbors(node)`: the neighbours other than the leftmost and
      the rightmost; `None` for the `undefined` of a node without
      neighbours. */
  function InternalNeighbors(g: Graph, pos: Layout, node: Vertex): (r: Option<seq<Vertex>>)
    ensures r.None? <==> Neighbors(g, node) == []
    ensures r.Some? ==> forall u :: u in r.value <==>
      u in Neighbors(g, node) && u != Leftmost(pos, Neighbors(g, node)) && u != Rightmost(pos, Neighbors(g, node))
  {
    var neighbors := Neighbors(g, node);
    if |neighbors| > 0 then Some(Except(neighbors, Leftmost(pos, neighbors), Rightmost(pos, neighbors)))
    else None
  }

  /** With no repeated neighbour, exactly two neighbours are left out, or one
      when the leftmost is also the rightmost. */
  lemma InternalNeighborsCount(g: Graph, pos: Layout, node: Vertex)
    requires Neighbors(g, node) != [] && Distinct(Neighbors(g, node))
    ensures var ns := Neighbors(g, node);
      |InternalNeighbors(g, pos, node).value| == |ns| - (if Leftmost(pos, ns) == Rightmost(pos, ns) then 1 else 2)
  {
    var ns := Neighbors(g, node);
    ExceptCount(ns, Leftmost(pos, ns), Rightmost(pos, ns));
  }

  // ---------------------------------------------------------------------
  // getChildren, pushChildren: covering sets
  // ---------------------------------------------------------------------

  /** `getChildren(node)`: the labelled neighbours below `node` (larger y).
      The node `b` being inserted is the only unlabelled one. */
  function Children(g: Graph, pos: Layout, b: Vertex, node: Vertex): (r: seq<Vertex>)
    ensures forall u :: u in r <==> u in Neighbors(g, node) && Y(pos, u) > Y(pos, node) && u != b
  {
    Below(Neighbors(g, node), pos, b, Y(pos, node))
  }

  function Below(list: seq<Vertex>, pos: Layout, b: Vertex, y: real): (r: seq<Vertex>)
    ensures forall u :: u in r <==> u in list && Y(pos, u) > y && u != b
  {
    if list == [] then []
    else (if Y(pos, list[0]) > y && list[0] != b then [list[0]] else []) + Below(list[1..], pos, b, y)
  }

  /** The children `pushChildren` descends into: all but the leftmost and
      the rightmost child (the filter's `item !== b` never applies, since
      `b` is not a child). */
  function Kids(g: Graph, pos: Layout, b: Vertex, node: Vertex): (r: seq<Vertex>)
    ensures forall u :: u in r ==> u in Children(g, pos, b, node)
  {
    var c := Children(g, pos, b, node);
    if c == [] then [] else Except(c, Leftmost(pos, c), Rightmost(pos, c))
  }

  /** Every endpoint of the edges `es`. */
  function Ends(es: seq<Edge>): (r: seq<Vertex>)
    ensures forall e :: e in es ==> e.src in r && e.tgt in r
  {
    if es == [] then [] else [es[0].src, es[0].tgt] + Ends(es[1..])
  }

  lemma {:induction false} EndsWithin(es: seq<Edge>, nodes: seq<Vertex>)
    requires forall e :: e in es ==> e.src in nodes && e.tgt in nodes
    ensures forall u :: u in Ends(es) ==> u in nodes
  {
    if es != [] {
      EndsWithin(es[1..], nodes);
      assert es[0] in es;
    }
  }

  /** The nodes of `g` with an edge that lie strictly below height `y`. */
  function Lower(g: Graph, pos: Layout, y: real): set<Vertex>
  {
    set u | u in Ends(g.edges) && Y(pos, u) > y
  }

  /** A kid lies below its parent, so fewer nodes lie below the kid. */
  lemma LowerShrinks(g: Graph, pos: Layout, node: Vertex, kid: Vertex)
    requires kid in Ends(g.edges) && Y(pos, kid) > Y(pos, node)
    ensures |Lower(g, pos, Y(pos, kid))| < |Lower(g, pos, Y(pos, node))|
  {
    var below, belowKid := Lower(g, pos, Y(pos, node)), Lower(g, pos, Y(pos, kid));
    assert belowKid <= below;
    assert kid in below && kid !in belowKid;
    var rest := below - belowKid;
    assert below == belowKid + rest && belowKid * rest == {};
    assert |below| == |belowKid| + |rest|;
    assert kid in rest;
  }

  /** A child of `node` is the far end of one of `node`'s edges. */
  lemma ChildHasEdge(g: Graph, pos: Layout, b: Vertex, node: Vertex, k: Vertex)
    requires k in Children(g, pos, b, node)
    ensures k in Ends(g.edges) && Y(pos, k) > Y(pos, node) && k != b
  {
    assert Edge(node, k) in g.edges || Edge(k, node) in g.edges;
  }

  /** What `pushChildren(array, node)` appends: every kid, each followed by
      what the call on that kid appends. Every node in it lies below `node`. */
  function Cover(g: Graph, pos: Layout, b: Vertex, node: Vertex): (r: seq<Vertex>)
    ensures forall u :: u in r ==> u in Ends(g.edges) && u != b && Y(pos, u) > Y(pos, node)
    decreases |Lower(g, pos, Y(pos, node))|, 1
  {
    CoverEach(g, pos, b, node, Kids(g, pos, b, node))
  }

  function CoverEach(g: Graph, pos: Layout, b: Vertex, node: Vertex, kids: seq<Vertex>): (r: seq<Vertex>)
    requires forall k :: k in kids ==> k in Children(g, pos, b, node)
    ensures forall u :: u in r ==> u in Ends(g.edges) && u != b && Y(pos, u) > Y(pos, node)
    decreases |Lower(g, pos, Y(pos, node))|, 0, |kids|
  {
    if kids == [] then []
    else
      var k := kids[0];
      ChildHasEdge(g, pos, b, node, k);
      LowerShrinks(g, pos, node, k);
      [k] + Cover(g, pos, b, k) + CoverEach(g, pos, b, node, kids[1..])
  }

  /** The covering set of `node` holds every kid of `node` and is closed
      under taking kids: it is everything reachable by the kid relation. */
  lemma CoverClosed(g: Graph, pos: Layout, b: Vertex, node: Vertex)
    ensures forall k :: k in Kids(g, pos, b, node) ==> k in Cover(g, pos, b, node)
    ensures forall u, k :: u in Cover(g, pos, b, node) && k in Kids(g, pos, b, u) ==> k in Cover(g, pos, b, node)
    decreases |Lower(g, pos, Y(pos, node))|, 1
  {
    CoverEachClosed(g, pos, b, node, Kids(g, pos, b, node));
  }

  lemma CoverEachClosed(g: Graph, pos: Layout, b: Vertex, node: Vertex, kids: seq<Vertex>)
    requires forall k :: k in kids ==> k in Children(g, pos, b, node)
    ensures forall k :: k in kids ==> k in CoverEach(g, pos, b, node, kids)
    ensures forall u, k :: u in CoverEach(g, pos, b, node, kids) && k in Kids(g, pos, b, u) ==> k in CoverEach(g, pos, b, node, kids)
    decreases |Lower(g, pos, Y(pos, node))|, 0, |kids|
  {
    if kids != [] {
      var k := kids[0];
      ChildHasEdge(g, pos, b, node, k);
      LowerShrinks(g, pos, node, k);
      CoverClosed(g, pos, b, k);
      CoverEachClosed(g, pos, b, node, kids[1..]);
      assert CoverEach(g, pos, b, node, kids) == [k] + Cover(g, pos, b, k) + CoverEach(g, pos, b, node, kids[1..]);
    }
  }

  /** The covering sets of one step, as the value the loops below use. */
  type Covers = Vertex -> seq<Vertex>

  function CoverOf(g: Graph, pos: Layout, b: Vertex): (cover: Covers)
    ensures forall v, u :: u in cover(v) ==> u in Ends(g.edges) && u != b
  {
    v => Cover(g, pos, b, v)
  }

  // ---------------------------------------------------------------------
  // The lists move11 and move21 and their deduplication
  // ---------------------------------------------------------------------

  /** Which shift an already placed node takes: outer-face nodes strictly
      between the leftmost and rightmost neighbour move one square, those at
      or right of the rightmost move two, all others stay. */
  datatype Band = Stay | Middle | Right

  function BandOf(pos: Layout, outer: seq<Vertex>, lx: real, rx: real, v: Vertex): (r: Band)
    ensures r == Middle <==> v in outer && lx < X(pos, v) < rx
    ensures r == Right <==> v in outer && X(pos, v) >= rx && !(lx < X(pos, v) < rx)
  {
    if v in outer && X(pos, v) > lx && X(pos, v) < rx then Middle
    else if v in outer && X(pos, v) >= rx then Right
    else Stay
  }

  /** `move11` (band `Middle`) or `move21` (band `Right`) after the loop over
      the placed nodes `nodes`, with `cover` giving what `pushChildren`
      appends for a node. */
  function Gather(cover: Covers, pos: Layout, outer: seq<Vertex>, lx: real, rx: real,
                  nodes: seq<Vertex>, band: Band): seq<Vertex>
  {
    if nodes == [] then []
    else
      var v := nodes[|nodes| - 1];
      Gather(cover, pos, outer, lx, rx, nodes[..|nodes| - 1], band)
        + (if BandOf(pos, outer, lx, rx, v) == band then [v] + cover(v) else [])
  }

  /** A node is gathered exactly when it is one of the placed nodes of the
      band or lies in the covering set of one of them. */
  lemma {:induction false} GatherIff(cover: Covers, pos: Layout, outer: seq<Vertex>, lx: real, rx: real,
                                     nodes: seq<Vertex>, band: Band, u: Vertex)
    ensures u in Gather(cover, pos, outer, lx, rx, nodes, band) <==>
      exists i :: 0 <= i < |nodes| && BandOf(pos, outer, lx, rx, nodes[i]) == band
                  && (u == nodes[i] || u in cover(nodes[i]))
  {
    if nodes != [] {
      var init := nodes[..|nodes| - 1];
      GatherIff(cover, pos, outer, lx, rx, init, band, u);
      assert forall i :: 0 <= i < |init| ==> init[i] == nodes[i];
    }
  }

  /** Everything gathered is a placed node or lies in some covering set. */
  lemma {:induction false} GatherWithin(cover: Covers, pos: Layout, outer: seq<Vertex>, lx: real, rx: real,
                                        nodes: seq<Vertex>, band: Band, within: set<Vertex>)
    requires forall v, u :: u in cover(v) ==> u in within
    requires forall v :: v in nodes ==> v in within
    ensures forall u :: u in Gather(cover, pos, outer, lx, rx, nodes, band) ==> u in within
  {
    if nodes != [] {
      GatherWithin(cover, pos, outer, lx, rx, nodes[..|nodes| - 1], band, within);
    }
  }

  lemma GatherSnoc(cover: Covers, pos: Layout, outer: seq<Vertex>, lx: real, rx: real,
                   nodes: seq<Vertex>, l: nat, band: Band)
    requires l < |nodes|
    ensures Gather(cover, pos, outer, lx, rx, nodes[..l + 1], band)
         == Gather(cover, pos, outer, lx, rx, nodes[..l], band)
            + (if BandOf(pos, outer, lx, rx, nodes[l]) == band then [nodes[l]] + cover(nodes[l]) else [])
  {
    assert nodes[..l + 1][..l] == nodes[..l];
  }

  /** The loop over the placed nodes that fills `move11` and `move21`: an
      outer-face node and its covering set go to the list of its band. */
  method Collect(cover: Covers, pos: Layout, outer: seq<Vertex>, lx: real, rx: real, placed: seq<Vertex>)
    returns (move11: seq<Vertex>, move21: seq<Vertex>)
    ensures move11 == Gather(cover, pos, outer, lx, rx, placed, Middle)
    ensures move21 == Gather(cover, pos, outer, lx, rx, placed, Right)
  {
    move11, move21 := [], [];
    for l := 0 to |placed|
      invariant move11 == Gather(cover, pos, outer, lx, rx, placed[..l], Middle)
      invariant move21 == Gather(cover, pos, outer, lx, rx, placed[..l], Right)
    {
      GatherSnoc(cover, pos, outer, lx, rx, placed, l, Middle);
      GatherSnoc(cover, pos, outer, lx, rx, placed, l, Right);
      var v := placed[l];
      if v in outer && X(pos, v) > lx && X(pos, v) < rx {
        move11 := move11 + [v] + cover(v);
      } else if v in outer && X(pos, v) >= rx {
        move21 := move21 + [v] + cover(v);
      }
    }
    assert placed[..|placed|] == placed;
  }

  /** A placed node moves at most once per list: the list without repeats,
      in order of first occurrence (`move1` from `move11`). */
  function Unique(s: seq<Vertex>): (r: seq<Vertex>)
    ensures Distinct(r)
    ensures forall u :: u in r <==> u in s
  {
    if s == [] then []
    else
      var p := Unique(s[..|s| - 1]);
      var v := s[|s| - 1];
      assert s == s[..|s| - 1] + [v];
      if v in p then p else p + [v]
  }

  /** The deduplication loop: a node is appended unless one with the same
      label is already there (labels are unique, so: unless it is there). */
  method Dedup(move11: seq<Vertex>) returns (move1: seq<Vertex>)
    ensures move1 == Unique(move11)
  {
    move1 := [];
    for i5 := 0 to |move11|
      invariant move1 == Unique(move11[..i5])
    {
      assert move11[..i5 + 1][..i5] == move11[..i5];
      if move11[i5] !in move1 {
        move1 := move1 + [move11[i5]];
      }
    }
    assert move11[..|move11|] == move11;
  }

  // ---------------------------------------------------------------------
  // Shifting and placing
  // ---------------------------------------------------------------------

  /** The layout after every node of `move` is moved `dx` to the right. */
  function Moved(pos: Layout, move: seq<Vertex>, dx: real): (r: Layout)
    ensures r.Keys == pos.Keys
    ensures forall v :: v in pos ==> r[v].y == pos[v].y
    ensures forall v :: v in pos && v !in move ==> r[v] == pos[v]
    ensures forall v :: v in pos && v in move ==> r[v].x == pos[v].x + dx
  {
    map v | v in pos :: if v in move then Point(pos[v].x + dx, pos[v].y) else pos[v]
  }

  /** Where the new node goes: the meeting point of the diagonal rising to
      the right from `l` and the one rising to the left from `r` (screen y
      grows downward). */
  function Place(l: Point, r: Point): (p: Point)
    ensures p.x - l.x == l.y - p.y
    ensures r.x - p.x == r.y - p.y
  {
    Point(1.0 / 2.0 * (r.x + l.x - r.y + l.y), -1.0 / 2.0 * (r.x - l.x - r.y - l.y))
  }

  /** The two diagonals meet in one point only. */
  lemma PlaceUnique(l: Point, r: Point, p: Point)
    requires p.x - l.x == l.y - p.y && r.x - p.x == r.y - p.y
    ensures p == Place(l, r)
  {
  }

  /** When `r` is right of `l` by at least their height difference, the new
      node lies between them horizontally and not below either of them. */
  lemma PlaceBetween(l: Point, r: Point)
    requires r.x - l.x >= l.y - r.y && r.x - l.x >= r.y - l.y
    ensures l.x <= Place(l, r).x <= r.x
    ensures Place(l, r).y <= l.y && Place(l, r).y <= r.y
  {
  }

  /** Grid points: whole numbers of 30 px squares away from the start point. */
  function GridPoint(start: Point, i: int, j: int): Point
  {
    Point(start.x + 30.0 * i as real, start.y + 30.0 * j as real)
  }

  /** Two grid points at an even number of squares' Manhattan distance put
      the new node on a grid point again. */
  lemma PlaceOnGrid(start: Point, il: int, jl: int, ir: int, jr: int)
    requires (il + jl + ir + jr) % 2 == 0
    ensures var m := (ir + il - jr + jl) / 2;
            var n := (jr + jl - ir + il) / 2;
            Place(GridPoint(start, il, jl), GridPoint(start, ir, jr)) == GridPoint(start, m, n)
  {
    var m := (ir + il - jr + jl) / 2;
    var n := (jr + jl - ir + il) / 2;
    assert 2 * m == ir + il - jr + jl;
    assert 2 * n == jr + jl - ir + il;
  }

  /** The three base positions: the start point, two squares to its right,
      and one square right and up. */
  function BasePoint(start: Point, counter: nat): Point
    requires counter < 3
  {
    if counter == 0 then start
    else if counter == 1 then Point(start.x + 60.0, start.y)
    else Point(start.x + 30.0, start.y - 30.0)
  }

  /** The third node already sits where the diagonals through the first two
      meet, as every later node will. */
  lemma BaseTriangleIsPlaced(start: Point)
    ensures BasePoint(start, 2) == Place(BasePoint(start, 0), BasePoint(start, 1))
    ensures BasePoint(start, 0) == GridPoint(start, 0, 0)
    ensures BasePoint(start, 1) == GridPoint(start, 2, 0)
    ensures BasePoint(start, 2) == GridPoint(start, 1, -1)
  {
  }

  /** The layout after the shifts of one step and the placement of `b`:
      `move1` moves one square, `move2` two, and `b` goes where the
      diagonals through its leftmost and rightmost neighbour meet, taken at
      their shifted positions. */
  function ShiftPlace(g: Graph, pos: Layout, b: Vertex, outer: seq<Vertex>, placed: seq<Vertex>): (after: Layout)
    requires Neighbors(g, b) != []
    ensures after.Keys == pos.Keys + {b}
  {
    var ns := Neighbors(g, b);
    var l, r := Leftmost(pos, ns), Rightmost(pos, ns);
    var move1 := MoveList(g, pos, b, outer, placed, Middle);
    var move2 := MoveList(g, pos, b, outer, placed, Right);
    var shifted := Moved(Moved(pos, move1, 30.0), move2, 60.0);
    shifted[b := Place(Center(shifted, l), Center(shifted, r))]
  }

  /** `move1` (for the middle band) or `move2` (for the right band) of a
      later step, after deduplication. */
  function MoveList(g: Graph, pos: Layout, b: Vertex, outer: seq<Vertex>, placed: seq<Vertex>, band: Band): (move: seq<Vertex>)
    requires Neighbors(g, b) != []
    ensures Distinct(move)
  {
    var ns := Neighbors(g, b);
    Unique(Gather(CoverOf(g, pos, b), pos, outer, X(pos, Leftmost(pos, ns)), X(pos, Rightmost(pos, ns)), placed, band))
  }

  /** The gathering and deduplication loops of a later step, given the
      leftmost and rightmost neighbour the step has chosen. */
  method MoveLists(g: Graph, pos: Layout, b: Vertex, outer: seq<Vertex>, placed: seq<Vertex>, leftMost: Vertex, rightMost: Vertex)
    returns (move1: seq<Vertex>, move2: seq<Vertex>)
    requires Neighbors(g, b) != []
    requires leftMost == Leftmost(pos, Neighbors(g, b)) && rightMost == Rightmost(pos, Neighbors(g, b))
    requires forall v :: v in placed ==> v in pos
    requires forall v :: v in Ends(g.edges) ==> v in pos
    ensures move1 == MoveList(g, pos, b, outer, placed, Middle)
    ensures move2 == MoveList(g, pos, b, outer, placed, Right)
    ensures forall v :: v in move1 ==> v in pos
    ensures forall v :: v in move2 ==> v in pos
  {
    var cover := CoverOf(g, pos, b);
    var move11, move21 := Collect(cover, pos, outer, X(pos, leftMost), X(pos, rightMost), placed);
    GatherWithin(cover, pos, outer, X(pos, leftMost), X(pos, rightMost), placed, Middle, pos.Keys);
    GatherWithin(cover, pos, outer, X(pos, leftMost), X(pos, rightMost), placed, Right, pos.Keys);
    move1 := Dedup(move11);
    move2 := Dedup(move21);
  }

  /** One step of the shift: no node changes height; a node moves one
      square right for the middle band and two for the right band (three
      when it is gathered for both), every other node stays; and the new
      node sits on the diagonals through its leftmost and rightmost
      neighbour at their new positions. */
  lemma ShiftPlaceSpec(g: Graph, pos: Layout, b: Vertex, outer: seq<Vertex>, placed: seq<Vertex>, v: Vertex)
    requires Neighbors(g, b) != [] && b !in Neighbors(g, b)
    requires v in pos && v != b
    ensures var ns := Neighbors(g, b);
      var l, r := Leftmost(pos, ns), Rightmost(pos, ns);
      var after := ShiftPlace(g, pos, b, outer, placed);
      var middle := v in Gather(CoverOf(g, pos, b), pos, outer, X(pos, l), X(pos, r), placed, Middle);
      var right := v in Gather(CoverOf(g, pos, b), pos, outer, X(pos, l), X(pos, r), placed, Right);
      && v in after
      && after[v].y == pos[v].y
      && after[v].x == pos[v].x + (if middle then 30.0 else 0.0) + (if right then 60.0 else 0.0)
      && (!middle && !right ==> after[v] == pos[v])
      && X(after, b) - X(after, l) == Y(after, l) - Y(after, b)
      && X(after, r) - X(after, b) == Y(after, r) - Y(after, b)
  {
    var ns := Neighbors(g, b);
    var l, r := Leftmost(pos, ns), Rightmost(pos, ns);
    assert l in ns && r in ns;
  }

  /** The edges `Step` creates for `b`: one to each earlier node that is its
      neighbour in the graph being drawn (`isNeighbor`), in label order. */
  function NewEdges(orig: Graph, b: Vertex, earlier: seq<Vertex>): (r: seq<Edge>)
    ensures forall e :: e in r ==> e.src == b && e.tgt in earlier
  {
    if earlier == [] then []
    else
      var c := earlier[|earlier| - 1];
      assert earlier == earlier[..|earlier| - 1] + [c];
      NewEdges(orig, b, earlier[..|earlier| - 1]) + (if c in Neighbors(orig, b) then [Edge(b, c)] else [])
  }

  /** `b` is joined to exactly its neighbours among the earlier nodes. */
  lemma {:induction false} NewEdgesIff(orig: Graph, b: Vertex, earlier: seq<Vertex>, e: Edge)
    ensures e in NewEdges(orig, b, earlier) <==> e.src == b && e.tgt in earlier && e.tgt in Neighbors(orig, b)
  {
    if earlier != [] {
      var init, c := earlier[..|earlier| - 1], earlier[|earlier| - 1];
      assert earlier == init + [c];
      NewEdgesIff(orig, b, init, e);
    }
  }

  /** The edges of the drawing once `nodes` have been copied in this order. */
  function DrawnEdges(orig: Graph, nodes: seq<Vertex>): (r: seq<Edge>)
    ensures forall e :: e in r ==> e.src in nodes && e.tgt in nodes
  {
    if nodes == [] then []
    else
      var init := nodes[..|nodes| - 1];
      assert nodes == init + [nodes[|nodes| - 1]];
      DrawnEdges(orig, init) + NewEdges(orig, nodes[|nodes| - 1], init)
  }

  /** The drawing is the subgraph of the graph being drawn induced by the
      nodes copied so far: two distinct copied nodes are joined exactly
      when they are neighbours there. */
  lemma {:induction false} DrawnEdgesIff(orig: Graph, nodes: seq<Vertex>, a: Vertex, c: Vertex)
    requires Distinct(nodes) && a != c
    ensures Edge(a, c) in DrawnEdges(orig, nodes) || Edge(c, a) in DrawnEdges(orig, nodes)
            <==> a in nodes && c in nodes && c in Neighbors(orig, a)
  {
    if nodes != [] {
      var init, last := nodes[..|nodes| - 1], nodes[|nodes| - 1];
      assert nodes == init + [last];
      assert Distinct(init) && last !in init;
      DrawnEdgesIff(orig, init, a, c);
      NewEdgesIff(orig, last, init, Edge(a, c));
      NewEdgesIff(orig, last, init, Edge(c, a));
    }
  }

  /** The outer-face search on a drawing, its successor and its centres. */
  type OuterFinder = (Graph, Successor, Layout) -> OuterResult

  /** The state of the drawing phase: the graph shown so far, the node
      centres and the step counter. */
  class Drawing {
    /** The graph being drawn (the copy kept beside the drawing). */
    const orig: Graph
    /** `copyNodes2`: the node labelled `i + 1` at index `i`. */
    const byLabel: seq<Vertex>
    /** The number of nodes to draw. */
    const t: nat
    /** The grid-snapped start point fixed by the ordering phase. */
    const start: Point
    const hullOf: HullOf
    /** `findOuterface`, over the hull of the drawn nodes' centres. */
    const findOuter: OuterFinder
    var drawn: Graph
    var pos: Layout
    var counter: nat

    /** How many nodes have been copied after `counter` steps. */
    function Placed(): nat
      reads this
    {
      if counter < t then counter else t
    }

    /** The drawing holds the first `n` nodes by label, joined as in the
        graph being drawn, and every one of them has a centre. */
    ghost predicate Copied(n: nat)
      reads this
    {
      && n <= |byLabel|
      && drawn == Graph(byLabel[..n], DrawnEdges(orig, byLabel[..n]))
      && (forall v :: v in drawn.nodes ==> v in pos)
    }

    ghost predicate Valid()
      reads this
    {
      t == |byLabel| && Distinct(byLabel) && Copied(Placed())
    }

    constructor(orig: Graph, byLabel: seq<Vertex>, start: Point, hullOf: HullOf)
      requires Distinct(byLabel)
      ensures Valid()
      ensures this.orig == orig && this.byLabel == byLabel && this.start == start && this.hullOf == hullOf
      ensures forall g, next, p :: findOuter(g, next, p) == FindOuterface(g, next, p, g.nodes, hullOf)
      ensures counter == 0 && drawn == Graph([], []) && pos == map[]
    {
      this.orig, this.byLabel, this.t := orig, byLabel, |byLabel|;
      this.start, this.hullOf := start, hullOf;
      this.findOuter := (g: Graph, next: Successor, p: Layout) => FindOuterface(g, next, p, g.nodes, hullOf);
      drawn, pos, counter := Graph([], []), map[], 0;
    }

    /** The drawing with `b` added and joined to its earlier neighbours. */
    function WithNode(g: Graph, b: Vertex): Graph
    {
      Graph(g.nodes + [b], g.edges + NewEdges(orig, b, g.nodes))
    }

    /** Node `b` is created at the default centre (10, 10) and joined to
        every earlier node that is its neighbour. */
    method AddNode(b: Vertex)
      requires Valid() && counter < t && b == byLabel[counter]
      modifies this
      ensures drawn == WithNode(old(drawn), b)
      ensures pos == old(pos)[b := Point(10.0, 10.0)]
      ensures counter == old(counter)
      ensures Copied(counter + 1)
    {
      var edges := JoinEarlier(orig, b, drawn.nodes);
      CopiedNext(orig, byLabel, counter);
      drawn := Graph(drawn.nodes + [b], drawn.edges + edges);
      pos := pos[b := Point(10.0, 10.0)];
    }

    /** `setNodeCenter` on a node that is already drawn. */
    method SetCenter(v: Vertex, p: Point)
      requires v in pos && Copied(counter + 1)
      modifies this
      ensures pos == old(pos)[v := p]
      ensures drawn == old(drawn) && counter == old(counter)
      ensures Copied(counter + 1)
    {
      pos := pos[v := p];
    }

    /** The loops over `move1` and `move2`: each listed node moves `dx` to
        the right. */
    method ShiftBy(move: seq<Vertex>, dx: real)
      requires Distinct(move) && forall v :: v in move ==> v in pos
      modifies this
      ensures pos == Moved(old(pos), move, dx)
      ensures drawn == old(drawn) && counter == old(counter)
    {
      ghost var pos0 := pos;
      for i := 0 to |move|
        invariant pos == Moved(pos0, move[..i], dx)
        invariant drawn == old(drawn) && counter == old(counter)
      {
        var v := move[i];
        MovedStep(pos0, move, i, dx);
        var allCenter := Point(pos[v].x + dx, pos[v].y);
        pos := pos[v := allCenter];
      }
      assert move[..|move|] == move;
    }

    /** The part of a later step that moves nodes: choose the leftmost and
        rightmost neighbour, gather and deduplicate the two lists, shift,
        and place `b`. */
    method ShiftAndPlace(b: Vertex, outer: seq<Vertex>, placed: seq<Vertex>)
      requires Neighbors(drawn, b) != [] && b in pos && Copied(counter + 1)
      requires forall v :: v in placed ==> v in drawn.nodes
      modifies this
      ensures drawn == old(drawn) && counter == old(counter)
      ensures pos == ShiftPlace(old(drawn), old(pos), b, outer, placed)
      ensures Copied(counter + 1)
    {
      EndsWithin(drawn.edges, drawn.nodes);
      var neighbors := Neighbors(drawn, b);
      var leftMost := Leftest(pos, neighbors);
      var rightMost := Rightest(pos, neighbors);
      var move1, move2 := MoveLists(drawn, pos, b, outer, placed, leftMost, rightMost);
      ShiftBy(move1, 30.0);
      ShiftBy(move2, 60.0);
      var point := Place(Center(pos, leftMost), Center(pos, rightMost));
      pos := pos[b := point];
    }

    /** Copying one of the first three nodes: it takes its base position;
        after the third, `findOuterface` runs and may throw. */
    method CopyBase(next: Successor) returns (ok: bool)
      requires Valid() && counter < t && counter < 3
      modifies this
      ensures counter == old(counter)
      ensures drawn == WithNode(old(drawn), byLabel[counter])
      ensures pos == old(pos)[byLabel[counter] := BasePoint(start, counter)]
      ensures ok <==> counter < 2 || !findOuter(drawn, next, pos).Thrown?
      ensures Copied(counter + 1)
    {
      var bNode := byLabel[counter];
      AddNode(bNode);
      Overwrite(old(pos), bNode, Point(10.0, 10.0), BasePoint(start, counter));
      SetCenter(bNode, BasePoint(start, counter));
      ok := true;
      if counter == 2 {
        var outer2 := findOuter(drawn, next, pos);
        ok := !outer2.Thrown?;
      }
    }

    /** Copying a later node: the outer face is found first, the node is
        created and joined, then the outer face is shifted and the node
        placed. */
    method CopyLater(next: Successor) returns (ok: bool)
      requires Valid() && 3 <= counter < t
      modifies this
      ensures counter == old(counter)
      ensures findOuter(old(drawn), next, old(pos)).Thrown? ==> !ok && drawn == old(drawn) && pos == old(pos)
      ensures !findOuter(old(drawn), next, old(pos)).Thrown? ==>
        var b := byLabel[counter];
        var outer := findOuter(old(drawn), next, old(pos));
        var created := old(pos)[b := Point(10.0, 10.0)];
        && drawn == WithNode(old(drawn), b)
        && (ok <==> outer.Found? && Neighbors(drawn, b) != [])
        && (ok ==> pos == ShiftPlace(drawn, created, b, outer.vertices, old(drawn.nodes)))
        && (!ok ==> pos == created)
      ensures ok ==> Copied(counter + 1)
    {
      var myOuterface := findOuter(drawn, next, pos);
      if myOuterface.Thrown? {
        return false;
      }
      var bNode := byLabel[counter];
      var placed := drawn.nodes;
      AddNode(bNode);
      var neighbors := Neighbors(drawn, bNode);
      if neighbors == [] || !myOuterface.Found? {
        return false;
      }
      ShiftAndPlace(bNode, myOuterface.vertices, placed);
      ok := true;
    }

    /** One press of the step button. While fewer than `t` nodes are copied,
        the next node by label is copied: the first three take the base
        positions, every later one shifts the outer face and is placed by
        the diagonals. The counter advances unless the step throws: when
        the face enumeration fails, when the new node has no neighbour, or
        when no outer face is found. */
    method Step(next: Successor) returns (ok: bool)
      requires Valid()
      modifies this
      ensures counter == old(counter) + (if ok then 1 else 0)
      ensures ok ==> Valid()
      ensures old(counter) >= t ==> ok && drawn == old(drawn) && pos == old(pos)
      ensures old(counter) < t && old(counter) < 3 ==>
        var b := byLabel[old(counter)];
        && drawn == WithNode(old(drawn), b)
        && pos == old(pos)[b := BasePoint(start, old(counter))]
        && (ok <==> old(counter) < 2 || !findOuter(drawn, next, pos).Thrown?)
      ensures 3 <= old(counter) < t && findOuter(old(drawn), next, old(pos)).Thrown? ==>
        !ok && drawn == old(drawn) && pos == old(pos)
      ensures 3 <= old(counter) < t && !findOuter(old(drawn), next, old(pos)).Thrown? ==>
        var b := byLabel[old(counter)];
        var outer := findOuter(old(drawn), next, old(pos));
        var created := old(pos)[b := Point(10.0, 10.0)];
        && drawn == WithNode(old(drawn), b)
        && (ok <==> outer.Found? && Neighbors(drawn, b) != [])
        && (ok ==> pos == ShiftPlace(drawn, created, b, outer.vertices, old(drawn.nodes)))
        && (!ok ==> pos == created)
    {
      if counter < t {
        if counter < 3 {
          ok := CopyBase(next);
        } else {
          ok := CopyLater(next);
        }
        if !ok {
          return;
        }
      }
      counter := counter + 1;
      ok := true;
    }
  }

  /** Setting a centre twice keeps only the second. */
  lemma Overwrite(m: Layout, k: Vertex, x: Point, y: Point)
    ensures m[k := x][k := y] == m[k := y]
  {
  }

  lemma MovedStep(pos: Layout, move: seq<Vertex>, i: nat, dx: real)
    requires i < |move| && Distinct(move) && move[i] in pos
    ensures Moved(pos, move[..i + 1], dx)
         == Moved(pos, move[..i], dx)[move[i] := Point(pos[move[i]].x + dx, pos[move[i]].y)]
  {
    assert move[..i + 1] == move[..i] + [move[i]];
    assert move[i] !in move[..i];
  }

  /** The loop of `Step` over the earlier nodes `newNodes[j]`: an edge from
      `b` to each one that is its neighbour (`isNeighbor`). */
  method JoinEarlier(orig: Graph, b: Vertex, earlier: seq<Vertex>) returns (edges: seq<Edge>)
    ensures edges == NewEdges(orig, b, earlier)
  {
    edges := [];
    for j := 0 to |earlier|
      invariant edges == NewEdges(orig, b, earlier[..j])
    {
      assert earlier[..j + 1][..j] == earlier[..j];
      if earlier[j] in Neighbors(orig, b) {
        edges := edges + [Edge(b, earlier[j])];
      }
    }
    assert earlier[..|earlier|] == earlier;
  }

  lemma CopiedNext(orig: Graph, byLabel: seq<Vertex>, n: nat)
    requires n < |byLabel|
    ensures byLabel[..n + 1] == byLabel[..n] + [byLabel[n]]
    ensures DrawnEdges(orig, byLabel[..n + 1]) == DrawnEdges(orig, byLabel[..n]) + NewEdges(orig, byLabel[n], byLabel[..n])
  {
    assert byLabel[..n + 1][..n] == byLabel[..n];
  }
}
