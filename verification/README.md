# Shift method: canonical ordering and grid drawing

This project models the algorithmic core of `ShiftMethod.js`, an interactive
demonstration of the shift method for drawing triangulated planar graphs on a
grid. The modelled parts are:

- face enumeration (`findFaces2`, `findFaces3`), driven by the next
  counter-clockwise edge (`getNextCCWEdge`);
- the outer-face search by convex-hull matching (`findOuterface`) and the
  inner-triangulation test (`checkTriangularity`);
- the canonical ordering (`canonicalOrdering` and its step function `Ordering`),
  with its three legality tests (`checkNeighborhood`, the chord flags,
  `checkConsecutiveNeighbors`);
- the drawing phase (`shiftMethod` and its step function `Step`), with
  `leftest`, `rightest` and `internalNeighbors`.

Vertices are integer ids. Edges are `(source, target)` pairs. Node centres are
real points in screen coordinates, where y grows downward. A graph's node list
stands for its labelled nodes, which are the only ones `findFaces2` and
`findOuterface` look at.

Modules follow the source's layers:

- `Graphs` (graph.dfy) holds the graph values and yFiles' `neighbors`,
  `edgesAt`, `edges.find` and `remove`.
- `Rotation` (rotation.dfy) holds `getNextCCWEdge`, as a successor function on
  edges.
- `Faces` (faces.dfy) holds `findFaces2` and `findFaces3`.
- `OuterFace` (outerface.dfy) holds `findOuterface` and `checkTriangularity`.
- `Boundary` (boundary.dfy) holds `checkConsecutiveNeighbors`.
- `Sorting` (sorting.dfy) holds the stable sorts.
- `Ordering` (ordering.dfy) holds `canonicalOrdering`. The closure state of
  `canonicalOrdering` (working graph, counter, ordered nodes, labels) is the
  class `CanonicalOrdering`, and one call of `Ordering` is its method `Step`.
- `Shift` (layout.dfy) holds `shiftMethod`. Its closure state (drawn graph,
  node centres, counter) is the class `Drawing`, and one call of `Step` is
  `Drawing.Step`.

Loops of the source are methods whose loops carry invariants. Each method is
proved equal to a pure function, and the properties are proved about those
functions.

Where the design description of the algorithm and the code differ, the model
follows the code:

- The chord flag is computed per candidate: a candidate is rejected only for a
  chord at that candidate. It is not a global property of the outer face.
- The outer-face match counts the face vertices that sit on hull points and
  compares that count with the hull size. The face's own size plays no part.
- The second node is placed two grid squares (60) right of the start point, and
  the third one square right and one square up.
- An ordering step that finds no legal candidate still advances the counter and
  removes nothing. No error is raised.
- With two nodes left, `nodes.at(1)` goes in front with label 2 and
  `nodes.at(0)` behind it with label 1.
- The anchors are the lowest nodes on screen (largest y), taken from the hull
  sorted by descending y.
- A face walk longer than the node count plus one is silently dropped. It does
  not raise an error.
- An outer face that is not found leaves the result `undefined`; it does not
  raise an error.

## Model

| member | source | states |
|---|---|---|
| Graphs.Neighbors | ShiftMethod.js:840 | a node's neighbours are exactly the nodes joined to it by an edge in either orientation, one per incident edge |
| Graphs.FindEdge | ShiftMethod.js:1055 | `edges.find` returns an edge joining the two nodes, and `undefined` exactly when no edge joins them |
| Graphs.RemoveFromInduced | ShiftMethod.js:1101 | removing a node (with its edges) from the subgraph induced by a node set gives the subgraph induced by that set without the node |
| Graphs.LostNeighbourIff | ShiftMethod.js:838-845 | `checkNeighborhood` holds exactly when some original neighbour of the node has been removed from the working graph |
| Rotation.NextCCW | ShiftMethod.js:239-259 | the next edge is an edge of the graph at the far end of the given edge, or `null` |
| Rotation.RotationSuccessor | ShiftMethod.js:239-259 | the successor built from a rotation system only answers edges of the graph |
| Faces.WalkOn | ShiftMethod.js:335-366 | a closed walk extends the edges collected so far, is at most the node count plus one long, and uses only graph edges |
| Faces.WalkOnSound | ShiftMethod.js:335-366 | every closed walk is a face walk: each step takes the next counter-clockwise edge, and it returns to its first edge exactly at the end |
| Faces.WalkOnComplete | ShiftMethod.js:335-366 | every face walk that extends the collected prefix is the walk's result |
| Faces.WalkClosedIff | ShiftMethod.js:326-366 | the walk from an edge closes on a face exactly when that face is a face walk starting with that edge |
| Faces.TraceFace | ShiftMethod.js:328-366 | the `while (true)` loop yields the walk's outcome (closed, too long, or broken on a `null` edge) |
| Faces.MemberCountFull | ShiftMethod.js:374-386 | the counter `c` reaches the face length exactly when every edge of the face occurs in the stored face |
| Faces.IsNewFace | ShiftMethod.js:371-387 | the duplicate search reports a face as new exactly when no stored face has its length and contains all of its edges |
| Faces.TallyFace | ShiftMethod.js:389-394 | after storing a face, `traversedEdges` holds at each edge's first position how often the stored faces use that edge |
| Faces.VisitPair | ShiftMethod.js:322-401 | one inner iteration equals the specification step and keeps the traversal counts in step with the stored faces |
| Faces.VisitNode | ShiftMethod.js:316-403 | the inner loop over a node's edges extends the enumeration by that node's pairs, or the whole enumeration throws |
| Faces.FindFaces | ShiftMethod.js:304-409 | `findFaces2` returns exactly the enumerated faces, and fails exactly when the enumeration meets a `null` edge |
| Faces.BrokenAborts | ShiftMethod.js:340-347 | once a walk meets a `null` edge, the whole face enumeration fails |
| Faces.EnumerateStoresFaces | ShiftMethod.js:315-404 | every stored face is a closed walk from a start pair whose edge was used fewer than twice before, and no stored face duplicates an earlier one |
| Faces.FacesAreFaceWalks | ShiftMethod.js:304-409 | every face `findFaces2` returns is a face walk from one of the nodes and uses only graph edges |
| Faces.Endpoints | ShiftMethod.js:419-427 | the endpoint list holds two entries per edge |
| Faces.FaceVerticesIsDedup | ShiftMethod.js:419-427 | a face's vertex list is its endpoint list (target before source, edge by edge) with repeats dropped |
| Faces.FaceVerticesFacts | ShiftMethod.js:411-434 | a face's vertex list has no repeats, holds exactly the endpoints of its edges, and keeps them in order of first appearance |
| Faces.EndpointsTouch | ShiftMethod.js:419-427 | a node is an endpoint of a face exactly when some edge of the face touches it |
| OuterFace.MatchCountBound | ShiftMethod.js:685-696 | with no two face vertices on one point, the counter `b` is at most the hull size and reaches it exactly when every hull point is hit once |
| OuterFace.MatchIffCovers | ShiftMethod.js:672-700 | with no two face vertices on one point, a face matches exactly when every hull point is the centre of one of its vertices, whatever else the face holds |
| OuterFace.FirstMatchFrom | ShiftMethod.js:673-700 | the search returns the first matching face, and no face when none matches |
| OuterFace.NoLargeInnerFrom | ShiftMethod.js:755-762 | the scan passes exactly when every face with more than three vertices is the outer face found |
| OuterFace.CheckTriangularity | ShiftMethod.js:708-765 | `checkTriangularity` throws exactly when face enumeration does, and otherwise answers whether every face with more than three vertices is the found outer face |
| OuterFace.TriangulatedHasOneLargeFace | ShiftMethod.js:708-765 | when `checkTriangularity` passes, a face with more than three vertices is the first face matching the hull, every other face has at most three vertices, and (with distinct centres) that face holds every hull point |
| OuterFace.NoOuterFaceMeansAllSmall | ShiftMethod.js:654-765 | when `findOuterface` over all nodes finds no face, `checkTriangularity` passes exactly when every face has at most three vertices |
| OuterFace.FindOuterface | ShiftMethod.js:654-704 | `findOuterface` throws exactly when face enumeration does; it is `undefined` exactly when no face matches the hull of the labelled nodes; otherwise it is the first matching face in face order |
| Boundary.WalkStart | ShiftMethod.js:854-876 | the opening steps fail exactly when the anchor edge is missing or a `null` edge is met; otherwise the walk starts on the anchor edge and stands at the anchor with the larger x |
| Boundary.WalkLoop | ShiftMethod.js:883-911 | the walk visits at most as many nodes as the rounds allowed |
| Boundary.WalkLoopMono | ShiftMethod.js:883-911 | a walk that returns to the anchor edge within some number of rounds gives the same visits for any larger number |
| Boundary.ConsecutiveNeighborsMono | ShiftMethod.js:853-914 | a verdict of `checkConsecutiveNeighbors` found within some number of rounds is the verdict for any larger number |
| Boundary.RunLenIsMaximalRun | ShiftMethod.js:902-909 | `counter5` is the length of the run of neighbours at the end of the visits: all of them are neighbours and the node before them is not |
| Boundary.MaximalRunIsRunLen | ShiftMethod.js:902-909 | conversely, any run of neighbours preceded by the start or a non-neighbour has `counter5` equal to its length |
| Boundary.VisitOne | ShiftMethod.js:902-909 | one more visit raises `counter5` on a neighbour and zeroes it otherwise, and sets the flag when the count reaches the neighbour count |
| Boundary.ReachedIff | ShiftMethod.js:878-913 | the flag is raised exactly when some maximal-from-the-left run of exactly the neighbour count ends after the first visit |
| Boundary.RunLoop | ShiftMethod.js:883-911 | the loop with `counter5` and `bool` returns the verdict of the specified walk |
| Boundary.CheckConsecutiveNeighbors | ShiftMethod.js:853-914 | `checkConsecutiveNeighbors` returns the verdict of the specified walk, or fails when the source throws |
| Sorting.SortBy | ShiftMethod.js:1043 | the sort keeps the length and is a permutation of its input |
| Sorting.SortBySorted | ShiftMethod.js:1043 | the sort's result is in ascending key order |
| Sorting.SortByStable | ShiftMethod.js:1043 | the sort is stable: the elements of each key come out in their input order |
| Ordering.Ceil | ShiftMethod.js:958-959 | `Math.ceil` is the least integer at or above its argument |
| Ordering.SnapUp | ShiftMethod.js:958-959 | snapping moves a coordinate up to the next multiple of 30, by less than 30 |
| Ordering.FirstAtHeight | ShiftMethod.js:945-946 | `nodes.find` by height returns the first node at that height (other than the excluded one), or none |
| Ordering.FindAnchors | ShiftMethod.js:931-953 | the two anchors are distinct nodes of the graph |
| Ordering.AnchorsAreLowest | ShiftMethod.js:940-946 | `u1` is at the height of the lowest hull point, and at most one hull point lies lower than `u2` |
| Ordering.StartPointSnaps | ShiftMethod.js:954-961 | the start point is the grid point at or just after the left one of the two lowest hull points |
| Ordering.Candidates | ShiftMethod.js:1042-1043 | the candidates are the outer nodes other than the anchors, as a permutation, in ascending y |
| Ordering.HasChordIff | ShiftMethod.js:1049-1061 | a candidate's chord flag is set exactly when the edge to some outer neighbour is not on the outer face |
| Ordering.ChordIff | ShiftMethod.js:1052-1058 | without parallel edges, the flag says exactly that some edge joins the candidate to an outer node off the outer face |
| Ordering.ChordFlags | ShiftMethod.js:1044-1061 | the double loop sets each candidate's flag to 1 exactly when that candidate has a chord |
| Ordering.MarkChords | ShiftMethod.js:1050-1060 | the inner loop sets one candidate's flag and leaves every other flag alone |
| Ordering.FirstLegal | ShiftMethod.js:1063-1078 | a chosen candidate passes all three tests; when none is chosen, every candidate passing the first two has non-consecutive neighbours |
| Ordering.ChosenIsFirst | ShiftMethod.js:1063-1078 | the chosen candidate passes all three tests and every candidate before it fails one of the first two or has non-consecutive neighbours |
| Ordering.ThrewIff | ShiftMethod.js:1063-1078 | the selection fails exactly when `checkConsecutiveNeighbors` fails on the first eligible candidate not passed over: it throws, or its walk does not return within the round bound |
| Ordering.NoneLegalIff | ShiftMethod.js:1063-1081 | nothing is chosen (`answer` stays -1) exactly when every candidate fails one of the first two tests or has non-consecutive neighbours |
| Ordering.FirstLegalMono | ShiftMethod.js:1063-1078 | a selection that does not fail within some number of rounds per walk makes the same choice for any larger number |
| Ordering.FirstLegalSkips | ShiftMethod.js:1072 | a candidate failing a test passes the search on to the next one |
| Ordering.SelectCandidate | ShiftMethod.js:1063-1078 | the selection loop with its `break` returns the first legal candidate |
| Ordering.GeneralChoiceMono | ShiftMethod.js:979-1078 | a general step that does not fail within some number of rounds per walk makes the same choice for any larger number |
| Ordering.ChooseNext | ShiftMethod.js:979-1078 | a general step's choice equals the specified one: faces, outer face, candidates, chord flags, selection |
| Ordering.ChosenIsOuterAndLegal | ShiftMethod.js:1031-1076 | a chosen node is on the outer face, is not an anchor, has no chord, has lost a neighbour (or it is the first step), and has consecutive neighbours |
| Ordering.ChosenIsFirstCandidate | ShiftMethod.js:1042-1076 | every outer node ahead of the chosen one in ascending-y order fails a test: no lost neighbour (after the first step), a chord, or non-consecutive neighbours |
| Ordering.ChosenIsNotAnchor | ShiftMethod.js:1042 | the anchors are never chosen |
| Ordering.FinalLabelsAreRanks | ShiftMethod.js:1081-1151 | a finished ordering gives each node a different label, and the labels are exactly 1 to n |
| Ordering.PrependRank | ShiftMethod.js:1083-1087 | prepending a node labelled `base` to an ordering labelled from `base + 1` gives one labelled from `base`, and keeps every earlier label |
| Ordering.TwoLeftAreAnchors | ShiftMethod.js:1134-1151 | the two nodes left at the end are the two anchors |
| Ordering.TwoLastLabels | ShiftMethod.js:1138-1146 | putting the anchors, labelled 2 and 1, in front of an ordering labelled from 3 finishes it |
| Ordering.CanonicalOrdering.constructor | ShiftMethod.js:919-968 | the set-up fixes the anchors and start point from the hull, keeps the whole graph, and starts with an empty ordering and a zero counter |
| Ordering.CanonicalOrdering.FirstOther | ShiftMethod.js:1105-1108 | the loop finds a node of the working graph that is not an anchor, or reports that there is none |
| Ordering.CanonicalOrdering.Peel | ShiftMethod.js:1081-1101 | removing a node prepends it to the ordering, labels it, and leaves the graph induced by the remaining nodes |
| Ordering.CanonicalOrdering.RemoveChosen | ShiftMethod.js:1081-1101 | a general step removing a node labels it `t - counter + 1` and keeps the labelling invariant |
| Ordering.CanonicalOrdering.Apply | ShiftMethod.js:1074-1102 | the chosen node is removed when it is in the working graph; otherwise nothing is removed and the counter still advances |
| Ordering.CanonicalOrdering.GeneralStep | ShiftMethod.js:979-1102 | a general step removes exactly the specified choice, labelled `t - counter + 1`, and keeps every earlier label |
| Ordering.CanonicalOrdering.Skip | ShiftMethod.js:979-1104 | a step that removes nothing only advances the counter |
| Ordering.CanonicalOrdering.LastThree | ShiftMethod.js:1104-1133 | with three nodes left, the node that is not an anchor is removed with label 3 |
| Ordering.CanonicalOrdering.LastTwo | ShiftMethod.js:1134-1153 | with two nodes left, `nodes.at(1)` goes in front with label 2 and `nodes.at(0)` behind it with label 1; they are the anchors and the graph is then empty |
| Ordering.CanonicalOrdering.Step | ShiftMethod.js:971-1156 | each call advances the counter, prepends what it removes, never changes an earlier label, removes what the branch for the raised counter and the node count prescribes, and reports whether the general step threw |
| Ordering.Begin | ShiftMethod.js:919-968 | `canonicalOrdering` throws exactly when no anchors are found, and otherwise starts from the whole graph with an empty ordering |
| Shift.LeftmostIndex | ShiftMethod.js:1676-1688 | `leftest` settles on a node of least x, the first one among ties |
| Shift.RightmostIndex | ShiftMethod.js:1692-1704 | `rightest` settles on a node of largest x, the first one among ties |
| Shift.Leftest | ShiftMethod.js:1676-1688 | the loop of `leftest` returns the leftmost node |
| Shift.Rightest | ShiftMethod.js:1692-1704 | the loop of `rightest` returns the rightmost node |
| Shift.Except | ShiftMethod.js:1670 | the filter keeps exactly the other members, order kept |
| Shift.ExceptCount | ShiftMethod.js:1670 | filtering two members out of a list without repeats removes two, or one when they coincide |
| Shift.InternalNeighbors | ShiftMethod.js:1665-1673 | `internalNeighbors` is `undefined` exactly for a node without neighbours, and otherwise holds every neighbour but the leftmost and the rightmost |
| Shift.InternalNeighborsCount | ShiftMethod.js:1665-1673 | with no repeated neighbour, exactly two neighbours are dropped, or one when the leftmost is the rightmost |
| Shift.Children | ShiftMethod.js:1354-1358 | the children are exactly the labelled neighbours lying below the node |
| Shift.Kids | ShiftMethod.js:1361-1365 | `pushChildren` descends only into children |
| Shift.LowerShrinks | ShiftMethod.js:1360-1372 | a kid lies below its parent, so the recursion of `pushChildren` ends |
| Shift.Cover | ShiftMethod.js:1360-1372 | everything `pushChildren` appends is a node with an edge, other than the new node, lying below the start node |
| Shift.CoverClosed | ShiftMethod.js:1360-1372 | the covering set holds every kid and is closed under taking kids |
| Shift.BandOf | ShiftMethod.js:1391-1399 | a node moves one square exactly when it is on the outer face strictly between the two neighbours, and two squares exactly when it is on the outer face at or right of the rightmost one and not between them |
| Shift.GatherIff | ShiftMethod.js:1382-1401 | a node is gathered into a band's list exactly when it is a placed node of that band or lies in the covering set of one |
| Shift.Collect | ShiftMethod.js:1382-1401 | the loop fills `move11` and `move21` with the specified gathered lists |
| Shift.Unique | ShiftMethod.js:1402-1412 | the deduplicated list has no repeats and the same members |
| Shift.Dedup | ShiftMethod.js:1402-1412 | the deduplication loop yields the list without repeats, in order of first occurrence |
| Shift.Moved | ShiftMethod.js:1418-1446 | shifting moves each listed node right by the offset and changes no height and no other node |
| Shift.Place | ShiftMethod.js:1450-1453 | the new node lies on the diagonal rising right from the leftmost neighbour and on the one rising left from the rightmost |
| Shift.PlaceUnique | ShiftMethod.js:1450-1453 | the two diagonals meet in that point only |
| Shift.PlaceBetween | ShiftMethod.js:1450-1453 | when the rightmost neighbour is far enough right, the new node lies between the two horizontally and not below either |
| Shift.PlaceOnGrid | ShiftMethod.js:1450-1453 | two grid points at even Manhattan distance put the new node on a grid point |
| Shift.BaseTriangleIsPlaced | ShiftMethod.js:1269-1295 | the three base positions are grid points, and the third one is where the diagonals through the first two meet |
| Shift.ShiftPlace | ShiftMethod.js:1382-1453 | a later step gives centres to exactly the nodes that had one, plus the new node |
| Shift.MoveList | ShiftMethod.js:1382-1412 | each move list has no repeats |
| Shift.MoveLists | ShiftMethod.js:1382-1412 | the gathering and deduplication loops yield the two specified move lists, whose nodes all have centres |
| Shift.ShiftPlaceSpec | ShiftMethod.js:1297-1453 | in a later step no height changes; a node moves 30 for the middle band and 60 for the right band; all other nodes stay; the new node sits on the diagonals through its shifted leftmost and rightmost neighbours |
| Shift.NewEdges | ShiftMethod.js:1257-1263 | every new edge runs from the new node to an earlier node |
| Shift.NewEdgesIff | ShiftMethod.js:1257-1263 | the new node is joined to exactly its neighbours among the earlier nodes |
| Shift.JoinEarlier | ShiftMethod.js:1257-1263 | the join loop creates the specified edges |
| Shift.DrawnEdges | ShiftMethod.js:1237-1263 | every drawn edge joins two copied nodes |
| Shift.DrawnEdgesIff | ShiftMethod.js:1237-1263 | two distinct copied nodes are joined in the drawing exactly when they are neighbours in the graph being drawn |
| Shift.Drawing.constructor | ShiftMethod.js:1189-1210 | the drawing starts empty with a zero counter, and its outer-face search is `findOuterface` over the drawn nodes |
| Shift.Drawing.AddNode | ShiftMethod.js:1246-1263 | the next node by label is created at the default centre (10, 10) and joined to its earlier neighbours |
| Shift.Drawing.SetCenter | ShiftMethod.js:1271-1289 | `setNodeCenter` changes only that node's centre |
| Shift.Drawing.ShiftBy | ShiftMethod.js:1418-1446 | the shift loops move every listed node by the offset and change nothing else |
| Shift.Drawing.ShiftAndPlace | ShiftMethod.js:1297-1453 | the shifting and placing part of a later step yields the specified layout and keeps the drawing invariant |
| Shift.Drawing.CopyBase | ShiftMethod.js:1237-1295 | one of the first three nodes is copied to its base position; after the third, the step fails exactly when `findOuterface` throws |
| Shift.Drawing.CopyLater | ShiftMethod.js:1237-1453 | a later node is copied and placed by the shift; the step fails when `findOuterface` throws, finds no face, or the node has no neighbour |
| Shift.Drawing.Step | ShiftMethod.js:1211-1547 | each step copies the next node by label, places it as its counter prescribes, and advances the counter exactly when it does not throw |

## Left out

- Angles: `getNextCCWEdge` picks the smallest angle with `getAngle`. The model takes a per-node cyclic order of neighbours instead (`Rotation.RotationSystem`), or the successor function itself.
- Shift.Drawing.Step: takes the successor of the current drawing as a parameter, because the angles of the moving drawing are not modelled.
- The convex hull (`Geom.calcConvexHull`) is a function parameter, `hullOf`.
- `checkIfConnected` and `checkPlanarity` are not part of this model. They are library calls.
- Rendering and UI are not modelled: styles, labels shown on screen, snapshots, popups, hover highlighting, `colorInside`, the background node, the red guide lines, and the coloured outline nodes with their `setParent` moves.
- `async`/`await`: each step runs to completion.
- Hash codes and label look-ups are not modelled. Nodes are integer ids, and the label order of the copy graph (`copyNodes2`) is the input `byLabel`.
- The edge re-creation loop after each drawing step is not modelled. The drawn edges keep their creation order.
- Shift.Drawing.CopyLater: the second `findOuterface` of a later step, made only for `colorInside`, is not modelled, and neither is the throw it could raise.
- Shift.Drawing.Step: its invariant states only that the drawing holds the first nodes by label, with their edges, and that every drawn node has a centre. Grid placement and freedom from crossings are not proved.
- Graphs.EdgesAt: yFiles' `edgesAt` and `neighbors` order is taken to be the order of the graph's edge list. That order decides which face walk comes first, which face matches the hull first, the order of candidates at equal height, and which node wins a tie in `leftest` and `rightest`.
- Graphs.Edge: edges are compared as values, not as objects, so two parallel edges between the same nodes are one edge to the model (the walk's `edge2 == edge` test, the duplicate-face test, `edges.find`).
- Shift.Drawing.Step: after a failed step the model stops, because `Step` requires the invariant and a failed step does not restore it. The source lets the user press the button again, with the half-made node `b` left in the drawing and a fresh node created for the same label.
- Ordering.CanonicalOrdering.Step: a general step whose choice throws is reported by `threw` and removes nothing. Ending the driver loop at that point is left to the caller.
- Faces.WalkOn: a `null` edge makes `findFaces2` alert and then throw when it reads the missing edge's ends. Both are modelled as failure of the whole enumeration.
- Boundary.CheckConsecutiveNeighbors: the source loop may never end. The model bounds it by a number of rounds and answers failure when the bound runs out. That failure is reported like a throw, so `Threw` and the ordering step's `threw` also cover a walk that is still going when the bound runs out. Any other answer does not depend on the bound (`ConsecutiveNeighborsMono`, `GeneralChoiceMono`).
- Coordinates are exact real numbers, not JavaScript doubles. Rounding is not modelled in the grid snap `Math.ceil(x / 30) * 30`, in the halving of the placement formula, or in the exact `==` tests on coordinates (the hull match and the lowest-node search).
- Ordering.CanonicalOrdering.Step: uses the ordering phase's fixed rotation system, restricted to the remaining nodes, as the source's angle-based successor. Node positions do not change during that phase.
- Ordering.FindAnchors: states only that the anchors are distinct nodes. Their heights are stated by `AnchorsAreLowest` and the start point by `StartPointSnaps`.
- The face-count contract (Euler's formula) and the canonical-ordering and crossing-free drawing guarantees of the shift method are not proved. They depend on planarity and on angle geometry, which are not modelled.
