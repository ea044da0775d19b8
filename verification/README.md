# Polygon clipping: Greiner-Hormann, Weiler-Atherton, Sutherland-Hodgman

A Dafny model of three polygon clippers, with coordinates over `real`:

- **Greiner-Hormann** (`Greiner-Hormann.py`) and **Weiler-Atherton**
  (`Weiler-Atherton.py`) share a ring structure. A `Polygon_` holds a
  coordinate list `listPoints` parallel to its `vertices`. The vertices are
  linked cyclically by `nextV`/`prevV`. Both clippers run three passes:
  - **Insertion.** Each original subject vertex starts a subject edge and each
    original clip vertex starts a clip edge; every pair is tested with the
    segment solver `intersect`. Each crossing found is inserted into both
    rings as a pair of linked intersection vertices. The clip edge runs to
    the clip vertex's current successor, so a crossing on a clip edge that
    was already cut is not always found (see "Insertion order" below).
  - **Classification.** Greiner-Hormann labels the intersection vertices
    alternately 'entry' and 'exit'. Weiler-Atherton first marks the subject
    vertices that lie inside or on the clip polygon, then marks an intersection
    vertex inbound when its successor is inside. Without crossings,
    Weiler-Atherton answers from two containment tests.
  - **Traversal.** Output polygons are cut out by walking the rings. Each walk
    goes forward or backward to the next intersection vertex, then hops to that
    vertex's partner in the other ring. It stops once the output polygon closes.
- **Sutherland-Hodgman** (`Sutherland-Hodgman.py`) filters the subject's
  points against each clip edge in turn. The test is a strict cross-product
  side test. Where the boundary crosses the edge's line, the crossing point
  is emitted.

Modules, one per file:

| file | module | covers |
|---|---|---|
| `options.dfy` | `Options` | `Option`, `Result` |
| `geometry.dfy` | `Geometry` | points, and the segment solver `intersect` of Greiner-Hormann and Weiler-Atherton |
| `rings.dfy` | `Rings` | `Vertex`, `Polygon_` (`add`, `sort`, `set_next_prev`, `link`, `intersect_vertex`) |
| `insertion.dfy` | `Insertion` | the insertion pass |
| `traversal.dfy` | `Traversal` | the traversal, with one engine for both variants |
| `greiner_hormann.dfy` | `GreinerHormann` | entry/exit labelling and the whole clipper |
| `weiler_atherton.dfy` | `WeilerAtherton` | inside marking, the zero-crossing case, inbound marking and the whole clipper |
| `sutherland_hodgman.dfy` | `SutherlandHodgman` | the whole Sutherland-Hodgman clipper |

Design choices:

- **Vertex identity.** An object reference becomes `id: nat`:
  - subject vertices are numbered 0..n-1;
  - clip vertices are numbered n..n+m-1;
  - intersection vertices take fresh numbers.
- **Links.** `nextV`/`prevV` are the index functions `Next`/`Prev`.
  `SetNextPrev` proves that the relinking loop computes exactly these.
- **Containment.** shapely's `contains` and `touches` become function
  parameters over a ring's coordinate list and a point.

Two behaviours of the code shape the model:

- **Insertion order, and lost crossings.** Each new vertex is inserted
  immediately before the edge's far end, read live. For the clip edge, the
  far end is `C0.nextV`, which may already be an intersection vertex
  inserted earlier. `alpha` is stored but never read, so several crossings
  on one edge are not sorted by it. Reading `C0.nextV` live also loses
  crossings. Once a crossing I is inserted on clip edge C0→C1, later subject
  edges are tested only against C0→I. No vertex of the clip snapshot starts
  I→C1, so a crossing on that part is never found.
  `Insertion.CrossingCutsClipEdge` proves that the live successor becomes I.
  `Insertion.LostCrossing` works through an example: clip square
  (0,0),(10,0),(10,10),(0,10) and subject (2,-1),(2,1),(8,1),(8,-1). The
  crossing at (8,0) lies on the full bottom edge at alphaC 0.8. Against
  (0,0)→(2,0), alphaC is 4, so only one crossing is counted. With no
  crossing at all, nothing is cut and every edge is tested whole:
  `Insertion.PhaseOneQuiet` proves that the pass counts zero exactly when no
  subject edge crosses a clip edge. The model inserts as the code does.
- **Termination.** The "until closed" loop is not bounded in the code's own
  text. Termination is not assumed here: the model bounds the loop with a
  `fuel` parameter, and `Traversal.TraceFinishes` proves that fuel equal to
  the two rings' coordinate count is enough. Each walk stops within one lap
  at an intersection vertex. It either closes the output polygon or appends a
  coordinate the polygon does not hold yet.

## Model

| member | source | states |
|---|---|---|
| Geometry.Intersect | Greiner-Hormann.py:86-105 | No crossing exactly when the denominator is zero or either edge parameter lies outside [0,1]. Otherwise the point is S0 + alphaS·(S1−S0), with both parameters in [0,1]. |
| Geometry.IntersectOnBothSegments | Greiner-Hormann.py:97-103 | The reported point is also C0 + alphaC·(C1−C0), so it lies on both segments at the reported parameters. |
| Geometry.IntersectComplete | Weiler-Atherton.py:84-103 | For non-parallel edges, any common point at parameters in [0,1] is reported with exactly those parameters. No crossing is missed. |
| Rings.MakeRing | Greiner-Hormann.py:27-37 | The constructor makes one plain vertex per coordinate, and the two lists are parallel. |
| Rings.MakeRingFresh | Weiler-Atherton.py:25-35 | A constructed ring has distinct vertex identities, no intersection vertex, and identities drawn from its own numbering range. |
| Rings.NextPrevMod | Greiner-Hormann.py:55-64 | In a ring of n vertices, vertex i's `nextV` is vertex (i+1) mod n and its `prevV` is vertex (i−1) mod n. |
| Rings.NextPrevInverse | Weiler-Atherton.py:53-62 | `nextV` of `prevV` and `prevV` of `nextV` give back the vertex. |
| Rings.SetNextPrev | Greiner-Hormann.py:55-64 | The relinking loop (first/last wrap, then all interior links) yields exactly the cyclic next/prev links. These are mutually inverse. An empty ring stays empty. |
| Rings.AddMerges | Greiner-Hormann.py:39-45 | `add` (`Rings.Add`) merges on close. A coordinate already present leaves both lists unchanged and sets `closed`. Otherwise the vertex is appended at the end of both lists. Parallelism and duplicate-freedom of the coordinates are kept. |
| Rings.Find | Greiner-Hormann.py:48 | `vertices.index(V1)`: the first position holding that vertex. Absent exactly when no vertex has that identity. |
| Rings.FindOwnId | Greiner-Hormann.py:168 | `S.vertices.index(current)` gives back `current`'s own position when identities are distinct, as the insertion pass keeps them. Flagging that position is what the model's traversal does. |
| Rings.FindPoint | Greiner-Hormann.py:181-182 | `listPoints.index(p)`: the first position of the coordinate. Absent exactly when it is not in the list. |
| Rings.SortPlaces | Greiner-Hormann.py:47-53 | `sort(v, V0, V1)` (`Rings.Sort`) puts v at V1's old index, so v sits directly before V1. Both lists grow by one and stay parallel. Removing v gives back the old lists, so all other vertices keep their relative order. |
| Rings.InsertSpec | Weiler-Atherton.py:45-51 | `list.insert`: the element lands at the index. Earlier elements stay; later ones shift by one. |
| Rings.InsertMembers | Weiler-Atherton.py:48-49 | An insertion adds exactly one occurrence of the new element and removes nothing. |
| Rings.Link | Weiler-Atherton.py:19-21 | `link` makes `neighbor` symmetric, and nothing else about either vertex changes. |
| Rings.FirstUnprocessed | Greiner-Hormann.py:79-82 | `intersect_vertex` returns the first intersection vertex not flagged processed. It returns none exactly when every intersection vertex is flagged. |
| Insertion.InsertCrossing | Greiner-Hormann.py:127-133 | A crossing adds one vertex to each ring and raises the crossing count by one. Every existing vertex is kept. |
| Insertion.InsertCrossingPlaces | Greiner-Hormann.py:128-133 | The two new vertices are linked partners at the crossing point. They carry alphaS and alphaC, and sit directly before S1 and C1 respectively. |
| Insertion.Probe | Greiner-Hormann.py:123-133 | Testing one edge pair keeps both rings' lists parallel and keeps every existing vertex. `Insertion.ProbeCounts` and `Insertion.ProbeKeeps` state when it inserts. |
| Insertion.ProbeCounts | Greiner-Hormann.py:123-133 | A crossing is counted exactly when S0→S1 crosses the clip edge from C0 to its current `C0.nextV`. Otherwise nothing changes. |
| Insertion.InsertCrossingKeeps | Weiler-Atherton.py:134-140 | One insertion keeps the ring invariant: parallel lists, distinct identities, and every intersection vertex paired with its partner in the other ring. |
| Insertion.ProbeKeeps | Greiner-Hormann.py:123-133 | Testing one edge pair keeps the invariant. It counts a crossing exactly when `intersect` reports one against the live `C0.nextV`, and then inserts it before S1 and before that `C0.nextV`. Without a crossing, nothing changes. |
| Insertion.Inner | Greiner-Hormann.py:122-133 | The loop over the clip snapshot keeps both rings' lists parallel and keeps every existing vertex. |
| Insertion.InnerKeeps | Greiner-Hormann.py:122-133 | The loop over the clip edges keeps the invariant and retains every vertex. It counts at most one crossing per clip edge, and each ring grows by one vertex per crossing. |
| Insertion.Outer | Greiner-Hormann.py:119-133 | The loop over the subject snapshot keeps both rings' lists parallel and keeps every existing vertex. |
| Insertion.OuterKeeps | Greiner-Hormann.py:119-133 | The loop over the subject edges keeps the invariant and retains every vertex. It counts at most one crossing per edge pair. |
| Insertion.PhaseOne | Greiner-Hormann.py:116-133 | The whole pass keeps both rings' lists parallel and keeps every input vertex. |
| Insertion.PhaseOneKeeps | Greiner-Hormann.py:116-133 | The whole pass keeps the invariant and counts at most n·m crossings for n subject and m clip vertices. With no crossing, both rings are unchanged. |
| Insertion.InnerGrows | Greiner-Hormann.py:122-133 | The loop over the clip edges never lowers the crossing count. |
| Insertion.OuterGrows | Greiner-Hormann.py:119-133 | The loop over the subject edges never lowers the crossing count. |
| Insertion.InnerQuiet | Greiner-Hormann.py:122-133 | The loop over the clip edges counts no crossing exactly when S0→S1 misses every clip edge from a snapshot vertex to its successor in the ring as it was. |
| Insertion.InnerUnchanged | Greiner-Hormann.py:122-133 | A loop over the clip edges that misses every one leaves both rings and the count as they were. |
| Insertion.OuterQuiet | Greiner-Hormann.py:119-133 | The loop over the subject edges counts no crossing exactly when every subject edge misses every clip edge, all taken in the rings as they were. |
| Insertion.PhaseOneQuiet | Greiner-Hormann.py:116-133 | The whole pass counts no crossing exactly when no edge of the subject ring crosses an edge of the clip ring. |
| Insertion.SuccessorAt | Greiner-Hormann.py:123 | With distinct identities, `nextV` of the vertex at position i is the vertex at position i+1 mod n. |
| Insertion.InsertedFind | Greiner-Hormann.py:133 | After `C.sort` inserts a vertex with a new identity, `index` finds every old vertex at its shifted position. |
| Insertion.InsertAfter | Greiner-Hormann.py:133 | Inserting before the successor of position j makes the new vertex the successor of the vertex from position j. |
| Insertion.CrossingCutsClipEdge | Greiner-Hormann.py:122-133 | After a crossing is inserted on the clip edge from C0, `C0.nextV` is the new intersection vertex at the crossing point. Later subject edges are tested only against C0→I. |
| Insertion.LostCrossing | Greiner-Hormann.py:119-133 | In the worked example, subject edges 0 and 2 both cross clip edge 0 of the original rings. Against the cut-back edge (0,0)→(2,0), edge 2's clip parameter is 4, so `intersect` reports nothing. |
| Insertion.PhaseOneCountsAgree | Weiler-Atherton.py:121-140 | `num_intersections` equals the number of intersection vertices in the subject ring, and also in the clip ring. Each ring grew by exactly that many vertices. |
| Insertion.InitialValid | Greiner-Hormann.py:27-37 | Freshly built rings satisfy the invariant and hold no intersection vertex. |
| Traversal.Visit | Greiner-Hormann.py:179-182 | Visiting a coordinate only ever sets flags. It flags the first subject occurrence of the coordinate, and nothing else. |
| Traversal.Reach | Greiner-Hormann.py:177-193 | A walk's stop lies between 1 and the bound's number of steps ahead. |
| Traversal.ReachFirst | Greiner-Hormann.py:177-183 | A walk stops at the first intersection vertex in its direction. It finds none exactly when no intersection vertex lies within its bound. |
| Traversal.VisitAllCovers | Greiner-Hormann.py:187-193 | Every coordinate a walk passes is in the output polygon and, if it is a subject coordinate, flagged processed. |
| Traversal.Walk | Weiler-Atherton.py:171-188 | A walk ends at the first intersection vertex in its direction, the given number of steps away. It finds none exactly when none lies within its bound. It only ever grows the output and sets flags. |
| Traversal.VisitAllWithin | Weiler-Atherton.py:173-188 | A walk adds only coordinates of the ring it walks. |
| Traversal.VisitAllAppends | Weiler-Atherton.py:173-188 | A walk that leaves the output polygon open has appended one new coordinate per step. |
| Traversal.WalkStopsWithinLap | Greiner-Hormann.py:173-193 | In a ring holding an intersection vertex, a walk stops within n steps. |
| Traversal.Hop | Greiner-Hormann.py:196 | The hop lands on a vertex with the identity the neighbour link names. It fails exactly when there is no link or no such vertex. |
| Traversal.HopLands | Greiner-Hormann.py:196 | The hop `current = current.neighbor` lands on the neighbour vertex in the other ring. |
| Traversal.HopFindsPartner | Weiler-Atherton.py:191 | After the insertion pass, a hop from any intersection vertex lands on its linked partner. |
| Traversal.ValidLinked | Weiler-Atherton.py:191 | After the insertion pass, every intersection vertex of either ring hops to an intersection vertex of the other. |
| Traversal.LinkedTransfer | Greiner-Hormann.py:140-159 | Changing labels or flags, but not identities, links or intersection flags, keeps the rings linked. |
| Traversal.Trace | Greiner-Hormann.py:172-197 | The "until closed" loop ends with the output polygon closed. It never drops a coordinate already in the output, and keeps the output's coordinates free of duplicates. |
| Traversal.TraceLinked | Greiner-Hormann.py:172-197 | In linked rings, the loop never fails for want of a neighbour. |
| Traversal.TraceFinishes | Greiner-Hormann.py:172-197 | In linked rings, the loop closes the polygon within as many walks as the two rings have coordinates. |
| Traversal.UnprocessedDecreases | Greiner-Hormann.py:164-168 | Flagging `current` strictly lowers the number of unprocessed intersection vertices. This is the outer loop's progress measure. |
| Traversal.Emit | Greiner-Hormann.py:168-199 | Each output polygon is closed, non-empty and duplicate-free. Its start vertex ends up flagged. |
| Traversal.Traverse | Greiner-Hormann.py:162-203 | Every polygon the traversal returns is closed, non-empty and duplicate-free. |
| Traversal.TraverseLinked | Greiner-Hormann.py:162-203 | In linked rings, the traversal never fails for want of a neighbour. |
| Traversal.TraverseFinishes | Greiner-Hormann.py:162-203 | In linked rings, with fuel at least the two rings' coordinate count, the traversal succeeds. |
| Traversal.TraverseStart | Weiler-Atherton.py:158-166 | With no unprocessed intersection vertex, the result is empty. Otherwise the first polygon starts at the first unprocessed subject intersection vertex. |
| Traversal.TraverseWithoutIsect | Greiner-Hormann.py:162-167 | A subject ring without intersection vertices yields no polygon. |
| Traversal.Seed | Greiner-Hormann.py:169-170 | A new output polygon holds just the start coordinate and is not closed. |
| GreinerHormann.Label | Greiner-Hormann.py:140-146 | The k-th intersection vertex in ring order gets the start status toggled k times. Other vertices are untouched. |
| GreinerHormann.LabelAlternates | Greiner-Hormann.py:153-159 | Consecutive intersection vertices in ring order get different statuses. |
| GreinerHormann.LabelStartsWith | Greiner-Hormann.py:150-155 | The first intersection vertex gets the start status. |
| GreinerHormann.LabelKeeps | Greiner-Hormann.py:140-159 | Labelling changes only `entry_exit`, and only on intersection vertices. |
| GreinerHormann.PhaseTwo | Greiner-Hormann.py:135-159 | Each ring's labels start at 'exit' exactly when its first vertex is inside the other polygon. Coordinates and `closed` are unchanged. |
| GreinerHormann.PhaseTwoLinked | Greiner-Hormann.py:135-159 | After labelling, the rings are still parallel and linked both ways. |
| GreinerHormann.InsertedCounts | Greiner-Hormann.py:116-133 | Both rings hold the same number of intersection vertices, one per crossing. Each ring grew by one coordinate per crossing, and there are at most n·m crossings. With no crossing, both coordinate lists are the inputs. |
| GreinerHormann.InsertedValid | Greiner-Hormann.py:116-133 | After insertion, the rings satisfy the invariant: every intersection vertex is paired with its partner. |
| GreinerHormann.Clip | Greiner-Hormann.py:115-203 | The clipper fails with `MissingVertex` exactly when an input is empty (`C.vertices[0]`). Every polygon it returns is closed, non-empty and duplicate-free. |
| GreinerHormann.ClipOutcome | Greiner-Hormann.py:115-203 | The clipper never fails for want of a neighbour. With fuel at least n + m + 2·n·m for n subject and m clip points, it fails only on an empty input. |
| GreinerHormann.InsertedQuiet | Greiner-Hormann.py:116-133 | Phase one counts no crossing exactly when no edge of the subject polygon crosses an edge of the clip polygon. |
| GreinerHormann.ClipWithoutCrossings | Greiner-Hormann.py:162-167 | Without crossings, the clipper returns no polygon. By `GreinerHormann.InsertedQuiet`, that is exactly when no edges of the two polygons cross. |
| WeilerAtherton.MarkInside | Weiler-Atherton.py:114-117 | Marking keeps the coordinates, the vertex count and the parallel lists. |
| WeilerAtherton.StartValid | Weiler-Atherton.py:25-35 | The two input rings satisfy the invariant, hold no intersection vertex, and carry the input coordinates. |
| WeilerAtherton.StartMarks | Weiler-Atherton.py:114-117 | Before insertion, a subject vertex is inside exactly when it is inside or on the clip polygon. No clip vertex is inside, and no vertex is inbound. |
| WeilerAtherton.InsertedCounts | Weiler-Atherton.py:124-140 | `num_intersections` equals the count of intersection vertices in each ring and the number of coordinates each ring gained. It is at most n·m. With none, both coordinate lists are the inputs. |
| WeilerAtherton.InsideOnlyOriginal | Weiler-Atherton.py:114-140 | After insertion, exactly the original subject vertices inside or on the clip polygon are inside. Intersection vertices and clip vertices never are. |
| WeilerAtherton.MarkInbound | Weiler-Atherton.py:152-155 | Marking keeps the coordinates, the vertex count and the parallel lists. |
| WeilerAtherton.InboundExactly | Weiler-Atherton.py:152-155 | A subject vertex is inbound exactly when it is an intersection vertex with an inside successor. An intersection vertex followed by another is never inbound. |
| WeilerAtherton.ClipRingWalksBackward | Weiler-Atherton.py:170-188 | No clip-ring vertex is inbound, so every walk on the clip ring goes backward. |
| WeilerAtherton.NoCrossing | Weiler-Atherton.py:142-150 | The zero-crossing case returns at most one polygon, the subject or the clip ring. It fails exactly when the subject ring is empty, or the clip ring is empty and the subject's first vertex is not inside or on it. |
| WeilerAtherton.InsertedQuiet | Weiler-Atherton.py:119-140 | `num_intersections` is zero exactly when no edge of the subject polygon crosses an edge of the clip polygon. |
| WeilerAtherton.ClipWithoutCrossings | Weiler-Atherton.py:142-150 | Without crossings (by `WeilerAtherton.InsertedQuiet`, exactly when no edges of the two polygons cross): the subject if its first vertex is inside or on the clip polygon; else the clip polygon if its first vertex is inside or on the subject; else nothing. Reading a first vertex of an empty ring fails. |
| WeilerAtherton.Clip | Weiler-Atherton.py:113-198 | The clipper fails with `MissingVertex` exactly when the subject is empty, or the clip is empty and does not contain or touch the subject's first point. With crossings, every polygon returned is closed, non-empty and duplicate-free. |
| WeilerAtherton.InboundLinked | Weiler-Atherton.py:152-155 | After inbound marking, the rings are still parallel and linked both ways. |
| WeilerAtherton.ClipOutcome | Weiler-Atherton.py:113-198 | The clipper never fails for want of a neighbour. With fuel at least n + m + 2·n·m, it fails only on a missing first vertex. |
| SutherlandHodgman.OnLineNotInside | Sutherland-Hodgman.py:7-8 | `inside` (`SutherlandHodgman.Inside`) is strict: no point on the edge's line, the edge's own ends included, is inside. |
| SutherlandHodgman.DivisorIsSideDifference | Sutherland-Hodgman.py:11-20 | The divisor of `intersect` equals the difference of the two subject points' cross products against the edge. |
| SutherlandHodgman.DivisorNonzero | Sutherland-Hodgman.py:48-59 | When exactly one of S0, S1 is inside, as at both calls of `intersect`, the divisor is not zero. |
| SutherlandHodgman.IntersectOnClipLine | Sutherland-Hodgman.py:11-23 | The point `intersect` (`SutherlandHodgman.Intersect`) computes lies on the clip edge's line. |
| SutherlandHodgman.IntersectOnSubjectLine | Sutherland-Hodgman.py:11-23 | The computed point lies on the subject edge's line. |
| SutherlandHodgman.IntersectBetween | Sutherland-Hodgman.py:48-59 | At both calls, the computed point lies on the subject edge between S0 and S1, at the fraction of the way where the cross product against the clip edge changes sign. |
| SutherlandHodgman.ClipEdgeLength | Sutherland-Hodgman.py:45-60 | One pass (`SutherlandHodgman.ClipEdge`) emits at most twice as many points as it reads. |
| SutherlandHodgman.ClipEdgeAllInside | Sutherland-Hodgman.py:45-60 | If every input point is inside the edge, the pass returns the input unchanged. |
| SutherlandHodgman.ClipEdgeNoneInside | Sutherland-Hodgman.py:48-58 | If no input point is inside the edge, the pass returns nothing. |
| SutherlandHodgman.ClipEdgeKeepsInside | Sutherland-Hodgman.py:48-55 | Every input point inside the edge is emitted, in input order: the inside points form a subsequence of the output. |
| SutherlandHodgman.ClipEdgeOnSide | Sutherland-Hodgman.py:45-60 | Every point a pass emits is inside the edge or on its line. |
| SutherlandHodgman.Clip | Sutherland-Hodgman.py:30-32 | The clipper fails (`C[-1]`) exactly when the clip list is empty. |
| SutherlandHodgman.ClipAllFollowsChain | Sutherland-Hodgman.py:34-61 | The outer loop (`SutherlandHodgman.ClipAll`) is one pass per edge, in order, along the chain of edges that starts at the initial `C0` and moves `C0` to each clip point in turn. |
| SutherlandHodgman.ClipWrapsAround | Sutherland-Hodgman.py:30-64 | There is one pass per clip point. Pass i uses the edge ending at clip point i, and the first edge starts at the last clip point. |
| SutherlandHodgman.EmptyStaysEmpty | Sutherland-Hodgman.py:41-45 | Once the clipped polygon is empty, it stays empty for all remaining edges. |
| SutherlandHodgman.ClipEdgesAllInside | Sutherland-Hodgman.py:34-61 | A subject whose points are all inside every edge comes back unchanged. |
| SutherlandHodgman.ClipEdgesLength | Sutherland-Hodgman.py:34-61 | After k passes, the polygon has at most 2^k times the subject's point count. |

## Left out

- shapely's `contains` and `touches` (Greiner-Hormann.py:74-77, Weiler-Atherton.py:72-76) belong to a foreign library. They are uninterpreted function parameters, so nothing depends on their geometry.
- Floating point is not modelled. Coordinates are `real`, so `den == 0`, the [0,1] tests and the side test are exact.
- The `__main__` blocks are not modelled: matplotlib plotting, `time` benchmarking, printing and the sample inputs. The Sutherland-Hodgman one calls `sutherland_hodgman(C, S)` with its two polygons swapped.
- `set_interior` (Greiner-Hormann.py:66-72, Weiler-Atherton.py:64-70) is dead code that overwrites its own result.
- `np.copy` is modelled only as a snapshot: the insertion loops run over the vertex sequence as it was before the pass.
- Object references are vertex identities, and `nextV`/`prevV` are positions in the ring. The traversal therefore walks by index.
- Output polygons are fresh rings of plain vertices built by `add`. Their vertices' identities are immaterial and set to 0.
- The clippers take coordinate lists. The `closed` flag of an input `Polygon_` is never read by the algorithms.
- The source mutates the caller's `S` and `C` in place: it inserts intersection vertices, sets `inside`, `inbound` and `entry_exit`, and relinks `nextV`/`prevV`. The model returns new rings and leaves its inputs unchanged, so this side effect on the caller is not modelled.
- shapely raises `ValueError` when a `Polygon` is built from one or two points. Greiner-Hormann's `inside` and Weiler-Atherton's `inside_or_on` build one on every call, including the no-crossing tests. The model's containment parameters are total, so such inputs reach the tests and get an answer rather than an exception.
- The source's inputs and outputs are `Polygon_` objects; the model's are coordinate lists in and `Ring` values out. When Weiler-Atherton finds no crossing, the source returns the caller's own `S` or `C` object, with its mutated vertices. The model returns the ring built from that input's coordinates, so object identity is not modelled.
- Traversal.Trace: termination of the "until closed" loop is proved only through a bound. The loop runs for at most `fuel` walks, and running out is the failure `Unbounded`. Traversal.TraceFinishes shows that enough fuel is never exhausted on the rings the insertion pass builds.
- Traversal.Trace: the hop to a missing `neighbor` is the failure `NoNeighbor`. Weiler-Atherton's `Vertex` has no `neighbor` attribute until linked, while Greiner-Hormann's defaults to `None`. Both ClipOutcome lemmas show that the clippers never reach this case. The source hops before testing `closed` and the model tests first; the hop's result is discarded either way.
- Traversal.Traverse: states that each output polygon is well-formed, not that it bounds the intersection of the two inputs. The containment tests are uninterpreted, so no such geometric claim can be stated.
- GreinerHormann.Clip: states well-formedness of the output, not its geometry, for the same reason.
- WeilerAtherton.Clip: states well-formedness of the output, not its geometry, for the same reason. With no crossing, the subject or clip ring is returned as built, and its coordinates may repeat, so well-formedness is promised only with crossings.
- WeilerAtherton.MarkInside: its contract states only what marking keeps. Which vertices become inside is stated by WeilerAtherton.StartMarks.
- WeilerAtherton.MarkInbound: its contract states only what marking keeps. Which vertices become inbound is stated by WeilerAtherton.InboundExactly.
- SutherlandHodgman.ClipEdgesAllInside: does not claim that Sutherland-Hodgman's output lies inside every clip edge. That holds only for convex clip polygons listed counter-clockwise, which the source assumes but does not check.
