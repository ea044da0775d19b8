/**
 Phase three of both Greiner-Hormann and Weiler-Atherton: the output
 polygons are extracted by walking the linked rings. One engine serves both
 variants; `Mode` selects the rule that picks the walking direction.

 Starting from the first unprocessed subject intersection vertex, a walk
 steps along `nextV` or `prevV` of the ring the current vertex belongs to,
 adding every visited coordinate to the output polygon, until it reaches an
 intersection vertex; the traversal then hops to that vertex's neighbour in
 the other ring and walks again, until the output polygon has closed itself
 by receiving a coordinate it already holds.
 */
module Traversal {
  import opened Options
  import opened Geometry
  import opened Rings
  import opened Insertion

  /** The classification rule in use. */
  datatype Mode = EntryExit | InboundOutbound

  /** Whether a walk leaving `v` goes along `nextV`: from an 'entry' vertex in
      Greiner-Hormann, from an inbound vertex in Weiler-Atherton; every other
      vertex is left along `prevV`. */
  predicate Forward(mode: Mode, v: Vertex) {
    match mode
    case EntryExit => v.status == Entry
    case InboundOutbound => v.inbound
  }

  /** The ring a traversal position lies in. */
  datatype Side = Subject | Clip

  function Other(side: Side): Side {
    match side
    case Subject => Clip
    case Clip => Subject
  }

  function RingOf(s: Ring, c: Ring, side: Side): Ring {
    match side
    case Subject => s
    case Clip => c
  }

  /** One step along `nextV` (forward) or `prevV`. */
  function Step(n: nat, i: nat, forward: bool): (j: nat)
    requires i < n
    ensures j < n
  {
    if forward then Next(n, i) else Prev(n, i)
  }

  /** The position `k` steps from `i` in one direction. */
  function Ahead(n: nat, i: nat, forward: bool, k: nat): (j: nat)
    requires i < n
    ensures j < n
    decreases k
  {
    if k == 0 then i else Ahead(n, Step(n, i, forward), forward, k - 1)
  }

  /** Number of steps from `i` to `m` in one direction; a full lap when `m == i`. */
  function Dist(n: nat, i: nat, forward: bool, m: nat): (d: nat)
    requires i < n && m < n
    ensures 1 <= d <= n
  {
    if forward then (if m > i then m - i else m + n - i)
    else (if m < i then i - m else i + n - m)
  }

  /** Walking `Dist` steps from `i` in one direction reaches `m`: within one
      lap, every vertex of the ring is reached. */
  lemma {:induction false} AheadDist(n: nat, i: nat, forward: bool, m: nat)
    requires i < n && m < n
    ensures Ahead(n, i, forward, Dist(n, i, forward, m)) == m
    decreases Dist(n, i, forward, m)
  {
    var j := Step(n, i, forward);
    if j == m {
      assert Dist(n, i, forward, m) == 1;
    } else {
      assert Dist(n, j, forward, m) == Dist(n, i, forward, m) - 1;
      AheadDist(n, j, forward, m);
    }
  }

  /** What a traversal threads through its walks: the output polygon being built
      and the processed flags of the subject ring's vertices. */
  datatype Walker = Walker(out: Ring, processed: seq<bool>)

  /** Flags only ever go from false to true. */
  predicate Monotone(p: seq<bool>, q: seq<bool>) {
    |p| == |q| && forall k :: 0 <= k < |p| && p[k] ==> q[k]
  }

  /** Visit a coordinate: add it to the output polygon (merge-on-close) and, when
      it occurs in the subject ring, flag its first occurrence as processed. */
  function Visit(w: Walker, sPoints: seq<Point>, p: Point): (w': Walker)
    requires |w.processed| == |sPoints|
    ensures Monotone(w.processed, w'.processed)
    ensures p in sPoints ==> w'.processed[FindPoint(sPoints, p).value]
    ensures forall k :: 0 <= k < |sPoints| && w'.processed[k] && !w.processed[k] ==> FindPoint(sPoints, p) == Some(k)
  {
    var processed := match FindPoint(sPoints, p)
      case Some(k) => w.processed[k := true]
      case None => w.processed;
    Walker(Add(w.out, Plain(0, p)), processed)
  }

  /** Where a walk stopped: the position, the number of steps taken, the state. */
  datatype Stop = Stop(at: nat, steps: nat, w: Walker)

  /** The stopping rule of a walk: the number of steps from position `i` to the
      first intersection vertex in one direction, or `None` when none lies
      within `fuel` steps. */
  function Reach(r: Ring, i: nat, forward: bool, fuel: nat): (res: Option<nat>)
    requires i < |r.verts|
    ensures res.Some? ==> 1 <= res.value <= fuel
    decreases fuel
  {
    if fuel == 0 then None
    else
      var j := Step(|r.verts|, i, forward);
      if r.verts[j].isect then Some(1)
      else match Reach(r, j, forward, fuel - 1)
        case None => None
        case Some(k) => Some(k + 1)
  }

  /** `Reach` finds the first intersection vertex ahead, and reports `None`
      exactly when none lies within `fuel` steps. */
  lemma {:induction false} ReachFirst(r: Ring, i: nat, forward: bool, fuel: nat)
    requires i < |r.verts|
    ensures var res, n := Reach(r, i, forward, fuel), |r.verts|;
      && (res.Some? ==>
        && r.verts[Ahead(n, i, forward, res.value)].isect
        && forall m :: 1 <= m < res.value ==> !r.verts[Ahead(n, i, forward, m)].isect)
      && (res.None? <==> forall m :: 1 <= m <= fuel ==> !r.verts[Ahead(n, i, forward, m)].isect)
    decreases fuel
  {
    var n := |r.verts|;
    if fuel > 0 {
      var j := Step(n, i, forward);
      assert Ahead(n, i, forward, 1) == j;
      if !r.verts[j].isect {
        ReachFirst(r, j, forward, fuel - 1);
        forall m | 1 <= m <= fuel
          ensures Ahead(n, i, forward, m) == if m == 1 then j else Ahead(n, j, forward, m - 1)
        {
        }
        match Reach(r, j, forward, fuel - 1)
        case None =>
          forall m | 1 <= m <= fuel
            ensures !r.verts[Ahead(n, i, forward, m)].isect
          {
            if m > 1 {
              assert !r.verts[Ahead(n, j, forward, m - 1)].isect;
            }
          }
        case Some(k) =>
          assert r.verts[Ahead(n, i, forward, k + 1)].isect;
      }
    }
  }

  /** The effect of a walk of `k` steps: each vertex passed, in order, is visited. */
  function VisitAll(r: Ring, sPoints: seq<Point>, i: nat, forward: bool, w: Walker, k: nat): (w': Walker)
    requires i < |r.verts| && |w.processed| == |sPoints|
    ensures Monotone(w.processed, w'.processed)
    ensures w.out.points <= w'.out.points
    ensures w.out.closed ==> w'.out.closed
    ensures NoDup(w.out.points) ==> NoDup(w'.out.points)
  {
    if k == 0 then w
    else
      var before := VisitAll(r, sPoints, i, forward, w, k - 1);
      AddMerges(before.out, Plain(0, r.verts[Ahead(|r.verts|, i, forward, k)].pt));
      Visit(before, sPoints, r.verts[Ahead(|r.verts|, i, forward, k)].pt)
  }

  /** Coordinate `p` is in the output polygon and, when it is a subject
      coordinate, its first occurrence is flagged processed. */
  predicate Covered(w: Walker, sPoints: seq<Point>, p: Point) {
    && p in w.out.points
    && |w.processed| == |sPoints|
    && (p in sPoints ==> w.processed[FindPoint(sPoints, p).value])
  }

  /** A visit covers its own coordinate and keeps every covered one covered. */
  lemma VisitCovers(w: Walker, sPoints: seq<Point>, p: Point, q: Point)
    requires |w.processed| == |sPoints|
    ensures Covered(Visit(w, sPoints, p), sPoints, p)
    ensures Covered(w, sPoints, q) ==> Covered(Visit(w, sPoints, p), sPoints, q)
  {
    AddMerges(w.out, Plain(0, p));
    if q in w.out.points {
      PrefixMember(w.out.points, Visit(w, sPoints, p).out.points, q);
    }
  }

  /** Every coordinate a walk passes ends up in the output polygon, and, when it
      is a subject coordinate, its first occurrence is flagged processed. */
  lemma {:induction false} VisitAllCovers(r: Ring, sPoints: seq<Point>, i: nat, forward: bool, w: Walker, k: nat)
    requires i < |r.verts| && |w.processed| == |sPoints|
    ensures forall m :: 1 <= m <= k ==>
      Covered(VisitAll(r, sPoints, i, forward, w, k), sPoints, r.verts[Ahead(|r.verts|, i, forward, m)].pt)
  {
    if k > 0 {
      var n := |r.verts|;
      var before := VisitAll(r, sPoints, i, forward, w, k - 1);
      var p := r.verts[Ahead(n, i, forward, k)].pt;
      VisitAllCovers(r, sPoints, i, forward, w, k - 1);
      assert VisitAll(r, sPoints, i, forward, w, k) == Visit(before, sPoints, p);
      forall m | 1 <= m <= k
        ensures Covered(Visit(before, sPoints, p), sPoints, r.verts[Ahead(n, i, forward, m)].pt)
      {
        VisitCovers(before, sPoints, p, r.verts[Ahead(n, i, forward, m)].pt);
      }
    }
  }

  lemma PrefixMember<T>(a: seq<T>, b: seq<T>, x: T)
    requires a <= b && x in a
    ensures x in b
  {
    var j :| 0 <= j < |a| && a[j] == x;
    assert b[j] == x;
  }

  /** The inner "until an intersection vertex" loop: step from position `i` of
      ring `r` in one direction, visiting each vertex reached, and stop at the
      first intersection vertex. `fuel` bounds the steps; `None` means no
      intersection vertex lies within `fuel` steps. */
  function Walk(r: Ring, sPoints: seq<Point>, i: nat, forward: bool, w: Walker, fuel: nat): (res: Option<Stop>)
    requires i < |r.verts| && |w.processed| == |sPoints|
    ensures res.None? <==> forall m :: 1 <= m <= fuel ==> !r.verts[Ahead(|r.verts|, i, forward, m)].isect
    ensures res.Some? ==>
      && 1 <= res.value.steps <= fuel
      && res.value.at == Ahead(|r.verts|, i, forward, res.value.steps)
      && r.verts[res.value.at].isect
      && (forall m :: 1 <= m < res.value.steps ==> !r.verts[Ahead(|r.verts|, i, forward, m)].isect)
      && Monotone(w.processed, res.value.w.processed)
      && (NoDup(w.out.points) ==> NoDup(res.value.w.out.points))
      && w.out.points <= res.value.w.out.points
      && (w.out.closed ==> res.value.w.out.closed)
  {
    ReachFirst(r, i, forward, fuel);
    match Reach(r, i, forward, fuel)
    case None => None
    case Some(k) => Some(Stop(Ahead(|r.verts|, i, forward, k), k, VisitAll(r, sPoints, i, forward, w, k)))
  }

  /** A walk in a ring holding any intersection vertex stops within one lap. */
  lemma WalkStopsWithinLap(r: Ring, sPoints: seq<Point>, i: nat, forward: bool, w: Walker, m: nat)
    requires i < |r.verts| && |w.processed| == |sPoints|
    requires m < |r.verts| && r.verts[m].isect
    ensures Walk(r, sPoints, i, forward, w, |r.verts|).Some?
  {
    AheadDist(|r.verts|, i, forward, m);
  }

  /** Hop to the neighbour: the position in `target` of the vertex `v` is linked to. */
  function Hop(target: Ring, v: Vertex): (r: Option<nat>)
    ensures r.Some? ==> v.neighbor.Some? && r.value < |target.verts| && target.verts[r.value].id == v.neighbor.value
    ensures r.None? <==> v.neighbor.None? || !HasId(target.verts, v.neighbor.value)
  {
    match v.neighbor
    case None => None
    case Some(id) => Find(target.verts, id)
  }

  /** Hopping from `v` to a vertex of a ring with distinct identities lands on
      the vertex its neighbour link names. */
  lemma HopLands(target: Ring, v: Vertex, w: Vertex)
    requires w in target.verts && v.neighbor == Some(w.id) && DistinctIds(target.verts)
    ensures Hop(target, v).Some? && target.verts[Hop(target, v).value] == w
  {
    var j :| 0 <= j < |target.verts| && target.verts[j] == w;
    assert HasId(target.verts, w.id);
  }

  /** After the insertion pass, hopping from an intersection vertex of either
      ring always lands on its partner: same coordinate, linked back. */
  lemma HopFindsPartner(st: Pass, side: Side, v: Vertex)
    requires Valid(st) && v in RingOf(st.s, st.c, side).verts && v.isect
    ensures var target := RingOf(st.s, st.c, Other(side)).verts;
      var h := Hop(RingOf(st.s, st.c, Other(side)), v);
      && h.Some?
      && (side == Subject ==> Partners(v, target[h.value]))
      && (side == Clip ==> Partners(target[h.value], v))
  {
    if side == Subject {
      var w :| w in st.c.verts && Partners(v, w);
      HopLands(st.c, v, w);
    } else {
      var u :| u in st.s.verts && Partners(u, v);
      HopLands(st.s, v, u);
    }
  }

  /** Every intersection vertex of `from` hops to an intersection vertex of `to`. */
  predicate Linked(from: Ring, to: Ring) {
    forall k {:trigger Hop(to, from.verts[k])} :: 0 <= k < |from.verts| && from.verts[k].isect ==>
      Hop(to, from.verts[k]).Some? && to.verts[Hop(to, from.verts[k]).value].isect
  }

  /** After the insertion pass the two rings are linked both ways. */
  lemma ValidLinked(st: Pass)
    requires Valid(st)
    ensures Linked(st.s, st.c) && Linked(st.c, st.s)
  {
    forall k | 0 <= k < |st.s.verts| && st.s.verts[k].isect
      ensures Hop(st.c, st.s.verts[k]).Some? && st.c.verts[Hop(st.c, st.s.verts[k]).value].isect
    {
      HopFindsPartner(st, Subject, st.s.verts[k]);
    }
    forall k | 0 <= k < |st.c.verts| && st.c.verts[k].isect
      ensures Hop(st.s, st.c.verts[k]).Some? && st.s.verts[Hop(st.s, st.c.verts[k]).value].isect
    {
      HopFindsPartner(st, Clip, st.c.verts[k]);
    }
  }

  /** Position by position, `b` has the identities, links and intersection
      flags of `a`; only labels and classification flags may differ. */
  predicate SameLinks(a: seq<Vertex>, b: seq<Vertex>) {
    |a| == |b| &&
    forall k :: 0 <= k < |a| ==> a[k].id == b[k].id && a[k].neighbor == b[k].neighbor && a[k].isect == b[k].isect
  }

  /** A lookup by identity sees only identities. */
  lemma {:induction false} FindSameIds(a: seq<Vertex>, b: seq<Vertex>, id: nat)
    requires SameLinks(a, b)
    ensures Find(a, id) == Find(b, id)
  {
    if a != [] && a[0].id != id {
      FindSameIds(a[1..], b[1..], id);
    }
  }

  /** Relabelling either ring keeps the rings linked. */
  lemma LinkedTransfer(s: Ring, c: Ring, s': Ring, c': Ring)
    requires Linked(s, c) && SameLinks(s.verts, s'.verts) && SameLinks(c.verts, c'.verts)
    ensures Linked(s', c')
  {
    forall k | 0 <= k < |s'.verts| && s'.verts[k].isect
      ensures Hop(c', s'.verts[k]).Some? && c'.verts[Hop(c', s'.verts[k]).value].isect
    {
      var h := Hop(c, s.verts[k]);
      assert s.verts[k].isect && h.Some?;
      FindSameIds(c.verts, c'.verts, s.verts[k].neighbor.value);
      assert Hop(c', s'.verts[k]) == h;
    }
  }

  /** Why a clipper produced no result: a walk or the closing loop did not end
      within its bound (the source would loop forever or beyond the bound), a
      vertex had no neighbour to hop to, or a ring had no first vertex to test
      (in the last two cases the source raises an exception). */
  datatype Failure = Unbounded | NoNeighbor | MissingVertex

  /** The "until polygon closed" loop from position `i` of the ring on `side`:
      walk in the direction the current vertex dictates, hop to the neighbour of
      the vertex reached, and stop once the output polygon is closed. `fuel`
      bounds the number of walks. */
  function Trace(mode: Mode, s: Ring, c: Ring, side: Side, i: nat, w: Walker, fuel: nat): (res: Result<Walker, Failure>)
    requires i < |RingOf(s, c, side).verts| && |w.processed| == |s.points|
    ensures res.Success? ==>
      && res.value.out.closed
      && Monotone(w.processed, res.value.processed)
      && w.out.points <= res.value.out.points
      && (NoDup(w.out.points) ==> NoDup(res.value.out.points))
    ensures res != Failure(MissingVertex)
    decreases fuel
  {
    if fuel == 0 then Failure(Unbounded)
    else
      var r := RingOf(s, c, side);
      match Walk(r, s.points, i, Forward(mode, r.verts[i]), w, |r.verts|)
      case None => Failure(Unbounded)
      case Some(stop) =>
        if stop.w.out.closed then Success(stop.w)
        else match Hop(RingOf(s, c, Other(side)), r.verts[stop.at])
          case None => Failure(NoNeighbor)
          case Some(j) => Trace(mode, s, c, Other(side), j, stop.w, fuel - 1)
  }

  /** Number of intersection vertices not yet processed. */
  function Unprocessed(vs: seq<Vertex>, processed: seq<bool>): nat
    requires |vs| == |processed|
  {
    if vs == [] then 0
    else (if vs[0].isect && !processed[0] then 1 else 0) + Unprocessed(vs[1..], processed[1..])
  }

  /** Progress of the outer loop: flagging an unprocessed intersection vertex,
      and possibly more, strictly lowers the unprocessed count. */
  lemma {:induction false} UnprocessedDecreases(vs: seq<Vertex>, p: seq<bool>, q: seq<bool>, i: nat)
    requires |vs| == |p| && Monotone(p, q)
    requires i < |vs| && vs[i].isect && !p[i] && q[i]
    ensures Unprocessed(vs, q) < Unprocessed(vs, p)
  {
    if i > 0 {
      UnprocessedDecreases(vs[1..], p[1..], q[1..], i - 1);
    } else {
      UnprocessedMonotone(vs[1..], p[1..], q[1..]);
    }
  }

  lemma {:induction false} UnprocessedMonotone(vs: seq<Vertex>, p: seq<bool>, q: seq<bool>)
    requires |vs| == |p| && Monotone(p, q)
    ensures Unprocessed(vs, q) <= Unprocessed(vs, p)
  {
    if vs != [] {
      UnprocessedMonotone(vs[1..], p[1..], q[1..]);
    }
  }

  /** One round of the outer loop from the unprocessed subject intersection
      vertex at `i`: flag it, seed a new output polygon with its coordinate and
      trace that polygon until it closes. A polygon so produced is closed,
      non-empty and free of repeated coordinates, and the flags only grow,
      `i`'s included. */
  function Emit(mode: Mode, s: Ring, c: Ring, processed: seq<bool>, i: nat, fuel: nat): (res: Result<Walker, Failure>)
    requires Parallel(s) && i < |s.verts| && |processed| == |s.points|
    ensures res.Success? ==>
      && Polygon(res.value.out)
      && Monotone(processed, res.value.processed)
      && res.value.processed[i]
    ensures res != Failure(MissingVertex)
  {
    var out := Seed(s.verts[i].pt);
    var res := Trace(mode, s, c, Subject, i, Walker(out, processed[i := true]), fuel);
    TracedPolygon(mode, s, c, i, out, processed[i := true], fuel);
    if res.Success? then MonotoneFlag(processed, i, res.value.processed); res else res
  }

  /** The outer loop: while some subject intersection vertex is unprocessed,
      run one round from the first one and collect the polygon it closes.
      Every polygon collected is closed, non-empty and free of repeated
      coordinates. */
  function Traverse(mode: Mode, s: Ring, c: Ring, processed: seq<bool>, fuel: nat): (res: Result<seq<Ring>, Failure>)
    requires Parallel(s) && |processed| == |s.points|
    ensures res.Success? ==> forall k :: 0 <= k < |res.value| ==> Polygon(res.value[k])
    ensures res != Failure(MissingVertex)
    decreases Unprocessed(s.verts, processed)
  {
    match FirstUnprocessed(s.verts, processed)
    case None => Success([])
    case Some(i) =>
      match Emit(mode, s, c, processed, i, fuel)
      case Failure(e) => Failure(e)
      case Success(w) =>
        UnprocessedDecreases(s.verts, processed, w.processed, i);
        match Traverse(mode, s, c, w.processed, fuel)
        case Failure(e) => Failure(e)
        case Success(rest) => ConsPolygons(w.out, rest); Success([w.out] + rest)
  }

  /** One round of the "until closed" loop that neither fails nor closes the
      polygon continues from the hop target with one unit of fuel less. */
  lemma TraceContinues(mode: Mode, s: Ring, c: Ring, side: Side, i: nat, w: Walker, fuel: nat, stop: Stop, j: nat)
    requires i < |RingOf(s, c, side).verts| && |w.processed| == |s.points| && fuel > 0
    requires Walk(RingOf(s, c, side), s.points, i, Forward(mode, RingOf(s, c, side).verts[i]), w, |RingOf(s, c, side).verts|) == Some(stop)
    requires !stop.w.out.closed
    requires Hop(RingOf(s, c, Other(side)), RingOf(s, c, side).verts[stop.at]) == Some(j)
    ensures j < |RingOf(s, c, Other(side)).verts|
    ensures Trace(mode, s, c, side, i, w, fuel) == Trace(mode, s, c, Other(side), j, stop.w, fuel - 1)
  {
  }

  /** A round whose walk finds no intersection vertex within a lap ends the
      loop unbounded. */
  lemma TraceRunsOut(mode: Mode, s: Ring, c: Ring, side: Side, i: nat, w: Walker, fuel: nat)
    requires i < |RingOf(s, c, side).verts| && |w.processed| == |s.points| && fuel > 0
    requires Walk(RingOf(s, c, side), s.points, i, Forward(mode, RingOf(s, c, side).verts[i]), w, |RingOf(s, c, side).verts|).None?
    ensures Trace(mode, s, c, side, i, w, fuel) == Failure(Unbounded)
  {
  }

  /** A round whose walk closes the polygon ends the loop with that walk's state. */
  lemma TraceCloses(mode: Mode, s: Ring, c: Ring, side: Side, i: nat, w: Walker, fuel: nat, stop: Stop)
    requires i < |RingOf(s, c, side).verts| && |w.processed| == |s.points| && fuel > 0
    requires Walk(RingOf(s, c, side), s.points, i, Forward(mode, RingOf(s, c, side).verts[i]), w, |RingOf(s, c, side).verts|) == Some(stop)
    requires stop.w.out.closed
    ensures Trace(mode, s, c, side, i, w, fuel) == Success(stop.w)
  {
  }

  /** In linked rings an intersection vertex on either side hops to an
      intersection vertex on the other. */
  lemma LinkedHop(s: Ring, c: Ring, side: Side, k: nat)
    requires Linked(s, c) && Linked(c, s)
    requires k < |RingOf(s, c, side).verts| && RingOf(s, c, side).verts[k].isect
    ensures var h := Hop(RingOf(s, c, Other(side)), RingOf(s, c, side).verts[k]);
      h.Some? && RingOf(s, c, Other(side)).verts[h.value].isect
  {
  }

  /** In linked rings every hop succeeds: the "until closed" loop never fails
      for want of a neighbour. */
  lemma {:induction false} TraceLinked(mode: Mode, s: Ring, c: Ring, side: Side, i: nat, w: Walker, fuel: nat)
    requires i < |RingOf(s, c, side).verts| && |w.processed| == |s.points|
    requires Linked(s, c) && Linked(c, s)
    ensures Trace(mode, s, c, side, i, w, fuel) != Failure(NoNeighbor)
    decreases fuel, 1
  {
    if fuel > 0 {
      var r := RingOf(s, c, side);
      if Walk(r, s.points, i, Forward(mode, r.verts[i]), w, |r.verts|).None? {
        TraceRunsOut(mode, s, c, side, i, w, fuel);
      } else {
        TraceLinkedRound(mode, s, c, side, i, w, fuel);
      }
    }
  }

  /** The round of `TraceLinked` whose walk stops at an intersection vertex. */
  lemma TraceLinkedRound(mode: Mode, s: Ring, c: Ring, side: Side, i: nat, w: Walker, fuel: nat)
    requires i < |RingOf(s, c, side).verts| && |w.processed| == |s.points| && fuel > 0
    requires Linked(s, c) && Linked(c, s)
    requires Walk(RingOf(s, c, side), s.points, i, Forward(mode, RingOf(s, c, side).verts[i]), w, |RingOf(s, c, side).verts|).Some?
    ensures Trace(mode, s, c, side, i, w, fuel) != Failure(NoNeighbor)
    decreases fuel, 0
  {
    var r, other := RingOf(s, c, side), RingOf(s, c, Other(side));
    var stop := Walk(r, s.points, i, Forward(mode, r.verts[i]), w, |r.verts|).value;
    if stop.w.out.closed {
      TraceCloses(mode, s, c, side, i, w, fuel, stop);
    } else {
      LinkedHop(s, c, side, stop.at);
      var j := Hop(other, r.verts[stop.at]).value;
      TraceContinues(mode, s, c, side, i, w, fuel, stop, j);
      TraceLinked(mode, s, c, Other(side), j, stop.w, fuel - 1);
    }
  }

  /** A walk adds only coordinates of the walked ring. */
  lemma {:induction false} VisitAllWithin(r: Ring, sPoints: seq<Point>, i: nat, forward: bool, w: Walker, k: nat)
    requires i < |r.verts| && |w.processed| == |sPoints| && Parallel(r)
    ensures forall p :: p in VisitAll(r, sPoints, i, forward, w, k).out.points ==> p in w.out.points || p in r.points
  {
    if k > 0 {
      var before := VisitAll(r, sPoints, i, forward, w, k - 1);
      var j := Ahead(|r.verts|, i, forward, k);
      VisitAllWithin(r, sPoints, i, forward, w, k - 1);
      assert r.verts[j].pt == r.points[j];
      assert VisitAll(r, sPoints, i, forward, w, k).out == Add(before.out, Plain(0, r.verts[j].pt));
    }
  }

  /** A walk of `k` steps that leaves the output polygon open appended one
      coordinate per step. */
  lemma {:induction false} VisitAllAppends(r: Ring, sPoints: seq<Point>, i: nat, forward: bool, w: Walker, k: nat)
    requires i < |r.verts| && |w.processed| == |sPoints|
    ensures var w' := VisitAll(r, sPoints, i, forward, w, k);
      !w'.out.closed ==> |w'.out.points| == |w.out.points| + k
  {
    if k > 0 {
      var before := VisitAll(r, sPoints, i, forward, w, k - 1);
      var p := r.verts[Ahead(|r.verts|, i, forward, k)].pt;
      VisitAllAppends(r, sPoints, i, forward, w, k - 1);
      AddMerges(before.out, Plain(0, p));
      assert VisitAll(r, sPoints, i, forward, w, k).out == Add(before.out, Plain(0, p));
    }
  }

  /** A walk that stops with the output polygon open has appended at least one
      coordinate, and every coordinate it added is one of the walked ring's. */
  lemma WalkGrows(r: Ring, sPoints: seq<Point>, i: nat, forward: bool, w: Walker, fuel: nat)
    requires i < |r.verts| && |w.processed| == |sPoints| && Parallel(r)
    requires Walk(r, sPoints, i, forward, w, fuel).Some?
    ensures var w' := Walk(r, sPoints, i, forward, w, fuel).value.w;
      && (forall p :: p in w'.out.points ==> p in w.out.points || p in r.points)
      && (!w'.out.closed ==> |w'.out.points| > |w.out.points|)
  {
    var stop := Walk(r, sPoints, i, forward, w, fuel).value;
    VisitAllWithin(r, sPoints, i, forward, w, stop.steps);
    VisitAllAppends(r, sPoints, i, forward, w, stop.steps);
  }

  /** A sequence without repeats drawn from `b` is no longer than `b`. */
  lemma {:induction false} NoDupFits(a: seq<Point>, b: seq<Point>)
    requires NoDup(a) && forall p :: p in a ==> p in b
    ensures |a| <= |b|
    decreases |a|
  {
    if a != [] {
      assert a[0] in a;
      var k :| 0 <= k < |b| && b[k] == a[0];
      var b' := b[..k] + b[k + 1..];
      forall t | 0 <= t < |a| - 1
        ensures a[1..][t] in b'
      {
        var p := a[t + 1];
        assert p in a && p != a[0];
        var m :| 0 <= m < |b| && b[m] == p;
        if m < k {
          assert b'[m] == p;
        } else {
          assert b'[m - 1] == p;
        }
      }
      NoDupFits(a[1..], b');
    }
  }

  /** Every coordinate of `ps` is a coordinate of one of the two rings. */
  predicate Within(ps: seq<Point>, s: Ring, c: Ring) {
    forall p :: p in ps ==> p in s.points || p in c.points
  }

  /** Termination of the "until closed" loop: each walk in linked rings stops
      within one lap at an intersection vertex and either closes the polygon or
      appends at least one coordinate it does not hold yet, so the loop closes
      the polygon once `fuel` covers every coordinate of both rings. */
  lemma TraceFinishes(mode: Mode, s: Ring, c: Ring, side: Side, i: nat, w: Walker, fuel: nat)
    requires Parallel(s) && Parallel(c) && Linked(s, c) && Linked(c, s)
    requires i < |RingOf(s, c, side).verts| && RingOf(s, c, side).verts[i].isect && |w.processed| == |s.points|
    requires NoDup(w.out.points) && Within(w.out.points, s, c)
    requires |s.points| + |c.points| < |w.out.points| + fuel
    ensures Trace(mode, s, c, side, i, w, fuel).Success?
    decreases fuel
  {
    NoDupFits(w.out.points, s.points + c.points);
    var r, other := RingOf(s, c, side), RingOf(s, c, Other(side));
    assert Parallel(r) by {
      if side == Clip {
        assert r == c;
      }
    }
    var forward := Forward(mode, r.verts[i]);
    WalkStopsWithinLap(r, s.points, i, forward, w, i);
    var stop := Walk(r, s.points, i, forward, w, |r.verts|).value;
    if stop.w.out.closed {
      TraceCloses(mode, s, c, side, i, w, fuel, stop);
    } else {
      WalkGrows(r, s.points, i, forward, w, |r.verts|);
      LinkedHop(s, c, side, stop.at);
      var j := Hop(other, r.verts[stop.at]).value;
      assert Within(stop.w.out.points, s, c) by {
        if side == Clip {
          assert r == c;
        }
      }
      TraceContinues(mode, s, c, side, i, w, fuel, stop, j);
      TraceFinishes(mode, s, c, Other(side), j, stop.w, fuel - 1);
    }
  }

  /** In linked rings the traversal never fails for want of a neighbour. */
  lemma {:induction false} TraverseLinked(mode: Mode, s: Ring, c: Ring, processed: seq<bool>, fuel: nat)
    requires Parallel(s) && |processed| == |s.points|
    requires Linked(s, c) && Linked(c, s)
    ensures Traverse(mode, s, c, processed, fuel) != Failure(NoNeighbor)
    decreases Unprocessed(s.verts, processed)
  {
    match FirstUnprocessed(s.verts, processed)
    case None =>
    case Some(i) =>
      TraceLinked(mode, s, c, Subject, i, Walker(Seed(s.verts[i].pt), processed[i := true]), fuel);
      match Emit(mode, s, c, processed, i, fuel)
      case Failure(_) =>
      case Success(w) =>
        UnprocessedDecreases(s.verts, processed, w.processed, i);
        TraverseLinked(mode, s, c, w.processed, fuel);
  }

  /** In linked rings the traversal completes once `fuel` covers every
      coordinate of both rings. */
  lemma {:induction false} TraverseFinishes(mode: Mode, s: Ring, c: Ring, processed: seq<bool>, fuel: nat)
    requires Parallel(s) && Parallel(c) && |processed| == |s.points|
    requires Linked(s, c) && Linked(c, s)
    requires |s.points| + |c.points| <= fuel
    ensures Traverse(mode, s, c, processed, fuel).Success?
    decreases Unprocessed(s.verts, processed)
  {
    match FirstUnprocessed(s.verts, processed)
    case None =>
    case Some(i) =>
      var out := Seed(s.verts[i].pt);
      assert s.verts[i].pt == s.points[i];
      TraceFinishes(mode, s, c, Subject, i, Walker(out, processed[i := true]), fuel);
      var w := Emit(mode, s, c, processed, i, fuel).value;
      UnprocessedDecreases(s.verts, processed, w.processed, i);
      TraverseFinishes(mode, s, c, w.processed, fuel);
  }

  lemma ConsPolygons(first: Ring, rest: seq<Ring>)
    requires Polygon(first) && forall k :: 0 <= k < |rest| ==> Polygon(rest[k])
    ensures forall k :: 0 <= k < |[first] + rest| ==> Polygon(([first] + rest)[k])
  {
  }

  /** Flags that grew from `p` with flag `i` set first still extend `p`, and hold `i`. */
  lemma MonotoneFlag(p: seq<bool>, i: nat, q: seq<bool>)
    requires i < |p| && Monotone(p[i := true], q)
    ensures Monotone(p, q) && q[i]
  {
  }

  /** An output polygon: closed, non-empty, no coordinate twice. */
  predicate Polygon(r: Ring) {
    r.closed && |r.points| > 0 && NoDup(r.points)
  }

  /** A polygon traced from a seed comes back closed, non-empty and without
      repeated coordinates. */
  lemma TracedPolygon(mode: Mode, s: Ring, c: Ring, i: nat, out: Ring, processed: seq<bool>, fuel: nat)
    requires i < |s.verts| && |processed| == |s.points|
    requires NoDup(out.points) && |out.points| > 0
    ensures var res := Trace(mode, s, c, Subject, i, Walker(out, processed), fuel);
      res.Success? ==> Polygon(res.value.out)
  {
  }

  /** A new output polygon holding the single coordinate `p`. */
  function Seed(p: Point): (r: Ring)
    ensures r.points == [p] && !r.closed && NoDup(r.points)
  {
    Add(EmptyRing, Plain(0, p))
  }

  /** The first polygon starts at the first unprocessed subject intersection
      vertex; with none left the traversal produces nothing. */
  lemma TraverseStart(mode: Mode, s: Ring, c: Ring, processed: seq<bool>, fuel: nat)
    requires Parallel(s) && |processed| == |s.points|
    ensures var res, i := Traverse(mode, s, c, processed, fuel), FirstUnprocessed(s.verts, processed);
      && (i.None? ==> res == Success([]))
      && (res.Success? && res.value != [] ==> i.Some? && res.value[0].points[0] == s.verts[i.value].pt)
  {
  }

  /** A subject ring without intersection vertices yields no output polygon. */
  lemma TraverseWithoutIsect(mode: Mode, s: Ring, c: Ring, processed: seq<bool>, fuel: nat)
    requires Parallel(s) && |processed| == |s.points|
    requires forall i :: 0 <= i < |s.verts| ==> !s.verts[i].isect
    ensures Traverse(mode, s, c, processed, fuel) == Success([])
  {
    assert FirstUnprocessed(s.verts, processed).None?;
  }
}
