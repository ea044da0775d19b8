/**
 Phase one of both Greiner-Hormann and Weiler-Atherton: each original
 subject vertex starts a subject edge, each original clip vertex starts a
 clip edge, every such pair is tested, and each crossing found is inserted
 as a pair of linked intersection vertices, one into each ring.

 Modelled as written: the subject edge's far end `S1` is read once per
 subject edge, while the clip edge's far end `C1` is read live from the
 current clip ring and may be an intersection vertex inserted earlier. So
 once a crossing is inserted on a clip edge, later subject edges are tested
 only against the part of that edge before the crossing, and a crossing on
 the rest of the edge is not found (`CrossingCutsClipEdge`, `LostCrossing`).
 With no crossing at all, every edge is tested whole (`PhaseOneQuiet`).
 A new vertex goes immediately before the edge's (live) far end, in the
 order crossings are found; the stored `alpha` is never used to order them.
 */
module Insertion {
  import opened Options
  import opened Geometry
  import opened Rings

  /** State of the pass: both rings, the next unused vertex identity, and the
      number of crossings inserted so far (Weiler-Atherton's `num_intersections`). */
  datatype Pass = Pass(s: Ring, c: Ring, nextId: nat, hits: nat)

  /** An intersection vertex as the pass creates it, before it is linked. */
  function NewCrossing(id: nat, p: Point, alpha: real): Vertex {
    Vertex(id, p, true, Unset, None, alpha, false, false)
  }

  /** What every vertex made by the pass looks like: an intersection vertex
      with a neighbour and all classification flags at their defaults. */
  predicate Created(u: Vertex) {
    u.isect && u.neighbor.Some? && u.status == Unset && !u.inside && !u.inbound
  }

  /** `u` (subject side) and `w` (clip side) are linked neighbours at one crossing. */
  predicate Partners(u: Vertex, w: Vertex) {
    u.isect && w.isect && u.pt == w.pt && u.neighbor == Some(w.id) && w.neighbor == Some(u.id)
  }

  /** Every intersection vertex of either ring has its partner in the other. */
  ghost predicate Paired(s: seq<Vertex>, c: seq<Vertex>) {
    && (forall u :: u in s && u.isect ==> exists w :: w in c && Partners(u, w))
    && (forall w :: w in c && w.isect ==> exists u :: u in s && Partners(u, w))
  }

  /** Vertex identities are unique across both rings and all below `nextId`. */
  ghost predicate IdsBelow(s: seq<Vertex>, c: seq<Vertex>, nextId: nat) {
    && DistinctIds(s) && DistinctIds(c)
    && (forall u, w :: u in s && w in c ==> u.id != w.id)
    && (forall u :: u in s ==> u.id < nextId)
    && (forall w :: w in c ==> w.id < nextId)
  }

  /** The invariant of the pass: parallel rings, unique identities, intersection
      vertices paired. */
  ghost predicate Valid(st: Pass) {
    && Parallel(st.s) && Parallel(st.c)
    && IdsBelow(st.s.verts, st.c.verts, st.nextId)
    && Paired(st.s.verts, st.c.verts)
  }

  /** Every vertex of `st`'s rings is still in the corresponding ring of `r`. */
  ghost predicate Retains(st: Pass, r: Pass) {
    && (forall u :: u in st.s.verts ==> u in r.s.verts)
    && (forall w :: w in st.c.verts ==> w in r.c.verts)
  }

  /** `r` is reached from `st` by insertions only: nothing is removed or changed,
      every added vertex is a created intersection vertex, and each ring gains
      exactly one vertex, an intersection vertex, per counted crossing. */
  ghost predicate Extends(st: Pass, r: Pass) {
    && st.nextId <= r.nextId && st.hits <= r.hits
    && Retains(st, r)
    && (forall u :: u in r.s.verts ==> u in st.s.verts || Created(u))
    && (forall w :: w in r.c.verts ==> w in st.c.verts || Created(w))
    && CountIsect(r.s.verts) + st.hits == CountIsect(st.s.verts) + r.hits
    && CountIsect(r.c.verts) + st.hits == CountIsect(st.c.verts) + r.hits
    && |r.s.verts| + st.hits == |st.s.verts| + r.hits
    && |r.c.verts| + st.hits == |st.c.verts| + r.hits
  }

  lemma ExtendsTransitive(a: Pass, b: Pass, c: Pass)
    requires Extends(a, b) && Extends(b, c)
    ensures Extends(a, c)
  {
  }

  lemma RetainsTransitive(a: Pass, b: Pass, c: Pass)
    requires Retains(a, b) && Retains(b, c)
    ensures Retains(a, c)
  {
  }

  /** Bound on the coordinates the two rings hold after the pass over an
      `n`-point subject and an `m`-point clip: each of the n·m edge pairs adds
      at most one vertex to each ring. */
  function Budget(n: nat, m: nat): nat {
    n + m + 2 * (n * m)
  }

  /** Rings grown by at most one vertex per edge pair fit the budget. */
  lemma BudgetCovers(n: nat, m: nat, hits: nat)
    requires hits <= n * m
    ensures (n + hits) + (m + hits) <= Budget(n, m)
  {
  }

  lemma MulSucc(n: nat, m: nat)
    ensures (n + 1) * m == n * m + m
  {
  }

  lemma HasIdOf(vs: seq<Vertex>, u: Vertex)
    requires u in vs
    ensures HasId(vs, u.id)
  {
    var k :| 0 <= k < |vs| && vs[k] == u;
  }

  lemma StillMembers(xs: seq<Vertex>, a: seq<Vertex>, b: seq<Vertex>)
    requires forall x :: x in xs ==> x in a
    requires forall x :: x in a ==> x in b
    ensures forall x :: x in xs ==> x in b
  {
  }

  /** The vertex the source reaches by `nextV` from the vertex with identity `id`. */
  function Successor(r: Ring, id: nat): (v: Vertex)
    requires HasId(r.verts, id)
    ensures v in r.verts
  {
    r.verts[Next(|r.verts|, Find(r.verts, id).value)]
  }

  lemma {:induction false} CountIsectInsert(a: seq<Vertex>, k: nat, x: Vertex)
    requires k <= |a|
    ensures CountIsect(Insert(a, k, x)) == CountIsect(a) + (if x.isect then 1 else 0)
  {
    var b := Insert(a, k, x);
    assert b == a[..k] + [x] + a[k..];
    CountIsectAppend(a[..k] + [x], a[k..]);
    CountIsectAppend(a[..k], [x]);
    CountIsectAppend(a[..k], a[k..]);
    assert a == a[..k] + a[k..];
    assert CountIsect([x]) == (if x.isect then 1 else 0) by {
      assert [x][1..] == [];
    }
  }

  lemma DistinctInsert(a: seq<Vertex>, k: nat, x: Vertex)
    requires k <= |a| && DistinctIds(a)
    requires forall u :: u in a ==> u.id != x.id
    ensures DistinctIds(Insert(a, k, x))
  {
    var b := Insert(a, k, x);
    InsertAt(a, k, x);
    forall i, j | 0 <= i < j < |b|
      ensures b[i].id != b[j].id
    {
      if i == k {
        assert a[j - 1] in a;
      } else if j == k {
        assert a[i] in a;
      }
    }
  }

  /** Membership after an insertion: the old elements and the new one. */
  lemma InsertedMembers(a: seq<Vertex>, k: nat, x: Vertex)
    requires k <= |a|
    ensures forall u :: u in Insert(a, k, x) <==> u in a || u == x
  {
    InsertMembers(a, k, x);
    forall u ensures u in Insert(a, k, x) <==> u in multiset(a) + multiset{x} {
      assert u in Insert(a, k, x) <==> u in multiset(Insert(a, k, x));
    }
  }

  lemma InsertPairIds(s: seq<Vertex>, c: seq<Vertex>, nextId: nat, ks: nat, kc: nat, a: Vertex, b: Vertex)
    requires IdsBelow(s, c, nextId) && ks <= |s| && kc <= |c|
    requires a.id == nextId && b.id == nextId + 1
    ensures IdsBelow(Insert(s, ks, a), Insert(c, kc, b), nextId + 2)
  {
    InsertedMembers(s, ks, a);
    InsertedMembers(c, kc, b);
    DistinctInsert(s, ks, a);
    DistinctInsert(c, kc, b);
  }

  lemma InsertPairPaired(s: seq<Vertex>, c: seq<Vertex>, ks: nat, kc: nat, a: Vertex, b: Vertex)
    requires Paired(s, c) && ks <= |s| && kc <= |c| && Partners(a, b)
    ensures Paired(Insert(s, ks, a), Insert(c, kc, b))
  {
    InsertedMembers(s, ks, a);
    InsertedMembers(c, kc, b);
  }

  /** Inserting a linked pair of fresh vertices, one into each ring, keeps the
      invariant and is an extension counting one crossing. */
  lemma InsertPairKeeps(st: Pass, r: Pass, ks: nat, kc: nat, a: Vertex, b: Vertex)
    requires Valid(st) && ks <= |st.s.verts| && kc <= |st.c.verts|
    requires r.s.verts == Insert(st.s.verts, ks, a) && r.c.verts == Insert(st.c.verts, kc, b)
    requires Parallel(r.s) && Parallel(r.c)
    requires Partners(a, b) && Created(a) && Created(b)
    requires a.id == st.nextId && b.id == st.nextId + 1
    requires r.nextId == st.nextId + 2 && r.hits == st.hits + 1
    ensures Valid(r) && Extends(st, r)
  {
    InsertPairIds(st.s.verts, st.c.verts, st.nextId, ks, kc, a, b);
    InsertPairPaired(st.s.verts, st.c.verts, ks, kc, a, b);
    InsertedMembers(st.s.verts, ks, a);
    InsertedMembers(st.c.verts, kc, b);
    CountIsectInsert(st.s.verts, ks, a);
    CountIsectInsert(st.c.verts, kc, b);
  }

  /** The two vertices made for crossing `h`, numbered `id` and `id + 1` and
      linked to each other. */
  function LinkedPair(id: nat, h: Crossing, recordAlpha: bool): (Vertex, Vertex) {
    Link(NewCrossing(id, h.p, if recordAlpha then h.alphaS else 0.0),
         NewCrossing(id + 1, h.p, if recordAlpha then h.alphaC else 0.0))
  }

  /** Insert one crossing: the subject vertex just before the subject vertex
      `s1id`, the clip vertex just before the clip vertex `c1id`, linked to each
      other. Greiner-Hormann records each vertex's edge parameter as `alpha`;
      Weiler-Atherton's vertices have no `alpha` and keep the default. */
  function InsertCrossing(st: Pass, s1id: nat, c1id: nat, h: Crossing, recordAlpha: bool): (r: Pass)
    requires Parallel(st.s) && Parallel(st.c) && HasId(st.s.verts, s1id) && HasId(st.c.verts, c1id)
    ensures Parallel(r.s) && Parallel(r.c) && Retains(st, r)
    ensures |r.s.verts| == |st.s.verts| + 1 && |r.c.verts| == |st.c.verts| + 1
    ensures r.hits == st.hits + 1
  {
    var linked := LinkedPair(st.nextId, h, recordAlpha);
    SortPlaces(st.s, linked.0, s1id);
    SortPlaces(st.c, linked.1, c1id);
    InsertedMembers(st.s.verts, Find(st.s.verts, s1id).value, linked.0);
    InsertedMembers(st.c.verts, Find(st.c.verts, c1id).value, linked.1);
    Pass(Sort(st.s, linked.0, s1id), Sort(st.c, linked.1, c1id), st.nextId + 2, st.hits + 1)
  }

  /** The crossing becomes a linked pair of vertices at its point, each placed
      immediately before the named far end of its edge, carrying the edge
      parameters only when `recordAlpha` is set. */
  lemma InsertCrossingPlaces(st: Pass, s1id: nat, c1id: nat, h: Crossing, recordAlpha: bool)
    requires Parallel(st.s) && Parallel(st.c) && HasId(st.s.verts, s1id) && HasId(st.c.verts, c1id)
    ensures var r := InsertCrossing(st, s1id, c1id, h, recordAlpha);
      var ks, kc := Find(st.s.verts, s1id).value, Find(st.c.verts, c1id).value;
      && |r.s.verts| == |st.s.verts| + 1 && |r.c.verts| == |st.c.verts| + 1
      && Partners(r.s.verts[ks], r.c.verts[kc])
      && r.s.verts[ks].pt == h.p
      && r.s.verts[ks].alpha == (if recordAlpha then h.alphaS else 0.0)
      && r.c.verts[kc].alpha == (if recordAlpha then h.alphaC else 0.0)
      && r.s.verts[Next(|r.s.verts|, ks)].id == s1id
      && r.c.verts[Next(|r.c.verts|, kc)].id == c1id
  {
    var linked := LinkedPair(st.nextId, h, recordAlpha);
    SortPlaces(st.s, linked.0, s1id);
    SortPlaces(st.c, linked.1, c1id);
  }

  /** Inserting one crossing keeps the invariant and extends the pass by one. */
  lemma InsertCrossingKeeps(st: Pass, s1id: nat, c1id: nat, h: Crossing, recordAlpha: bool)
    requires Valid(st) && HasId(st.s.verts, s1id) && HasId(st.c.verts, c1id)
    ensures var r := InsertCrossing(st, s1id, c1id, h, recordAlpha);
      Valid(r) && Extends(st, r) && r.nextId == st.nextId + 2
  {
    var linked := LinkedPair(st.nextId, h, recordAlpha);
    var ks, kc := Find(st.s.verts, s1id).value, Find(st.c.verts, c1id).value;
    SortPlaces(st.s, linked.0, s1id);
    SortPlaces(st.c, linked.1, c1id);
    var r := InsertCrossing(st, s1id, c1id, h, recordAlpha);
    assert r.s.verts == Insert(st.s.verts, ks, linked.0);
    assert r.c.verts == Insert(st.c.verts, kc, linked.1);
    assert Partners(linked.0, linked.1);
    assert Created(linked.0) && Created(linked.1);
    assert linked.0.id == st.nextId && linked.1.id == st.nextId + 1;
    assert r.nextId == st.nextId + 2 && r.hits == st.hits + 1;
    InsertPairKeeps(st, r, ks, kc, linked.0, linked.1);
  }

  /** One step of the inner loop: test subject edge `s0`–`s1` against the clip
      edge from `c0` to its current successor, inserting the crossing if any. */
  function Probe(s0: Vertex, s1: Vertex, c0: Vertex, st: Pass, recordAlpha: bool): (r: Pass)
    requires Parallel(st.s) && Parallel(st.c) && s1 in st.s.verts && c0 in st.c.verts
    ensures Parallel(r.s) && Parallel(r.c) && Retains(st, r)
  {
    HasIdOf(st.c.verts, c0);
    HasIdOf(st.s.verts, s1);
    var c1 := Successor(st.c, c0.id);
    HasIdOf(st.c.verts, c1);
    match Intersect(s0.pt, s1.pt, c0.pt, c1.pt)
    case None => st
    case Some(h) => InsertCrossing(st, s1.id, c1.id, h, recordAlpha)
  }

  /** One step keeps the invariant, and counts a crossing exactly when the
      subject edge crosses the clip edge from `c0` to its current successor;
      that crossing is then inserted before `s1` and before that successor,
      and otherwise nothing changes. */
  lemma ProbeKeeps(s0: Vertex, s1: Vertex, c0: Vertex, st: Pass, recordAlpha: bool)
    requires Valid(st) && s1 in st.s.verts && c0 in st.c.verts
    ensures HasId(st.s.verts, s1.id) && HasId(st.c.verts, c0.id)
    ensures var r := Probe(s0, s1, c0, st, recordAlpha);
      var h := Intersect(s0.pt, s1.pt, c0.pt, Successor(st.c, c0.id).pt);
      && Valid(r) && Extends(st, r) && r.hits <= st.hits + 1 && (r.hits == st.hits ==> r == st)
      && (r.hits == st.hits + 1 <==> h.Some?)
      && (h.Some? ==> r == InsertCrossing(st, s1.id, Successor(st.c, c0.id).id, h.value, recordAlpha))
  {
    HasIdOf(st.c.verts, c0);
    HasIdOf(st.s.verts, s1);
    var c1 := Successor(st.c, c0.id);
    HasIdOf(st.c.verts, c1);
    match Intersect(s0.pt, s1.pt, c0.pt, c1.pt)
    case None =>
    case Some(h) => InsertCrossingKeeps(st, s1.id, c1.id, h, recordAlpha);
  }

  /** The inner loop over the snapshot of clip vertices, for one subject edge
      from `s0` to the captured `s1`. */
  function Inner(s0: Vertex, s1: Vertex, cs: seq<Vertex>, st: Pass, recordAlpha: bool): (r: Pass)
    requires Parallel(st.s) && Parallel(st.c) && s1 in st.s.verts
    requires forall c0 :: c0 in cs ==> c0 in st.c.verts
    ensures Parallel(r.s) && Parallel(r.c) && Retains(st, r)
    decreases |cs|
  {
    if cs == [] then st
    else
      var st' := Probe(s0, s1, cs[0], st, recordAlpha);
      StillMembers(cs[1..], st.c.verts, st'.c.verts);
      var r := Inner(s0, s1, cs[1..], st', recordAlpha);
      RetainsTransitive(st, st', r);
      r
  }

  /** The inner loop keeps the invariant, only extends the rings, and changes
      nothing when it counts no crossing. */
  lemma {:induction false} InnerKeeps(s0: Vertex, s1: Vertex, cs: seq<Vertex>, st: Pass, recordAlpha: bool)
    requires Valid(st) && s1 in st.s.verts
    requires forall c0 :: c0 in cs ==> c0 in st.c.verts
    ensures var r := Inner(s0, s1, cs, st, recordAlpha);
      Valid(r) && Extends(st, r) && r.hits <= st.hits + |cs| && (r.hits == st.hits ==> r == st)
    decreases |cs|
  {
    if cs != [] {
      var st' := Probe(s0, s1, cs[0], st, recordAlpha);
      ProbeKeeps(s0, s1, cs[0], st, recordAlpha);
      StillMembers(cs[1..], st.c.verts, st'.c.verts);
      InnerKeeps(s0, s1, cs[1..], st', recordAlpha);
      ExtendsTransitive(st, st', Inner(s0, s1, cs[1..], st', recordAlpha));
    }
  }

  /** The outer loop over the snapshot of subject vertices: each subject edge
      reads its far end once, then runs the inner loop. */
  function Outer(ss: seq<Vertex>, cs: seq<Vertex>, st: Pass, recordAlpha: bool): (r: Pass)
    requires Parallel(st.s) && Parallel(st.c)
    requires forall s0 :: s0 in ss ==> s0 in st.s.verts
    requires forall c0 :: c0 in cs ==> c0 in st.c.verts
    ensures Parallel(r.s) && Parallel(r.c) && Retains(st, r)
    decreases |ss|
  {
    if ss == [] then st
    else
      HasIdOf(st.s.verts, ss[0]);
      var s1 := Successor(st.s, ss[0].id);
      var st' := Inner(ss[0], s1, cs, st, recordAlpha);
      StillMembers(ss[1..], st.s.verts, st'.s.verts);
      StillMembers(cs, st.c.verts, st'.c.verts);
      var r := Outer(ss[1..], cs, st', recordAlpha);
      RetainsTransitive(st, st', r);
      r
  }

  /** The outer loop keeps the invariant, only extends the rings, and changes
      nothing when it counts no crossing. */
  lemma {:induction false} OuterKeeps(ss: seq<Vertex>, cs: seq<Vertex>, st: Pass, recordAlpha: bool)
    requires Valid(st)
    requires forall s0 :: s0 in ss ==> s0 in st.s.verts
    requires forall c0 :: c0 in cs ==> c0 in st.c.verts
    ensures var r := Outer(ss, cs, st, recordAlpha);
      Valid(r) && Extends(st, r) && r.hits <= st.hits + |ss| * |cs| && (r.hits == st.hits ==> r == st)
    decreases |ss|
  {
    if ss != [] {
      HasIdOf(st.s.verts, ss[0]);
      var s1 := Successor(st.s, ss[0].id);
      var st' := Inner(ss[0], s1, cs, st, recordAlpha);
      InnerKeeps(ss[0], s1, cs, st, recordAlpha);
      StillMembers(ss[1..], st.s.verts, st'.s.verts);
      StillMembers(cs, st.c.verts, st'.c.verts);
      OuterKeeps(ss[1..], cs, st', recordAlpha);
      ExtendsTransitive(st, st', Outer(ss[1..], cs, st', recordAlpha));
      MulSucc(|ss| - 1, |cs|);
    }
  }

  /** The whole pass over subject ring `s` and clip ring `c`, new identities
      starting at `nextId`. */
  function PhaseOne(s: Ring, c: Ring, nextId: nat, recordAlpha: bool): (r: Pass)
    requires Parallel(s) && Parallel(c)
    ensures Parallel(r.s) && Parallel(r.c) && Retains(Pass(s, c, nextId, 0), r)
  {
    Outer(s.verts, c.verts, Pass(s, c, nextId, 0), recordAlpha)
  }

  /** The pass keeps the invariant, only inserts created intersection vertices,
      and leaves both rings as they were when it finds no crossing. */
  lemma PhaseOneKeeps(s: Ring, c: Ring, nextId: nat, recordAlpha: bool)
    requires Valid(Pass(s, c, nextId, 0))
    ensures var r := PhaseOne(s, c, nextId, recordAlpha);
      && Valid(r) && Extends(Pass(s, c, nextId, 0), r)
      && r.hits <= |s.verts| * |c.verts|
      && (r.hits == 0 ==> r.s == s && r.c == c)
  {
    OuterKeeps(s.verts, c.verts, Pass(s, c, nextId, 0), recordAlpha);
  }

  /** Starting from rings without intersection vertices, both rings end with
      exactly as many intersection vertices as crossings were counted, and a
      non-empty ring stays non-empty. */
  lemma PhaseOneCountsAgree(s: Ring, c: Ring, nextId: nat, recordAlpha: bool)
    requires Valid(Pass(s, c, nextId, 0))
    requires CountIsect(s.verts) == 0 && CountIsect(c.verts) == 0
    ensures var r := PhaseOne(s, c, nextId, recordAlpha);
      && CountIsect(r.s.verts) == r.hits && CountIsect(r.c.verts) == r.hits
      && (|s.verts| > 0 ==> |r.s.verts| > 0) && (|c.verts| > 0 ==> |r.c.verts| > 0)
  {
    var r := PhaseOne(s, c, nextId, recordAlpha);
    PhaseOneKeeps(s, c, nextId, recordAlpha);
    ExtendsCounts(Pass(s, c, nextId, 0), r);
    assert CountIsect(r.s.verts) == r.hits && CountIsect(r.c.verts) == r.hits;
    assert |r.s.verts| == |s.verts| + r.hits && |r.c.verts| == |c.verts| + r.hits;
  }

  /** No edge of the closed ring through `sp` crosses an edge of the closed
      ring through `cp`, as `Intersect` decides it. */
  predicate NoEdgeCrossing(sp: seq<Point>, cp: seq<Point>) {
    forall i, j :: 0 <= i < |sp| && 0 <= j < |cp| ==> Apart(sp, cp, i, j)
  }

  /** Edge `i` of the ring through `sp` does not cross edge `j` of the ring
      through `cp`. */
  predicate Apart(sp: seq<Point>, cp: seq<Point>, i: nat, j: nat)
    requires i < |sp| && j < |cp|
  {
    Intersect(sp[i], sp[Next(|sp|, i)], cp[j], cp[Next(|cp|, j)]).None?
  }

  /** Segment `p0`-`p1` misses the clip edge from `c0` to its successor in `c`. */
  predicate Misses(p0: Point, p1: Point, c0: Vertex, c: Ring) {
    HasId(c.verts, c0.id) && Intersect(p0, p1, c0.pt, Successor(c, c0.id).pt).None?
  }

  /** One step counts a crossing exactly when the subject edge crosses the
      clip edge from `c0` to its current successor, and changes nothing
      otherwise. */
  lemma ProbeCounts(s0: Vertex, s1: Vertex, c0: Vertex, st: Pass, recordAlpha: bool)
    requires Parallel(st.s) && Parallel(st.c) && s1 in st.s.verts && c0 in st.c.verts
    ensures HasId(st.c.verts, c0.id)
    ensures var r := Probe(s0, s1, c0, st, recordAlpha);
      && (Misses(s0.pt, s1.pt, c0, st.c) ==> r == st)
      && (!Misses(s0.pt, s1.pt, c0, st.c) ==> r.hits == st.hits + 1)
  {
    HasIdOf(st.c.verts, c0);
  }

  lemma {:induction false} InnerGrows(s0: Vertex, s1: Vertex, cs: seq<Vertex>, st: Pass, recordAlpha: bool)
    requires Parallel(st.s) && Parallel(st.c) && s1 in st.s.verts
    requires forall c0 :: c0 in cs ==> c0 in st.c.verts
    ensures Inner(s0, s1, cs, st, recordAlpha).hits >= st.hits
    decreases |cs|
  {
    if cs != [] {
      var st' := Probe(s0, s1, cs[0], st, recordAlpha);
      ProbeCounts(s0, s1, cs[0], st, recordAlpha);
      StillMembers(cs[1..], st.c.verts, st'.c.verts);
      InnerGrows(s0, s1, cs[1..], st', recordAlpha);
    }
  }

  lemma {:induction false} OuterGrows(ss: seq<Vertex>, cs: seq<Vertex>, st: Pass, recordAlpha: bool)
    requires Parallel(st.s) && Parallel(st.c)
    requires forall s0 :: s0 in ss ==> s0 in st.s.verts
    requires forall c0 :: c0 in cs ==> c0 in st.c.verts
    ensures Outer(ss, cs, st, recordAlpha).hits >= st.hits
    decreases |ss|
  {
    if ss != [] {
      HasIdOf(st.s.verts, ss[0]);
      var s1 := Successor(st.s, ss[0].id);
      var st' := Inner(ss[0], s1, cs, st, recordAlpha);
      InnerGrows(ss[0], s1, cs, st, recordAlpha);
      StillMembers(ss[1..], st.s.verts, st'.s.verts);
      StillMembers(cs, st.c.verts, st'.c.verts);
      OuterGrows(ss[1..], cs, st', recordAlpha);
    }
  }

  lemma MissesSplit(p0: Point, p1: Point, cs: seq<Vertex>, c: Ring)
    requires cs != []
    ensures (forall k :: 0 <= k < |cs| ==> Misses(p0, p1, cs[k], c)) <==>
      Misses(p0, p1, cs[0], c) && forall k :: 0 <= k < |cs[1..]| ==> Misses(p0, p1, cs[1..][k], c)
  {
    if forall k :: 0 <= k < |cs[1..]| ==> Misses(p0, p1, cs[1..][k], c) {
      forall k | 1 <= k < |cs|
        ensures Misses(p0, p1, cs[k], c)
      {
        assert cs[k] == cs[1..][k - 1];
      }
    }
  }

  /** The inner loop counts no crossing exactly when the subject edge misses
      every clip edge it starts from, taken in the ring it started with. */
  lemma {:induction false} InnerQuiet(s0: Vertex, s1: Vertex, cs: seq<Vertex>, st: Pass, recordAlpha: bool)
    requires Parallel(st.s) && Parallel(st.c) && s1 in st.s.verts
    requires forall c0 :: c0 in cs ==> c0 in st.c.verts
    ensures Inner(s0, s1, cs, st, recordAlpha).hits == st.hits <==>
      forall k :: 0 <= k < |cs| ==> Misses(s0.pt, s1.pt, cs[k], st.c)
    decreases |cs|
  {
    if cs != [] {
      var st' := Probe(s0, s1, cs[0], st, recordAlpha);
      ProbeCounts(s0, s1, cs[0], st, recordAlpha);
      StillMembers(cs[1..], st.c.verts, st'.c.verts);
      assert Inner(s0, s1, cs, st, recordAlpha) == Inner(s0, s1, cs[1..], st', recordAlpha);
      MissesSplit(s0.pt, s1.pt, cs, st.c);
      if Misses(s0.pt, s1.pt, cs[0], st.c) {
        InnerQuiet(s0, s1, cs[1..], st, recordAlpha);
      } else {
        InnerGrows(s0, s1, cs[1..], st', recordAlpha);
      }
    }
  }

  /** Subject vertex `s0` with its successor in `st.s` misses every clip edge
      starting at a vertex of `cs`. */
  predicate EdgeMisses(s0: Vertex, cs: seq<Vertex>, st: Pass) {
    HasId(st.s.verts, s0.id)
      && forall k :: 0 <= k < |cs| ==> Misses(s0.pt, Successor(st.s, s0.id).pt, cs[k], st.c)
  }

  lemma EdgesSplit(ss: seq<Vertex>, cs: seq<Vertex>, st: Pass)
    requires ss != []
    ensures (forall i :: 0 <= i < |ss| ==> EdgeMisses(ss[i], cs, st)) <==>
      EdgeMisses(ss[0], cs, st) && forall i :: 0 <= i < |ss[1..]| ==> EdgeMisses(ss[1..][i], cs, st)
  {
    if forall i :: 0 <= i < |ss[1..]| ==> EdgeMisses(ss[1..][i], cs, st) {
      forall i | 1 <= i < |ss|
        ensures EdgeMisses(ss[i], cs, st)
      {
        assert ss[i] == ss[1..][i - 1];
      }
    }
  }

  /** The outer loop counts no crossing exactly when every subject edge it
      starts from misses every clip edge, all taken in the rings it started with. */
  lemma {:induction false} OuterQuiet(ss: seq<Vertex>, cs: seq<Vertex>, st: Pass, recordAlpha: bool)
    requires Parallel(st.s) && Parallel(st.c)
    requires forall s0 :: s0 in ss ==> s0 in st.s.verts
    requires forall c0 :: c0 in cs ==> c0 in st.c.verts
    ensures Outer(ss, cs, st, recordAlpha).hits == st.hits <==>
      forall i :: 0 <= i < |ss| ==> EdgeMisses(ss[i], cs, st)
    decreases |ss|
  {
    if ss != [] {
      HasIdOf(st.s.verts, ss[0]);
      var s1 := Successor(st.s, ss[0].id);
      var st' := Inner(ss[0], s1, cs, st, recordAlpha);
      InnerQuiet(ss[0], s1, cs, st, recordAlpha);
      InnerGrows(ss[0], s1, cs, st, recordAlpha);
      StillMembers(ss[1..], st.s.verts, st'.s.verts);
      StillMembers(cs, st.c.verts, st'.c.verts);
      assert Outer(ss, cs, st, recordAlpha) == Outer(ss[1..], cs, st', recordAlpha);
      EdgesSplit(ss, cs, st);
      if EdgeMisses(ss[0], cs, st) {
        InnerUnchanged(ss[0], s1, cs, st, recordAlpha);
        OuterQuiet(ss[1..], cs, st, recordAlpha);
      } else {
        OuterGrows(ss[1..], cs, st', recordAlpha);
      }
    }
  }

  /** An inner loop that misses every clip edge leaves the state as it was. */
  lemma {:induction false} InnerUnchanged(s0: Vertex, s1: Vertex, cs: seq<Vertex>, st: Pass, recordAlpha: bool)
    requires Parallel(st.s) && Parallel(st.c) && s1 in st.s.verts
    requires forall c0 :: c0 in cs ==> c0 in st.c.verts
    requires forall k :: 0 <= k < |cs| ==> Misses(s0.pt, s1.pt, cs[k], st.c)
    ensures Inner(s0, s1, cs, st, recordAlpha) == st
    decreases |cs|
  {
    if cs != [] {
      ProbeCounts(s0, s1, cs[0], st, recordAlpha);
      assert forall k :: 1 <= k < |cs| ==> cs[k] == cs[1..][k - 1];
      InnerUnchanged(s0, s1, cs[1..], st, recordAlpha);
    }
  }

  /** In a ring with distinct identities the successor of the vertex at `i`
      is the vertex at the next position. */
  lemma SuccessorAt(r: Ring, i: nat)
    requires Parallel(r) && DistinctIds(r.verts) && i < |r.verts|
    ensures HasId(r.verts, r.verts[i].id)
    ensures Successor(r, r.verts[i].id) == r.verts[Next(|r.verts|, i)]
    ensures r.verts[i].pt == r.points[i] && r.verts[Next(|r.verts|, i)].pt == r.points[Next(|r.points|, i)]
  {
    FindOwnId(r.verts, i);
  }

  /** Subject edge `i` misses every clip edge exactly when it crosses none of
      the clip ring's edges. */
  lemma EdgeMissesAt(s: Ring, c: Ring, nextId: nat, i: nat)
    requires Parallel(s) && Parallel(c) && DistinctIds(s.verts) && DistinctIds(c.verts) && i < |s.verts|
    ensures EdgeMisses(s.verts[i], c.verts, Pass(s, c, nextId, 0)) <==>
      forall j :: 0 <= j < |c.points| ==> Apart(s.points, c.points, i, j)
  {
    SuccessorAt(s, i);
    forall j | 0 <= j < |c.verts|
      ensures Misses(s.points[i], s.points[Next(|s.points|, i)], c.verts[j], c) <==> Apart(s.points, c.points, i, j)
    {
      SuccessorAt(c, j);
    }
  }

  /** Every subject edge misses every clip edge exactly when the rings'
      edges do not cross. */
  lemma AllEdgesMiss(s: Ring, c: Ring, nextId: nat)
    requires Parallel(s) && Parallel(c) && DistinctIds(s.verts) && DistinctIds(c.verts)
    ensures (forall i :: 0 <= i < |s.verts| ==> EdgeMisses(s.verts[i], c.verts, Pass(s, c, nextId, 0)))
      <==> NoEdgeCrossing(s.points, c.points)
  {
    var st := Pass(s, c, nextId, 0);
    if forall i :: 0 <= i < |s.verts| ==> EdgeMisses(s.verts[i], c.verts, st) {
      forall i, j | 0 <= i < |s.points| && 0 <= j < |c.points|
        ensures Apart(s.points, c.points, i, j)
      {
        EdgeMissesAt(s, c, nextId, i);
      }
    } else {
      var i :| 0 <= i < |s.verts| && !EdgeMisses(s.verts[i], c.verts, st);
      EdgeMissesAt(s, c, nextId, i);
      var j :| 0 <= j < |c.points| && !Apart(s.points, c.points, i, j);
    }
  }

  /** The whole pass counts no crossing exactly when no edge of the subject
      ring crosses an edge of the clip ring: with nothing inserted, every edge
      is tested whole. */
  lemma PhaseOneQuiet(s: Ring, c: Ring, nextId: nat, recordAlpha: bool)
    requires Parallel(s) && Parallel(c) && DistinctIds(s.verts) && DistinctIds(c.verts)
    ensures PhaseOne(s, c, nextId, recordAlpha).hits == 0 <==> NoEdgeCrossing(s.points, c.points)
  {
    OuterQuiet(s.verts, c.verts, Pass(s, c, nextId, 0), recordAlpha);
    AllEdgesMiss(s, c, nextId);
  }

  /** After inserting a vertex with a new identity at `k`, the vertex from
      position `j` is found at its shifted position. */
  lemma InsertedFind(vs: seq<Vertex>, k: nat, x: Vertex, j: nat)
    requires DistinctIds(vs) && k <= |vs| && j < |vs|
    requires forall u :: u in vs ==> u.id != x.id
    ensures Find(Insert(vs, k, x), vs[j].id) == Some(Shift(j, k))
  {
    InsertSpec(vs, k, x);
    DistinctInsert(vs, k, x);
    FindOwnId(Insert(vs, k, x), Shift(j, k));
  }

  /** Inserting `x` just before the successor of position `j` makes `x` the
      new successor of the vertex from position `j`. */
  lemma InsertAfter(vs: seq<Vertex>, j: nat, x: Vertex)
    requires DistinctIds(vs) && j < |vs|
    requires forall u :: u in vs ==> u.id != x.id
    ensures var b := Insert(vs, Next(|vs|, j), x);
      Find(b, vs[j].id) == Some(Shift(j, Next(|vs|, j))) && b[Next(|b|, Shift(j, Next(|vs|, j)))] == x
  {
    var kc := Next(|vs|, j);
    InsertedFind(vs, kc, x, j);
    InsertSpec(vs, kc, x);
    var n := |Insert(vs, kc, x)|;
    assert n == |vs| + 1;
    assert Next(n, Shift(j, kc)) == kc;
  }

  /** Once a crossing is inserted on the clip edge from `c0`, the live
      successor of `c0` is the new intersection vertex: later subject edges
      are tested only against the part of the edge from `c0` to the crossing. */
  lemma CrossingCutsClipEdge(st: Pass, s1id: nat, c0: Vertex, h: Crossing, recordAlpha: bool)
    requires Parallel(st.s) && Parallel(st.c) && DistinctIds(st.c.verts)
    requires forall w :: w in st.c.verts ==> w.id < st.nextId
    requires HasId(st.s.verts, s1id) && c0 in st.c.verts
    ensures HasId(st.c.verts, c0.id)
    ensures var r := InsertCrossing(st, s1id, Successor(st.c, c0.id).id, h, recordAlpha);
      HasId(r.c.verts, c0.id) && Successor(r.c, c0.id).pt == h.p && Successor(r.c, c0.id).isect
  {
    var j :| 0 <= j < |st.c.verts| && st.c.verts[j] == c0;
    SuccessorAt(st.c, j);
    var kc := Next(|st.c.verts|, j);
    FindOwnId(st.c.verts, kc);
    var x := LinkedPair(st.nextId, h, recordAlpha).1;
    InsertAfter(st.c.verts, j, x);
    assert InsertCrossing(st, s1id, st.c.verts[kc].id, h, recordAlpha).c.verts == Insert(st.c.verts, kc, x);
  }

  /** The clip square (0,0), (10,0), (10,10), (0,10). */
  const SquareClip: seq<Point> := [Point(0.0, 0.0), Point(10.0, 0.0), Point(10.0, 10.0), Point(0.0, 10.0)]

  /** A subject ring dipping twice through the square's bottom edge. */
  const DippingSubject: seq<Point> := [Point(2.0, -1.0), Point(2.0, 1.0), Point(8.0, 1.0), Point(8.0, -1.0)]

  /** A crossing the pass loses: subject edges 0 and 2 both cross clip edge 0
      of the original rings, at (2,0) and (8,0). Edge 0 is tested first, so
      (2,0) is inserted and, by `CrossingCutsClipEdge`, clip vertex (0,0) is
      followed by (2,0) when edge 2 is tested; against (0,0)-(2,0) the clip
      parameter of (8,0) is 4, outside [0, 1], and no crossing is reported. */
  lemma LostCrossing()
    ensures !Apart(DippingSubject, SquareClip, 0, 0) && !Apart(DippingSubject, SquareClip, 2, 0)
    ensures Intersect(DippingSubject[0], DippingSubject[1], SquareClip[0], SquareClip[1])
      == Some(Crossing(Point(2.0, 0.0), 0.5, 0.2))
    ensures Intersect(DippingSubject[2], DippingSubject[3], SquareClip[0], SquareClip[1])
      == Some(Crossing(Point(8.0, 0.0), 0.5, 0.8))
    ensures Intersect(DippingSubject[2], DippingSubject[3], SquareClip[0], Point(2.0, 0.0)).None?
  {
    var o, e := Point(0.0, 0.0), Point(10.0, 0.0);
    var a0, a1, b0, b1 := Point(2.0, -1.0), Point(2.0, 1.0), Point(8.0, 1.0), Point(8.0, -1.0);
    assert Den(a0, a1, o, e) == -20.0;
    assert AlphaS(a0, a1, o, e) == -10.0 / -20.0 == 0.5;
    assert AlphaC(a0, a1, o, e) == -4.0 / -20.0 == 0.2;
    assert Den(b0, b1, o, e) == 20.0;
    assert AlphaS(b0, b1, o, e) == 10.0 / 20.0 == 0.5;
    assert AlphaC(b0, b1, o, e) == 16.0 / 20.0 == 0.8;
    CutEdgeParameter();
    assert DippingSubject[Next(4, 0)] == a1 && DippingSubject[Next(4, 2)] == b1;
    assert SquareClip[Next(4, 0)] == e;
  }

  /** In the example, the crossing at (8,0) sits at parameter 4 along the
      cut-back clip edge (0,0)-(2,0). */
  lemma CutEdgeParameter()
    ensures Den(Point(8.0, 1.0), Point(8.0, -1.0), Point(0.0, 0.0), Point(2.0, 0.0)) == 4.0
    ensures AlphaC(Point(8.0, 1.0), Point(8.0, -1.0), Point(0.0, 0.0), Point(2.0, 0.0)) == 4.0
  {
    assert AlphaC(Point(8.0, 1.0), Point(8.0, -1.0), Point(0.0, 0.0), Point(2.0, 0.0)) == 16.0 / 4.0;
  }

  lemma ExtendsCounts(st: Pass, r: Pass)
    requires Extends(st, r)
    ensures CountIsect(r.s.verts) + st.hits == CountIsect(st.s.verts) + r.hits
    ensures CountIsect(r.c.verts) + st.hits == CountIsect(st.c.verts) + r.hits
    ensures |r.s.verts| + st.hits == |st.s.verts| + r.hits
    ensures |r.c.verts| + st.hits == |st.c.verts| + r.hits
  {
  }

  /** The starting state of the pass over two point lists: fresh closed rings,
      the subject's vertices numbered first, identities continuing after both. */
  function Initial(sp: seq<Point>, cp: seq<Point>): (st: Pass)
    ensures Parallel(st.s) && Parallel(st.c) && st.s.points == sp && st.c.points == cp
  {
    Pass(MakeRing(sp, true, 0), MakeRing(cp, true, |sp|), |sp| + |cp|, 0)
  }

  /** The starting state satisfies the invariant of the pass and holds no
      intersection vertex. */
  lemma InitialValid(sp: seq<Point>, cp: seq<Point>)
    ensures Valid(Initial(sp, cp))
    ensures CountIsect(Initial(sp, cp).s.verts) == 0 && CountIsect(Initial(sp, cp).c.verts) == 0
  {
    MakeRingFresh(sp, true, 0);
    MakeRingFresh(cp, true, |sp|);
    var st := Initial(sp, cp);
    NumberedValid(st.s, st.c, st.nextId);
  }

  /** Rings without intersection vertices whose identities are distinct, the
      subject's below the clip's and all below `nextId`, satisfy the invariant. */
  lemma NumberedValid(s: Ring, c: Ring, nextId: nat)
    requires Parallel(s) && Parallel(c) && DistinctIds(s.verts) && DistinctIds(c.verts)
    requires forall i :: 0 <= i < |s.verts| ==> s.verts[i].id < |s.verts| && !s.verts[i].isect
    requires forall i :: 0 <= i < |c.verts| ==> |s.verts| <= c.verts[i].id < nextId && !c.verts[i].isect
    requires |s.verts| <= nextId
    ensures Valid(Pass(s, c, nextId, 0))
  {
    forall u, w | u in s.verts && w in c.verts
      ensures u.id != w.id
    {
      var i :| 0 <= i < |s.verts| && s.verts[i] == u;
      var j :| 0 <= j < |c.verts| && c.verts[j] == w;
    }
  }
}
