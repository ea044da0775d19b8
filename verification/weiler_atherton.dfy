/**
 The Weiler-Atherton clipper: the subject's vertices are marked inside or
 outside the clip polygon, the crossings are inserted as in Greiner-Hormann
 (without edge parameters) and counted, the case without crossings is
 decided by two containment tests, and otherwise the subject's intersection
 vertices followed by an inside vertex are marked inbound and the linked
 rings are traversed, walking forward from inbound vertices and backward
 from all others.

 The source's shapely `contains` and `touches` tests are the parameters
 `contains` and `touches`, applied to a ring's coordinate list and a point.
 */
module WeilerAtherton {
  import opened Options
  import opened Geometry
  import opened Rings
  import opened Insertion
  import opened Traversal

  /** `inside_or_on`: the point lies inside the polygon or on its boundary. */
  predicate InsideOrOn(contains: (seq<Point>, Point) -> bool, touches: (seq<Point>, Point) -> bool,
                       pts: seq<Point>, p: Point)
  {
    contains(pts, p) || touches(pts, p)
  }

  /** The marking loop over the subject ring: a vertex the clip polygon
      contains or touches gets `inside` set; the others keep theirs. */
  function MarkInside(contains: (seq<Point>, Point) -> bool, touches: (seq<Point>, Point) -> bool,
                      s: Ring, cPoints: seq<Point>): (r: Ring)
    ensures r.points == s.points && r.closed == s.closed && |r.verts| == |s.verts|
    ensures Parallel(s) ==> Parallel(r)
  {
    s.(verts := seq(|s.verts|, i requires 0 <= i < |s.verts| =>
      s.verts[i].(inside := s.verts[i].inside || InsideOrOn(contains, touches, cPoints, s.verts[i].pt))))
  }

  /** Marking changes only the `inside` flag: a vertex ends up inside exactly
      when it was already or the clip polygon contains or touches it. */
  lemma MarkInsideSets(contains: (seq<Point>, Point) -> bool, touches: (seq<Point>, Point) -> bool,
                       s: Ring, cPoints: seq<Point>)
    ensures var r := MarkInside(contains, touches, s, cPoints);
      forall i :: 0 <= i < |s.verts| ==>
        && r.verts[i].(inside := s.verts[i].inside) == s.verts[i]
        && (r.verts[i].inside <==> s.verts[i].inside || InsideOrOn(contains, touches, cPoints, s.verts[i].pt))
  {
  }

  /** The starting state of the pass: fresh rings with the subject's vertices
      marked against the clip polygon's coordinates. */
  function Start(contains: (seq<Point>, Point) -> bool, touches: (seq<Point>, Point) -> bool,
                 clip: seq<Point>, subject: seq<Point>): Pass
  {
    var st := Initial(subject, clip);
    st.(s := MarkInside(contains, touches, st.s, clip))
  }

  /** The marked start satisfies the invariant of the pass and holds no
      intersection vertex. */
  lemma StartValid(contains: (seq<Point>, Point) -> bool, touches: (seq<Point>, Point) -> bool,
                   clip: seq<Point>, subject: seq<Point>)
    ensures var st := Start(contains, touches, clip, subject);
      && Valid(st) && st.hits == 0
      && CountIsect(st.s.verts) == 0 && CountIsect(st.c.verts) == 0
      && st.s.points == subject && st.c.points == clip
  {
    var st := Start(contains, touches, clip, subject);
    MakeRingFresh(subject, true, 0);
    MakeRingFresh(clip, true, |subject|);
    assert forall i :: 0 <= i < |st.s.verts| ==> st.s.verts[i].id == i && !st.s.verts[i].isect;
    NoIsectCount(st.s.verts);
    NumberedValid(st.s, st.c, st.nextId);
  }

  /** In the marked start, subject vertices are plain vertices whose `inside`
      flag is the containment test, and clip vertices are plain vertices. */
  lemma StartMarks(contains: (seq<Point>, Point) -> bool, touches: (seq<Point>, Point) -> bool,
                   clip: seq<Point>, subject: seq<Point>)
    ensures var st := Start(contains, touches, clip, subject);
      && (forall u :: u in st.s.verts ==>
            !u.isect && !u.inbound && (u.inside <==> InsideOrOn(contains, touches, clip, u.pt)))
      && (forall w :: w in st.c.verts ==> !w.isect && !w.inside && !w.inbound)
  {
    var st := Start(contains, touches, clip, subject);
    forall u | u in st.s.verts
      ensures !u.isect && !u.inbound && (u.inside <==> InsideOrOn(contains, touches, clip, u.pt))
    {
      var i :| 0 <= i < |st.s.verts| && st.s.verts[i] == u;
    }
    forall w | w in st.c.verts
      ensures !w.isect && !w.inside && !w.inbound
    {
      var i :| 0 <= i < |st.c.verts| && st.c.verts[i] == w;
    }
  }

  /** The marking loop and the insertion pass, as this clipper runs them on two
      point lists; `hits` is the source's `num_intersections`. */
  function Inserted(contains: (seq<Point>, Point) -> bool, touches: (seq<Point>, Point) -> bool,
                    clip: seq<Point>, subject: seq<Point>): Pass
  {
    var st := Start(contains, touches, clip, subject);
    PhaseOne(st.s, st.c, st.nextId, false)
  }

  /** The crossing count equals the number of intersection vertices in each
      ring and the number of coordinates each ring gained, at most one crossing
      per edge pair is counted, non-empty inputs give non-empty rings, and with
      no crossing both rings keep their coordinates. */
  lemma InsertedCounts(contains: (seq<Point>, Point) -> bool, touches: (seq<Point>, Point) -> bool,
                       clip: seq<Point>, subject: seq<Point>)
    ensures var r := Inserted(contains, touches, clip, subject);
      && CountIsect(r.s.verts) == r.hits && CountIsect(r.c.verts) == r.hits
      && |r.s.points| == |subject| + r.hits && |r.c.points| == |clip| + r.hits
      && r.hits <= |subject| * |clip|
      && (|subject| > 0 ==> |r.s.verts| > 0) && (|clip| > 0 ==> |r.c.verts| > 0)
      && (r.hits == 0 ==> r.s.points == subject && r.c.points == clip)
  {
    var st := Start(contains, touches, clip, subject);
    StartValid(contains, touches, clip, subject);
    PhaseOneKeeps(st.s, st.c, st.nextId, false);
    PhaseOneCountsAgree(st.s, st.c, st.nextId, false);
  }

  /** The insertion pass counts no crossing exactly when no edge of the
      subject polygon crosses an edge of the clip polygon. */
  lemma InsertedQuiet(contains: (seq<Point>, Point) -> bool, touches: (seq<Point>, Point) -> bool,
                      clip: seq<Point>, subject: seq<Point>)
    ensures Inserted(contains, touches, clip, subject).hits == 0 <==> NoEdgeCrossing(subject, clip)
  {
    var st := Start(contains, touches, clip, subject);
    StartValid(contains, touches, clip, subject);
    PhaseOneQuiet(st.s, st.c, st.nextId, false);
  }

  /** After the insertion pass only original subject vertices are inside, and
      exactly those the clip polygon contains or touches; no vertex is inbound
      yet, and no clip vertex is inside. */
  lemma InsideOnlyOriginal(contains: (seq<Point>, Point) -> bool, touches: (seq<Point>, Point) -> bool,
                           clip: seq<Point>, subject: seq<Point>)
    ensures var r := Inserted(contains, touches, clip, subject);
      && (forall u :: u in r.s.verts ==>
            !u.inbound && (u.inside <==> !u.isect && InsideOrOn(contains, touches, clip, u.pt)))
      && (forall w :: w in r.c.verts ==> !w.inside && !w.inbound)
  {
    var st := Start(contains, touches, clip, subject);
    StartValid(contains, touches, clip, subject);
    StartMarks(contains, touches, clip, subject);
    PhaseOneKeeps(st.s, st.c, st.nextId, false);
  }

  /** The inbound loop over the subject ring: an intersection vertex whose
      successor is inside gets `inbound` set; the others keep theirs. */
  function MarkInbound(s: Ring): (r: Ring)
    ensures r.points == s.points && r.closed == s.closed && |r.verts| == |s.verts|
    ensures Parallel(s) ==> Parallel(r)
  {
    var n := |s.verts|;
    s.(verts := seq(n, i requires 0 <= i < n =>
      if s.verts[i].isect && s.verts[Next(n, i)].inside then s.verts[i].(inbound := true) else s.verts[i]))
  }

  /** Marking changes only the `inbound` flag, and sets it exactly on the
      intersection vertices whose successor is inside. */
  lemma MarkInboundSets(s: Ring)
    ensures var r, n := MarkInbound(s), |s.verts|;
      forall i :: 0 <= i < n ==>
        && r.verts[i].(inbound := s.verts[i].inbound) == s.verts[i]
        && (r.verts[i].inbound <==> s.verts[i].inbound || (s.verts[i].isect && s.verts[Next(n, i)].inside))
  {
  }

  /** Inbound marking keeps every identity, link and intersection flag. */
  lemma MarkInboundLinks(s: Ring)
    ensures SameLinks(s.verts, MarkInbound(s).verts)
  {
    MarkInboundSets(s);
  }

  /** After both markings a subject vertex is inbound exactly when it is an
      intersection vertex followed by an inside vertex; in particular an
      intersection vertex followed by another one is never inbound. */
  lemma InboundExactly(contains: (seq<Point>, Point) -> bool, touches: (seq<Point>, Point) -> bool,
                       clip: seq<Point>, subject: seq<Point>)
    ensures var r := Inserted(contains, touches, clip, subject);
      var s, n := MarkInbound(r.s), |r.s.verts|;
      forall i :: 0 <= i < n ==>
        && (s.verts[i].inbound <==> r.s.verts[i].isect && r.s.verts[Next(n, i)].inside)
        && (r.s.verts[i].isect && r.s.verts[Next(n, i)].isect ==> !s.verts[i].inbound)
  {
    var r := Inserted(contains, touches, clip, subject);
    InsideOnlyOriginal(contains, touches, clip, subject);
    MarkInboundSets(r.s);
    var n := |r.s.verts|;
    forall i | 0 <= i < n
      ensures !r.s.verts[i].inbound && (r.s.verts[Next(n, i)].isect ==> !r.s.verts[Next(n, i)].inside)
    {
      assert r.s.verts[i] in r.s.verts;
      assert r.s.verts[Next(n, i)] in r.s.verts;
    }
  }

  /** No clip vertex is inbound, so every walk on the clip ring goes backward. */
  lemma ClipRingWalksBackward(contains: (seq<Point>, Point) -> bool, touches: (seq<Point>, Point) -> bool,
                              clip: seq<Point>, subject: seq<Point>)
    ensures var r := Inserted(contains, touches, clip, subject);
      forall i :: 0 <= i < |r.c.verts| ==> !Forward(InboundOutbound, r.c.verts[i])
  {
    var r := Inserted(contains, touches, clip, subject);
    InsideOnlyOriginal(contains, touches, clip, subject);
    forall i | 0 <= i < |r.c.verts|
      ensures !r.c.verts[i].inbound
    {
      assert r.c.verts[i] in r.c.verts;
    }
  }

  /** The case without crossings: the subject if its first vertex is inside or
      on the clip polygon, else the clip polygon if its first vertex is inside or
      on the subject, else nothing. A test on a ring without vertices fails. */
  function NoCrossing(contains: (seq<Point>, Point) -> bool, touches: (seq<Point>, Point) -> bool,
                      s: Ring, c: Ring): (res: Result<seq<Ring>, Failure>)
    ensures res == Failure(MissingVertex) <==>
      |s.verts| == 0 || (|c.verts| == 0 && !InsideOrOn(contains, touches, c.points, s.verts[0].pt))
    ensures res.Success? ==> |res.value| <= 1 && forall k :: 0 <= k < |res.value| ==> res.value[k] in [s, c]
  {
    if |s.verts| == 0 then Failure(MissingVertex)
    else if InsideOrOn(contains, touches, c.points, s.verts[0].pt) then Success([s])
    else if |c.verts| == 0 then Failure(MissingVertex)
    else if InsideOrOn(contains, touches, s.points, c.verts[0].pt) then Success([c])
    else Success([])
  }

  /** The whole clipper on point lists. `fuel` bounds each output polygon's
      "until closed" loop. It fails on a missing first vertex exactly when the
      subject is empty, or when the clip polygon is empty and does not contain
      or touch the subject's first point (an empty input admits no crossing,
      so the zero-crossing tests run). With crossings, every polygon returned
      is closed, non-empty and free of repeated coordinates. */
  function Clip(contains: (seq<Point>, Point) -> bool, touches: (seq<Point>, Point) -> bool,
                clip: seq<Point>, subject: seq<Point>, fuel: nat): (res: Result<seq<Ring>, Failure>)
    ensures res == Failure(MissingVertex) <==>
      |subject| == 0 || (|clip| == 0 && !InsideOrOn(contains, touches, clip, subject[0]))
    ensures Inserted(contains, touches, clip, subject).hits > 0 && res.Success? ==>
      forall k :: 0 <= k < |res.value| ==> Polygon(res.value[k])
  {
    var r := Inserted(contains, touches, clip, subject);
    InsertedCounts(contains, touches, clip, subject);
    if r.hits == 0 then
      assert |subject| > 0 ==> r.s.verts[0].pt == subject[0];
      NoCrossing(contains, touches, r.s, r.c)
    else
      var s := MarkInbound(r.s);
      assert |subject| > 0 && |clip| > 0;
      Traverse(InboundOutbound, s, r.c, seq(|s.points|, _ => false), fuel)
  }

  /** The rings the traversal receives are parallel and linked both ways. */
  lemma InboundLinked(contains: (seq<Point>, Point) -> bool, touches: (seq<Point>, Point) -> bool,
                      clip: seq<Point>, subject: seq<Point>)
    ensures var r := Inserted(contains, touches, clip, subject);
      var s := MarkInbound(r.s);
      Parallel(s) && Parallel(r.c) && Linked(s, r.c) && Linked(r.c, s)
  {
    var r := Inserted(contains, touches, clip, subject);
    var s := MarkInbound(r.s);
    StartValid(contains, touches, clip, subject);
    var st := Start(contains, touches, clip, subject);
    PhaseOneKeeps(st.s, st.c, st.nextId, false);
    MarkInboundLinks(r.s);
    ValidLinked(r);
    LinkedTransfer(r.s, r.c, s, r.c);
    LinkedTransfer(r.c, r.s, r.c, s);
  }

  /** The clipper never fails for want of a neighbour, and with `fuel` at least
      `Budget(|subject|, |clip|)` it fails only on a missing first vertex. */
  lemma ClipOutcome(contains: (seq<Point>, Point) -> bool, touches: (seq<Point>, Point) -> bool,
                    clip: seq<Point>, subject: seq<Point>, fuel: nat)
    ensures var res := Clip(contains, touches, clip, subject, fuel);
      && res != Failure(NoNeighbor)
      && (fuel >= Budget(|subject|, |clip|) ==> res.Success? || res == Failure(MissingVertex))
  {
    var r := Inserted(contains, touches, clip, subject);
    InsertedCounts(contains, touches, clip, subject);
    if r.hits > 0 {
      var s := MarkInbound(r.s);
      InboundLinked(contains, touches, clip, subject);
      var processed := seq(|s.points|, _ => false);
      assert Clip(contains, touches, clip, subject, fuel) == Traverse(InboundOutbound, s, r.c, processed, fuel);
      TraverseLinked(InboundOutbound, s, r.c, processed, fuel);
      if fuel >= Budget(|subject|, |clip|) {
        BudgetCovers(|subject|, |clip|, r.hits);
        TraverseFinishes(InboundOutbound, s, r.c, processed, fuel);
      }
    }
  }

  /** Without crossings the result is decided by the inputs' first points alone:
      the subject's ring if its first point is inside or on the clip polygon,
      else the clip's ring if its first point is inside or on the subject, else
      nothing; reading the first vertex of an empty ring is an error. */
  lemma ClipWithoutCrossings(contains: (seq<Point>, Point) -> bool, touches: (seq<Point>, Point) -> bool,
                             clip: seq<Point>, subject: seq<Point>, fuel: nat)
    requires Inserted(contains, touches, clip, subject).hits == 0
    ensures var res := Clip(contains, touches, clip, subject, fuel);
      && (|subject| == 0 ==> res == Failure(MissingVertex))
      && (|subject| > 0 && InsideOrOn(contains, touches, clip, subject[0]) ==>
            res.Success? && |res.value| == 1 && res.value[0].points == subject)
      && (|subject| > 0 && !InsideOrOn(contains, touches, clip, subject[0]) && |clip| == 0 ==>
            res == Failure(MissingVertex))
      && (|subject| > 0 && !InsideOrOn(contains, touches, clip, subject[0]) && |clip| > 0
          && InsideOrOn(contains, touches, subject, clip[0]) ==>
            res.Success? && |res.value| == 1 && res.value[0].points == clip)
      && (|subject| > 0 && !InsideOrOn(contains, touches, clip, subject[0]) && |clip| > 0
          && !InsideOrOn(contains, touches, subject, clip[0]) ==>
            res == Success([]))
  {
    var r := Inserted(contains, touches, clip, subject);
    InsertedCounts(contains, touches, clip, subject);
    if |subject| > 0 {
      assert r.s.verts[0].pt == subject[0];
    }
    if |clip| > 0 {
      assert r.c.verts[0].pt == clip[0];
    }
  }
}
