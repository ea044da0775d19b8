/**
 The Greiner-Hormann clipper: phase one inserts the crossings, phase two
 labels the intersection vertices of each ring alternately 'entry' and
 'exit', and phase three traverses, walking forward from 'entry' vertices
 and backward from all others.

 The source's shapely `contains` test is the parameter `contains`, applied
 to a ring's coordinate list and a point.
 */
module GreinerHormann {
  import opened Options
  import opened Geometry
  import opened Rings
  import opened Insertion
  import opened Traversal

  /** The other label of the entry/exit pair (anything but 'exit' becomes 'exit'). */
  function Toggle(status: Status): Status {
    if status == Exit then Entry else Exit
  }

  /** The label after `k` toggles starting from `status`. */
  function Nth(status: Status, k: nat): Status {
    if k % 2 == 0 then status else Toggle(status)
  }

  lemma NthToggle(status: Status, k: nat)
    requires status != Unset
    ensures Nth(Toggle(status), k) == Nth(status, k + 1)
  {
    assert (k + 1) % 2 == 0 <==> k % 2 == 1;
  }

  lemma NthDiffers(status: Status, k: nat)
    requires status == Entry || status == Exit
    ensures Nth(status, k) != Nth(status, k + 1)
  {
    assert (k + 1) % 2 == 0 <==> k % 2 == 1;
  }

  /** Number of intersection vertices strictly before position `i`. */
  function Rank(vs: seq<Vertex>, i: nat): nat
    requires i <= |vs|
  {
    CountIsect(vs[..i])
  }

  lemma RankStep(vs: seq<Vertex>, i: nat)
    requires 0 < i <= |vs|
    ensures Rank(vs, i) == (if vs[0].isect then 1 else 0) + Rank(vs[1..], i - 1)
  {
    assert vs[..i][1..] == vs[1..][..i - 1];
  }

  /** The labelling loop of phase two over one ring: every intersection vertex,
      in ring order, receives the current label, which then toggles. */
  function Label(vs: seq<Vertex>, status: Status): (r: seq<Vertex>)
    requires status != Unset
    ensures |r| == |vs|
    ensures forall i :: 0 <= i < |vs| ==>
      r[i] == if vs[i].isect then vs[i].(status := Nth(status, Rank(vs, i))) else vs[i]
  {
    if vs == [] then []
    else
      var next := if vs[0].isect then Toggle(status) else status;
      var head := if vs[0].isect then vs[0].(status := status) else vs[0];
      var rest := Label(vs[1..], next);
      var r := [head] + rest;
      forall i | 0 < i < |vs|
        ensures r[i] == if vs[i].isect then vs[i].(status := Nth(status, Rank(vs, i))) else vs[i]
      {
        RankStep(vs, i);
        assert r[i] == rest[i - 1] && vs[i] == vs[1..][i - 1];
        NthToggle(status, Rank(vs[1..], i - 1));
      }
      assert Rank(vs, 0) == 0;
      r
  }

  /** Consecutive intersection vertices of a labelled ring carry different labels. */
  lemma LabelAlternates(vs: seq<Vertex>, status: Status, i: nat, j: nat)
    requires status == Entry || status == Exit
    requires i < j < |vs| && vs[i].isect && vs[j].isect
    requires forall k :: i < k < j ==> !vs[k].isect
    ensures Label(vs, status)[i].status != Label(vs, status)[j].status
  {
    assert vs[..j] == vs[..i] + [vs[i]] + vs[i + 1..j];
    CountIsectAppend(vs[..i] + [vs[i]], vs[i + 1..j]);
    CountIsectAppend(vs[..i], [vs[i]]);
    NoIsectCount(vs[i + 1..j]);
    assert CountIsect([vs[i]]) == 1 by {
      assert [vs[i]][1..] == [];
    }
    assert Rank(vs, j) == Rank(vs, i) + 1;
    NthDiffers(status, Rank(vs, i));
  }

  /** The first intersection vertex of a labelled ring carries the starting label. */
  lemma LabelStartsWith(vs: seq<Vertex>, status: Status, i: nat)
    requires status != Unset && i < |vs| && vs[i].isect
    requires forall k :: 0 <= k < i ==> !vs[k].isect
    ensures Label(vs, status)[i].status == status
  {
    NoIsectCount(vs[..i]);
  }

  /** Phase two: label the clip ring, starting at 'exit' exactly when the clip
      ring's first vertex is inside the subject ring, then the subject ring,
      starting at 'exit' exactly when its first vertex is inside the clip ring. */
  function PhaseTwo(contains: (seq<Point>, Point) -> bool, s: Ring, c: Ring): (r: (Ring, Ring))
    requires |s.verts| > 0 && |c.verts| > 0
    ensures r.0.points == s.points && r.1.points == c.points
    ensures r.0.closed == s.closed && r.1.closed == c.closed
    ensures Parallel(s) ==> Parallel(r.0)
    ensures Parallel(c) ==> Parallel(r.1)
    ensures r.0.verts == Label(s.verts, if contains(c.points, s.verts[0].pt) then Exit else Entry)
    ensures r.1.verts == Label(c.verts, if contains(s.points, c.verts[0].pt) then Exit else Entry)
  {
    var cStatus := if contains(s.points, c.verts[0].pt) then Exit else Entry;
    var c' := c.(verts := Label(c.verts, cStatus));
    var sStatus := if contains(c'.points, s.verts[0].pt) then Exit else Entry;
    var s' := s.(verts := Label(s.verts, sStatus));
    LabelKeeps(s.verts, sStatus);
    LabelKeeps(c.verts, cStatus);
    (s', c')
  }

  /** Labelling changes only the label of intersection vertices: coordinates,
      identities, links and the non-intersection vertices stay as they were. */
  lemma LabelKeeps(vs: seq<Vertex>, status: Status)
    requires status != Unset
    ensures var r := Label(vs, status);
      forall i :: 0 <= i < |vs| ==>
        && r[i].(status := vs[i].status) == vs[i]
        && (!vs[i].isect ==> r[i] == vs[i])
  {
  }

  /** Labelling keeps every identity, link and intersection flag. */
  lemma LabelLinks(vs: seq<Vertex>, status: Status)
    requires status != Unset
    ensures SameLinks(vs, Label(vs, status))
  {
    LabelKeeps(vs, status);
  }

  /** Phase one as this clipper runs it on two point lists: the subject ring's
      vertices are numbered first, and each intersection vertex records its
      edge parameter. */
  function Inserted(clip: seq<Point>, subject: seq<Point>): Pass {
    var st := Initial(subject, clip);
    PhaseOne(st.s, st.c, st.nextId, true)
  }

  /** After phase one both rings hold one intersection vertex per crossing and
      grew by one coordinate per crossing, at most one crossing per edge pair
      is counted, non-empty inputs give non-empty rings, and without a
      crossing the rings are the inputs. */
  lemma InsertedCounts(clip: seq<Point>, subject: seq<Point>)
    ensures var r := Inserted(clip, subject);
      && CountIsect(r.s.verts) == r.hits && CountIsect(r.c.verts) == r.hits
      && |r.s.points| == |subject| + r.hits && |r.c.points| == |clip| + r.hits
      && r.hits <= |subject| * |clip|
      && (|subject| > 0 ==> |r.s.verts| > 0) && (|clip| > 0 ==> |r.c.verts| > 0)
      && (r.hits == 0 ==> r.s.points == subject && r.c.points == clip)
  {
    var st := Initial(subject, clip);
    InitialValid(subject, clip);
    PhaseOneKeeps(st.s, st.c, st.nextId, true);
    PhaseOneCountsAgree(st.s, st.c, st.nextId, true);
  }

  /** Phase one counts no crossing exactly when no edge of the subject
      polygon crosses an edge of the clip polygon. */
  lemma InsertedQuiet(clip: seq<Point>, subject: seq<Point>)
    ensures Inserted(clip, subject).hits == 0 <==> NoEdgeCrossing(subject, clip)
  {
    var st := Initial(subject, clip);
    InitialValid(subject, clip);
    PhaseOneQuiet(st.s, st.c, st.nextId, true);
  }

  /** After phase one the invariant of the pass holds: every intersection
      vertex has its linked partner at the same point in the other ring. */
  lemma InsertedValid(clip: seq<Point>, subject: seq<Point>)
    ensures Valid(Inserted(clip, subject))
  {
    var st := Initial(subject, clip);
    InitialValid(subject, clip);
    PhaseOneKeeps(st.s, st.c, st.nextId, true);
  }

  /** The whole clipper on point lists: build both rings, run the three phases.
      `fuel` bounds each output polygon's "until closed" loop. Phase two reads
      the first vertex of each ring, so an empty ring is an error. Every
      polygon returned is closed, non-empty and free of repeated coordinates. */
  function Clip(contains: (seq<Point>, Point) -> bool, clip: seq<Point>, subject: seq<Point>, fuel: nat): (res: Result<seq<Ring>, Failure>)
    ensures |clip| == 0 || |subject| == 0 <==> res == Failure(MissingVertex)
    ensures res.Success? ==> forall k :: 0 <= k < |res.value| ==> Polygon(res.value[k])
  {
    if |clip| == 0 || |subject| == 0 then Failure(MissingVertex)
    else
    var p := Inserted(clip, subject);
    InsertedCounts(clip, subject);
    var rings := PhaseTwo(contains, p.s, p.c);
    Traverse(EntryExit, rings.0, rings.1, seq(|rings.0.points|, _ => false), fuel)
  }

  /** The clipper never fails for want of a neighbour, and with `fuel` at least
      `Budget(|subject|, |clip|)` it fails only on an empty input: every hop
      of the traversal lands on an intersection vertex, and the "until closed"
      loop ends before it could revisit a coordinate. */
  lemma ClipOutcome(contains: (seq<Point>, Point) -> bool, clip: seq<Point>, subject: seq<Point>, fuel: nat)
    ensures var res := Clip(contains, clip, subject, fuel);
      && res != Failure(NoNeighbor)
      && (fuel >= Budget(|subject|, |clip|) ==> res.Success? || res == Failure(MissingVertex))
  {
    if |clip| > 0 && |subject| > 0 {
      var p := Inserted(clip, subject);
      InsertedCounts(clip, subject);
      InsertedValid(clip, subject);
      var rings := PhaseTwo(contains, p.s, p.c);
      PhaseTwoLinked(contains, p);
      var processed := seq(|rings.0.points|, _ => false);
      assert Clip(contains, clip, subject, fuel) == Traverse(EntryExit, rings.0, rings.1, processed, fuel);
      TraverseLinked(EntryExit, rings.0, rings.1, processed, fuel);
      if fuel >= Budget(|subject|, |clip|) {
        BudgetCovers(|subject|, |clip|, p.hits);
        TraverseFinishes(EntryExit, rings.0, rings.1, processed, fuel);
      }
    }
  }

  /** Phase two keeps the rings of a valid pass parallel and linked both ways. */
  lemma PhaseTwoLinked(contains: (seq<Point>, Point) -> bool, p: Pass)
    requires Valid(p) && |p.s.verts| > 0 && |p.c.verts| > 0
    ensures var rings := PhaseTwo(contains, p.s, p.c);
      && Parallel(rings.0) && Parallel(rings.1)
      && Linked(rings.0, rings.1) && Linked(rings.1, rings.0)
  {
    var rings := PhaseTwo(contains, p.s, p.c);
    LabelLinks(p.s.verts, if contains(p.c.points, p.s.verts[0].pt) then Exit else Entry);
    LabelLinks(p.c.verts, if contains(p.s.points, p.c.verts[0].pt) then Exit else Entry);
    ValidLinked(p);
    LinkedTransfer(p.s, p.c, rings.0, rings.1);
    LinkedTransfer(p.c, p.s, rings.1, rings.0);
  }

  lemma CountZeroNoIsect(vs: seq<Vertex>)
    requires CountIsect(vs) == 0
    ensures forall i :: 0 <= i < |vs| ==> !vs[i].isect
  {
    if vs != [] {
      CountZeroNoIsect(vs[1..]);
      assert forall i :: 0 < i < |vs| ==> vs[i] == vs[1..][i - 1];
    }
  }

  /** Without any crossing there is no intersection vertex to start from, so the
      result is empty, whether or not one polygon lies inside the other. */
  lemma ClipWithoutCrossings(contains: (seq<Point>, Point) -> bool, clip: seq<Point>, subject: seq<Point>, fuel: nat)
    requires |clip| > 0 && |subject| > 0
    requires Inserted(clip, subject).hits == 0
    ensures Clip(contains, clip, subject, fuel) == Success([])
  {
    var p := Inserted(clip, subject);
    InsertedCounts(clip, subject);
    var rings := PhaseTwo(contains, p.s, p.c);
    CountZeroNoIsect(p.s.verts);
    LabelKeeps(p.s.verts, if contains(p.c.points, p.s.verts[0].pt) then Exit else Entry);
    assert forall i :: 0 <= i < |rings.0.verts| ==> !rings.0.verts[i].isect;
    TraverseWithoutIsect(EntryExit, rings.0, rings.1, seq(|rings.0.points|, _ => false), fuel);
  }
}
