/**
 The Sutherland-Hodgman clipper: the subject's point list is filtered
 against each edge of the clip polygon in turn. A point is kept when it lies
 strictly to the left of the edge; where the subject's boundary crosses the
 edge's supporting line, the crossing point is emitted instead.

 Points are the coordinate pairs of the source, here with real coordinates.
 */
module SutherlandHodgman {
  import opened Options
  import opened Geometry

  /** Cross product of the edge `c0`-`c1` with `p - c0`: positive when `p` lies
      to the left of the directed edge, zero on its supporting line. */
  function Side(p: Point, c0: Point, c1: Point): real {
    (c1.x - c0.x) * (p.y - c0.y) - (c1.y - c0.y) * (p.x - c0.x)
  }

  /** `inside`: a strict comparison of the two cross-product terms. */
  predicate Inside(p: Point, c0: Point, c1: Point) {
    (c1.x - c0.x) * (p.y - c0.y) > (c1.y - c0.y) * (p.x - c0.x)
  }

  /** The test is strict: no point of the edge's supporting line, the edge's
      own end points included, is inside. */
  lemma OnLineNotInside(c0: Point, c1: Point, t: real)
    ensures Side(Lerp(c0, c1, t), c0, c1) == 0.0
    ensures !Inside(Lerp(c0, c1, t), c0, c1) && !Inside(c0, c0, c1) && !Inside(c1, c0, c1)
  {
    var dx, dy := c1.x - c0.x, c1.y - c0.y;
    assert Lerp(c0, c1, t).y - c0.y == t * dy && Lerp(c0, c1, t).x - c0.x == t * dx;
    assert dx * (t * dy) == dy * (t * dx);
  }

  /** Divisor of `intersect(C0, C1, S0, S1)`. */
  function Divisor(c0: Point, c1: Point, s0: Point, s1: Point): real {
    (c0.x - c1.x) * (s0.y - s1.y) - (c0.y - c1.y) * (s0.x - s1.x)
  }

  /** The divisor is the difference of the two end points' cross products. */
  lemma DivisorIsSideDifference(c0: Point, c1: Point, s0: Point, s1: Point)
    ensures Divisor(c0, c1, s0, s1) == Side(s1, c0, c1) - Side(s0, c0, c1)
  {
    var dx, dy := c1.x - c0.x, c1.y - c0.y;
    calc {
      Side(s1, c0, c1) - Side(s0, c0, c1);
      == dx * (s1.y - c0.y) - dy * (s1.x - c0.x) - (dx * (s0.y - c0.y) - dy * (s0.x - c0.x));
      == dx * ((s1.y - c0.y) - (s0.y - c0.y)) - dy * ((s1.x - c0.x) - (s0.x - c0.x));
      == dx * (s1.y - s0.y) - dy * (s1.x - s0.x);
      == (c0.x - c1.x) * (s0.y - s1.y) - (c0.y - c1.y) * (s0.x - s1.x);
    }
  }

  /** When exactly one end point is inside, the divisor is not zero: the
      source's `intersect` is only reached in that case, so it never divides
      by zero. */
  lemma DivisorNonzero(c0: Point, c1: Point, s0: Point, s1: Point)
    requires Inside(s0, c0, c1) != Inside(s1, c0, c1)
    ensures Divisor(c0, c1, s0, s1) != 0.0
  {
    DivisorIsSideDifference(c0, c1, s0, s1);
  }

  /** `intersect(C0, C1, S0, S1)`: the crossing of the line through `c0`, `c1`
      with the line through `s0`, `s1`, by the determinant formula. */
  function Intersect(c0: Point, c1: Point, s0: Point, s1: Point): Point
    requires Divisor(c0, c1, s0, s1) != 0.0
  {
    var n1 := c0.x * c1.y - c0.y * c1.x;
    var n2 := s0.x * s1.y - s0.y * s1.x;
    var n3 := 1.0 / Divisor(c0, c1, s0, s1);
    Point((n1 * (s0.x - s1.x) - n2 * (c0.x - c1.x)) * n3, (n1 * (s0.y - s1.y) - n2 * (c0.y - c1.y)) * n3)
  }

  /** The algebra shared by both lines: the point `(a * n3, b * n3)` lies on the
      line through `(ox, oy)` with direction `(-u, -v)`. */
  lemma ScaledOnLine(u: real, v: real, a: real, b: real, n: real, d: real, n3: real, ox: real, oy: real)
    requires n3 * d == 1.0
    requires v * a - u * b == -(n * d)
    requires u * oy - v * ox == n
    ensures (-u) * (b * n3 - oy) - (-v) * (a * n3 - ox) == 0.0
  {
    calc {
      (-u) * (b * n3 - oy) - (-v) * (a * n3 - ox);
      == n3 * (v * a - u * b) + (u * oy - v * ox);
      == n3 * -(n * d) + n;
      == -(n * (n3 * d)) + n;
    }
  }

  lemma CrossOfNumerators(u: real, v: real, p: real, q: real, n1: real, n2: real)
    ensures v * (n1 * p - n2 * u) - u * (n1 * q - n2 * v) == -(n1 * (u * q - v * p))
    ensures q * (n1 * p - n2 * u) - p * (n1 * q - n2 * v) == -(n2 * (u * q - v * p))
  {
    assert v * (n1 * p - n2 * u) == n1 * (v * p) - n2 * (u * v);
    assert u * (n1 * q - n2 * v) == n1 * (u * q) - n2 * (u * v);
    assert q * (n1 * p - n2 * u) == n1 * (p * q) - n2 * (u * q);
    assert p * (n1 * q - n2 * v) == n1 * (p * q) - n2 * (v * p);
  }

  /** The computed point lies on the clip edge's supporting line. */
  lemma IntersectOnClipLine(c0: Point, c1: Point, s0: Point, s1: Point)
    requires Divisor(c0, c1, s0, s1) != 0.0
    ensures Side(Intersect(c0, c1, s0, s1), c0, c1) == 0.0
  {
    var cdx, cdy, sdx, sdy := c0.x - c1.x, c0.y - c1.y, s0.x - s1.x, s0.y - s1.y;
    var n1 := c0.x * c1.y - c0.y * c1.x;
    var n2 := s0.x * s1.y - s0.y * s1.x;
    var d := Divisor(c0, c1, s0, s1);
    var n3 := 1.0 / d;
    var a, b := n1 * sdx - n2 * cdx, n1 * sdy - n2 * cdy;
    assert Intersect(c0, c1, s0, s1) == Point(a * n3, b * n3);
    CrossOfNumerators(cdx, cdy, sdx, sdy, n1, n2);
    ScaledOnLine(cdx, cdy, a, b, n1, d, n3, c0.x, c0.y);
  }

  /** The computed point lies on the subject edge's supporting line. */
  lemma IntersectOnSubjectLine(c0: Point, c1: Point, s0: Point, s1: Point)
    requires Divisor(c0, c1, s0, s1) != 0.0
    ensures Side(Intersect(c0, c1, s0, s1), s0, s1) == 0.0
  {
    var cdx, cdy, sdx, sdy := c0.x - c1.x, c0.y - c1.y, s0.x - s1.x, s0.y - s1.y;
    var n1 := c0.x * c1.y - c0.y * c1.x;
    var n2 := s0.x * s1.y - s0.y * s1.x;
    var d := Divisor(c0, c1, s0, s1);
    var n3 := 1.0 / d;
    var a, b := n1 * sdx - n2 * cdx, n1 * sdy - n2 * cdy;
    assert Intersect(c0, c1, s0, s1) == Point(a * n3, b * n3);
    CrossOfNumerators(cdx, cdy, sdx, sdy, n1, n2);
    ScaledOnLine(sdx, sdy, a, b, n2, d, n3, s0.x, s0.y);
  }

  /** The cross product against an edge is affine along a segment. */
  lemma SideAlong(s0: Point, s1: Point, c0: Point, c1: Point, t: real)
    ensures Side(Lerp(s0, s1, t), c0, c1) == Side(s0, c0, c1) + t * (Side(s1, c0, c1) - Side(s0, c0, c1))
  {
    var dx, dy := c1.x - c0.x, c1.y - c0.y;
    var q := Lerp(s0, s1, t);
    assert dx * (q.y - c0.y) == dx * (s0.y - c0.y) + t * (dx * (s1.y - s0.y));
    assert dy * (q.x - c0.x) == dy * (s0.x - c0.x) + t * (dy * (s1.x - s0.x));
  }

  /** A 2x2 homogeneous system with non-zero determinant has only the zero solution. */
  lemma OnlyZeroSolution(a: real, b: real, e: real, f: real, u: real, v: real)
    requires a * v - b * u == 0.0 && e * v - f * u == 0.0
    requires a * f - b * e != 0.0
    ensures u == 0.0 && v == 0.0
  {
    assert u * (a * f - b * e) == a * (f * u) - e * (b * u);
    assert v * (a * f - b * e) == f * (a * v) - b * (e * v);
  }

  /** Two points on both lines are the same point when the lines are not parallel. */
  lemma CommonPointUnique(c0: Point, c1: Point, s0: Point, s1: Point, p: Point, q: Point)
    requires Divisor(c0, c1, s0, s1) != 0.0
    requires Side(p, c0, c1) == 0.0 && Side(q, c0, c1) == 0.0
    requires Side(p, s0, s1) == 0.0 && Side(q, s0, s1) == 0.0
    ensures p == q
  {
    var a, b, e, f := c1.x - c0.x, c1.y - c0.y, s1.x - s0.x, s1.y - s0.y;
    var u, v := p.x - q.x, p.y - q.y;
    assert a * v - b * u == Side(p, c0, c1) - Side(q, c0, c1);
    assert e * v - f * u == Side(p, s0, s1) - Side(q, s0, s1);
    assert a * f - b * e == Divisor(c0, c1, s0, s1);
    OnlyZeroSolution(a, b, e, f, u, v);
  }

  /** Where `intersect` is called, the point it computes lies on the subject
      edge between S0 and S1, at the fraction of the way where the cross
      product against the clip edge changes sign. */
  lemma IntersectBetween(c0: Point, c1: Point, s0: Point, s1: Point)
    requires Inside(s0, c0, c1) != Inside(s1, c0, c1)
    ensures Divisor(c0, c1, s0, s1) != 0.0
    ensures var t := Side(s0, c0, c1) / (Side(s0, c0, c1) - Side(s1, c0, c1));
      InUnit(t) && Intersect(c0, c1, s0, s1) == Lerp(s0, s1, t)
  {
    DivisorIsSideDifference(c0, c1, s0, s1);
    var a0, a1 := Side(s0, c0, c1), Side(s1, c0, c1);
    var t := a0 / (a0 - a1);
    assert t * (a0 - a1) == a0;
    if a0 > 0.0 {
      assert a1 <= 0.0;
      assert t <= 1.0 by { assert a0 <= a0 - a1; }
    } else {
      assert a1 > 0.0;
      assert t == (-a0) / (a1 - a0);
    }
    var q := Lerp(s0, s1, t);
    SideAlong(s0, s1, c0, c1, t);
    assert Side(q, c0, c1) == a0 - t * (a0 - a1);
    OnLineNotInside(s0, s1, t);
    IntersectOnClipLine(c0, c1, s0, s1);
    IntersectOnSubjectLine(c0, c1, s0, s1);
    CommonPointUnique(c0, c1, s0, s1, Intersect(c0, c1, s0, s1), q);
  }

  /** What one iteration of the inner loop appends for the subject edge from
      `s0` to `s1`, against the clip edge from `c0` to `c1`: the crossing when
      the edge enters or leaves, and `s1` when it is inside. */
  function EdgeStep(s0: Point, s1: Point, c0: Point, c1: Point): seq<Point> {
    if Inside(s1, c0, c1) then
      if !Inside(s0, c0, c1) then
        DivisorNonzero(c0, c1, s0, s1);
        [Intersect(c0, c1, s0, s1), s1]
      else [s1]
    else if Inside(s0, c0, c1) then
      DivisorNonzero(c0, c1, s0, s1);
      [Intersect(c0, c1, s0, s1)]
    else []
  }

  /** The inner loop over `ss`, `prev` being the point before `ss[0]`. */
  function Steps(prev: Point, ss: seq<Point>, c0: Point, c1: Point): seq<Point>
    decreases |ss|
  {
    if ss == [] then [] else EdgeStep(prev, ss[0], c0, c1) + Steps(ss[0], ss[1..], c0, c1)
  }

  /** One pass of the outer loop: clip `input` against the edge from `c0` to
      `c1`, the first subject edge closing the ring from its last point. */
  function ClipEdge(input: seq<Point>, c0: Point, c1: Point): seq<Point> {
    if input == [] then [] else Steps(input[|input| - 1], input, c0, c1)
  }

  /** Each input point contributes at most two output points. */
  lemma {:induction false} StepsLength(prev: Point, ss: seq<Point>, c0: Point, c1: Point)
    ensures |Steps(prev, ss, c0, c1)| <= 2 * |ss|
    decreases |ss|
  {
    if ss != [] {
      StepsLength(ss[0], ss[1..], c0, c1);
    }
  }

  /** A pass at most doubles the number of points. */
  lemma ClipEdgeLength(input: seq<Point>, c0: Point, c1: Point)
    ensures |ClipEdge(input, c0, c1)| <= 2 * |input|
  {
    if input != [] {
      StepsLength(input[|input| - 1], input, c0, c1);
    }
  }

  /** Every point of `ss` is inside the edge. */
  predicate AllInside(ss: seq<Point>, c0: Point, c1: Point) {
    forall i :: 0 <= i < |ss| ==> Inside(ss[i], c0, c1)
  }

  /** No point of `ss` is inside the edge. */
  predicate NoneInside(ss: seq<Point>, c0: Point, c1: Point) {
    forall i :: 0 <= i < |ss| ==> !Inside(ss[i], c0, c1)
  }

  lemma {:induction false} StepsAllInside(prev: Point, ss: seq<Point>, c0: Point, c1: Point)
    requires Inside(prev, c0, c1) && AllInside(ss, c0, c1)
    ensures Steps(prev, ss, c0, c1) == ss
    decreases |ss|
  {
    if ss != [] {
      StepsAllInside(ss[0], ss[1..], c0, c1);
      assert ss == [ss[0]] + ss[1..];
    }
  }

  /** A pass over points all inside the edge returns them unchanged. */
  lemma ClipEdgeAllInside(input: seq<Point>, c0: Point, c1: Point)
    requires AllInside(input, c0, c1)
    ensures ClipEdge(input, c0, c1) == input
  {
    if input != [] {
      StepsAllInside(input[|input| - 1], input, c0, c1);
    }
  }

  lemma {:induction false} StepsNoneInside(prev: Point, ss: seq<Point>, c0: Point, c1: Point)
    requires !Inside(prev, c0, c1) && NoneInside(ss, c0, c1)
    ensures Steps(prev, ss, c0, c1) == []
    decreases |ss|
  {
    if ss != [] {
      StepsNoneInside(ss[0], ss[1..], c0, c1);
    }
  }

  /** A pass over points none of which is inside the edge returns nothing. */
  lemma ClipEdgeNoneInside(input: seq<Point>, c0: Point, c1: Point)
    requires NoneInside(input, c0, c1)
    ensures ClipEdge(input, c0, c1) == []
  {
    if input != [] {
      StepsNoneInside(input[|input| - 1], input, c0, c1);
    }
  }

  /** The points of `ss` inside the edge, in order. */
  function Kept(ss: seq<Point>, c0: Point, c1: Point): seq<Point> {
    if ss == [] then []
    else (if Inside(ss[0], c0, c1) then [ss[0]] else []) + Kept(ss[1..], c0, c1)
  }

  /** `a` is a subsequence of `b`: `b` holds the elements of `a` in order,
      possibly with others in between (matched greedily from the front). */
  predicate Subsequence<T(==)>(a: seq<T>, b: seq<T>)
    decreases |b|
  {
    if a == [] then true
    else if b == [] then false
    else if a[0] == b[0] then Subsequence(a[1..], b[1..])
    else Subsequence(a, b[1..])
  }

  /** Elements may be put in front of the larger sequence. */
  lemma {:induction false} SubsequenceSkip<T>(a: seq<T>, x: seq<T>, b: seq<T>)
    requires Subsequence(a, b)
    ensures Subsequence(a, x + b)
    decreases |x| + |b|, 0
  {
    if x == [] {
      assert x + b == b;
    } else {
      SubsequenceSkip(a, x[1..], b);
      assert (x + b)[0] == x[0];
      assert (x + b)[1..] == x[1..] + b;
      if a != [] && a[0] == x[0] {
        SubsequenceDrop(a, x[1..] + b);
      }
    }
  }

  /** Dropping the first element of a subsequence keeps it a subsequence. */
  lemma {:induction false} SubsequenceDrop<T>(a: seq<T>, b: seq<T>)
    requires a != [] && Subsequence(a, b)
    ensures Subsequence(a[1..], b)
    decreases |b|, 1
  {
    assert b != [];
    assert [b[0]] + b[1..] == b;
    if a[0] == b[0] {
      SubsequenceSkip(a[1..], [b[0]], b[1..]);
    } else {
      SubsequenceDrop(a, b[1..]);
      SubsequenceSkip(a[1..], [b[0]], b[1..]);
    }
  }

  /** The emitted points of one step end with `s1` when `s1` is inside. */
  lemma EdgeStepEndsWith(s0: Point, s1: Point, c0: Point, c1: Point)
    requires Inside(s1, c0, c1)
    ensures var e := EdgeStep(s0, s1, c0, c1); e != [] && e == e[..|e| - 1] + [s1]
  {
  }

  lemma SubsequenceCons<T>(s: T, kept: seq<T>, head: seq<T>, rest: seq<T>)
    requires Subsequence(kept, rest) && head != [] && head[|head| - 1] == s
    ensures Subsequence([s] + kept, head + rest)
  {
    var pre := head[..|head| - 1];
    assert ([s] + kept)[1..] == kept;
    assert ([s] + rest)[1..] == rest;
    SubsequenceSkip([s] + kept, pre, [s] + rest);
    assert head + rest == pre + ([s] + rest);
  }

  lemma {:induction false} StepsKeepInside(prev: Point, ss: seq<Point>, c0: Point, c1: Point)
    ensures Subsequence(Kept(ss, c0, c1), Steps(prev, ss, c0, c1))
    decreases |ss|
  {
    if ss != [] {
      var rest := Steps(ss[0], ss[1..], c0, c1);
      var kept := Kept(ss[1..], c0, c1);
      var head := EdgeStep(prev, ss[0], c0, c1);
      assert Steps(prev, ss, c0, c1) == head + rest;
      StepsKeepInside(ss[0], ss[1..], c0, c1);
      if Inside(ss[0], c0, c1) {
        assert Kept(ss, c0, c1) == [ss[0]] + kept;
        EdgeStepEndsWith(prev, ss[0], c0, c1);
        SubsequenceCons(ss[0], kept, head, rest);
      } else {
        assert Kept(ss, c0, c1) == kept;
        SubsequenceSkip(kept, head, rest);
      }
    }
  }

  /** Every input point inside the edge is emitted, in input order: the kept
      points form a subsequence of the pass's output. */
  lemma ClipEdgeKeepsInside(input: seq<Point>, c0: Point, c1: Point)
    ensures Subsequence(Kept(input, c0, c1), ClipEdge(input, c0, c1))
  {
    if input != [] {
      StepsKeepInside(input[|input| - 1], input, c0, c1);
    }
  }

  /** Each point one step emits is inside the edge or on its line. */
  lemma EdgeStepOnSide(s0: Point, s1: Point, c0: Point, c1: Point)
    ensures forall p :: p in EdgeStep(s0, s1, c0, c1) ==> Side(p, c0, c1) >= 0.0
  {
    if Inside(s1, c0, c1) != Inside(s0, c0, c1) {
      DivisorNonzero(c0, c1, s0, s1);
      IntersectOnClipLine(c0, c1, s0, s1);
    }
  }

  lemma {:induction false} StepsOnSide(prev: Point, ss: seq<Point>, c0: Point, c1: Point)
    ensures forall p :: p in Steps(prev, ss, c0, c1) ==> Side(p, c0, c1) >= 0.0
    decreases |ss|
  {
    if ss != [] {
      var head := EdgeStep(prev, ss[0], c0, c1);
      var rest := Steps(ss[0], ss[1..], c0, c1);
      assert Steps(prev, ss, c0, c1) == head + rest;
      StepsOnSide(ss[0], ss[1..], c0, c1);
      EdgeStepOnSide(prev, ss[0], c0, c1);
      forall p | p in head + rest
        ensures Side(p, c0, c1) >= 0.0
      {
        assert p in head || p in rest;
      }
    }
  }

  /** Every point a pass emits is inside the edge or on its supporting line. */
  lemma ClipEdgeOnSide(input: seq<Point>, c0: Point, c1: Point)
    ensures forall p :: p in ClipEdge(input, c0, c1) ==> Side(p, c0, c1) >= 0.0
  {
    if input != [] {
      StepsOnSide(input[|input| - 1], input, c0, c1);
    }
  }

  /** The outer loop over the clip points `cs`, `c0` being the start of the
      first edge. */
  function ClipAll(poly: seq<Point>, c0: Point, cs: seq<Point>): seq<Point>
    decreases |cs|
  {
    if cs == [] then poly else ClipAll(ClipEdge(poly, c0, cs[0]), cs[0], cs[1..])
  }

  /** `sutherland_hodgman(S, C)`: the first edge runs from the last clip point to
      the first. The source reads `C[-1]` first, which fails on an empty clip
      list; that case is `None`. */
  function Clip(subject: seq<Point>, clip: seq<Point>): (r: Option<seq<Point>>)
    ensures r.None? <==> clip == []
  {
    if clip == [] then None else Some(ClipAll(subject, clip[|clip| - 1], clip))
  }

  /** A directed clip edge. */
  datatype Edge = Edge(from: Point, to: Point)

  /** The edges the outer loop visits from `c0` over the points `cs`. */
  function Chain(c0: Point, cs: seq<Point>): seq<Edge>
    decreases |cs|
  {
    if cs == [] then [] else [Edge(c0, cs[0])] + Chain(cs[0], cs[1..])
  }

  /** One edge per clip point; edge `i` ends at `cs[i]` and starts at the point
      before it, the first one at `c0`. */
  lemma {:induction false} ChainShape(c0: Point, cs: seq<Point>)
    ensures |Chain(c0, cs)| == |cs|
    ensures forall i :: 0 <= i < |cs| ==> Chain(c0, cs)[i] == Edge(if i == 0 then c0 else cs[i - 1], cs[i])
    decreases |cs|
  {
    if cs != [] {
      ChainShape(cs[0], cs[1..]);
    }
  }

  /** Clipping against a list of edges, one pass per edge in order. */
  function ClipEdges(poly: seq<Point>, es: seq<Edge>): seq<Point>
    decreases |es|
  {
    if es == [] then poly else ClipEdges(ClipEdge(poly, es[0].from, es[0].to), es[1..])
  }

  lemma {:induction false} ClipAllFollowsChain(poly: seq<Point>, c0: Point, cs: seq<Point>)
    ensures ClipAll(poly, c0, cs) == ClipEdges(poly, Chain(c0, cs))
    decreases |cs|
  {
    if cs != [] {
      ClipAllFollowsChain(ClipEdge(poly, c0, cs[0]), cs[0], cs[1..]);
      assert Chain(c0, cs)[1..] == Chain(cs[0], cs[1..]);
    }
  }

  /** The edges wrap around: the clipper makes one pass per clip point, edge `i`
      ending at clip point `i`, the first edge starting at the last clip point. */
  lemma ClipWrapsAround(subject: seq<Point>, clip: seq<Point>)
    requires clip != []
    ensures var es := Chain(clip[|clip| - 1], clip);
      && Clip(subject, clip) == Some(ClipEdges(subject, es))
      && |es| == |clip|
      && es[0] == Edge(clip[|clip| - 1], clip[0])
      && forall i :: 0 < i < |clip| ==> es[i] == Edge(clip[i - 1], clip[i])
  {
    ClipAllFollowsChain(subject, clip[|clip| - 1], clip);
    ChainShape(clip[|clip| - 1], clip);
  }

  /** Once the clipped polygon is empty, every remaining pass leaves it empty. */
  lemma {:induction false} EmptyStaysEmpty(c0: Point, cs: seq<Point>)
    ensures ClipAll([], c0, cs) == []
    decreases |cs|
  {
    if cs != [] {
      EmptyStaysEmpty(cs[0], cs[1..]);
    }
  }

  /** A subject whose points are all inside every clip edge comes back unchanged. */
  lemma {:induction false} ClipEdgesAllInside(poly: seq<Point>, es: seq<Edge>)
    requires forall k :: 0 <= k < |es| ==> AllInside(poly, es[k].from, es[k].to)
    ensures ClipEdges(poly, es) == poly
    decreases |es|
  {
    if es != [] {
      ClipEdgeAllInside(poly, es[0].from, es[0].to);
      ClipEdgesAllInside(poly, es[1..]);
    }
  }

  /** `n` doubled `k` times, that is n * 2^k. */
  function Doubled(k: nat, n: nat): nat {
    if k == 0 then n else 2 * Doubled(k - 1, n)
  }

  lemma {:induction false} DoubledMonotone(k: nat, a: nat, b: nat)
    requires a <= b
    ensures Doubled(k, a) <= Doubled(k, b)
  {
    if k > 0 {
      DoubledMonotone(k - 1, a, b);
    }
  }

  lemma {:induction false} DoubledTwice(k: nat, n: nat)
    ensures Doubled(k, 2 * n) == Doubled(k + 1, n)
  {
    if k > 0 {
      DoubledTwice(k - 1, n);
    }
  }

  /** After `k` passes the polygon has at most n * 2^k points, `n` being the
      subject's point count. */
  lemma {:induction false} ClipEdgesLength(poly: seq<Point>, es: seq<Edge>)
    ensures |ClipEdges(poly, es)| <= Doubled(|es|, |poly|)
    decreases |es|
  {
    if es != [] {
      var next := ClipEdge(poly, es[0].from, es[0].to);
      ClipEdgeLength(poly, es[0].from, es[0].to);
      ClipEdgesLength(next, es[1..]);
      DoubledMonotone(|es| - 1, |next|, 2 * |poly|);
      DoubledTwice(|es| - 1, |poly|);
    }
  }
}
