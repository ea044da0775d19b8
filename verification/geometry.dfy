/**
 Points of the plane and the segment-intersection solver shared by the
 Greiner-Hormann and Weiler-Atherton clippers. The source computes in
 floating point; here coordinates are reals, so `den == 0` and the tests
 against [0, 1] are exact.
 */
module Geometry {
  import opened Options

  /** A point (x, y). */
  datatype Point = Point(x: real, y: real)

  /** A crossing of a subject segment with a clip segment: the crossing point and
      its parameter along each of the two segments. */
  datatype Crossing = Crossing(p: Point, alphaS: real, alphaC: real)

  /** The point a fraction `t` of the way from `a` to `b`. */
  function Lerp(a: Point, b: Point, t: real): Point {
    Point(a.x + t * (b.x - a.x), a.y + t * (b.y - a.y))
  }

  /** Whether `t` lies in the closed unit interval. */
  predicate InUnit(t: real) {
    0.0 <= t <= 1.0
  }

  /** Determinant of the 2x2 system; zero exactly when the segments are parallel or collinear. */
  function Den(s0: Point, s1: Point, c0: Point, c1: Point): real {
    (c1.y - c0.y) * (s1.x - s0.x) - (c1.x - c0.x) * (s1.y - s0.y)
  }

  /** Parameter of the crossing along the subject segment s0-s1. */
  function AlphaS(s0: Point, s1: Point, c0: Point, c1: Point): real
    requires Den(s0, s1, c0, c1) != 0.0
  {
    ((c1.x - c0.x) * (s0.y - c0.y) - (c1.y - c0.y) * (s0.x - c0.x)) / Den(s0, s1, c0, c1)
  }

  /** Parameter of the crossing along the clip segment c0-c1. */
  function AlphaC(s0: Point, s1: Point, c0: Point, c1: Point): real
    requires Den(s0, s1, c0, c1) != 0.0
  {
    ((s1.x - s0.x) * (s0.y - c0.y) - (s1.y - s0.y) * (s0.x - c0.x)) / Den(s0, s1, c0, c1)
  }

  /** Crossing of segment s0-s1 with segment c0-c1. Parallel and collinear
      segments never cross; touching at an endpoint counts. */
  function Intersect(s0: Point, s1: Point, c0: Point, c1: Point): (r: Option<Crossing>)
    ensures r.None? <==>
      Den(s0, s1, c0, c1) == 0.0
      || !InUnit(AlphaS(s0, s1, c0, c1))
      || !InUnit(AlphaC(s0, s1, c0, c1))
    ensures r.Some? ==>
      && InUnit(r.value.alphaS) && InUnit(r.value.alphaC)
      && r.value.p == Lerp(s0, s1, r.value.alphaS)
  {
    if Den(s0, s1, c0, c1) == 0.0 then None
    else
      var alphaS := AlphaS(s0, s1, c0, c1);
      var alphaC := AlphaC(s0, s1, c0, c1);
      if InUnit(alphaS) && InUnit(alphaC) then Some(Crossing(Lerp(s0, s1, alphaS), alphaS, alphaC))
      else None
  }

  /** Multiplying the subject parameter back by the determinant. */
  lemma AlphaSTimesDen(s0: Point, s1: Point, c0: Point, c1: Point)
    requires Den(s0, s1, c0, c1) != 0.0
    ensures AlphaS(s0, s1, c0, c1) * Den(s0, s1, c0, c1)
      == (c1.x - c0.x) * (s0.y - c0.y) - (c1.y - c0.y) * (s0.x - c0.x)
  {
  }

  /** Multiplying the clip parameter back by the determinant. */
  lemma AlphaCTimesDen(s0: Point, s1: Point, c0: Point, c1: Point)
    requires Den(s0, s1, c0, c1) != 0.0
    ensures AlphaC(s0, s1, c0, c1) * Den(s0, s1, c0, c1)
      == (s1.x - s0.x) * (s0.y - c0.y) - (s1.y - s0.y) * (s0.x - c0.x)
  {
  }

  /** A real that vanishes when multiplied by a nonzero real is zero. */
  lemma ZeroFactor(d: real, e: real)
    requires d != 0.0 && d * e == 0.0
    ensures e == 0.0
  {
  }

  /** The polynomial identity behind the solver: with `a * den` and `b * den`
      as Cramer's rule gives them, both residuals times `den` vanish. */
  lemma CramerResidual(dx: real, dy: real, sdx: real, sdy: real, cdx: real, cdy: real, a: real, b: real)
    requires a * (cdy * sdx - cdx * sdy) == cdx * dy - cdy * dx
    requires b * (cdy * sdx - cdx * sdy) == sdx * dy - sdy * dx
    ensures (cdy * sdx - cdx * sdy) * (dx + a * sdx - b * cdx) == 0.0
    ensures (cdy * sdx - cdx * sdy) * (dy + a * sdy - b * cdy) == 0.0
  {
    var den := cdy * sdx - cdx * sdy;
    calc {
      den * (dx + a * sdx - b * cdx);
      den * dx + (a * den) * sdx - (b * den) * cdx;
      den * dx + (cdx * dy - cdy * dx) * sdx - (sdx * dy - sdy * dx) * cdx;
      0.0;
    }
    calc {
      den * (dy + a * sdy - b * cdy);
      den * dy + (a * den) * sdy - (b * den) * cdy;
      den * dy + (cdx * dy - cdy * dx) * sdy - (sdx * dy - sdy * dx) * cdy;
      0.0;
    }
  }

  /** The converse identity: residuals zero force Cramer's values. */
  lemma CramerSolution(dx: real, dy: real, sdx: real, sdy: real, cdx: real, cdy: real, a: real, b: real)
    requires dx + a * sdx - b * cdx == 0.0
    requires dy + a * sdy - b * cdy == 0.0
    ensures a * (cdy * sdx - cdx * sdy) == cdx * dy - cdy * dx
    ensures b * (cdy * sdx - cdx * sdy) == sdx * dy - sdy * dx
  {
    calc {
      a * (cdy * sdx - cdx * sdy) - (cdx * dy - cdy * dx);
      cdy * (dx + a * sdx - b * cdx) - cdx * (dy + a * sdy - b * cdy);
      0.0;
    }
    calc {
      b * (cdy * sdx - cdx * sdy) - (sdx * dy - sdy * dx);
      sdy * (dx + a * sdx - b * cdx) - sdx * (dy + a * sdy - b * cdy);
      0.0;
    }
  }

  /** The reported crossing point lies on both segments: it is reached from the
      clip segment's start with the reported clip parameter as well. */
  lemma IntersectOnBothSegments(s0: Point, s1: Point, c0: Point, c1: Point)
    requires Intersect(s0, s1, c0, c1).Some?
    ensures var h := Intersect(s0, s1, c0, c1).value;
      h.p == Lerp(s0, s1, h.alphaS) && h.p == Lerp(c0, c1, h.alphaC)
  {
    var h := Intersect(s0, s1, c0, c1).value;
    var sdx, sdy, cdx, cdy := s1.x - s0.x, s1.y - s0.y, c1.x - c0.x, c1.y - c0.y;
    var dx, dy := s0.x - c0.x, s0.y - c0.y;
    AlphaSTimesDen(s0, s1, c0, c1);
    AlphaCTimesDen(s0, s1, c0, c1);
    CramerResidual(dx, dy, sdx, sdy, cdx, cdy, h.alphaS, h.alphaC);
    ZeroFactor(Den(s0, s1, c0, c1), dx + h.alphaS * sdx - h.alphaC * cdx);
    ZeroFactor(Den(s0, s1, c0, c1), dy + h.alphaS * sdy - h.alphaC * cdy);
  }

  /** Conversely, whenever two non-parallel segments meet at parameters `a` and `b`
      in [0, 1], the solver reports exactly that crossing. */
  lemma IntersectComplete(s0: Point, s1: Point, c0: Point, c1: Point, a: real, b: real)
    requires Den(s0, s1, c0, c1) != 0.0
    requires InUnit(a) && InUnit(b)
    requires Lerp(s0, s1, a) == Lerp(c0, c1, b)
    ensures Intersect(s0, s1, c0, c1) == Some(Crossing(Lerp(s0, s1, a), a, b))
  {
    var sdx, sdy, cdx, cdy := s1.x - s0.x, s1.y - s0.y, c1.x - c0.x, c1.y - c0.y;
    var dx, dy := s0.x - c0.x, s0.y - c0.y;
    CramerSolution(dx, dy, sdx, sdy, cdx, cdy, a, b);
    AlphaSTimesDen(s0, s1, c0, c1);
    AlphaCTimesDen(s0, s1, c0, c1);
    var den := Den(s0, s1, c0, c1);
    ZeroFactor(den, AlphaS(s0, s1, c0, c1) - a);
    ZeroFactor(den, AlphaC(s0, s1, c0, c1) - b);
  }
}
