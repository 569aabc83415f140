/** The exact three-point parabola used to place the next sample near an
    anticrossing minimum (fit.py). Points are (E_z, anti) pairs; arithmetic is
    exact, and every division Python would attempt by zero yields None. */
module Fit {
  import opened Basics

  /** A sample seen as a point of the fitting plane: x = E_z, y = anti. */
  datatype Point = Point(x: real, y: real)

  /** Coefficients (a, b, c) of a·u² + b·u + c, where u is measured from the middle point. */
  datatype Coeffs = Coeffs(a: real, b: real, c: real)

  /** Value at x of the parabola whose coefficients are relative to the point `mid`. */
  function Eval(k: Coeffs, mid: Point, x: real): real
  {
    var u := x - mid.x;
    k.a * (u * u) + k.b * u + k.c + mid.y
  }

  predicate DistinctX(p1: Point, p2: Point, p3: Point)
  {
    p1.x != p2.x && p2.x != p3.x && p1.x != p3.x
  }

  /** parabola: translate the three points so the middle one sits at the
      origin and solve for a, b and c. It succeeds exactly when the three
      abscissae are distinct; then c is 0 and the parabola passes through all
      three points. */
  function Parabola(p1: Point, p2: Point, p3: Point): (r: Option<Coeffs>)
    ensures r.Some? <==> DistinctX(p1, p2, p3)
    ensures r.Some? ==> r.value.c == 0.0
    ensures r.Some? ==> Eval(r.value, p2, p1.x) == p1.y
    ensures r.Some? ==> Eval(r.value, p2, p2.x) == p2.y
    ensures r.Some? ==> Eval(r.value, p2, p3.x) == p3.y
  {
    var x1, y1 := p1.x - p2.x, p1.y - p2.y;
    var x3, y3 := p3.x - p2.x, p3.y - p2.y;
    if x1 == 0.0 || x1 - x3 == 0.0 || Denominator(x1, x3) == 0.0 then None
    else
      var k := Solve(x1, y1, x3, y3);
      SolvedPassesThrough(k, p2, p1);
      SolvedPassesThrough(k, p2, p3);
      SolvedPassesThrough(k, p2, p2);
      Some(k)
  }

  /** Coefficients that fit a point relative to `mid` make Eval pass through it. */
  lemma SolvedPassesThrough(k: Coeffs, mid: Point, p: Point)
    requires k.c == 0.0
    requires p.x == mid.x || k.a * ((p.x - mid.x) * (p.x - mid.x)) + k.b * (p.x - mid.x) == p.y - mid.y
    requires p.x == mid.x ==> p.y == mid.y
    ensures Eval(k, mid, p.x) == p.y
  {
    if p.x == mid.x {
      assert p.x - mid.x == 0.0;
    }
  }

  /** The denominator of a in fit.py:31; it simplifies to −x3. */
  function Denominator(x1: real, x3: real): (r: real)
    requires x1 != 0.0 && x1 != x3
    ensures r == -x3
  {
    DenominatorIsMinusX3(x1, x3);
    x1 * x1 / x1 - (x1 * x1 - x3 * x3) / (x1 - x3)
  }

  /** Coefficients through (0, 0), (x1, y1) and (x3, y3), computed as fit.py:31-33 does. */
  function Solve(x1: real, y1: real, x3: real, y3: real): (r: Coeffs)
    requires x1 != 0.0 && x3 != 0.0 && x1 != x3
    ensures r.c == 0.0
    ensures r.a * (x1 * x1) + r.b * x1 == y1 && r.a * (x3 * x3) + r.b * x3 == y3
  {
    var d := Denominator(x1, x3);
    var a := (y1 / x1 - (y1 - y3) / (x1 - x3)) / d;
    var b := (y1 - a * (x1 * x1)) / x1;
    ThroughThirdPoint(x1, y1, x3, y3, a, b);
    Coeffs(a, b, y1 - a * (x1 * x1) - b * x1)
  }

  lemma DenominatorIsMinusX3(x1: real, x3: real)
    requires x1 != 0.0 && x1 != x3
    ensures x1 * x1 / x1 - (x1 * x1 - x3 * x3) / (x1 - x3) == -x3
  {
    assert x1 * x1 / x1 == x1;
    assert x1 * x1 - x3 * x3 == (x1 + x3) * (x1 - x3);
    assert (x1 * x1 - x3 * x3) / (x1 - x3) == x1 + x3;
  }

  lemma ThroughThirdPoint(x1: real, y1: real, x3: real, y3: real, a: real, b: real)
    requires x1 != 0.0 && x3 != 0.0 && x1 != x3
    requires a == (y1 / x1 - (y1 - y3) / (x1 - x3)) / (-x3)
    requires b == (y1 - a * (x1 * x1)) / x1
    ensures y1 - a * (x1 * x1) - b * x1 == 0.0
    ensures a * (x1 * x1) + b * x1 == y1
    ensures a * (x3 * x3) + b * x3 == y3
  {
    var q := y1 / x1;
    var s := (y1 - y3) / (x1 - x3);
    assert q * x1 == y1;
    assert s * (x1 - x3) == y1 - y3;
    assert a * x3 == s - q;
    assert b * x1 == y1 - a * (x1 * x1);
    assert b == q - a * x1;
    calc {
      a * (x3 * x3) + b * x3;
      (a * x3) * (x3 - x1) + q * x3;
      (s - q) * (x3 - x1) + q * x3;
      q * x1 - s * (x1 - x3);
      y3;
    }
  }

  /** para_min: the abscissa of the vertex, B.E_z − b/(2a); None where a is
      0 or the points do not determine a parabola. The slope of the parabola
      is zero there. */
  function ParaMin(p1: Point, p2: Point, p3: Point): (r: Option<real>)
    ensures r.Some? <==> Parabola(p1, p2, p3).Some? && Parabola(p1, p2, p3).value.a != 0.0
    ensures r.Some? ==> var k := Parabola(p1, p2, p3).value;
      2.0 * k.a * (r.value - p2.x) + k.b == 0.0
  {
    match Parabola(p1, p2, p3)
    case None => None
    case Some(k) =>
      if k.a == 0.0 then None
      else
        var m := -0.5 * k.b / k.a;
        assert 2.0 * k.a * m == -k.b;
        Some(m + p2.x)
  }

  /** Two points with distinct non-zero abscissae determine a·u² + b·u. */
  lemma CoefficientsUnique(a: real, b: real, alpha: real, beta: real, u1: real, u3: real)
    requires u1 != 0.0 && u3 != 0.0 && u1 != u3
    requires a * (u1 * u1) + b * u1 == alpha * (u1 * u1) + beta * u1
    requires a * (u3 * u3) + b * u3 == alpha * (u3 * u3) + beta * u3
    ensures a == alpha && b == beta
  {
    var da, db := a - alpha, b - beta;
    assert (da * u1 + db) * u1 == 0.0;
    assert da * u1 + db == 0.0;
    assert (da * u3 + db) * u3 == 0.0;
    assert da * u3 + db == 0.0;
    assert da * (u1 - u3) == 0.0;
  }

  /** α·(x − x0)² + γ seen from a point on it: α·u² + 2α·(x2 − x0)·u. */
  lemma Recentred(alpha: real, x0: real, gamma: real, x: real, y: real, x2: real, y2: real)
    requires y == alpha * ((x - x0) * (x - x0)) + gamma
    requires y2 == alpha * ((x2 - x0) * (x2 - x0)) + gamma
    ensures y - y2 == alpha * ((x - x2) * (x - x2)) + 2.0 * alpha * (x2 - x0) * (x - x2)
  {
    var u, d := x - x2, x2 - x0;
    assert x - x0 == u + d;
    assert (u + d) * (u + d) == u * u + 2.0 * d * u + d * d;
    assert alpha * ((u + d) * (u + d)) == alpha * (u * u) + 2.0 * alpha * d * u + alpha * (d * d);
  }

  /** A parabola through three points of α·(x − x0)² + γ, written relative
      to the middle one, has a = α and b = 2α·(x2 − x0). */
  lemma FitMatchesCurve(k: Coeffs, alpha: real, x0: real, gamma: real, p1: Point, p2: Point, p3: Point)
    requires DistinctX(p1, p2, p3)
    requires p1.y == alpha * ((p1.x - x0) * (p1.x - x0)) + gamma
    requires p2.y == alpha * ((p2.x - x0) * (p2.x - x0)) + gamma
    requires p3.y == alpha * ((p3.x - x0) * (p3.x - x0)) + gamma
    requires k.c == 0.0 && Eval(k, p2, p1.x) == p1.y && Eval(k, p2, p3.x) == p3.y
    ensures k.a == alpha && k.b == 2.0 * alpha * (p2.x - x0)
  {
    FromMiddle(k, p2, p1);
    FromMiddle(k, p2, p3);
    CurveMatch(k.a, k.b, alpha, x0, gamma, p1.x, p1.y, p2.x, p2.y, p3.x, p3.y);
  }

  /** FitMatchesCurve over plain numbers. */
  lemma CurveMatch(a: real, b: real, alpha: real, x0: real, gamma: real,
                   x1: real, y1: real, x2: real, y2: real, x3: real, y3: real)
    requires x1 != x2 && x2 != x3 && x1 != x3
    requires y1 == alpha * ((x1 - x0) * (x1 - x0)) + gamma
    requires y2 == alpha * ((x2 - x0) * (x2 - x0)) + gamma
    requires y3 == alpha * ((x3 - x0) * (x3 - x0)) + gamma
    requires a * ((x1 - x2) * (x1 - x2)) + b * (x1 - x2) == y1 - y2
    requires a * ((x3 - x2) * (x3 - x2)) + b * (x3 - x2) == y3 - y2
    ensures a == alpha && b == 2.0 * alpha * (x2 - x0)
  {
    Recentred(alpha, x0, gamma, x1, y1, x2, y2);
    Recentred(alpha, x0, gamma, x3, y3, x2, y2);
    MatchBoth(a, b, alpha, 2.0 * alpha * (x2 - x0), x1 - x2, x3 - x2, y1 - y2, y3 - y2);
  }

  /** Both points fitted by a·u² + b·u and lying on α·u² + β·u. */
  lemma MatchBoth(a: real, b: real, alpha: real, beta: real, u1: real, u3: real, d1: real, d3: real)
    requires u1 != 0.0 && u3 != 0.0 && u1 != u3
    requires a * (u1 * u1) + b * u1 == d1 && d1 == alpha * (u1 * u1) + beta * u1
    requires a * (u3 * u3) + b * u3 == d3 && d3 == alpha * (u3 * u3) + beta * u3
    ensures a == alpha && b == beta
  {
    CoefficientsUnique(a, b, alpha, beta, u1, u3);
  }

  /** A point the parabola passes through, relative to the middle point. */
  lemma FromMiddle(k: Coeffs, mid: Point, p: Point)
    requires k.c == 0.0 && Eval(k, mid, p.x) == p.y
    ensures k.a * ((p.x - mid.x) * (p.x - mid.x)) + k.b * (p.x - mid.x) == p.y - mid.y
  {
  }

  lemma VertexOffset(alpha: real, d: real)
    requires alpha != 0.0
    ensures -0.5 * (2.0 * alpha * d) / alpha == -d
  {
    assert -0.5 * (2.0 * alpha * d) == -d * alpha;
  }

  /** Three distinct points on α·(x − x0)² + γ with α ≠ 0 give back x0 exactly. */
  lemma ParaMinRecoversVertex(alpha: real, x0: real, gamma: real, p1: Point, p2: Point, p3: Point)
    requires alpha != 0.0 && DistinctX(p1, p2, p3)
    requires p1.y == alpha * ((p1.x - x0) * (p1.x - x0)) + gamma
    requires p2.y == alpha * ((p2.x - x0) * (p2.x - x0)) + gamma
    requires p3.y == alpha * ((p3.x - x0) * (p3.x - x0)) + gamma
    ensures ParaMin(p1, p2, p3) == Some(x0)
  {
    var k := Parabola(p1, p2, p3).value;
    FitMatchesCurve(k, alpha, x0, gamma, p1, p2, p3);
    var d := p2.x - x0;
    VertexOffset(alpha, d);
    assert -0.5 * k.b / k.a == -d;
    assert ParaMin(p1, p2, p3) == Some(-0.5 * k.b / k.a + p2.x);
  }

  /** Seen from its vertex v (relative to mid), a·u² + b·u + c exceeds its
      vertex value by a·(x − vx)². */
  lemma EvalAboveVertex(k: Coeffs, mid: Point, vx: real, x: real)
    requires k.b == -2.0 * k.a * (vx - mid.x)
    ensures Eval(k, mid, x) - Eval(k, mid, vx) == k.a * ((x - vx) * (x - vx))
  {
    var u, v := x - mid.x, vx - mid.x;
    var d := u - v;
    assert x - vx == d;
    assert u * u == v * v + 2.0 * v * d + d * d;
    assert k.a * (u * u) == k.a * (v * v) + 2.0 * k.a * v * d + k.a * (d * d);
    assert k.b * u == k.b * v + k.b * d;
    assert k.b * d == -2.0 * k.a * v * d;
  }

  /** With a > 0 the returned abscissa minimises the fitted parabola. */
  lemma ParaMinIsMinimum(p1: Point, p2: Point, p3: Point, x: real)
    requires ParaMin(p1, p2, p3).Some? && Parabola(p1, p2, p3).value.a > 0.0
    ensures var k := Parabola(p1, p2, p3).value;
      Eval(k, p2, ParaMin(p1, p2, p3).value) <= Eval(k, p2, x)
  {
    var k := Parabola(p1, p2, p3).value;
    var vx := ParaMin(p1, p2, p3).value;
    assert 2.0 * k.a * (vx - p2.x) + k.b == 0.0;
    EvalAboveVertex(k, p2, vx, x);
    var sq := (x - vx) * (x - vx);
    assert sq >= 0.0;
    assert k.a * sq >= 0.0;
  }

  /** A triplet whose middle point is no higher than its neighbours, as the
      minimum search hands it over: a vertex exists only for a > 0, and it
      lies between the midpoints of the two halves, so strictly inside. */
  lemma CandidateVertexInside(p0: Point, p1: Point, p2: Point)
    requires p0.x < p1.x < p2.x && p1.y <= p0.y && p1.y <= p2.y
    requires ParaMin(p0, p1, p2).Some?
    ensures Parabola(p0, p1, p2).value.a > 0.0
    ensures (p0.x + p1.x) / 2.0 <= ParaMin(p0, p1, p2).value <= (p1.x + p2.x) / 2.0
    ensures p0.x < ParaMin(p0, p1, p2).value < p2.x
  {
    var k := Parabola(p0, p1, p2).value;
    VertexInside(k, p0, p1, p2, ParaMin(p0, p1, p2).value);
  }

  /** CandidateVertexInside for given coefficients through the three points
      and the abscissa where their slope vanishes. */
  lemma VertexInside(k: Coeffs, p0: Point, p1: Point, p2: Point, v: real)
    requires p0.x < p1.x < p2.x && p1.y <= p0.y && p1.y <= p2.y
    requires k.c == 0.0 && k.a != 0.0 && Eval(k, p1, p0.x) == p0.y && Eval(k, p1, p2.x) == p2.y
    requires 2.0 * k.a * (v - p1.x) + k.b == 0.0
    ensures k.a > 0.0 && (p0.x + p1.x) / 2.0 <= v <= (p1.x + p2.x) / 2.0
  {
    VertexBetween(k.a, k.b, p0.x - p1.x, p2.x - p1.x, v - p1.x);
  }

  /** The algebra of CandidateVertexInside, relative to the middle point:
      a·u² + b·u is not negative at u1 < 0 and at u3 > 0, and m is where
      the slope 2a·m + b vanishes. */
  lemma VertexBetween(a: real, b: real, u1: real, u3: real, m: real)
    requires u1 < 0.0 < u3 && a != 0.0 && 2.0 * a * m + b == 0.0
    requires a * (u1 * u1) + b * u1 >= 0.0 && a * (u3 * u3) + b * u3 >= 0.0
    ensures a > 0.0 && u1 / 2.0 <= m <= u3 / 2.0
  {
    var s1, s3 := a * u1 + b, a * u3 + b;
    assert s1 * u1 >= 0.0;
    assert s3 * u3 >= 0.0;
    NonNegativeProduct(s1, -u1);
    NonNegativeProduct(s3, u3);
    assert s3 - s1 == a * (u3 - u1);
    NonNegativeProduct(a, u3 - u1);
    assert (u1 - 2.0 * m) * a == s1;
    assert (u3 - 2.0 * m) * a == s3;
    NonNegativeProduct(u1 - 2.0 * m, a);
    NonNegativeProduct(u3 - 2.0 * m, a);
  }

  /** The sign of a factor from the sign of a product and of the other factor. */
  lemma NonNegativeProduct(x: real, y: real)
    requires y > 0.0
    ensures x * y >= 0.0 ==> x >= 0.0
    ensures x * y <= 0.0 ==> x <= 0.0
  {
    if x < 0.0 {
      assert x * y < 0.0;
    } else if x > 0.0 {
      assert x * y > 0.0;
    }
  }
}
