/** The group of a curve y^2 = x^3 + ax + b over GF(p), in affine coordinates:
    the chord-and-tangent law that ec.c computes in Jacobian coordinates. */
module AffineCurve {
  import opened Field

  /** Domain parameters.  `inv` is the modular inversion of the big-integer
      library; that it inverts every nonzero residue makes p a prime. */
  datatype Curve = Curve(p: int, a: int, b: int, inv: int -> int)
  {
    ghost predicate Valid() {
      && p > 2 && 0 <= a < p && 0 <= b < p
      && forall u {:trigger inv(u)} :: 0 < u < p ==> 0 <= inv(u) < p && Mod(u * inv(u), p) == 1
    }
  }

  datatype Affine = Infinity | Point(x: int, y: int)

  ghost predicate Canonical(c: Curve, P: Affine)
  {
    P.Point? ==> 0 <= P.x < c.p && 0 <= P.y < c.p
  }

  // x^3 + ax + b - y^2
  function Residual(c: Curve, x: int, y: int): int {
    x * x * x + c.a * x + c.b - y * y
  }

  ghost predicate OnCurve(c: Curve, P: Affine)
    requires c.Valid()
  {
    Canonical(c, P) && (P.Point? ==> Cong(Residual(c, P.x, P.y), 0, c.p))
  }

  // ------------------------------------------------------------------
  // GF(p) has inverses, so no zero divisors

  ghost function Inverse(c: Curve, u: int): (v: int)
    requires c.Valid() && !Cong(u, 0, c.p)
    ensures 0 <= v < c.p
    ensures Cong(u * v, 1, c.p)
  {
    var m := Mod(u, c.p);
    var v := c.inv(m);
    MulCong(u, m, v, v, c.p);
    v
  }

  lemma Cancel(c: Curve, u: int, v: int, w: int)
    requires c.Valid() && !Cong(u, 0, c.p) && Cong(u * v, u * w, c.p)
    ensures Cong(v, w, c.p)
  {
    var i := Inverse(c, u);
    CancelIdentity(u, v, w, i);
    By2(v, w, w - v, u * i, 1, i, u * v, u * w, c.p);
  }

  lemma CancelIdentity(u: int, v: int, w: int, i: int)
    ensures v == w + (w - v) * (u * i - 1) + i * (u * v - u * w)
  {
  }

  lemma NonZero(c: Curve, u: int, v: int)
    requires c.Valid() && !Cong(u, 0, c.p) && !Cong(v, 0, c.p)
    ensures !Cong(u * v, 0, c.p)
  {
    if Cong(u * v, 0, c.p) {
      assert u * 0 == 0;
      Cancel(c, u, v, 0);
    }
  }

  lemma TwoIsNonZero(c: Curve)
    requires c.Valid()
    ensures !Cong(2, 0, c.p)
  {
  }

  // Congruent residues are equal.
  lemma Same(c: Curve, u: int, v: int)
    requires c.Valid() && 0 <= u < c.p && 0 <= v < c.p && Cong(u, v, c.p)
    ensures u == v
  {
  }

  // ------------------------------------------------------------------
  // The law

  lemma QuotIdentity(n: int, v: int, d: int)
    ensures n * v * d == n + n * (d * v - 1)
  {
  }

  // Division of a residue by a nonzero one.
  ghost function Quot(c: Curve, n: int, d: int): (l: int)
    requires c.Valid() && !Cong(d, 0, c.p)
    ensures 0 <= l < c.p
    ensures Cong(l * d, n, c.p)
  {
    var v := Inverse(c, d);
    var l := Mod(n * v, c.p);
    MulCong(l, n * v, d, d, c.p);
    QuotIdentity(n, v, d);
    By(n * v * d, n, n, d * v, 1, c.p);
    l
  }

  // The third point on the line with slope l through two points, reflected.
  ghost function ThirdPoint(c: Curve, l: int, x1: int, x2: int, y1: int): (R: Affine)
    requires c.Valid()
    ensures R.Point? && Canonical(c, R)
  {
    var x3 := Mod(l * l - x1 - x2, c.p);
    Point(x3, Mod(l * (x1 - x3) - y1, c.p))
  }

  lemma DistinctAbscissae(c: Curve, u: int, v: int)
    requires c.Valid() && 0 <= u < c.p && 0 <= v < c.p && u != v
    ensures !Cong(u - v, 0, c.p)
  {
    if Cong(u - v, 0, c.p) {
      By(u, v, 1, u - v, 0, c.p);
    }
  }

  lemma TwoY(c: Curve, y: int)
    requires c.Valid() && 0 < y < c.p
    ensures !Cong(2 * y, 0, c.p)
  {
    TwoIsNonZero(c);
    NonZero(c, 2, y);
  }

  ghost function Double(c: Curve, P: Affine): (R: Affine)
    requires c.Valid() && Canonical(c, P)
    ensures Canonical(c, R)
  {
    if P.Infinity? || P.y == 0 then Infinity
    else
      TwoY(c, P.y);
      ThirdPoint(c, Quot(c, 3 * P.x * P.x + c.a, 2 * P.y), P.x, P.x, P.y)
  }

  ghost function Add(c: Curve, P: Affine, Q: Affine): (R: Affine)
    requires c.Valid() && Canonical(c, P) && Canonical(c, Q)
    ensures Canonical(c, R)
  {
    if P.Infinity? then Q
    else if Q.Infinity? then P
    else if P.x == Q.x then (if P.y == Q.y then Double(c, P) else Infinity)
    else
      DistinctAbscissae(c, P.x, Q.x);
      ThirdPoint(c, Quot(c, P.y - Q.y, P.x - Q.x), P.x, Q.x, P.y)
  }

  ghost function Neg(c: Curve, P: Affine): (R: Affine)
    requires c.Valid() && Canonical(c, P)
    ensures Canonical(c, R)
  {
    if P.Infinity? then P else Point(P.x, Mod(-P.y, c.p))
  }

  // ------------------------------------------------------------------
  // The law stays on the curve

  // With l^2 the sum of the roots, the cubic minus the squared line has the
  // form m*x + n - x^2*(the other two roots).
  lemma GapIdentity(a: int, b: int, l: int, x1: int, y1: int, x: int, u: int, w: int)
    requires l * l == x + u + w
    ensures x * x * x + a * x + b - (l * (x - x1) + y1) * (l * (x - x1) + y1) ==
      (a - 2 * l * (y1 - l * x1)) * x + (b - (y1 - l * x1) * (y1 - l * x1)) - u * x * x - w * x * x
  {
    assert (l * (x - x1) + y1) * (l * (x - x1) + y1) ==
      l * l * x * x + 2 * l * (y1 - l * x1) * x + (y1 - l * x1) * (y1 - l * x1);
    assert l * l * x * x == (x + u + w) * x * x;
    assert (x + u + w) * x * x == x * x * x + u * x * x + w * x * x;
  }

  // So its values at the three roots are linearly dependent.
  lemma ChordIdentity(m: int, n: int, x1: int, x2: int, x3: int)
    ensures (x1 - x2) * (m * x3 + n - x1 * x3 * x3 - x2 * x3 * x3) ==
      (x3 - x2) * (m * x1 + n - x2 * x1 * x1 - x3 * x1 * x1) - (x3 - x1) * (m * x2 + n - x1 * x2 * x2 - x3 * x2 * x2)
  {
  }

  lemma TangentIdentity(m: int, n: int, x1: int, x3: int)
    ensures m * x3 + n - x1 * x3 * x3 - x1 * x3 * x3 ==
      (m * x1 + n - x1 * x1 * x1 - x3 * x1 * x1) + (x3 - x1) * (m - x1 * x1 - 2 * x1 * x3)
  {
  }

  lemma SlopeIdentity(a: int, l: int, x1: int, y1: int, x3: int)
    requires l * l == x1 + x1 + x3
    ensures (a - 2 * l * (y1 - l * x1)) - x1 * x1 - 2 * x1 * x3 == 3 * x1 * x1 + a - l * (2 * y1)
  {
    assert 2 * l * (y1 - l * x1) == 2 * l * y1 - 2 * (l * l) * x1;
    assert (l * l) * x1 == x1 * x1 + x1 * x1 + x3 * x1;
  }

  lemma ResidualCong(c: Curve, x: int, y: int, u: int, v: int)
    requires c.Valid() && Cong(x, u, c.p) && Cong(y, v, c.p)
    ensures Cong(Residual(c, x, y), Residual(c, u, v), c.p)
  {
    MulCong(x, u, x, u, c.p);
    MulCong(x * x, u * u, x, u, c.p);
    MulCong(c.a, c.a, x, u, c.p);
    MulCong(y, v, y, v, c.p);
    AddCong(x * x * x, u * u * u, c.a * x, c.a * u, c.p);
    AddCong(c.b, c.b, y * y, v * v, c.p);
    AddCong(x * x * x + c.a * x, u * u * u + c.a * u, c.b - y * y, c.b - v * v, c.p);
  }

  // The sign of the ordinate does not matter.
  lemma ResidualNeg(c: Curve, x: int, y: int)
    ensures Residual(c, x, -y) == Residual(c, x, y)
  {
  }

  // The reflected third point lies on the curve if its reflection does.
  lemma ThirdPointOnCurve(c: Curve, l: int, x1: int, x2: int, y1: int)
    requires c.Valid()
    requires var x3 := l * l - x1 - x2; Cong(Residual(c, x3, l * (x3 - x1) + y1), 0, c.p)
    ensures OnCurve(c, ThirdPoint(c, l, x1, x2, y1))
  {
    var x3 := l * l - x1 - x2;
    var y3 := l * (x3 - x1) + y1;
    var R := ThirdPoint(c, l, x1, x2, y1);
    AddCong(x1, x1, R.x, x3, c.p);
    MulCong(l, l, x1 - R.x, x1 - x3, c.p);
    AddCong(l * (x1 - R.x), l * (x1 - x3), y1, y1, c.p);
    assert l * (x1 - x3) - y1 == -y3;
    Trans(R.y, l * (x1 - R.x) - y1, -y3, c.p);
    ResidualCong(c, R.x, R.y, x3, -y3);
    ResidualNeg(c, x3, y3);
  }

  // The line with slope l through (x1, y1), at abscissa x.
  function Line(l: int, x1: int, y1: int, x: int): int {
    l * (x - x1) + y1
  }

  lemma LineStart(l: int, x1: int, y1: int)
    ensures Line(l, x1, y1, x1) == y1
  {
  }

  lemma LineMeets(c: Curve, l: int, x1: int, y1: int, x2: int, y2: int)
    requires c.Valid() && Cong(l * (x1 - x2), y1 - y2, c.p)
    ensures Cong(Line(l, x1, y1, x2), y2, c.p)
  {
    assert l * (x2 - x1) == -(l * (x1 - x2));
    By(Line(l, x1, y1, x2), y2, -1, l * (x1 - x2), y1 - y2, c.p);
  }

  lemma Gap(c: Curve, l: int, x1: int, y1: int, m: int, n: int, x: int, u: int, w: int)
    requires l * l == x + u + w
    requires m == c.a - 2 * l * (y1 - l * x1) && n == c.b - (y1 - l * x1) * (y1 - l * x1)
    ensures Residual(c, x, Line(l, x1, y1, x)) == m * x + n - u * x * x - w * x * x
  {
    GapIdentity(c.a, c.b, l, x1, y1, x, u, w);
  }

  // A line that meets the curve at two abscissae meets it at the third.
  lemma ThirdRoot(c: Curve, l: int, x1: int, y1: int, x2: int, x3: int)
    requires c.Valid() && x3 == l * l - x1 - x2
    requires Cong(Residual(c, x1, Line(l, x1, y1, x1)), 0, c.p)
    requires Cong(Residual(c, x2, Line(l, x1, y1, x2)), 0, c.p)
    requires !Cong(x1 - x2, 0, c.p)
    ensures Cong(Residual(c, x3, Line(l, x1, y1, x3)), 0, c.p)
  {
    var m, n := c.a - 2 * l * (y1 - l * x1), c.b - (y1 - l * x1) * (y1 - l * x1);
    Gap(c, l, x1, y1, m, n, x1, x2, x3);
    Gap(c, l, x1, y1, m, n, x2, x1, x3);
    Gap(c, l, x1, y1, m, n, x3, x1, x2);
    ChordIdentity(m, n, x1, x2, x3);
    FromChord(c, x1 - x2, x3 - x2, x3 - x1, Residual(c, x1, Line(l, x1, y1, x1)),
              Residual(c, x2, Line(l, x1, y1, x2)), Residual(c, x3, Line(l, x1, y1, x3)));
  }

  lemma FromChord(c: Curve, d: int, e: int, f: int, g1: int, g2: int, g3: int)
    requires c.Valid() && !Cong(d, 0, c.p) && Cong(g1, 0, c.p) && Cong(g2, 0, c.p)
    requires d * g3 == e * g1 - f * g2
    ensures Cong(g3, 0, c.p)
  {
    assert d * 0 == 0;
    By2(d * g3, 0, e, g1, 0, -f, g2, 0, c.p);
    Cancel(c, d, g3, 0);
  }

  // And a tangent meets it at the point besides the double root.
  lemma TangentRoot(c: Curve, l: int, x1: int, y1: int, x3: int)
    requires c.Valid() && x3 == l * l - x1 - x1
    requires Cong(Residual(c, x1, Line(l, x1, y1, x1)), 0, c.p)
    requires Cong(l * (2 * y1), 3 * x1 * x1 + c.a, c.p)
    ensures Cong(Residual(c, x3, Line(l, x1, y1, x3)), 0, c.p)
  {
    var m, n := c.a - 2 * l * (y1 - l * x1), c.b - (y1 - l * x1) * (y1 - l * x1);
    Gap(c, l, x1, y1, m, n, x1, x1, x3);
    Gap(c, l, x1, y1, m, n, x3, x1, x1);
    TangentIdentity(m, n, x1, x3);
    SlopeIdentity(c.a, l, x1, y1, x3);
    FromTangent(c, x3 - x1, Residual(c, x1, Line(l, x1, y1, x1)), 3 * x1 * x1 + c.a, l * (2 * y1),
                Residual(c, x3, Line(l, x1, y1, x3)));
  }

  lemma FromTangent(c: Curve, d: int, g1: int, s: int, t: int, g3: int)
    requires c.Valid() && Cong(g1, 0, c.p) && Cong(t, s, c.p)
    requires g3 == g1 + d * (s - t)
    ensures Cong(g3, 0, c.p)
  {
    By2(g3, 0, 1, g1, 0, -d, t, s, c.p);
  }

  lemma ChordOnCurve(c: Curve, P: Affine, Q: Affine)
    requires c.Valid() && OnCurve(c, P) && OnCurve(c, Q)
    requires P.Point? && Q.Point? && P.x != Q.x
    ensures OnCurve(c, Add(c, P, Q))
  {
    DistinctAbscissae(c, P.x, Q.x);
    var l := Quot(c, P.y - Q.y, P.x - Q.x);
    LineStart(l, P.x, P.y);
    LineMeets(c, l, P.x, P.y, Q.x, Q.y);
    ResidualCong(c, Q.x, Line(l, P.x, P.y, Q.x), Q.x, Q.y);
    ThirdRoot(c, l, P.x, P.y, Q.x, l * l - P.x - Q.x);
    ThirdPointOnCurve(c, l, P.x, Q.x, P.y);
  }

  lemma TangentOnCurve(c: Curve, P: Affine)
    requires c.Valid() && OnCurve(c, P) && P.Point? && P.y != 0
    ensures OnCurve(c, Double(c, P))
  {
    TwoY(c, P.y);
    var l := Quot(c, 3 * P.x * P.x + c.a, 2 * P.y);
    LineStart(l, P.x, P.y);
    TangentRoot(c, l, P.x, P.y, l * l - P.x - P.x);
    ThirdPointOnCurve(c, l, P.x, P.x, P.y);
  }

  /** The sum of two points of the curve is a point of the curve. */
  lemma AddOnCurve(c: Curve, P: Affine, Q: Affine)
    requires c.Valid() && OnCurve(c, P) && OnCurve(c, Q)
    ensures OnCurve(c, Add(c, P, Q))
  {
    if P.Point? && Q.Point? {
      if P.x != Q.x {
        ChordOnCurve(c, P, Q);
      } else if P == Q && P.y != 0 {
        TangentOnCurve(c, P);
      }
    }
  }

  lemma NegOnCurve(c: Curve, P: Affine)
    requires c.Valid() && OnCurve(c, P)
    ensures OnCurve(c, Neg(c, P))
  {
    if P.Point? {
      ResidualCong(c, P.x, Mod(-P.y, c.p), P.x, -P.y);
      ResidualNeg(c, P.x, P.y);
    }
  }

  // ------------------------------------------------------------------
  // What the law means

  function Height(l: int, k: int, x: int): int {
    l * x + k
  }

  /** The line of slope l through (0, k) meets the curve at three abscissae, counted
      as often as the cubic minus the square of the line has them as roots. */
  ghost predicate Cuts(c: Curve, l: int, k: int, x1: int, x2: int, x3: int)
    requires c.Valid()
  {
    forall x {:trigger Height(l, k, x)} :: Cong(Residual(c, x, Height(l, k, x)), (x - x1) * (x - x2) * (x - x3), c.p)
  }

  // The cubic minus the square of the line and minus the product is linear; its
  // coefficients are e and f.
  lemma Remainder(a: int, b: int, l: int, k: int, x1: int, x2: int, x3: int, x: int, e: int, f: int)
    requires x3 == l * l - x1 - x2
    requires e == a - 2 * l * k - (x1 * x2 + x1 * x3 + x2 * x3) && f == b - k * k + x1 * x2 * x3
    ensures x * x * x + a * x + b - (l * x + k) * (l * x + k) == (x - x1) * (x - x2) * (x - x3) + x * e + f
  {
    SquareOfLine(l, k, x);
    ThreeRoots(x1, x2, x3, x);
    assert l * l == x1 + x2 + x3;
    assert l * l * (x * x) == (x1 + x2 + x3) * (x * x);
    LinearPart(x, a, l, k, x1 * x2 + x1 * x3 + x2 * x3, e);
  }

  lemma SquareOfLine(l: int, k: int, x: int)
    ensures (l * x + k) * (l * x + k) == l * l * (x * x) + 2 * l * k * x + k * k
  {
  }

  lemma ThreeRoots(x1: int, x2: int, x3: int, x: int)
    ensures (x - x1) * (x - x2) * (x - x3) ==
            x * x * x - (x1 + x2 + x3) * (x * x) + (x1 * x2 + x1 * x3 + x2 * x3) * x - x1 * x2 * x3
  {
    assert (x - x1) * (x - x2) == x * x - (x1 + x2) * x + x1 * x2;
    assert (x * x - (x1 + x2) * x + x1 * x2) * (x - x3) ==
      x * x * x - (x1 + x2) * x * x + x1 * x2 * x - x3 * x * x + (x1 + x2) * x * x3 - x1 * x2 * x3;
  }

  lemma LinearPart(x: int, a: int, l: int, k: int, s: int, e: int)
    requires e == a - 2 * l * k - s
    ensures a * x - 2 * l * k * x - s * x == x * e
  {
  }

  lemma RemainderOf(c: Curve, l: int, k: int, x1: int, x2: int, x3: int, x: int, e: int, f: int)
    requires x3 == l * l - x1 - x2
    requires e == c.a - 2 * l * k - (x1 * x2 + x1 * x3 + x2 * x3) && f == c.b - k * k + x1 * x2 * x3
    ensures Residual(c, x, Height(l, k, x)) == (x - x1) * (x - x2) * (x - x3) + x * e + f
    ensures x == x1 || x == x2 ==> Residual(c, x, Height(l, k, x)) == x * e + f
  {
    Remainder(c.a, c.b, l, k, x1, x2, x3, x, e, f);
  }

  // When the linear remainder vanishes, the third root is that of the law.
  lemma CutsThere(c: Curve, l: int, k: int, x1: int, x2: int, x3: int, r: int, e: int, f: int)
    requires c.Valid() && x3 == l * l - x1 - x2 && Cong(r, x3, c.p)
    requires e == c.a - 2 * l * k - (x1 * x2 + x1 * x3 + x2 * x3) && f == c.b - k * k + x1 * x2 * x3
    requires Cong(e, 0, c.p) && Cong(f, 0, c.p)
    ensures Cuts(c, l, k, x1, x2, r)
  {
    forall x
      ensures Cong(Residual(c, x, Height(l, k, x)), (x - x1) * (x - x2) * (x - r), c.p)
    {
      RemainderOf(c, l, k, x1, x2, x3, x, e, f);
      Linear(c, Residual(c, x, Height(l, k, x)), (x - x1) * (x - x2), x, x3, r, e, f);
    }
  }

  lemma Linear(c: Curve, v: int, g: int, x: int, x3: int, r: int, e: int, f: int)
    requires c.Valid() && Cong(r, x3, c.p) && Cong(e, 0, c.p) && Cong(f, 0, c.p) && v == g * (x - x3) + x * e + f
    ensures Cong(v, g * (x - r), c.p)
  {
    hide Cong;
    By2(v, g * (x - x3), x, e, 0, 1, f, 0, c.p);
    AddCong(x, x, r, x3, c.p);
    MulCong(g, g, x - r, x - x3, c.p);
    Meet(c, v, g * (x - x3), g * (x - r));
  }

  lemma Meet(c: Curve, u: int, v: int, w: int)
    requires c.Valid() && Cong(u, v, c.p) && Cong(w, v, c.p)
    ensures Cong(u, w, c.p)
  {
  }

  lemma ChordCuts(c: Curve, P: Affine, Q: Affine) returns (l: int, k: int)
    requires c.Valid() && OnCurve(c, P) && OnCurve(c, Q) && P.Point? && Q.Point? && P.x != Q.x
    ensures Add(c, P, Q).Point? && Cuts(c, l, k, P.x, Q.x, Add(c, P, Q).x)
    ensures Cong(Height(l, k, P.x), P.y, c.p) && Cong(Height(l, k, Q.x), Q.y, c.p)
    ensures Cong(Height(l, k, Add(c, P, Q).x), -Add(c, P, Q).y, c.p)
  {
    DistinctAbscissae(c, P.x, Q.x);
    l := Quot(c, P.y - Q.y, P.x - Q.x);
    k := P.y - l * P.x;
    hide Cong, Residual, Height, Cuts, Quot, Mod;
    var x3 := l * l - P.x - Q.x;
    var e, f := c.a - 2 * l * k - (P.x * Q.x + P.x * x3 + Q.x * x3), c.b - k * k + P.x * Q.x * x3;
    HeightAt(c, l, P.x, P.y, Q.x, Q.y);
    RemainderOf(c, l, k, P.x, Q.x, x3, P.x, e, f);
    RemainderOf(c, l, k, P.x, Q.x, x3, Q.x, e, f);
    ResidualCong(c, Q.x, Height(l, k, Q.x), Q.x, Q.y);
    RemainderVanishes(c, P.x, Q.x, e, f);
    ThirdAbscissa(c, l, P.x, Q.x, P.y);
    CutsThere(c, l, k, P.x, Q.x, x3, Add(c, P, Q).x, e, f);
    HeightReflected(c, l, P.x, Q.x, P.y);
  }

  lemma ThirdAbscissa(c: Curve, l: int, x1: int, x2: int, y1: int)
    requires c.Valid()
    ensures Cong(ThirdPoint(c, l, x1, x2, y1).x, l * l - x1 - x2, c.p)
  {
  }

  lemma RemainderVanishes(c: Curve, x1: int, x2: int, e: int, f: int)
    requires c.Valid() && !Cong(x1 - x2, 0, c.p) && Cong(x1 * e + f, 0, c.p) && Cong(x2 * e + f, 0, c.p)
    ensures Cong(e, 0, c.p) && Cong(f, 0, c.p)
  {
    assert (x1 - x2) * 0 == 0;
    assert (x1 - x2) * e == (x1 * e + f) - (x2 * e + f);
    By2((x1 - x2) * e, 0, 1, x1 * e + f, 0, -1, x2 * e + f, 0, c.p);
    Cancel(c, x1 - x2, e, 0);
    By2(f, 0, 1, x1 * e + f, 0, -x1, e, 0, c.p);
  }

  lemma HeightAt(c: Curve, l: int, x1: int, y1: int, x2: int, y2: int)
    requires c.Valid() && Cong(l * (x1 - x2), y1 - y2, c.p)
    ensures Height(l, y1 - l * x1, x1) == y1 && Cong(Height(l, y1 - l * x1, x2), y2, c.p)
  {
    assert l * x2 + (y1 - l * x1) == y1 - l * (x1 - x2);
    By(y1 - l * (x1 - x2), y2, -1, l * (x1 - x2), y1 - y2, c.p);
  }

  lemma HeightReflected(c: Curve, l: int, x1: int, x2: int, y1: int)
    requires c.Valid()
    ensures var R := ThirdPoint(c, l, x1, x2, y1); Cong(Height(l, y1 - l * x1, R.x), -R.y, c.p)
  {
    var R := ThirdPoint(c, l, x1, x2, y1);
    assert l * R.x + (y1 - l * x1) == -(l * (x1 - R.x) - y1);
    By(Height(l, y1 - l * x1, R.x), -R.y, -1, l * (x1 - R.x) - y1, R.y, c.p);
  }

  lemma TangentCuts(c: Curve, P: Affine) returns (l: int, k: int)
    requires c.Valid() && OnCurve(c, P) && P.Point? && P.y != 0
    ensures Double(c, P).Point? && Cuts(c, l, k, P.x, P.x, Double(c, P).x)
    ensures Cong(Height(l, k, P.x), P.y, c.p) && Cong(Height(l, k, Double(c, P).x), -Double(c, P).y, c.p)
  {
    TwoY(c, P.y);
    l := Quot(c, 3 * P.x * P.x + c.a, 2 * P.y);
    k := P.y - l * P.x;
    hide Cong, Residual, Height, Cuts, Quot, Mod;
    var x3 := l * l - P.x - P.x;
    var e, f := c.a - 2 * l * k - (P.x * P.x + P.x * x3 + P.x * x3), c.b - k * k + P.x * P.x * x3;
    HeightHere(l, P.x, P.y);
    RemainderOf(c, l, k, P.x, P.x, x3, P.x, e, f);
    TangentRemainder(c.a, l, k, P.x, P.y, x3, e);
    DoubleRoot(c, P.x, e, f, l * (2 * P.y), 3 * P.x * P.x + c.a);
    ThirdAbscissa(c, l, P.x, P.x, P.y);
    CutsThere(c, l, k, P.x, P.x, x3, Double(c, P).x, e, f);
    HeightReflected(c, l, P.x, P.x, P.y);
  }

  lemma TangentRemainder(a: int, l: int, k: int, x: int, y: int, x3: int, e: int)
    requires k == y - l * x && x3 == l * l - x - x && e == a - 2 * l * k - (x * x + x * x3 + x * x3)
    ensures e == 3 * x * x + a - l * (2 * y)
  {
    SlopeIdentity(a, l, x, y, x3);
    assert 2 * x * x3 == x * x3 + x * x3;
  }

  lemma HeightHere(l: int, x: int, y: int)
    ensures Height(l, y - l * x, x) == y
  {
  }

  lemma DoubleRoot(c: Curve, x: int, e: int, f: int, t: int, s: int)
    requires c.Valid() && Cong(t, s, c.p) && e == s - t && Cong(x * e + f, 0, c.p)
    ensures Cong(e, 0, c.p) && Cong(f, 0, c.p)
  {
    hide Cong;
    By(e, 0, -1, t, s, c.p);
    By2(f, 0, 1, x * e + f, 0, -x, e, 0, c.p);
  }

  /** The law is that of chord and tangent: unless two points of the curve are
      opposite, a line passes through both and through the reflection of their sum,
      and it meets the curve at these three abscissae and nowhere else, twice where
      two of them are the same.  Opposite points add up to infinity. */
  lemma ChordAndTangent(c: Curve, P: Affine, Q: Affine)
    requires c.Valid() && OnCurve(c, P) && OnCurve(c, Q) && P.Point? && Q.Point?
    ensures Add(c, P, Q).Infinity? <==> P.x == Q.x && Cong(P.y, -Q.y, c.p)
    ensures Add(c, P, Q).Point? ==>
              var R := Add(c, P, Q);
              exists l, k :: && Cuts(c, l, k, P.x, Q.x, R.x) && Cong(Height(l, k, P.x), P.y, c.p)
                             && Cong(Height(l, k, Q.x), Q.y, c.p) && Cong(Height(l, k, R.x), -R.y, c.p)
  {
    hide Cuts, Height, Cong, OnCurve, Double, Quot, ThirdPoint;
    if P.x != Q.x {
      var l, k := ChordCuts(c, P, Q);
    } else {
      Opposite(c, P, Q);
      if P.y == Q.y && P.y != 0 {
        var l, k := TangentCuts(c, P);
      } else if P.y == Q.y {
        DoubleOfZero(c, P);
      }
    }
  }

  lemma DoubleOfZero(c: Curve, P: Affine)
    requires c.Valid() && Canonical(c, P) && P.Point? && P.y == 0
    ensures Double(c, P).Infinity?
  {
  }

  lemma ResidualsDiffer(c: Curve, x: int, y: int, z: int)
    ensures (y - z) * (y + z) == Residual(c, x, z) - Residual(c, x, y) && (y - z) * 0 == 0
  {
  }

  lemma Opposite(c: Curve, P: Affine, Q: Affine)
    requires c.Valid() && OnCurve(c, P) && OnCurve(c, Q) && P.Point? && Q.Point? && P.x == Q.x
    ensures Canonical(c, P) && Canonical(c, Q)
    ensures Cong(P.y, -Q.y, c.p) <==> P.y != Q.y || P.y == 0
  {
    hide Mod, Residual;
    if P.y != Q.y {
      DistinctAbscissae(c, P.y, Q.y);
      ResidualsDiffer(c, P.x, P.y, Q.y);
      By2((P.y - Q.y) * (P.y + Q.y), (P.y - Q.y) * 0, -1, Residual(c, P.x, P.y), 0, 1, Residual(c, Q.x, Q.y), 0, c.p);
      Cancel(c, P.y - Q.y, P.y + Q.y, 0);
      By(P.y, -Q.y, 1, P.y + Q.y, 0, c.p);
    } else if P.y != 0 {
      TwoY(c, P.y);
      if Cong(P.y, -Q.y, c.p) {
        By(2 * P.y, 0, 1, P.y, -Q.y, c.p);
      }
    }
  }

  // ------------------------------------------------------------------
  // The law commutes

  lemma SlopesAgree(c: Curve, n: int, d: int, l: int, m: int)
    requires c.Valid() && !Cong(d, 0, c.p) && 0 <= l < c.p && 0 <= m < c.p
    requires Cong(l * d, n, c.p) && Cong(m * -d, -n, c.p)
    ensures l == m
  {
    By(m * d, n, -1, m * -d, -n, c.p);
    Reversed(d, l);
    Reversed(d, m);
    Trans(d * l, n, d * m, c.p);
    Cancel(c, d, l, m);
    Same(c, l, m);
  }

  lemma Reversed(d: int, l: int)
    ensures d * l == l * d
  {
  }

  lemma ChordEnds(c: Curve, l: int, x1: int, y1: int, x2: int, y2: int, x3: int)
    requires c.Valid() && Cong(l * (x1 - x2), y1 - y2, c.p)
    ensures Cong(l * (x1 - x3) - y1, l * (x2 - x3) - y2, c.p)
  {
    assert l * (x1 - x3) - y1 == (l * (x2 - x3) - y2) + 1 * (l * (x1 - x2) - (y1 - y2));
    By(l * (x1 - x3) - y1, l * (x2 - x3) - y2, 1, l * (x1 - x2), y1 - y2, c.p);
  }

  // The line through two points, from either of them, meets the same third one.
  lemma SameThirdPoint(c: Curve, l: int, x1: int, y1: int, x2: int, y2: int)
    requires c.Valid() && Cong(l * (x1 - x2), y1 - y2, c.p)
    ensures ThirdPoint(c, l, x1, x2, y1) == ThirdPoint(c, l, x2, x1, y2)
  {
    assert l * l - x1 - x2 == l * l - x2 - x1;
    ChordEnds(c, l, x1, y1, x2, y2, ThirdPoint(c, l, x1, x2, y1).x);
  }

  /** The chord-and-tangent law commutes. */
  lemma AddCommutes(c: Curve, P: Affine, Q: Affine)
    requires c.Valid() && Canonical(c, P) && Canonical(c, Q)
    ensures Add(c, P, Q) == Add(c, Q, P)
  {
    hide Cong, Mod, ThirdPoint, Quot, Double;
    if P.Point? && Q.Point? && P.x != Q.x {
      DistinctAbscissae(c, P.x, Q.x);
      DistinctAbscissae(c, Q.x, P.x);
      var l, m := Quot(c, P.y - Q.y, P.x - Q.x), Quot(c, Q.y - P.y, Q.x - P.x);
      assert Q.x - P.x == -(P.x - Q.x) && Q.y - P.y == -(P.y - Q.y);
      SlopesAgree(c, P.y - Q.y, P.x - Q.x, l, m);
      SameThirdPoint(c, l, P.x, P.y, Q.x, Q.y);
    }
  }
}
