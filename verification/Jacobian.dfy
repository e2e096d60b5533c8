/** Jacobian coordinates: (X, Y, Z) stands for the affine point (X/Z^2, Y/Z^3),
    and Z = 0 for the point at infinity.  The textbook formulas for doubling and
    addition (Annex A.10 of IEEE Std 1363-2000), proved against the
    chord-and-tangent law. */
module Jacobian {
  import opened Field
  import opened AffineCurve

  datatype Jac = Jac(x: int, y: int, z: int)

  ghost predicate Reduced(c: Curve, J: Jac) {
    0 <= J.x < c.p && 0 <= J.y < c.p && 0 <= J.z < c.p
  }

  /** J represents the affine point P. */
  ghost predicate Represents(c: Curve, J: Jac, P: Affine)
    requires c.Valid()
  {
    Reduced(c, J) && Canonical(c, P) &&
    match P
    case Infinity => J.z == 0
    case Point(x, y) => J.z != 0 && Scaled(c, J.x, J.y, J.z, x, y)
  }

  ghost predicate Scaled(c: Curve, X: int, Y: int, Z: int, x: int, y: int)
    requires c.Valid()
  {
    Cong(X, x * (Z * Z), c.p) && Cong(Y, y * (Z * Z * Z), c.p)
  }

  // _gcry_mpi_ec_get_affine
  ghost function ToAffine(c: Curve, J: Jac): (P: Affine)
    requires c.Valid() && Reduced(c, J)
    ensures Canonical(c, P)
  {
    if J.z == 0 then Infinity
    else
      var z1 := c.inv(J.z);
      var z2 := Mod(z1 * z1, c.p);
      var z3 := Mod(z2 * z1, c.p);
      Point(Mod(J.x * z2, c.p), Mod(J.y * z3, c.p))
  }

  // u*i == 1 and w == n*i gives n == w*u.
  lemma Unscale(c: Curve, n: int, w: int, u: int, i: int)
    requires c.Valid() && Cong(u * i, 1, c.p) && Cong(w, n * i, c.p)
    ensures Cong(n, w * u, c.p)
  {
    UnscaleIdentity(n, w, u, i);
    By2(n, w * u, -n, u * i, 1, -u, w, n * i, c.p);
  }

  lemma UnscaleIdentity(n: int, w: int, u: int, i: int)
    ensures n == w * u + (-n) * (u * i - 1) + (-u) * (w - n * i)
  {
  }

  lemma InversePowers(c: Curve, z: int, i: int, i2: int, i3: int)
    requires c.Valid() && Cong(z * i, 1, c.p) && Cong(i2, i * i, c.p) && Cong(i3, i2 * i, c.p)
    ensures Cong(z * z * i2, 1, c.p) && Cong(z * z * z * i3, 1, c.p)
  {
    MulCong(z * i, 1, z * i, 1, c.p);
    MulCong(z * z, z * z, i2, i * i, c.p);
    Interchange(z, i, z, i);
    MulCong(z * z * i2, 1, z * i, 1, c.p);
    MulCong(z * z * z, z * z * z, i3, i2 * i, c.p);
    Interchange(z * z, i2, z, i);
  }

  lemma Interchange(a: int, b: int, c: int, d: int)
    ensures (a * b) * (c * d) == (a * c) * (b * d)
  {
  }

  /** The conversion finds the point that J represents. */
  lemma ToAffineRepresents(c: Curve, J: Jac)
    requires c.Valid() && Reduced(c, J)
    ensures Represents(c, J, ToAffine(c, J))
  {
    if J.z != 0 {
      var z1 := c.inv(J.z);
      var z2 := Mod(z1 * z1, c.p);
      var z3 := Mod(z2 * z1, c.p);
      InversePowers(c, J.z, z1, z2, z3);
      Unscale(c, J.x, Mod(J.x * z2, c.p), J.z * J.z, z2);
      Unscale(c, J.y, Mod(J.y * z3, c.p), J.z * J.z * J.z, z3);
    }
  }

  /** And it is the only one. */
  lemma RepresentsUnique(c: Curve, J: Jac, P: Affine)
    requires c.Valid() && Represents(c, J, P)
    ensures P == ToAffine(c, J)
  {
    if J.z != 0 {
      var Q := ToAffine(c, J);
      ToAffineRepresents(c, J);
      NonZeroResidue(c, J.z);
      NonZero(c, J.z, J.z);
      NonZero(c, J.z * J.z, J.z);
      Cancel(c, J.z * J.z, P.x, Q.x) by { Swap(J.z * J.z, P.x); Swap(J.z * J.z, Q.x); }
      Cancel(c, J.z * J.z * J.z, P.y, Q.y) by { Swap(J.z * J.z * J.z, P.y); Swap(J.z * J.z * J.z, Q.y); }
    }
  }

  lemma Swap(a: int, b: int)
    ensures a * b == b * a
  {
  }

  lemma NonZeroResidue(c: Curve, u: int)
    requires c.Valid() && 0 < u < c.p
    ensures !Cong(u, 0, c.p)
  {
  }

  // ------------------------------------------------------------------
  // Y^2 = X^3 + aXZ^4 + bZ^6

  function JResidual(c: Curve, J: Jac): int {
    var z2 := J.z * J.z;
    J.x * J.x * J.x + c.a * J.x * (z2 * z2) + c.b * (z2 * z2 * z2) - J.y * J.y
  }

  ghost predicate JOnCurve(c: Curve, J: Jac)
    requires c.Valid()
  {
    Reduced(c, J) && (J.z != 0 ==> Cong(JResidual(c, J), 0, c.p))
  }

  lemma ScaledResidual(c: Curve, J: Jac, x: int, y: int)
    requires c.Valid() && Scaled(c, J.x, J.y, J.z, x, y)
    ensures var z2 := J.z * J.z; Cong(JResidual(c, J), Residual(c, x, y) * (z2 * z2 * z2), c.p)
  {
    var z2 := J.z * J.z;
    var q, r, u, v := c.a * (z2 * z2), c.b * (z2 * z2 * z2), x * z2, y * (z2 * J.z);
    CubicCong(c, J.x, u, q, r, J.y, v);
    ScaledIdentity(c.a, c.b, x, y, J.z, z2, u, v);
    Reorder(c.a, J.x, z2 * z2);
  }

  lemma Reorder(a: int, b: int, d: int)
    ensures a * b * d == b * (a * d)
  {
  }

  lemma CubicCong(c: Curve, x: int, u: int, q: int, r: int, y: int, v: int)
    requires c.Valid() && Cong(x, u, c.p) && Cong(y, v, c.p)
    ensures Cong(x * x * x + x * q + r - y * y, u * u * u + u * q + r - v * v, c.p)
  {
    MulCong(x, u, x, u, c.p);
    MulCong(x * x, u * u, x, u, c.p);
    MulCong(x, u, q, q, c.p);
    MulCong(y, v, y, v, c.p);
    AddCong(x * x * x, u * u * u, x * q, u * q, c.p);
    AddCong(r, r, y * y, v * v, c.p);
    AddCong(x * x * x + x * q, u * u * u + u * q, r - y * y, r - v * v, c.p);
  }

  lemma Square(y: int, z2: int, z: int)
    requires z2 == z * z
    ensures (y * (z2 * z)) * (y * (z2 * z)) == y * y * (z2 * z2 * z2)
  {
    Interchange(y, z2 * z, y, z2 * z);
    Interchange(z2, z, z2, z);
  }

  lemma Distribute(s: int, t: int, u: int, v: int, q: int)
    ensures s * q + t * q + u * q - v * q == (s + t + u - v) * q
  {
  }

  lemma ScaledIdentity(a: int, b: int, x: int, y: int, z: int, z2: int, u: int, v: int)
    requires z2 == z * z && u == x * z2 && v == y * (z2 * z)
    ensures u * u * u + u * (a * (z2 * z2)) + b * (z2 * z2 * z2) - v * v ==
      (x * x * x + a * x + b - y * y) * (z2 * z2 * z2)
  {
    var q := z2 * z2 * z2;
    assert u * u * u == x * x * x * q;
    assert u * (a * (z2 * z2)) == a * x * q;
    Square(y, z2, z);
    Distribute(x * x * x, a * x, b, y * y, q);
  }

  /** The projective equation holds exactly for the points that stand for
      points of the curve. */
  lemma JOnCurveIff(c: Curve, J: Jac)
    requires c.Valid() && Reduced(c, J)
    ensures JOnCurve(c, J) <==> OnCurve(c, ToAffine(c, J))
  {
    if J.z != 0 {
      var P := ToAffine(c, J);
      ToAffineRepresents(c, J);
      ScaledResidual(c, J, P.x, P.y);
      var z2 := J.z * J.z;
      var q := z2 * z2 * z2;
      var r := Residual(c, P.x, P.y);
      NonZeroResidue(c, J.z);
      NonZero(c, J.z, J.z);
      NonZero(c, z2, z2);
      NonZero(c, z2 * z2, z2);
      if Cong(r, 0, c.p) {
        MulCong(r, 0, q, q, c.p);
        assert 0 * q == 0;
      } else {
        NonZero(c, r, q);
      }
    }
  }

  // ------------------------------------------------------------------
  // Doubling

  const INFINITE := Jac(1, 1, 0)

  function DoubleFormula(c: Curve, J: Jac): (R: Jac)
    requires c.p > 0
  {
    var (x, y, z) := (J.x, J.y, J.z);
    if y == 0 || z == 0 then INFINITE
    else
      var l1 := Mod(3 * (x * x) + c.a * ((z * z) * (z * z)), c.p);
      var l2 := Mod(4 * (x * (y * y)), c.p);
      var x3 := Mod(l1 * l1 - 2 * l2, c.p);
      var l3 := Mod(8 * ((y * y) * (y * y)), c.p);
      Jac(x3, Mod(l1 * (l2 - x3) - l3, c.p), Mod(2 * (y * z), c.p))
  }

  // At the scale S the results are those of the line with slope l.
  lemma EndX(c: Curve, x: int, l: int, S: int, l1: int, l2: int)
    requires c.Valid()
    requires Cong(l1, l * S, c.p) && Cong(l2, x * (S * S), c.p)
    ensures Cong(l1 * l1 - 2 * l2, (l * l - x - x) * (S * S), c.p)
  {
    MulCong(l1, l * S, l1, l * S, c.p);
    Interchange(l, S, l, S);
    MulCong(2, 2, l2, x * (S * S), c.p);
    AddCong(l1 * l1, (l * l) * (S * S), 2 * l2, 2 * (x * (S * S)), c.p);
    EndXIdentity(l * l, x, S * S);
  }

  lemma EndXIdentity(s: int, x: int, T: int)
    ensures s * T - 2 * (x * T) == (s - x - x) * T
  {
  }

  lemma Triple(x: int)
    ensures 3 * x * x == 3 * (x * x)
  {
  }

  lemma EndY(c: Curve, x: int, y: int, l: int, S: int, l1: int, l2: int, l3: int, x3: int, u: int)
    requires c.Valid()
    requires Cong(l1, l * S, c.p) && Cong(l2, x * (S * S), c.p) && Cong(l3, y * (S * S * S), c.p)
    requires Cong(x3, u * (S * S), c.p)
    ensures Cong(l1 * (l2 - x3) - l3, (l * (x - u) - y) * (S * S * S), c.p)
  {
    var v, w := x * (S * S), u * (S * S);
    AddCong(l2, v, x3, w, c.p);
    MulCong(l1, l * S, l2 - x3, v - w, c.p);
    AddCong(l1 * (l2 - x3), (l * S) * (v - w), l3, y * (S * S * S), c.p);
    LineScaled(l, x, u, y, S);
  }

  lemma Distribute2(s: int, t: int, q: int)
    ensures s * q - t * q == (s - t) * q
  {
  }

  lemma LineScaled(l: int, x: int, u: int, y: int, S: int)
    ensures (l * S) * (x * (S * S) - u * (S * S)) - y * (S * S * S) == (l * (x - u) - y) * (S * S * S)
  {
    Distribute2(x, u, S * S);
    Interchange(l, S, x - u, S * S);
    assert S * (S * S) == S * S * S;
    Distribute2(l * (x - u), y, S * S * S);
  }

  // The intermediate values of doubling, at the scale S = 2yZ^4.
  lemma StartZ(c: Curve, Y: int, y: int, z: int)
    requires c.Valid() && Cong(Y, y * (z * z * z), c.p)
    ensures Cong(2 * (Y * z), 2 * y * ((z * z) * (z * z)), c.p)
  {
    MulCong(Y, y * (z * z * z), 2 * z, 2 * z, c.p);
    ScaleZ(y, z, z * z);
    assert 2 * (Y * z) == Y * (2 * z);
  }

  lemma StartL1(c: Curve, X: int, x: int, y: int, l: int, z2: int)
    requires c.Valid() && Cong(X, x * z2, c.p)
    requires Cong(l * (2 * y), 3 * x * x + c.a, c.p)
    ensures Cong(3 * (X * X) + c.a * (z2 * z2), l * (2 * y * (z2 * z2)), c.p)
  {
    var q := z2 * z2;
    MulCong(X, x * z2, X, x * z2, c.p);
    Interchange(x, z2, x, z2);
    MulCong(l * (2 * y), 3 * x * x + c.a, q, q, c.p);
    Triple(x);
    Slope(c, X * X, x * x, q, l, y, 3 * x * x + c.a);
  }

  lemma Slope(c: Curve, A: int, x2: int, q: int, l: int, y: int, s: int)
    requires c.Valid() && s == 3 * x2 + c.a
    requires Cong(A, x2 * q, c.p) && Cong(l * (2 * y) * q, s * q, c.p)
    ensures Cong(3 * A + c.a * q, l * (2 * y * q), c.p)
  {
    ScaleSlope(A, x2, c.a, q, l, y);
    By2(3 * A + c.a * q, l * (2 * y * q), 3, A, x2 * q, -1, l * (2 * y) * q, s * q, c.p);
  }

  lemma StartY2(c: Curve, Y: int, y: int, z: int, z2: int)
    requires c.Valid() && z2 == z * z && Cong(Y, y * (z2 * z), c.p)
    ensures Cong(Y * Y, (y * y) * (z2 * z2 * z2), c.p)
  {
    MulCong(Y, y * (z2 * z), Y, y * (z2 * z), c.p);
    Square(y, z2, z);
  }

  lemma StartL2(c: Curve, X: int, Y2: int, x: int, y: int, z2: int)
    requires c.Valid() && Cong(X, x * z2, c.p) && Cong(Y2, (y * y) * (z2 * z2 * z2), c.p)
    ensures var S := 2 * y * (z2 * z2); Cong(4 * (X * Y2), x * (S * S), c.p)
  {
    var w := (y * y) * (z2 * z2 * z2);
    MulCong(X, x * z2, Y2, w, c.p);
    MulCong(4, 4, X * Y2, (x * z2) * w, c.p);
    ScaleL2(x, y, z2, z2 * z2);
  }

  lemma StartL3(c: Curve, Y2: int, y: int, z2: int)
    requires c.Valid() && Cong(Y2, (y * y) * (z2 * z2 * z2), c.p)
    ensures var S := 2 * y * (z2 * z2); Cong(8 * (Y2 * Y2), y * (S * S * S), c.p)
  {
    var w := (y * y) * (z2 * z2 * z2);
    MulCong(Y2, w, Y2, w, c.p);
    MulCong(8, 8, Y2 * Y2, w * w, c.p);
    ScaleL3(y, z2, z2 * z2);
  }

  lemma ScaleZ(y: int, z: int, z2: int)
    requires z2 == z * z
    ensures (y * (z2 * z)) * (2 * z) == 2 * y * (z2 * z2)
  {
    Interchange(y, z2 * z, 2, z);
    assert z2 * z * z == z2 * z2;
  }

  lemma ScaleSlope(A: int, x2: int, a: int, q: int, l: int, y: int)
    ensures 3 * A + a * q == l * (2 * y * q) + 3 * (A - x2 * q) + (-1) * (l * (2 * y) * q - (3 * x2 + a) * q)
  {
    assert l * (2 * y * q) == l * (2 * y) * q;
    assert (3 * x2 + a) * q == 3 * (x2 * q) + a * q;
  }

  lemma ScaleL2(x: int, y: int, z2: int, q: int)
    requires q == z2 * z2
    ensures var S := 2 * y * q; 4 * ((x * z2) * ((y * y) * (q * z2))) == x * (S * S)
  {
    var S := 2 * y * q;
    Interchange(2 * y, q, 2 * y, q);
    Interchange(x, z2, y * y, q * z2);
    assert z2 * (q * z2) == q * q;
    assert x * ((4 * (y * y)) * (q * q)) == 4 * ((x * (y * y)) * (q * q));
  }

  lemma ScaleL3(y: int, z2: int, q: int)
    requires q == z2 * z2
    ensures var S := 2 * y * q; 8 * (((y * y) * (q * z2)) * ((y * y) * (q * z2))) == y * (S * S * S)
  {
    var S := 2 * y * q;
    Interchange(y * y, q * z2, y * y, q * z2);
    Interchange(q, z2, q, z2);
    Interchange(2 * y, q, 2 * y, q);
    Interchange((2 * y) * (2 * y), q * q, 2 * y, q);
    assert y * ((2 * y) * (2 * y) * (2 * y)) == 8 * ((y * y) * (y * y));
    assert y * (((2 * y) * (2 * y) * (2 * y)) * (q * q * q)) == (y * ((2 * y) * (2 * y) * (2 * y))) * (q * q * q);
  }

  // A scale can be exchanged for a congruent one, and the affine point for a
  // congruent one.
  lemma Rescale(c: Curve, X: int, Y: int, S: int, u: int, v: int, Z: int, x: int, y: int)
    requires c.Valid() && Scaled(c, X, Y, S, u, v)
    requires Cong(Z, S, c.p) && Cong(x, u, c.p) && Cong(y, v, c.p)
    ensures Scaled(c, X, Y, Z, x, y)
  {
    MulCong(Z, S, Z, S, c.p);
    MulCong(Z * Z, S * S, Z, S, c.p);
    MulCong(x, u, Z * Z, S * S, c.p);
    MulCong(y, v, Z * Z * Z, S * S * S, c.p);
  }

  // The reduced coordinates of the third point.
  lemma ThirdPointReduced(c: Curve, l: int, x1: int, x2: int, y1: int)
    requires c.Valid()
    ensures var R := ThirdPoint(c, l, x1, x2, y1);
      var u := l * l - x1 - x2;
      Cong(R.x, u, c.p) && Cong(R.y, l * (x1 - u) - y1, c.p)
  {
    var R := ThirdPoint(c, l, x1, x2, y1);
    var u := l * l - x1 - x2;
    AddCong(x1, x1, R.x, u, c.p);
    MulCong(l, l, x1 - R.x, x1 - u, c.p);
    AddCong(l * (x1 - R.x), l * (x1 - u), y1, y1, c.p);
  }

  // A coordinate is zero exactly when the scaled one is.
  lemma ZeroScaled(c: Curve, Y: int, y: int, z: int)
    requires c.Valid() && 0 <= Y < c.p && 0 <= y < c.p && 0 < z < c.p
    requires Cong(Y, y * (z * z * z), c.p)
    ensures Y == 0 <==> y == 0
  {
    NonZeroResidue(c, z);
    NonZero(c, z, z);
    NonZero(c, z * z, z);
    if y != 0 {
      NonZeroResidue(c, y);
      NonZero(c, y, z * z * z);
    } else {
      assert 0 * (z * z * z) == 0;
    }
  }

  /** Doubling refines the tangent law, for every point including infinity and
      the points of order two. */
  lemma DoubleRefines(c: Curve, J: Jac, P: Affine)
    requires c.Valid() && Represents(c, J, P)
    ensures Represents(c, DoubleFormula(c, J), Double(c, P))
  {
    if J.z != 0 {
      ZeroScaled(c, J.y, P.y, J.z);
      if J.y != 0 {
        DoubleFinite(c, J, P);
      }
    }
  }

  lemma DoubleFinite(c: Curve, J: Jac, P: Affine)
    requires c.Valid() && Represents(c, J, P) && J.z != 0 && J.y != 0 && P.y != 0
    ensures Represents(c, DoubleFormula(c, J), Double(c, P))
  {
    hide Mod, Cong, Quot, ThirdPoint, DoubleFormula;
    TwoY(c, P.y);
    var l := Quot(c, 3 * P.x * P.x + c.a, 2 * P.y);
    var q := (J.z * J.z) * (J.z * J.z);
    var n1, n2, n3, nz := 3 * (J.x * J.x) + c.a * q, 4 * (J.x * (J.y * J.y)), 8 * ((J.y * J.y) * (J.y * J.y)), 2 * (J.y * J.z);
    StartDouble(c, J, P.x, P.y, l, q);
    DoubleFields(c, J, n1, n2, n3, nz);
    EndDouble(c, P.x, P.y, l, 2 * P.y * q, n1, n2, n3, nz, DoubleFormula(c, J));
    DoubleScale(c, J);
  }

  lemma DoubleFields(c: Curve, J: Jac, n1: int, n2: int, n3: int, nz: int)
    requires c.p > 0 && J.y != 0 && J.z != 0
    requires n1 == 3 * (J.x * J.x) + c.a * ((J.z * J.z) * (J.z * J.z)) && n2 == 4 * (J.x * (J.y * J.y))
    requires n3 == 8 * ((J.y * J.y) * (J.y * J.y)) && nz == 2 * (J.y * J.z)
    ensures var l1, l2, l3 := Mod(n1, c.p), Mod(n2, c.p), Mod(n3, c.p);
            var x3 := Mod(l1 * l1 - 2 * l2, c.p);
            DoubleFormula(c, J) == Jac(x3, Mod(l1 * (l2 - x3) - l3, c.p), Mod(nz, c.p))
  {
  }

  // The four values, at the scale S.
  lemma StartDouble(c: Curve, J: Jac, x: int, y: int, l: int, q: int)
    requires c.Valid() && Scaled(c, J.x, J.y, J.z, x, y) && Cong(l * (2 * y), 3 * x * x + c.a, c.p)
    requires q == (J.z * J.z) * (J.z * J.z)
    ensures var S := 2 * y * q;
            && Cong(3 * (J.x * J.x) + c.a * q, l * S, c.p) && Cong(4 * (J.x * (J.y * J.y)), x * (S * S), c.p)
            && Cong(8 * ((J.y * J.y) * (J.y * J.y)), y * (S * S * S), c.p) && Cong(2 * (J.y * J.z), S, c.p)
  {
    hide Mod, Cong;
    var z2 := J.z * J.z;
    StartZ(c, J.y, y, J.z);
    StartL1(c, J.x, x, y, l, z2);
    StartY2(c, J.y, y, J.z, z2);
    StartL2(c, J.x, J.y * J.y, x, y, z2);
    StartL3(c, J.y * J.y, y, z2);
  }

  // What the formula makes of its four intermediate values.
  lemma EndDouble(c: Curve, x: int, y: int, l: int, S: int, n1: int, n2: int, n3: int, nz: int, R: Jac)
    requires c.Valid()
    requires Cong(n1, l * S, c.p) && Cong(n2, x * (S * S), c.p) && Cong(n3, y * (S * S * S), c.p) && Cong(nz, S, c.p)
    requires var l1, l2, l3 := Mod(n1, c.p), Mod(n2, c.p), Mod(n3, c.p);
             var x3 := Mod(l1 * l1 - 2 * l2, c.p);
             R == Jac(x3, Mod(l1 * (l2 - x3) - l3, c.p), Mod(nz, c.p))
    ensures var Q := ThirdPoint(c, l, x, x, y); Scaled(c, R.x, R.y, R.z, Q.x, Q.y)
  {
    hide Mod, Cong;
    var l1, l2, l3 := Mod(n1, c.p), Mod(n2, c.p), Mod(n3, c.p);
    var u := l * l - x - x;
    Residue(n1, l * S, c.p);
    Residue(n2, x * (S * S), c.p);
    Residue(n3, y * (S * S * S), c.p);
    Residue(nz, S, c.p);
    EndX(c, x, l, S, l1, l2);
    Residue(l1 * l1 - 2 * l2, u * (S * S), c.p);
    EndY(c, x, y, l, S, l1, l2, l3, R.x, u);
    Residue(l1 * (l2 - R.x) - l3, (l * (x - u) - y) * (S * S * S), c.p);
    ThirdPointReduced(c, l, x, x, y);
    var Q := ThirdPoint(c, l, x, x, y);
    Rescale(c, R.x, R.y, S, u, l * (x - u) - y, R.z, Q.x, Q.y);
  }

  lemma DoubleScale(c: Curve, J: Jac)
    requires c.Valid() && 0 < J.y < c.p && 0 < J.z < c.p
    ensures DoubleFormula(c, J).z != 0
  {
    TwoIsNonZero(c);
    NonZeroResidue(c, J.y);
    NonZeroResidue(c, J.z);
    NonZero(c, J.y, J.z);
    NonZero(c, 2, J.y * J.z);
  }

  // ------------------------------------------------------------------
  // Addition

  // The general case, from l1 = x1*z2^2 and l2 = x2*z1^2, l4 = y1*z2^3 and
  // l5 = y2*z1^3, and the scale W = z1*z2.
  function SumPoint(c: Curve, W: int, l1: int, l2: int, l4: int, l5: int): (R: Jac)
    requires c.p > 0
  {
    var l3 := Mod(l1 - l2, c.p);
    var l6 := Mod(l4 - l5, c.p);
    var t2 := Mod((l1 + l2) * (l3 * l3), c.p);
    var x3 := Mod(l6 * l6 - t2, c.p);
    var y3 := Mod(((t2 - 2 * x3) * l6 - (l4 + l5) * (l3 * l3 * l3)) * c.inv(2), c.p);
    Jac(x3, y3, Mod(W * l3, c.p))
  }

  function AddTail(c: Curve, P: Jac, Q: Jac, l1: int, l2: int): (R: Jac)
    requires c.p > 0
  {
    var l4 := Mod(P.y * (Q.z * Q.z * Q.z), c.p);
    var l5 := Mod(Q.y * (P.z * P.z * P.z), c.p);
    if Mod(l1 - l2, c.p) == 0 then (if Mod(l4 - l5, c.p) == 0 then DoubleFormula(c, P) else INFINITE)
    else SumPoint(c, P.z * Q.z, l1, l2, l4, l5)
  }

  /** Addition as the formulas of the standard have it. */
  function AddFormula(c: Curve, P: Jac, Q: Jac): Jac
    requires c.p > 0
  {
    if P == Q then DoubleFormula(c, P)
    else if P.z == 0 then Q
    else if Q.z == 0 then P
    else AddTail(c, P, Q, Mod(P.x * (Q.z * Q.z), c.p), Mod(Q.x * (P.z * P.z), c.p))
  }

  // x1*z2^2 and y1*z2^3 at the common scale W = z1*z2.
  lemma CommonX(c: Curve, X: int, z: int, x: int, w: int)
    requires c.Valid() && Cong(X, x * (z * z), c.p)
    ensures var W := z * w; Cong(X * (w * w), x * (W * W), c.p)
  {
    MulCong(X, x * (z * z), w * w, w * w, c.p);
    Interchange(z, w, z, w);
    Reassociate(x, z * z, w * w);
  }

  lemma CommonY(c: Curve, Y: int, z: int, y: int, w: int)
    requires c.Valid() && Cong(Y, y * (z * z * z), c.p)
    ensures var W := z * w; Cong(Y * (w * w * w), y * (W * W * W), c.p)
  {
    MulCong(Y, y * (z * z * z), w * w * w, w * w * w, c.p);
    Interchange(z, w, z, w);
    Interchange(z * z, w * w, z, w);
    Reassociate(y, z * z * z, w * w * w);
  }

  lemma Reassociate(a: int, b: int, d: int)
    ensures (a * b) * d == a * (b * d)
  {
  }

  // The scale of the sum, and the slope at that scale.
  lemma SumScale(c: Curve, l3: int, l6: int, W: int, d: int, e: int, l: int)
    requires c.Valid()
    requires Cong(l3, d * (W * W), c.p) && Cong(l6, e * (W * W * W), c.p) && Cong(l * d, e, c.p)
    ensures var S := d * (W * W * W); Cong(W * l3, S, c.p) && Cong(l6, l * S, c.p)
  {
    MulCong(W, W, l3, d * (W * W), c.p);
    PullOut(W, d);
    MulCong(l * d, e, W * W * W, W * W * W, c.p);
    Reassociate(l, d, W * W * W);
  }

  lemma PullOut(W: int, d: int)
    ensures W * (d * (W * W)) == d * (W * W * W)
  {
  }

  // l7*l3^2 and l8*l3^3 at the scale of the sum.
  lemma SumProducts(c: Curve, l3: int, l7: int, l8: int, W: int, d: int, s: int, t: int)
    requires c.Valid()
    requires Cong(l3, d * (W * W), c.p) && Cong(l7, s * (W * W), c.p) && Cong(l8, t * (W * W * W), c.p)
    ensures var S := d * (W * W * W);
      && Cong(l7 * (l3 * l3), s * (S * S), c.p)
      && Cong(l8 * (l3 * l3 * l3), t * (S * S * S), c.p)
  {
    var W2 := W * W;
    MulCong(l3, d * W2, l3, d * W2, c.p);
    MulCong(l3 * l3, (d * W2) * (d * W2), l3, d * W2, c.p);
    MulCong(l7, s * W2, l3 * l3, (d * W2) * (d * W2), c.p);
    MulCong(l8, t * (W2 * W), l3 * l3 * l3, (d * W2) * (d * W2) * (d * W2), c.p);
    ProductIdentity2(d, s, W);
    ProductIdentity3(d, t, W);
  }

  lemma ProductIdentity2(d: int, s: int, W: int)
    ensures var S := d * (W * W * W); (s * (W * W)) * ((d * (W * W)) * (d * (W * W))) == s * (S * S)
  {
    var W2, W3 := W * W, W * W * W;
    Interchange(d, W2, d, W2);
    Interchange(d, W3, d, W3);
    assert W2 * (W2 * W2) == W3 * W3;
    Interchange(s, W2, d * d, W2 * W2);
    Reassociate(s, d * d, W3 * W3);
  }

  lemma ProductIdentity3(d: int, t: int, W: int)
    ensures var S := d * (W * W * W);
      (t * (W * W * W)) * ((d * (W * W)) * (d * (W * W)) * (d * (W * W))) == t * (S * S * S)
  {
    var W2, W3 := W * W, W * W * W;
    Interchange(d, W2, d, W2);
    Interchange(d * d, W2 * W2, d, W2);
    Interchange(d, W3, d, W3);
    Interchange(d * d, W3 * W3, d, W3);
    assert W2 * W2 * W2 == W3 * W3;
    assert W3 * (W2 * W2 * W2) == W3 * W3 * W3;
    Interchange(t, W3, d * d * d, W2 * W2 * W2);
    Reassociate(t, d * d * d, W3 * W3 * W3);
  }

  // x3 and 2*y3 at the scale of the sum.
  lemma SumEnd(c: Curve, l: int, S: int, l6: int, t2: int, p8: int, s: int, t: int, x3: int, u: int)
    requires c.Valid()
    requires Cong(l6, l * S, c.p) && Cong(t2, s * (S * S), c.p) && Cong(p8, t * (S * S * S), c.p)
    requires Cong(x3, l6 * l6 - t2, c.p) && u == l * l - s
    ensures Cong(x3, u * (S * S), c.p)
    ensures Cong((t2 - 2 * x3) * l6 - p8, (l * (s - 2 * u) - t) * (S * S * S), c.p)
  {
    MulCong(l6, l * S, l6, l * S, c.p);
    Interchange(l, S, l, S);
    AddCong(l6 * l6, (l * l) * (S * S), t2, s * (S * S), c.p);
    Distribute2(l * l, s, S * S);
    SumEndY(c, l, S, l6, t2, p8, s, t, x3, u);
  }

  lemma SumEndY(c: Curve, l: int, S: int, l6: int, t2: int, p8: int, s: int, t: int, x3: int, u: int)
    requires c.Valid()
    requires Cong(l6, l * S, c.p) && Cong(t2, s * (S * S), c.p) && Cong(p8, t * (S * S * S), c.p)
    requires Cong(x3, u * (S * S), c.p)
    ensures Cong((t2 - 2 * x3) * l6 - p8, (l * (s - 2 * u) - t) * (S * S * S), c.p)
  {
    MulCong(2, 2, x3, u * (S * S), c.p);
    AddCong(t2, s * (S * S), 2 * x3, 2 * (u * (S * S)), c.p);
    Reassociate(2, u, S * S);
    Distribute2(s, 2 * u, S * S);
    MulCong(t2 - 2 * x3, (s - 2 * u) * (S * S), l6, l * S, c.p);
    Interchange(s - 2 * u, S * S, l, S);
    AddCong((t2 - 2 * x3) * l6, ((s - 2 * u) * l) * (S * S * S), p8, t * (S * S * S), c.p);
    Distribute2((s - 2 * u) * l, t, S * S * S);
    Swap(s - 2 * u, l);
  }

  // Halving: what twice y3 is congruent to, y3 is the half of.
  lemma Halve(c: Curve, n: int, v: int, q: int, w: int)
    requires c.Valid() && Cong(n, w * q, c.p) && Cong(w, 2 * v, c.p)
    ensures Cong(Mod(n * c.inv(2), c.p), v * q, c.p)
  {
    var h := c.inv(2);
    MulCong(w, 2 * v, q, q, c.p);
    MulCong(n, (2 * v) * q, h, h, c.p);
    HalveIdentity(v, q, h);
    By(((2 * v) * q) * h, v * q, v * q, 2 * h, 1, c.p);
  }

  lemma HalveIdentity(v: int, q: int, h: int)
    ensures ((2 * v) * q) * h == v * q + (v * q) * (2 * h - 1)
  {
  }

  // Both ordinates lie on the line.
  lemma TwiceY(c: Curve, l: int, x1: int, x2: int, y1: int, y2: int, u: int)
    requires c.Valid() && Cong(l * (x1 - x2), y1 - y2, c.p)
    ensures Cong(l * (x1 + x2 - 2 * u) - (y1 + y2), 2 * (l * (x1 - u) - y1), c.p)
  {
    TwiceYIdentity(l, x1, x2, y1, y2, u);
    By(l * (x1 + x2 - 2 * u) - (y1 + y2), 2 * (l * (x1 - u) - y1), -1, l * (x1 - x2), y1 - y2, c.p);
  }

  lemma TwiceYIdentity(l: int, x1: int, x2: int, y1: int, y2: int, u: int)
    ensures l * (x1 + x2 - 2 * u) - (y1 + y2) == 2 * (l * (x1 - u) - y1) + (-1) * (l * (x1 - x2) - (y1 - y2))
  {
  }

  // The coordinates of the sum at its scale.
  lemma SumValues(c: Curve, l: int, S: int, l6: int, t2: int, p8: int, x1: int, x2: int, y1: int, y2: int, x3: int)
    requires c.Valid() && Cong(l * (x1 - x2), y1 - y2, c.p)
    requires Cong(l6, l * S, c.p) && Cong(t2, (x1 + x2) * (S * S), c.p) && Cong(p8, (y1 + y2) * (S * S * S), c.p)
    requires Cong(x3, l6 * l6 - t2, c.p)
    ensures var u := l * l - x1 - x2;
      Scaled(c, x3, Mod(((t2 - 2 * x3) * l6 - p8) * c.inv(2), c.p), S, u, l * (x1 - u) - y1)
  {
    var u := l * l - x1 - x2;
    SumEnd(c, l, S, l6, t2, p8, x1 + x2, y1 + y2, x3, u);
    TwiceY(c, l, x1, x2, y1, y2, u);
    Halve(c, (t2 - 2 * x3) * l6 - p8, l * (x1 - u) - y1, S * S * S, l * (x1 + x2 - 2 * u) - (y1 + y2));
  }

  lemma SumPointScaled(c: Curve, l: int, W: int, l1: int, l2: int, l4: int, l5: int, A: Affine, B: Affine)
    requires c.Valid() && A.Point? && B.Point? && Cong(l * (A.x - B.x), A.y - B.y, c.p)
    requires Cong(l1 - l2, (A.x - B.x) * (W * W), c.p) && Cong(l1 + l2, (A.x + B.x) * (W * W), c.p)
    requires Cong(l4 - l5, (A.y - B.y) * (W * W * W), c.p) && Cong(l4 + l5, (A.y + B.y) * (W * W * W), c.p)
    ensures var R := SumPoint(c, W, l1, l2, l4, l5);
      var u := l * l - A.x - B.x;
      var S := (A.x - B.x) * (W * W * W);
      Scaled(c, R.x, R.y, S, u, l * (A.x - u) - A.y) && Cong(R.z, S, c.p)
  {
    var d, e := A.x - B.x, A.y - B.y;
    var l3, l6 := Mod(l1 - l2, c.p), Mod(l4 - l5, c.p);
    var S := d * (W * W * W);
    SumScale(c, l3, l6, W, d, e, l);
    SumProducts(c, l3, l1 + l2, l4 + l5, W, d, A.x + B.x, A.y + B.y);
    var t2 := Mod((l1 + l2) * (l3 * l3), c.p);
    var x3 := Mod(l6 * l6 - t2, c.p);
    SumValues(c, l, S, l6, t2, (l4 + l5) * (l3 * l3 * l3), A.x, B.x, A.y, B.y, x3);
  }

  lemma SumPointIsThird(c: Curve, l: int, W: int, l1: int, l2: int, l4: int, l5: int, A: Affine, B: Affine)
    requires c.Valid() && A.Point? && B.Point? && Cong(l * (A.x - B.x), A.y - B.y, c.p)
    requires Cong(l1 - l2, (A.x - B.x) * (W * W), c.p) && Cong(l1 + l2, (A.x + B.x) * (W * W), c.p)
    requires Cong(l4 - l5, (A.y - B.y) * (W * W * W), c.p) && Cong(l4 + l5, (A.y + B.y) * (W * W * W), c.p)
    requires SumPoint(c, W, l1, l2, l4, l5).z != 0
    ensures Represents(c, SumPoint(c, W, l1, l2, l4, l5), ThirdPoint(c, l, A.x, B.x, A.y))
  {
    var R := SumPoint(c, W, l1, l2, l4, l5);
    var u := l * l - A.x - B.x;
    var T := ThirdPoint(c, l, A.x, B.x, A.y);
    SumPointScaled(c, l, W, l1, l2, l4, l5, A, B);
    ThirdPointReduced(c, l, A.x, B.x, A.y);
    Rescale(c, R.x, R.y, (A.x - B.x) * (W * W * W), u, l * (A.x - u) - A.y, R.z, T.x, T.y);
  }

  lemma AddDistinct(c: Curve, P: Jac, Q: Jac, A: Affine, B: Affine)
    requires c.Valid() && Represents(c, P, A) && Represents(c, Q, B)
    requires P.z != 0 && Q.z != 0 && A.x != B.x
    ensures Represents(c, AddTail(c, P, Q, Mod(P.x * (Q.z * Q.z), c.p), Mod(Q.x * (P.z * P.z), c.p)), Add(c, A, B))
  {
    DistinctAbscissae(c, A.x, B.x);
    var W := P.z * Q.z;
    var l1, l2 := Mod(P.x * (Q.z * Q.z), c.p), Mod(Q.x * (P.z * P.z), c.p);
    var l4, l5 := Mod(P.y * (Q.z * Q.z * Q.z), c.p), Mod(Q.y * (P.z * P.z * P.z), c.p);
    Common(c, P, Q, A, B, W, l1, l2, l4, l5);
    ScaleNonZero(c, P.z, Q.z, A.x - B.x, Mod(l1 - l2, c.p), W);
    SumPointIsThird(c, Quot(c, A.y - B.y, A.x - B.x), W, l1, l2, l4, l5, A, B);
  }

  // The two points brought to the common scale.
  lemma Common(c: Curve, P: Jac, Q: Jac, A: Affine, B: Affine, W: int, l1: int, l2: int, l4: int, l5: int)
    requires c.Valid() && Represents(c, P, A) && Represents(c, Q, B) && P.z != 0 && Q.z != 0
    requires W == P.z * Q.z
    requires l1 == Mod(P.x * (Q.z * Q.z), c.p) && l2 == Mod(Q.x * (P.z * P.z), c.p)
    requires l4 == Mod(P.y * (Q.z * Q.z * Q.z), c.p) && l5 == Mod(Q.y * (P.z * P.z * P.z), c.p)
    ensures Cong(l1 - l2, (A.x - B.x) * (W * W), c.p) && Cong(l1 + l2, (A.x + B.x) * (W * W), c.p)
    ensures Cong(l4 - l5, (A.y - B.y) * (W * W * W), c.p) && Cong(l4 + l5, (A.y + B.y) * (W * W * W), c.p)
  {
    Swap(P.z, Q.z);
    CommonX(c, P.x, P.z, A.x, Q.z);
    CommonX(c, Q.x, Q.z, B.x, P.z);
    CommonY(c, P.y, P.z, A.y, Q.z);
    CommonY(c, Q.y, Q.z, B.y, P.z);
    SumDifference(c, l1, A.x, l2, B.x, W * W);
    SumDifference(c, l4, A.y, l5, B.y, W * W * W);
  }

  lemma SumDifference(c: Curve, m: int, x: int, n: int, y: int, q: int)
    requires c.Valid() && Cong(m, x * q, c.p) && Cong(n, y * q, c.p)
    ensures Cong(m - n, (x - y) * q, c.p) && Cong(m + n, (x + y) * q, c.p)
  {
    AddCong(m, x * q, n, y * q, c.p);
    Distribute2(x, y, q);
    assert x * q + y * q == (x + y) * q;
  }

  lemma ScaleNonZero(c: Curve, z1: int, z2: int, d: int, l3: int, W: int)
    requires c.Valid() && 0 < z1 < c.p && 0 < z2 < c.p && !Cong(d, 0, c.p)
    requires W == z1 * z2 && Cong(l3, d * (W * W), c.p)
    ensures !Cong(W, 0, c.p) && !Cong(l3, 0, c.p) && !Cong(W * l3, 0, c.p)
  {
    NonZeroResidue(c, z1);
    NonZeroResidue(c, z2);
    NonZero(c, z1, z2);
    NonZero(c, W, W);
    NonZero(c, d, W * W);
    NonZero(c, W, l3);
  }

  // At the common scale, equal coordinates are equal.
  lemma EqualScaled(c: Curve, m: int, x: int, n: int, y: int, q: int)
    requires c.Valid() && 0 <= x < c.p && 0 <= y < c.p && !Cong(q, 0, c.p)
    requires Cong(m - n, (x - y) * q, c.p)
    ensures Mod(m - n, c.p) == 0 <==> x == y
  {
    if x == y {
      assert (x - y) * q == 0;
    } else {
      DistinctAbscissae(c, x, y);
      NonZero(c, x - y, q);
    }
  }

  /** Addition refines the chord-and-tangent law, for all pairs of points:
      infinity, equal and opposite points included. */
  lemma AddRefines(c: Curve, P: Jac, Q: Jac, A: Affine, B: Affine)
    requires c.Valid() && Represents(c, P, A) && Represents(c, Q, B)
    ensures Represents(c, AddFormula(c, P, Q), Add(c, A, B))
  {
    DoubleRefines(c, P, A);
    if P == Q {
      RepresentsUnique(c, P, A);
      RepresentsUnique(c, P, B);
    } else if P.z != 0 && Q.z != 0 {
      if A.x != B.x {
        AddDistinct(c, P, Q, A, B);
      } else {
        AddSameAbscissa(c, P, Q, A, B);
      }
    }
  }

  lemma AddSameAbscissa(c: Curve, P: Jac, Q: Jac, A: Affine, B: Affine)
    requires c.Valid() && Represents(c, P, A) && Represents(c, Q, B)
    requires P.z != 0 && Q.z != 0 && A.x == B.x
    ensures var R := AddTail(c, P, Q, Mod(P.x * (Q.z * Q.z), c.p), Mod(Q.x * (P.z * P.z), c.p));
      R == if A == B then DoubleFormula(c, P) else INFINITE
  {
    var W := P.z * Q.z;
    var l1, l2 := Mod(P.x * (Q.z * Q.z), c.p), Mod(Q.x * (P.z * P.z), c.p);
    var l4, l5 := Mod(P.y * (Q.z * Q.z * Q.z), c.p), Mod(Q.y * (P.z * P.z * P.z), c.p);
    Common(c, P, Q, A, B, W, l1, l2, l4, l5);
    NonZeroResidue(c, P.z);
    NonZeroResidue(c, Q.z);
    NonZero(c, P.z, Q.z);
    NonZero(c, W, W);
    NonZero(c, W * W, W);
    EqualScaled(c, l1, A.x, l2, B.x, W * W);
    EqualScaled(c, l4, A.y, l5, B.y, W * W * W);
  }
}
