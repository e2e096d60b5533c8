/** The arithmetic of ec.c: points and a context of mutable big integers, with
    doubling, addition and conversion in place over shared scratch variables. */
module EllipticCurve {
  import opened Field
  import opened AffineCurve
  import opened Jacobian

  // mpi_point_t: every operation writes the fields of its result.
  class MpiPoint {
    var x: int
    var y: int
    var z: int

    constructor ()
      ensures Value() == Jac(0, 0, 0)
    {
      x, y, z := 0, 0, 0;
    }

    ghost function Value(): Jac
      reads this
    {
      Jac(x, y, z)
    }

    // point_set
    method Set(s: MpiPoint)
      modifies this
      ensures Value() == old(s.Value())
    {
      x := s.x;
      y := s.y;
      z := s.z;
    }
  }

  // mpi_ec_ctx_s
  class Context {
    const c: Curve
    const aIsPMinus3: bool
    const twoInvP: int
    const scratch: array<int>

    ghost predicate Valid() {
      && c.Valid()
      && aIsPMinus3 == (c.a == c.p - 3)
      && twoInvP == c.inv(2)
      && scratch.Length == 11
    }

    // _gcry_mpi_ec_init
    constructor (c: Curve)
      requires c.Valid()
      ensures Valid() && this.c == c && fresh(scratch)
    {
      this.c := c;
      aIsPMinus3 := c.a == c.p - 3;
      twoInvP := c.inv(2);
      scratch := new int[11];
    }

    function AddM(u: int, v: int): int requires c.p > 0 { Mod(u + v, c.p) }
    function SubM(u: int, v: int): int requires c.p > 0 { Mod(u - v, c.p) }
    function MulM(u: int, v: int): int requires c.p > 0 { Mod(u * v, c.p) }
    function PowM(u: int, e: nat): int requires c.p > 0 { Mod(Power(u, e), c.p) }
  }

  function Power(u: int, e: nat): int {
    if e == 0 then 1 else u * Power(u, e - 1)
  }

  lemma PowerTwo(u: int)
    ensures Power(u, 2) == u * u
  {
    assert Power(u, 1) == u;
  }

  lemma PowerThree(u: int)
    ensures Power(u, 3) == u * u * u
  {
    PowerTwo(u);
    assert Power(u, 3) == u * Power(u, 2);
  }

  lemma PowerFour(u: int)
    ensures Power(u, 4) == (u * u) * (u * u)
  {
    PowerThree(u);
    assert Power(u, 4) == u * Power(u, 3);
  }

  // ------------------------------------------------------------------
  // The steps of doubling compute the values of the formula

  lemma FastSlope(c: Curve, x: int, z2: int, t1: int, l1: int, t2: int)
    requires c.Valid() && c.a == c.p - 3
    requires t1 == Mod(z2, c.p) && l1 == Mod(Mod(x - t1, c.p) * 3, c.p) && t2 == Mod(x + t1, c.p)
    ensures Mod(l1 * t2, c.p) == Mod(3 * (x * x) + c.a * (z2 * z2), c.p)
  {
    AddCong(x, x, t1, z2, c.p);
    MulCong(Mod(x - t1, c.p), x - z2, 3, 3, c.p);
    MulCong(l1, (x - z2) * 3, t2, x + z2, c.p);
    ModShift(0, 1, c.p);
    FastSlopeIdentity(x, z2, c.a, c.p);
    By(((x - z2) * 3) * (x + z2), 3 * (x * x) + c.a * (z2 * z2), -(z2 * z2), c.p, 0, c.p);
  }

  lemma FastSlopeIdentity(x: int, z2: int, a: int, p: int)
    requires a == p - 3
    ensures ((x - z2) * 3) * (x + z2) == 3 * (x * x) + a * (z2 * z2) + (-(z2 * z2)) * (p - 0)
  {
    assert (x - z2) * (x + z2) == x * x - z2 * z2;
    assert ((x - z2) * 3) * (x + z2) == 3 * ((x - z2) * (x + z2));
    assert a * (z2 * z2) == p * (z2 * z2) - 3 * (z2 * z2);
  }

  lemma SlowSlope(c: Curve, x2: int, q: int, l1: int, t1: int)
    requires c.Valid()
    requires l1 == Mod(Mod(x2, c.p) * 3, c.p) && t1 == Mod(Mod(q, c.p) * c.a, c.p)
    ensures Mod(l1 + t1, c.p) == Mod(3 * x2 + c.a * q, c.p)
  {
    MulCong(Mod(x2, c.p), x2, 3, 3, c.p);
    MulCong(Mod(q, c.p), q, c.a, c.a, c.p);
    AddCong(l1, x2 * 3, t1, q * c.a, c.p);
    Swap(q, c.a);
  }

  // w = (u*v)*k
  lemma Product(c: Curve, u: int, v: int, k: int)
    requires c.Valid()
    ensures Mod(Mod(u * v, c.p) * k, c.p) == Mod(k * (u * v), c.p)
  {
    MulCong(Mod(u * v, c.p), u * v, k, k, c.p);
    Swap(u * v, k);
  }

  lemma FourXY(c: Curve, t2: int, y2: int, x: int)
    requires c.Valid() && t2 == Mod(y2, c.p)
    ensures Mod(Mod(t2 * x, c.p) * 4, c.p) == Mod(4 * (x * y2), c.p)
  {
    MulCong(t2, y2, x, x, c.p);
    Swap(y2, x);
    MulCong(Mod(t2 * x, c.p), x * y2, 4, 4, c.p);
    Swap(x * y2, 4);
  }

  lemma LessTwice(c: Curve, m: int, l2: int)
    requires c.Valid()
    ensures Mod(Mod(m, c.p) - Mod(l2 * 2, c.p), c.p) == Mod(m - 2 * l2, c.p)
  {
    AddCong(Mod(m, c.p), m, Mod(l2 * 2, c.p), l2 * 2, c.p);
  }

  lemma EightY4(c: Curve, t2: int, y2: int)
    requires c.Valid() && t2 == Mod(y2, c.p)
    ensures Mod(Mod(t2 * t2, c.p) * 8, c.p) == Mod(8 * (y2 * y2), c.p)
  {
    MulCong(t2, y2, t2, y2, c.p);
    MulCong(Mod(t2 * t2, c.p), y2 * y2, 8, 8, c.p);
    Swap(y2 * y2, 8);
  }

  lemma LastOrdinate(c: Curve, d: int, l1: int, l3: int)
    requires c.Valid()
    ensures Mod(Mod(Mod(d, c.p) * l1, c.p) - l3, c.p) == Mod(l1 * d - l3, c.p)
  {
    MulCong(Mod(d, c.p), d, l1, l1, c.p);
    Swap(d, l1);
    AddCong(Mod(Mod(d, c.p) * l1, c.p), l1 * d, l3, l3, c.p);
  }

  // The slope, the first part of doubling; leaves y^2 and z^2 aside.
  method DupSlope(point: MpiPoint, ctx: Context)
    requires ctx.Valid()
    modifies ctx.scratch
    ensures ctx.scratch[3] == Mod(3 * (point.x * point.x) + ctx.c.a * ((point.z * point.z) * (point.z * point.z)), ctx.c.p)
  {
    var s := ctx.scratch;
    if ctx.aIsPMinus3 {
      PowerTwo(point.z);
      s[0] := ctx.PowM(point.z, 2);
      s[3] := ctx.SubM(point.x, s[0]);
      s[3] := ctx.MulM(s[3], 3);
      s[1] := ctx.AddM(point.x, s[0]);
      FastSlope(ctx.c, point.x, point.z * point.z, s[0], s[3], s[1]);
      s[3] := ctx.MulM(s[3], s[1]);
    } else {
      PowerTwo(point.x);
      PowerFour(point.z);
      s[3] := ctx.PowM(point.x, 2);
      s[3] := ctx.MulM(s[3], 3);
      s[0] := ctx.PowM(point.z, 4);
      s[0] := ctx.MulM(s[0], ctx.c.a);
      SlowSlope(ctx.c, point.x * point.x, (point.z * point.z) * (point.z * point.z), s[3], s[0]);
      s[3] := ctx.AddM(s[3], s[0]);
    }
  }

  // Z3 = 2YZ and L2 = 4XY^2; the square of Y stays in the second scratch
  // variable.
  method DupScale(result: MpiPoint, point: MpiPoint, ctx: Context)
    requires ctx.Valid()
    modifies result`z, ctx.scratch
    ensures result.z == Mod(2 * (old(point.y) * old(point.z)), ctx.c.p)
    ensures ctx.scratch[1] == Mod(point.y * point.y, ctx.c.p)
    ensures ctx.scratch[4] == Mod(4 * (point.x * (point.y * point.y)), ctx.c.p)
    ensures ctx.scratch[3] == old(ctx.scratch[3])
  {
    var s := ctx.scratch;
    Product(ctx.c, point.y, point.z, 2);
    result.z := ctx.MulM(point.y, point.z);
    result.z := ctx.MulM(result.z, 2);
    PowerTwo(point.y);
    s[1] := ctx.PowM(point.y, 2);
    FourXY(ctx.c, s[1], point.y * point.y, point.x);
    s[4] := ctx.MulM(s[1], point.x);
    s[4] := ctx.MulM(s[4], 4);
  }

  // X3 = L1^2 - 2*L2
  method DupX(result: MpiPoint, ctx: Context)
    requires ctx.Valid()
    modifies result`x, ctx.scratch
    ensures var l1, l2 := old(ctx.scratch[3]), old(ctx.scratch[4]);
      result.x == Mod(l1 * l1 - 2 * l2, ctx.c.p)
    ensures forall i :: 1 <= i < 11 ==> ctx.scratch[i] == old(ctx.scratch[i])
  {
    var s := ctx.scratch;
    PowerTwo(s[3]);
    LessTwice(ctx.c, s[3] * s[3], s[4]);
    result.x := ctx.PowM(s[3], 2);
    s[0] := ctx.MulM(s[4], 2);
    result.x := ctx.SubM(result.x, s[0]);
  }

  // L3 = 8Y^4 and Y3 = L1(L2 - X3) - L3
  method DupY(result: MpiPoint, ctx: Context, ghost y2: int)
    requires ctx.Valid() && ctx.scratch[1] == Mod(y2, ctx.c.p)
    modifies result`y, ctx.scratch
    ensures var l1, l2 := old(ctx.scratch[3]), old(ctx.scratch[4]);
      result.y == Mod(l1 * (l2 - result.x) - Mod(8 * (y2 * y2), ctx.c.p), ctx.c.p)
  {
    var s := ctx.scratch;
    EightY4(ctx.c, s[1], y2);
    PowerTwo(s[1]);
    s[1] := ctx.PowM(s[1], 2);
    s[5] := ctx.MulM(s[1], 8);
    LastOrdinate(ctx.c, s[4] - result.x, s[3], s[5]);
    result.y := ctx.SubM(s[4], result.x);
    result.y := ctx.MulM(result.y, s[3]);
    result.y := ctx.SubM(result.y, s[5]);
  }

  /** _gcry_mpi_ec_dup_point.  The result may be the argument itself: every
      field is read for the last time before it is written. */
  method DupPoint(result: MpiPoint, point: MpiPoint, ctx: Context)
    requires ctx.Valid() && Reduced(ctx.c, point.Value())
    modifies result, ctx.scratch
    ensures result.Value() == DoubleFormula(ctx.c, old(point.Value()))
  {
    if point.y == 0 || point.z == 0 {
      result.x := 1;
      result.y := 1;
      result.z := 0;
    } else {
      ghost var y2 := point.y * point.y;
      DupSlope(point, ctx);
      DupScale(result, point, ctx);
      DupX(result, ctx);
      DupY(result, ctx, y2);
    }
  }

  // ------------------------------------------------------------------
  // Addition

  /** What the addition computes.  It is the formula of the standard except in
      one place: when z1 is one, the second abscissa is taken from the first
      point. */
  function CodeAdd(c: Curve, P: Jac, Q: Jac): Jac
    requires c.p > 0
  {
    if P == Q then DoubleFormula(c, P)
    else if P.z == 0 then Q
    else if Q.z == 0 then P
    else AddTail(c, P, Q, if Q.z == 1 then P.x else Mod(P.x * (Q.z * Q.z), c.p),
                          if P.z == 1 then P.x else Mod(Q.x * (P.z * P.z), c.p))
  }

  lemma Cube(c: Curve, z: int, y: int)
    requires c.Valid()
    ensures Mod(Mod(Power(z, 3), c.p) * y, c.p) == Mod(y * (z * z * z), c.p)
  {
    PowerThree(z);
    MulCong(Mod(z * z * z, c.p), z * z * z, y, y, c.p);
    Swap(z * z * z, y);
  }

  lemma Squared(c: Curve, z: int, x: int)
    requires c.Valid()
    ensures Mod(Mod(Power(z, 2), c.p) * x, c.p) == Mod(x * (z * z), c.p)
  {
    PowerTwo(z);
    MulCong(Mod(z * z, c.p), z * z, x, x, c.p);
    Swap(z * z, x);
  }

  // l1, l2 and l3: the abscissae at the common scale.
  method AddScaledX(p1: MpiPoint, p2: MpiPoint, ctx: Context)
    requires ctx.Valid()
    modifies ctx.scratch
    ensures var (s, p) := (ctx.scratch, ctx.c.p);
      && s[0] == (if p2.z == 1 then p1.x else Mod(p1.x * (p2.z * p2.z), p))
      && s[1] == (if p1.z == 1 then p1.x else Mod(p2.x * (p1.z * p1.z), p))
      && s[2] == Mod(s[0] - s[1], p)
  {
    var s := ctx.scratch;
    Squared(ctx.c, p2.z, p1.x);
    Squared(ctx.c, p1.z, p2.x);
    if p2.z == 1 {
      s[0] := p1.x;
    } else {
      s[0] := ctx.PowM(p2.z, 2);
      s[0] := ctx.MulM(s[0], p1.x);
    }
    if p1.z == 1 {
      s[1] := p1.x;
    } else {
      s[1] := ctx.PowM(p1.z, 2);
      s[1] := ctx.MulM(s[1], p2.x);
    }
    s[2] := ctx.SubM(s[0], s[1]);
  }

  // l4, l5 and l6: the ordinates.
  method AddScaledY(p1: MpiPoint, p2: MpiPoint, ctx: Context)
    requires ctx.Valid()
    modifies ctx.scratch
    ensures forall i :: 0 <= i < 3 ==> ctx.scratch[i] == old(ctx.scratch[i])
    ensures var (s, p) := (ctx.scratch, ctx.c.p);
      && s[3] == Mod(p1.y * (p2.z * p2.z * p2.z), p)
      && s[4] == Mod(p2.y * (p1.z * p1.z * p1.z), p)
      && s[5] == Mod(s[3] - s[4], p)
  {
    var s := ctx.scratch;
    Cube(ctx.c, p2.z, p1.y);
    Cube(ctx.c, p1.z, p2.y);
    s[3] := ctx.PowM(p2.z, 3);
    s[3] := ctx.MulM(s[3], p1.y);
    s[4] := ctx.PowM(p1.z, 3);
    s[4] := ctx.MulM(s[4], p2.y);
    s[5] := ctx.SubM(s[3], s[4]);
  }

  lemma MulReduced(c: Curve, u: int, v: int)
    requires c.Valid()
    ensures Mod(Mod(u, c.p) * Mod(v, c.p), c.p) == Mod(u * v, c.p)
    ensures Mod(Mod(u, c.p) * v, c.p) == Mod(u * v, c.p)
  {
    MulCong(Mod(u, c.p), u, Mod(v, c.p), v, c.p);
    MulCong(Mod(u, c.p), u, v, v, c.p);
  }

  // z3, x3, and l7*l3^2 in the last scratch variable.
  method AddSumX(result: MpiPoint, p1: MpiPoint, p2: MpiPoint, ctx: Context)
    requires ctx.Valid()
    modifies result`x, result`z, ctx.scratch
    ensures forall i :: 0 <= i < 6 ==> ctx.scratch[i] == old(ctx.scratch[i])
    ensures var (s, p) := (ctx.scratch, ctx.c.p);
      && result.z == Mod((old(p1.z) * old(p2.z)) * s[2], p)
      && s[7] == Mod(s[3] + s[4], p)
      && s[10] == Mod((s[0] + s[1]) * (s[2] * s[2]), p)
      && result.x == Mod(s[5] * s[5] - s[10], p)
  {
    var s := ctx.scratch;
    s[6] := ctx.AddM(s[0], s[1]);
    s[7] := ctx.AddM(s[3], s[4]);
    MulReduced(ctx.c, p1.z * p2.z, s[2]);
    result.z := ctx.MulM(p1.z, p2.z);
    result.z := ctx.MulM(result.z, s[2]);
    PowerTwo(s[5]);
    PowerTwo(s[2]);
    MulReduced(ctx.c, s[2] * s[2], s[0] + s[1]);
    Swap(s[2] * s[2], s[0] + s[1]);
    s[9] := ctx.PowM(s[5], 2);
    s[10] := ctx.PowM(s[2], 2);
    s[10] := ctx.MulM(s[10], s[6]);
    AddCong(s[9], s[5] * s[5], s[10], s[10], ctx.c.p);
    result.x := ctx.SubM(s[9], s[10]);
  }

  lemma TwiceOrdinate(c: Curve, t2: int, x3: int, l6: int, q: int, l8: int)
    requires c.Valid()
    ensures Cong(Mod(Mod(t2 - Mod(x3 * 2, c.p), c.p) * l6, c.p) - Mod(Mod(q, c.p) * Mod(l8, c.p), c.p),
                 (t2 - 2 * x3) * l6 - l8 * q, c.p)
  {
    AddCong(t2, t2, Mod(x3 * 2, c.p), 2 * x3, c.p);
    MulCong(Mod(t2 - Mod(x3 * 2, c.p), c.p), t2 - 2 * x3, l6, l6, c.p);
    MulReduced(c, q, l8);
    Swap(q, l8);
    AddCong(Mod(Mod(t2 - Mod(x3 * 2, c.p), c.p) * l6, c.p), (t2 - 2 * x3) * l6,
            Mod(Mod(q, c.p) * Mod(l8, c.p), c.p), l8 * q, c.p);
  }

  lemma Half(c: Curve, m: int, n: int)
    requires c.Valid() && Cong(m, n, c.p)
    ensures Mod(Mod(m, c.p) * c.inv(2), c.p) == Mod(n * c.inv(2), c.p)
  {
    MulReduced(c, m, c.inv(2));
    MulCong(m, n, c.inv(2), c.inv(2), c.p);
  }

  // y3
  method AddSumY(result: MpiPoint, ctx: Context, ghost l8: int)
    requires ctx.Valid() && ctx.scratch[7] == Mod(l8, ctx.c.p)
    modifies result`y, ctx.scratch
    ensures var (l3, l6, t2) := (old(ctx.scratch[2]), old(ctx.scratch[5]), old(ctx.scratch[10]));
      result.y == Mod(((t2 - 2 * result.x) * l6 - l8 * (l3 * l3 * l3)) * ctx.c.inv(2), ctx.c.p)
  {
    hide Mod;
    var s := ctx.scratch;
    s[9] := ctx.MulM(result.x, 2);
    s[8] := ctx.SubM(s[10], s[9]);
    s[8] := ctx.MulM(s[8], s[5]);
    s[9] := ctx.PowM(s[2], 3);
    s[9] := ctx.MulM(s[9], s[7]);
    PowerThree(s[2]);
    TwiceOrdinate(ctx.c, s[10], result.x, s[5], s[2] * s[2] * s[2], l8);
    Half(ctx.c, s[8] - s[9], (s[10] - 2 * result.x) * s[5] - l8 * (s[2] * s[2] * s[2]));
    result.y := ctx.SubM(s[8], s[9]);
    result.y := ctx.MulM(result.y, ctx.twoInvP);
  }

  // The general case: the sum of points with different abscissae.
  method AddSum(result: MpiPoint, p1: MpiPoint, p2: MpiPoint, ctx: Context)
    requires ctx.Valid()
    requires ctx.scratch[2] == Mod(ctx.scratch[0] - ctx.scratch[1], ctx.c.p)
    requires ctx.scratch[5] == Mod(ctx.scratch[3] - ctx.scratch[4], ctx.c.p)
    modifies result, ctx.scratch
    ensures result.Value() == SumPoint(ctx.c, old(p1.z) * old(p2.z), old(ctx.scratch[0]), old(ctx.scratch[1]),
                                       old(ctx.scratch[3]), old(ctx.scratch[4]))
  {
    hide Mod, SumPoint;
    ghost var s, W := ctx.scratch, p1.z * p2.z;
    ghost var l3, l6, l8 := s[2], s[5], s[3] + s[4];
    ghost var t2 := Mod((s[0] + s[1]) * (l3 * l3), ctx.c.p);
    ghost var R := SumPoint(ctx.c, W, s[0], s[1], s[3], s[4]);
    SumPointFields(ctx.c, W, s[0], s[1], s[3], s[4], l3, l6, t2);
    AddSumX(result, p1, p2, ctx);
    assert result.x == R.x && result.z == R.z && s[10] == t2 && s[2] == l3 && s[5] == l6;
    AddSumY(result, ctx, l8);
  }

  lemma SumPointFields(c: Curve, W: int, l1: int, l2: int, l4: int, l5: int, l3: int, l6: int, t2: int)
    requires c.Valid() && l3 == Mod(l1 - l2, c.p) && l6 == Mod(l4 - l5, c.p)
    requires t2 == Mod((l1 + l2) * (l3 * l3), c.p)
    ensures var R := SumPoint(c, W, l1, l2, l4, l5);
      && R.x == Mod(l6 * l6 - t2, c.p)
      && R.y == Mod(((t2 - 2 * R.x) * l6 - (l4 + l5) * (l3 * l3 * l3)) * c.inv(2), c.p)
      && R.z == Mod(W * l3, c.p)
  {
  }

  // The case of two finite points.
  method AddFinite(result: MpiPoint, p1: MpiPoint, p2: MpiPoint, ctx: Context)
    requires ctx.Valid() && Reduced(ctx.c, p1.Value()) && Reduced(ctx.c, p2.Value())
    modifies result, ctx.scratch
    ensures var (P, Q, p) := (old(p1.Value()), old(p2.Value()), ctx.c.p);
      result.Value() == AddTail(ctx.c, P, Q, if Q.z == 1 then P.x else Mod(P.x * (Q.z * Q.z), p),
                                             if P.z == 1 then P.x else Mod(Q.x * (P.z * P.z), p))
  {
    AddScaledX(p1, p2, ctx);
    AddScaledY(p1, p2, ctx);
    if ctx.scratch[2] == 0 {
      if ctx.scratch[5] == 0 {
        DupPoint(result, p1, ctx);
      } else {
        result.x := 1;
        result.y := 1;
        result.z := 0;
      }
    } else {
      AddSum(result, p1, p2, ctx);
    }
  }

  /** _gcry_mpi_ec_add_points.  The result may be either argument. */
  method AddPoints(result: MpiPoint, p1: MpiPoint, p2: MpiPoint, ctx: Context)
    requires ctx.Valid() && Reduced(ctx.c, p1.Value()) && Reduced(ctx.c, p2.Value())
    modifies result, ctx.scratch
    ensures result.Value() == CodeAdd(ctx.c, old(p1.Value()), old(p2.Value()))
  {
    if p1.x == p2.x && p1.y == p2.y && p1.z == p2.z {
      DupPoint(result, p1, ctx);
    } else if p1.z == 0 {
      result.Set(p2);
    } else if p2.z == 0 {
      result.Set(p1);
    } else {
      AddFinite(result, p1, p2, ctx);
    }
  }

  // ------------------------------------------------------------------
  // When the addition is right

  /** The guard of the branch that departs from the formula. */
  predicate SafeToAdd(P: Jac, Q: Jac) {
    P.z != 1 || Q.z == 0 || P.x == Q.x
  }

  lemma OneScale(c: Curve, x: int)
    requires c.Valid() && 0 <= x < c.p
    ensures Mod(x * (1 * 1), c.p) == x
  {
  }

  lemma SafeAddIsFormula(c: Curve, P: Jac, Q: Jac)
    requires c.Valid() && Reduced(c, P) && Reduced(c, Q) && SafeToAdd(P, Q)
    ensures CodeAdd(c, P, Q) == AddFormula(c, P, Q)
  {
    OneScale(c, P.x);
    OneScale(c, Q.x);
  }

  /** Under the guard, the addition as coded refines the chord-and-tangent
      law. */
  lemma SafeAddRefines(c: Curve, P: Jac, Q: Jac, A: Affine, B: Affine)
    requires c.Valid() && Represents(c, P, A) && Represents(c, Q, B) && SafeToAdd(P, Q)
    ensures Represents(c, CodeAdd(c, P, Q), Add(c, A, B))
  {
    SafeAddIsFormula(c, P, Q);
    AddRefines(c, P, Q, A, B);
  }

  lemma UnsafeAdd(c: Curve, P: Jac, Q: Jac)
    requires c.Valid() && Reduced(c, P) && Reduced(c, Q) && P.z == 1 && Q.z == 1 && P.x != Q.x
    ensures CodeAdd(c, P, Q) == if P.y == Q.y then DoubleFormula(c, P) else INFINITE
  {
    assert Mod(P.x - P.x, c.p) == 0;
    OneCube(c, P.y);
    OneCube(c, Q.y);
    if P.y != Q.y {
      DistinctAbscissae(c, P.y, Q.y);
    }
  }

  lemma OneCube(c: Curve, y: int)
    requires c.Valid() && 0 <= y < c.p
    ensures Mod(y * (1 * 1 * 1), c.p) == y
  {
  }

  // Points of the curve with one ordinate: a third abscissa that repeats the
  // first one makes it a tangent point of slope zero.
  lemma RepeatedAbscissa(c: Curve, x1: int, x2: int, y: int)
    requires c.Valid() && !Cong(x1 - x2, 0, c.p)
    requires Cong(Residual(c, x1, y), 0, c.p) && Cong(Residual(c, x2, y), 0, c.p)
    requires Cong(2 * x1 + x2, 0, c.p)
    ensures Cong(3 * x1 * x1 + c.a, 0, c.p)
  {
    var g := x1 * x1 + x1 * x2 + x2 * x2 + c.a;
    ResidualDifference(c, x1, x2, y);
    By2((x1 - x2) * g, 0, 1, Residual(c, x1, y), 0, -1, Residual(c, x2, y), 0, c.p);
    assert (x1 - x2) * 0 == 0;
    Cancel(c, x1 - x2, g, 0);
    RepeatedIdentity(x1, x2, c.a);
    By2(3 * x1 * x1 + c.a, 0, 1, g, 0, x1 - x2, 2 * x1 + x2, 0, c.p);
  }

  lemma ResidualDifference(c: Curve, x1: int, x2: int, y: int)
    ensures (x1 - x2) * (x1 * x1 + x1 * x2 + x2 * x2 + c.a) == Residual(c, x1, y) - Residual(c, x2, y)
  {
    CubeDifference(x1, x2);
    Spread(x1, x2, x1 * x1 + x1 * x2 + x2 * x2, c.a);
  }

  lemma Spread(u: int, v: int, e: int, a: int)
    ensures (u - v) * (e + a) == (u - v) * e + a * u - a * v
  {
  }

  lemma CubeDifference(x1: int, x2: int)
    ensures (x1 - x2) * (x1 * x1 + x1 * x2 + x2 * x2) == x1 * x1 * x1 - x2 * x2 * x2
  {
  }

  lemma RepeatedIdentity(x1: int, x2: int, a: int)
    ensures 3 * x1 * x1 + a == x1 * x1 + x1 * x2 + x2 * x2 + a + (x1 - x2) * (2 * x1 + x2)
  {
  }

  // If the tangent at A gives the same point as the horizontal chord, the
  // abscissae do not differ.
  lemma TangentIsNotChord(c: Curve, x1: int, x2: int, y: int, m: int, X: int)
    requires c.Valid() && 0 < y < c.p
    requires Cong(Residual(c, x1, y), 0, c.p) && Cong(Residual(c, x2, y), 0, c.p)
    requires Cong(m * (2 * y), 3 * x1 * x1 + c.a, c.p)
    requires Cong(X, m * m - x1 - x1, c.p) && Cong(X, 0 - x1 - x2, c.p)
    requires Cong(m * (x1 - X), 0, c.p)
    ensures Cong(x1 - x2, 0, c.p)
  {
    By(m * m, x1 - x2, 1, m * m - x1 - x1, 0 - x1 - x2, c.p);
    if Cong(m, 0, c.p) {
      MulCong(m, 0, m, m, c.p);
    } else if !Cong(x1 - x2, 0, c.p) {
      assert m * (x1 - X) == (x1 - X) * m;
      ZeroFactor(c, x1 - X, m);
      By2(2 * x1 + x2, 0, 1, x1 - X, 0, 1, X, 0 - x1 - x2, c.p);
      RepeatedAbscissa(c, x1, x2, y);
      TwoY(c, y);
      NonZero(c, m, 2 * y);
    }
  }

  lemma ZeroFactor(c: Curve, u: int, v: int)
    requires c.Valid() && Cong(u * v, 0, c.p) && !Cong(v, 0, c.p)
    ensures Cong(u, 0, c.p)
  {
    if !Cong(u, 0, c.p) {
      NonZero(c, u, v);
    }
  }

  lemma HorizontalChord(c: Curve, A: Affine, B: Affine)
    requires c.Valid() && Canonical(c, A) && Canonical(c, B)
    requires A.Point? && B.Point? && A.x != B.x && A.y == B.y
    ensures var R := Add(c, A, B); R.Point? && Cong(R.x, 0 - A.x - B.x, c.p) && Cong(R.y, -A.y, c.p)
  {
    DistinctAbscissae(c, A.x, B.x);
    var l := Quot(c, A.y - B.y, A.x - B.x);
    ZeroFactor(c, l, A.x - B.x);
    assert l == 0;
  }

  lemma ChordIsNotDouble(c: Curve, A: Affine, B: Affine)
    requires c.Valid() && OnCurve(c, A) && OnCurve(c, B)
    requires A.Point? && B.Point? && A.x != B.x && A.y == B.y
    ensures Add(c, A, B) != Double(c, A)
  {
    HorizontalChord(c, A, B);
    if A.y != 0 && Add(c, A, B) == Double(c, A) {
      TwoY(c, A.y);
      var m := Quot(c, 3 * A.x * A.x + c.a, 2 * A.y);
      var R := Double(c, A);
      AddCong(m * (A.x - R.x) - A.y, -A.y, A.y, A.y, c.p);
      TangentIsNotChord(c, A.x, B.x, A.y, m, R.x);
      DistinctAbscissae(c, A.x, B.x);
    }
  }

  /** With a second operand at scale one, as scalar multiplication calls it, the
      addition as coded is right if and only if the guard holds. */
  lemma AddIsRightExactlyWhenSafe(c: Curve, P: Jac, Q: Jac, A: Affine, B: Affine)
    requires c.Valid() && Represents(c, P, A) && Represents(c, Q, B) && Q.z == 1
    requires OnCurve(c, A) && OnCurve(c, B)
    ensures Represents(c, CodeAdd(c, P, Q), Add(c, A, B)) <==> SafeToAdd(P, Q)
  {
    if SafeToAdd(P, Q) {
      SafeAddRefines(c, P, Q, A, B);
    } else {
      AffineAtOne(c, P, A);
      AffineAtOne(c, Q, B);
      UnsafeAdd(c, P, Q);
      if A.y == B.y {
        ChordIsNotDouble(c, A, B);
        DoubleRefines(c, P, A);
        if Represents(c, CodeAdd(c, P, Q), Add(c, A, B)) {
          RepresentsUnique(c, CodeAdd(c, P, Q), Add(c, A, B));
          RepresentsUnique(c, CodeAdd(c, P, Q), Double(c, A));
        }
      }
    }
  }

  lemma UnitScale(c: Curve, x: int, y: int)
    requires c.Valid() && 0 <= x < c.p && 0 <= y < c.p
    ensures Represents(c, Jac(x, y, 1), Point(x, y))
  {
    assert x * (1 * 1) == x && y * (1 * 1 * 1) == y;
  }

  /** For instance, on y^2 = x^3 + 2x + 1 modulo 5 the points (0, 1) and (1, 2)
      add up to a finite point, and the code says infinity. */
  lemma UnsafeExample(c: Curve)
    requires c.p == 5 && c.a == 2 && c.b == 1
    requires c.inv(1) == 1 && c.inv(2) == 3 && c.inv(3) == 2 && c.inv(4) == 4
    ensures c.Valid() && OnCurve(c, Point(0, 1)) && OnCurve(c, Point(1, 2))
    ensures Represents(c, Jac(0, 1, 1), Point(0, 1)) && Represents(c, Jac(1, 2, 1), Point(1, 2))
    ensures CodeAdd(c, Jac(0, 1, 1), Jac(1, 2, 1)) == INFINITE && Add(c, Point(0, 1), Point(1, 2)).Point?
  {
    assert Mod(1 * 1, 5) == 1 && Mod(2 * 3, 5) == 1 && Mod(3 * 2, 5) == 1;
    assert Mod(4 * 4, 5) == Mod(11, 5) == Mod(6, 5) == 1;
    assert Residual(c, 0, 1) == 0 && Residual(c, 1, 2) == 0;
    UnitScale(c, 0, 1);
    UnitScale(c, 1, 2);
    UnsafeAdd(c, Jac(0, 1, 1), Jac(1, 2, 1));
  }

  lemma AffineAtOne(c: Curve, P: Jac, A: Affine)
    requires c.Valid() && Represents(c, P, A) && P.z == 1
    ensures A == Point(P.x, P.y)
  {
    OneScale(c, A.x);
    OneCube(c, A.y);
  }
}
