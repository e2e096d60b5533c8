/** The scalar multiplication of crypto.c, by the code of ec.c: it computes the
    group operation that the handshake relies on, and that operation has the laws
    that the handshake needs. */
module CurveCrypto {
  import opened Bytes
  import opened Field
  import opened AffineCurve
  import opened Jacobian
  import opened EllipticCurve
  import opened Group
  import opened ScalarMul
  import opened Fault
  import Auth

  // ------------------------------------------------------------------
  // The curve of the AACS specification

  // _aacs_curve_init, with the inversion of the big-integer library.
  function AacsCurve(inv: int -> int): Curve {
    Curve(0x9DC9D81355ECCEB560BDB09EF9EAE7C479A7D7DF, 0x9DC9D81355ECCEB560BDB09EF9EAE7C479A7D7DC,
          0x402DAD3EC1CBCD165248D68E1245E0C4DAACB1D8, inv)
  }

  function AacsGenerator(): Affine {
    Point(0x2E64FC22578351E6F4CCA7EB81D0A4BDC54CCEC6, 0x0914A25DD05442889DB455C7F23C9A0707F5CBB9)
  }

  /** Its generator satisfies its equation, it has no singular point, the origin is
      not on it, and doubling takes the short way: a is p - 3. */
  lemma AacsGeneratorOnCurve(inv: int -> int)
    requires AacsCurve(inv).Valid()
    ensures var c := AacsCurve(inv);
      && OnCurve(c, AacsGenerator()) && c.a == c.p - 3 && c.b != 0
      && !Cong(4 * (c.a * c.a * c.a) + 27 * (c.b * c.b), 0, c.p)
  {
    var c, G := AacsCurve(inv), AacsGenerator();
    var q := 0x278E212C0B3B766633D9C1EC4D2D2720F1D41DE9D3B7A3DDB2BB4D9167B90D871ED8B87957764B9;
    assert Residual(c, G.x, G.y) == 0 + q * c.p;
    ModShift(0, q, c.p);
    ModIsRemainder(4 * (c.a * c.a * c.a) + 27 * (c.b * c.b), c.p);
  }

  // ------------------------------------------------------------------
  // The operation on pairs of coordinates

  // Coordinates that are not those of a point of the curve stand for infinity.
  ghost function Decoded(c: Curve, p: Auth.Point): Affine
    requires c.Valid()
  {
    if OnCurve(c, Point(p.x, p.y)) then Point(p.x, p.y) else Infinity
  }

  ghost function Encoded(P: Affine): Auth.Point {
    if P.Point? && P.x >= 0 && P.y >= 0 then Auth.Point(P.x, P.y) else Auth.Point(0, 0)
  }

  ghost function Multiply(c: Curve, k: nat, p: Auth.Point): Auth.Point
    requires c.Valid()
  {
    Encoded(Times(c, k, Decoded(c, p)))
  }

  // The cryptography of the handshake, on a curve with a generator.
  ghost function OnThe(c: Curve, G: Affine, base: Auth.Crypto): Auth.Crypto
    requires c.Valid()
  {
    base.(generator := Encoded(G), mul := (k: nat, p: Auth.Point) => Multiply(c, k, p))
  }

  lemma OriginIsOff(c: Curve)
    requires c.Valid() && c.b != 0
    ensures !OnCurve(c, Point(0, 0))
  {
    assert Residual(c, 0, 0) == c.b;
  }

  lemma CodingUndone(c: Curve, P: Affine)
    requires c.Valid() && c.b != 0 && OnCurve(c, P)
    ensures Decoded(c, Encoded(P)) == P
  {
    OriginIsOff(c);
  }

  /** Multiplying commutes, infinity included. */
  lemma MultiplyCommutes(c: Curve, G: Affine, m: nat, n: nat)
    requires c.Valid() && Associative(c) && c.b != 0 && OnCurve(c, G)
    ensures Multiply(c, m, Multiply(c, n, Encoded(G))) == Multiply(c, n, Multiply(c, m, Encoded(G)))
  {
    CurveIsGroup(c);
    MultipleHas(CurveGroup(c), m, G);
    MultipleHas(CurveGroup(c), n, G);
    CodingUndone(c, G);
    CodingUndone(c, Times(c, m, G));
    CodingUndone(c, Times(c, n, G));
    SharedPoint(c, m, n, G);
  }

  lemma {:induction false} FewBytes(v: nat, n: nat)
    requires v < Pow2(8 * n)
    ensures |Auth.Minimal(v)| <= n
    decreases n
  {
    if n > 0 {
      BytePower(8 * (n - 1));
      FewBytes(v / 256, n - 1);
    }
  }

  /** The laws that the handshake takes as given about the multiplication hold on
      every curve with an associative law, a modulus of at most twenty bytes and a
      constant term other than zero. */
  lemma LawsOfMultiplication(c: Curve, G: Affine, base: Auth.Crypto, width: nat)
    requires c.Valid() && Associative(c) && c.b != 0 && OnCurve(c, G)
    requires width == Auth.WIDTH && c.p <= Pow2(8 * width)
    ensures forall a, b :: OnThe(c, G, base).mul(a, OnThe(c, G, base).mul(b, OnThe(c, G, base).generator))
                        == OnThe(c, G, base).mul(b, OnThe(c, G, base).mul(a, OnThe(c, G, base).generator))
    ensures forall k, p :: Auth.Fits(OnThe(c, G, base).mul(k, p).x) && Auth.Fits(OnThe(c, G, base).mul(k, p).y)
  {
    forall a: nat, b: nat
      ensures Multiply(c, a, Multiply(c, b, Encoded(G))) == Multiply(c, b, Multiply(c, a, Encoded(G)))
    {
      MultiplyCommutes(c, G, a, b);
    }
    forall k: nat, p: Auth.Point
      ensures Auth.Fits(Multiply(c, k, p).x) && Auth.Fits(Multiply(c, k, p).y)
    {
      CurveIsGroup(c);
      MultipleHas(CurveGroup(c), k, Decoded(c, p));
      FewBytes(Multiply(c, k, p).x, width);
      FewBytes(Multiply(c, k, p).y, width);
    }
  }

  // ------------------------------------------------------------------
  // The code

  // A point of the curve with its third coordinate one.
  ghost function Unit(c: Curve, P: Affine): (J: Jac)
    requires c.Valid() && P.Point? && OnCurve(c, P)
    ensures J == Jac(P.x, P.y, 1) && JOnCurve(c, J) && ToAffine(c, J) == P
  {
    UnitScale(c, P.x, P.y);
    RepresentedOnCurve(c, Jac(P.x, P.y, 1), P);
    RepresentsUnique(c, Jac(P.x, P.y, 1), P);
    Jac(P.x, P.y, 1)
  }

  // The point that the code computes.
  ghost function ByCode(c: Curve, k: nat, P: Affine): (R: Affine)
    requires c.Valid() && k >= 1 && P.Point? && OnCurve(c, P)
    ensures OnCurve(c, R)
  {
    var J := Unit(c, P);
    WalkOnCurve(c, k, J, Addend(c, J), Iterations(k));
    JOnCurveIff(c, Computed(c, k, J));
    ToAffine(c, Computed(c, k, J))
  }

  /** A point, multiplied, and back to two coordinates, as in crypto_create_bus_key
      and crypto_create_host_key_pair. */
  method MultiplyPoint(k: nat, ghost P: Affine, x: int, y: int, ctx: Context) returns (finite: bool, ax: int, ay: int)
    requires ctx.Valid() && k >= 1 && P == Point(x, y) && OnCurve(ctx.c, P)
    modifies ctx.scratch
    ensures finite <==> ByCode(ctx.c, k, P).Point?
    ensures finite ==> Point(ax, ay) == ByCode(ctx.c, k, P)
  {
    hide JOnCurve, OnCurve;
    var q := new MpiPoint();
    q.x, q.y, q.z := x, y, 1;
    ghost var J := Unit(ctx.c, P);
    var result := new MpiPoint();
    MulPoint(result, k, q, ctx);
    CodeEnds(ctx.c, k, P);
    finite, ax, ay := GetAffine(result, ctx);
  }

  // What the result of the code holds.
  lemma CodeEnds(c: Curve, k: nat, P: Affine)
    requires c.Valid() && k >= 1 && P.Point? && OnCurve(c, P)
    ensures Reduced(c, Unit(c, P)) && NBits(3 * k) >= 2
    ensures var R := Walk(c, k, Unit(c, P), Normalized(c, Unit(c, P)), NBits(3 * k) - 2);
            Reduced(c, R) && ToAffine(c, R) == ByCode(c, k, P)
  {
    var J := Unit(c, P);
    var n := Iterations(k);
    WalkOnCurve(c, k, J, Addend(c, J), n);
  }

  // The condition for one multiplication: the order of the point divides the
  // difference between the scalar and what the steps of the code come to.
  ghost predicate GoesRight(c: Curve, k: nat, P: Affine)
    requires c.Valid() && k >= 1 && P.Point? && OnCurve(c, P)
  {
    Signed(CurveGroup(c), CodeScalar(c, k, Unit(c, P)) - k, P) == Infinity
  }

  /** It computes a multiple, and the one that is meant if and only if it goes
      right. */
  lemma ComputesMultiplication(c: Curve, k: nat, P: Affine)
    requires c.Valid() && Associative(c) && k >= 1 && P.Point? && OnCurve(c, P)
    ensures ByCode(c, k, P) == Signed(CurveGroup(c), CodeScalar(c, k, Unit(c, P)), P)
    ensures ByCode(c, k, P) == Times(c, k, P) <==> GoesRight(c, k, P)
  {
    hide OnCurve, JOnCurve, CodeScalar;
    var J := Unit(c, P);
    RightIffOrder(c, k, J);
    CurveIsAbelian(c);
    SameMultiple(CurveGroup(c), CodeScalar(c, k, J), k, P);
  }

  /** Host and drive, each multiplying the other's computed point by the code,
      meet in one point, when none of the four walks goes wrong. */
  lemma SharedByCode(c: Curve, m: nat, n: nat, G: Affine)
    requires c.Valid() && Associative(c) && m >= 1 && n >= 1 && G.Point? && OnCurve(c, G)
    requires ByCode(c, m, G).Point? && ByCode(c, n, G).Point?
    requires GoesRight(c, m, G) && GoesRight(c, n, G)
    requires GoesRight(c, m, ByCode(c, n, G)) && GoesRight(c, n, ByCode(c, m, G))
    ensures ByCode(c, m, ByCode(c, n, G)) == ByCode(c, n, ByCode(c, m, G)) == Times(c, m, Times(c, n, G))
  {
    ComputesMultiplication(c, m, G);
    ComputesMultiplication(c, n, G);
    ComputesMultiplication(c, m, ByCode(c, n, G));
    ComputesMultiplication(c, n, ByCode(c, m, G));
    SharedPoint(c, m, n, G);
  }
}
