/** Scalar multiplication (ec.c): the signed digits of the scalar, the walk over
    them, and the group law it relies on. */
module ScalarMul {
  import opened Field
  import opened AffineCurve
  import opened Jacobian
  import opened EllipticCurve
  import opened Group

  // ------------------------------------------------------------------
  // The signed digits bit_i(3k) - bit_i(k)

  // n without its i low bits.
  function Drop(n: nat, i: nat): nat {
    if i == 0 then n else Drop(n, i - 1) / 2
  }

  // mpi_test_bit
  predicate TestBit(n: nat, i: nat) {
    Drop(n, i) % 2 == 1
  }

  // mpi_get_nbits
  function NBits(n: nat): nat {
    if n == 0 then 0 else 1 + NBits(n / 2)
  }

  function Digit(k: nat, i: nat): int {
    (if TestBit(3 * k, i) then 1 else 0) - (if TestBit(k, i) then 1 else 0)
  }

  // The number that the digits from i on stand for.
  function Prefix(k: nat, i: nat): int {
    Drop(3 * k, i) - Drop(k, i)
  }

  lemma {:induction false} DropHalf(n: nat, i: nat)
    ensures Drop(n, i + 1) == Drop(n / 2, i)
    decreases i
  {
    if i > 0 {
      DropHalf(n, i - 1);
    }
  }

  lemma {:induction false} TopBit(n: nat)
    requires n > 0
    ensures Drop(n, NBits(n) - 1) == 1
    decreases n
  {
    if n > 1 {
      TopBit(n / 2);
      DropHalf(n, NBits(n) - 2);
    }
  }

  lemma {:induction false} DropPositive(n: nat, i: nat, j: nat)
    requires i <= j && Drop(n, j) > 0
    ensures Drop(n, i) > 0
    decreases j - i
  {
    if i < j {
      DropPositive(n, i, j - 1);
    }
  }

  // Tripling carries at most two into any position.
  lemma {:induction false} Carry(k: nat, i: nat)
    ensures 3 * Drop(k, i) <= Drop(3 * k, i) <= 3 * Drop(k, i) + 2
    decreases i
  {
    if i > 0 {
      Carry(k, i - 1);
    }
  }

  // The prefix values: one at the top bit, ...
  lemma PrefixTop(k: nat)
    requires k >= 1
    ensures NBits(3 * k) >= 2 && Prefix(k, NBits(3 * k) - 1) == 1
  {
    assert NBits((3 * k) / 2) >= 1;
    TopBit(3 * k);
    Carry(k, NBits(3 * k) - 1);
  }

  // ... doubled and adjusted by each digit, ...
  lemma PrefixStep(k: nat, i: nat)
    ensures Prefix(k, i) == 2 * Prefix(k, i + 1) + Digit(k, i)
  {
  }

  // ... the scalar itself in the end, ...
  lemma PrefixEnd(k: nat)
    ensures Prefix(k, 1) == k
  {
    assert Drop(3 * k, 1) == (3 * k) / 2 && Drop(k, 1) == k / 2;
  }

  // ... and positive all the way.
  lemma PrefixPositive(k: nat, i: nat)
    requires k >= 1 && i < NBits(3 * k)
    ensures Prefix(k, i) >= 1
  {
    TopBit(3 * k);
    DropPositive(3 * k, i, NBits(3 * k) - 1);
    Carry(k, i);
  }

  function Weight(i: nat): nat {
    if i == 0 then 1 else 2 * Weight(i - 1)
  }

  // The digits 1 to i with their weights.
  function WeightedDigits(k: nat, i: nat): int {
    if i == 0 then 0 else WeightedDigits(k, i - 1) + Digit(k, i) * Weight(i - 1)
  }

  lemma {:induction false} DigitsAndPrefix(k: nat, i: nat)
    ensures WeightedDigits(k, i) + Prefix(k, i + 1) * Weight(i) == k
    decreases i
  {
    if i == 0 {
      PrefixEnd(k);
    } else {
      DigitsAndPrefix(k, i - 1);
      PrefixStep(k, i);
      NextPrefix(k, i, Prefix(k, i), Prefix(k, i + 1));
    }
  }

  lemma NextPrefix(k: nat, i: nat, m: int, a: int)
    requires i > 0 && m == 2 * a + Digit(k, i)
    ensures WeightedDigits(k, i) + a * Weight(i) == WeightedDigits(k, i - 1) + m * Weight(i - 1)
  {
    Regroup(WeightedDigits(k, i - 1), m, a, Digit(k, i), Weight(i - 1), Weight(i));
  }

  lemma Regroup(s: int, m: int, a: int, d: int, w: int, w2: int)
    requires m == 2 * a + d && w2 == 2 * w
    ensures s + d * w + a * w2 == s + m * w
  {
    assert m * w == 2 * (a * w) + d * w;
    assert a * w2 == 2 * (a * w);
  }

  /** The digits the loop looks at, with the initial copy as leading digit, sum
      to the scalar. */
  lemma DigitsSumToScalar(k: nat)
    requires k >= 1
    ensures var n := NBits(3 * k) - 2; n >= 0 && WeightedDigits(k, n) + Weight(n) == k
  {
    PrefixTop(k);
    var n := NBits(3 * k) - 2;
    DigitsAndPrefix(k, n);
    One(Prefix(k, n + 1), Weight(n));
  }

  lemma One(m: int, w: int)
    requires m == 1
    ensures m * w == w
  {
  }

  /** The digits are a non-adjacent form. */
  lemma NonAdjacent(k: nat, i: nat)
    requires i >= 1
    ensures Digit(k, i) == 0 || Digit(k, i + 1) == 0
  {
    Carry(k, i - 1);
    var q, h := Drop(k, i - 1), Drop(3 * k, i - 1);
    assert Drop(k, i) == q / 2 && Drop(3 * k, i) == h / 2;
    assert Drop(k, i + 1) == q / 2 / 2 && Drop(3 * k, i + 1) == h / 2 / 2;
    ThreeBits(q, h);
  }

  lemma ThreeBits(q: nat, h: nat)
    requires 3 * q <= h <= 3 * q + 2
    ensures q / 2 % 2 == h / 2 % 2 || q / 2 / 2 % 2 == h / 2 / 2 % 2
  {
    var q1, h1 := q / 2, h / 2;
    var q2, h2 := q1 / 2, h1 / 2;
    CarryChain(q % 2, q1 % 2, q2 % 2, q2 / 2, h % 2, h1 % 2, h2 % 2, h2 / 2);
  }

  lemma CarryChain(a0: int, a1: int, a2: int, a3: int, b0: int, b1: int, b2: int, b3: int)
    requires 0 <= a0 <= 1 && 0 <= a1 <= 1 && 0 <= a2 <= 1 && 0 <= b0 <= 1 && 0 <= b1 <= 1 && 0 <= b2 <= 1
    requires var q, h := a0 + 2 * a1 + 4 * a2 + 8 * a3, b0 + 2 * b1 + 4 * b2 + 8 * b3; 3 * q <= h <= 3 * q + 2
    ensures a1 == b1 || a2 == b2
  {
    var q, h := a0 + 2 * a1 + 4 * a2 + 8 * a3, b0 + 2 * b1 + 4 * b2 + 8 * b3;
    var z := b3 - 3 * a3 - a1 - 2 * a2;
    assert -1 <= 3 * a0 + (h - 3 * q) - b0 <= 5;
    assert 3 * a0 + (h - 3 * q) - b0 == 2 * (a1 + b1) + 4 * (a2 + b2) + 8 * z;
  }

  function NonZeroDigits(k: nat, i: nat): nat {
    if i == 0 then 0 else NonZeroDigits(k, i - 1) + if Digit(k, i) != 0 then 1 else 0
  }

  /** So at most half the iterations, rounded up, add. */
  lemma {:induction false} FewAdditions(k: nat, n: nat)
    ensures NonZeroDigits(k, n) <= (n + 1) / 2
    decreases n
  {
    if n >= 2 {
      FewAdditions(k, n - 2);
      NonAdjacent(k, n - 1);
    }
  }

  // ------------------------------------------------------------------
  // Multiples in the group of the curve

  ghost function CurveGroup(c: Curve): Group<Affine>
    requires c.Valid()
  {
    Group((P, Q) => if OnCurve(c, P) && OnCurve(c, Q) then Add(c, P, Q) else Infinity,
          P => if OnCurve(c, P) then Neg(c, P) else Infinity,
          Infinity,
          P => OnCurve(c, P))
  }

  /** Associativity is the one law of the group that is taken as given. */
  ghost predicate Associative(c: Curve)
    requires c.Valid()
  {
    forall P, Q, R :: Assoc(CurveGroup(c), P, Q, R)
  }

  lemma AddNeg(c: Curve, P: Affine)
    requires c.Valid() && OnCurve(c, P)
    ensures Add(c, P, Neg(c, P)) == Infinity
  {
    if P.Point? && P.y == Mod(-P.y, c.p) {
      AddCong(P.y, -P.y, P.y, P.y, c.p);
      if P.y != 0 {
        TwoY(c, P.y);
      }
    }
  }

  lemma CurveIsGroup(c: Curve)
    requires c.Valid() && Associative(c)
    ensures IsGroup(CurveGroup(c))
  {
    var g := CurveGroup(c);
    forall P, Q
      ensures Closed(g, P, Q)
    {
      if OnCurve(c, P) && OnCurve(c, Q) {
        AddOnCurve(c, P, Q);
      }
    }
    forall P
      ensures Neutral(g, P)
    {
      if OnCurve(c, P) {
        NegOnCurve(c, P);
        AddNeg(c, P);
      }
    }
  }

  ghost function Times(c: Curve, n: nat, P: Affine): Affine
    requires c.Valid()
  {
    Multiple(CurveGroup(c), n, P)
  }

  /** Two parties who each multiply the other's multiple of a point meet. */
  lemma SharedPoint(c: Curve, m: nat, n: nat, P: Affine)
    requires c.Valid() && OnCurve(c, P) && Associative(c)
    ensures Times(c, m, Times(c, n, P)) == Times(c, n, Times(c, m, P))
  {
    CurveIsGroup(c);
    MultiplesCommute(CurveGroup(c), m, n, P);
  }

  /** One step of the walk: double, then add, subtract or leave. */
  lemma StepMultiple(c: Curve, P: Affine, m: nat, d: int)
    requires c.Valid() && OnCurve(c, P) && Associative(c)
    requires m >= 1 && -1 <= d <= 1
    ensures OnCurve(c, Times(c, m, P))
    ensures var D := Double(c, Times(c, m, P));
      Times(c, 2 * m + d, P) == if d == 1 then Add(c, D, P) else if d == -1 then Add(c, D, Neg(c, P)) else D
  {
    var g := CurveGroup(c);
    CurveIsGroup(c);
    MultipleHas(g, m, P);
    MultipleHas(g, 2 * m, P);
    DoubleAndAdd(g, m, P);
    NegOnCurve(c, P);
  }

  // ------------------------------------------------------------------
  // The walk over the digits

  function Inverse(c: Curve, B: Jac): Jac
    requires c.p > 0
  {
    B.(y := Mod(c.p - B.y, c.p))
  }

  function Step(c: Curve, k: nat, acc: Jac, B: Jac, i: nat): Jac
    requires c.p > 0
  {
    var d := DoubleFormula(c, acc);
    if Digit(k, i) == 1 then CodeAdd(c, d, B)
    else if Digit(k, i) == -1 then CodeAdd(c, d, Inverse(c, B))
    else d
  }

  function Walk(c: Curve, k: nat, acc: Jac, B: Jac, i: nat): Jac
    requires c.p > 0
    decreases i
  {
    if i == 0 then acc else Walk(c, k, Step(c, k, acc, B, i), B, i - 1)
  }

  /** No addition of the walk meets the branch that departs from the formula. */
  ghost predicate SafeWalk(c: Curve, k: nat, acc: Jac, B: Jac, i: nat)
    requires c.p > 0
    decreases i
  {
    i == 0 ||
    (var d := DoubleFormula(c, acc);
     (Digit(k, i) != 0 ==> SafeToAdd(d, B)) && SafeWalk(c, k, Step(c, k, acc, B, i), B, i - 1))
  }

  lemma InverseRepresents(c: Curve, B: Jac, P: Affine)
    requires c.Valid() && Represents(c, B, P) && B.z == 1
    ensures Represents(c, Inverse(c, B), Neg(c, P)) && Inverse(c, B).z == 1
  {
    AffineAtOne(c, B, P);
    ModShift(-B.y, 1, c.p);
    assert c.p - B.y == -B.y + 1 * c.p;
    var N := Inverse(c, B);
    assert N.x * (1 * 1) == N.x && N.y * (1 * 1 * 1) == N.y;
  }

  // One step of the walk, for an accumulator that stands for m times P.
  lemma StepMultiplies(c: Curve, k: nat, acc: Jac, B: Jac, P: Affine, i: nat, m: nat)
    requires c.Valid() && OnCurve(c, P) && Associative(c) && m >= 1
    requires Represents(c, B, P) && B.z == 1
    requires Represents(c, acc, Times(c, m, P))
    requires Digit(k, i) != 0 ==> SafeToAdd(DoubleFormula(c, acc), B)
    ensures Represents(c, Step(c, k, acc, B, i), Times(c, 2 * m + Digit(k, i), P))
  {
    var d := DoubleFormula(c, acc);
    var D := Double(c, Times(c, m, P));
    DoubleRefines(c, acc, Times(c, m, P));
    StepMultiple(c, P, m, Digit(k, i));
    if Digit(k, i) == 1 {
      SafeAddRefines(c, d, B, D, P);
    } else if Digit(k, i) == -1 {
      InverseRepresents(c, B, P);
      SafeAddRefines(c, d, Inverse(c, B), D, Neg(c, P));
    }
  }

  lemma {:induction false} WalkMultiplies(c: Curve, k: nat, acc: Jac, B: Jac, P: Affine, i: nat, m: nat)
    requires c.Valid() && OnCurve(c, P) && Associative(c)
    requires k >= 1 && i + 1 < NBits(3 * k) && m == Prefix(k, i + 1)
    requires Represents(c, B, P) && B.z == 1
    requires Represents(c, acc, Times(c, m, P))
    requires SafeWalk(c, k, acc, B, i)
    ensures Represents(c, Walk(c, k, acc, B, i), Times(c, k, P))
    decreases i
  {
    if i == 0 {
      PrefixEnd(k);
    } else {
      PrefixPositive(k, i + 1);
      StepMultiplies(c, k, acc, B, P, i, m);
      PrefixStep(k, i);
      PrefixPositive(k, i);
      WalkMultiplies(c, k, Step(c, k, acc, B, i), B, P, i - 1, Prefix(k, i));
    }
  }

  /** The affine copy of the point that the additions use. */
  ghost function Normalized(c: Curve, J: Jac): Jac
    requires c.Valid() && Reduced(c, J) && J.z != 0
  {
    if J.z == 1 then J
    else
      var z2 := Mod(J.z * J.z, c.p);
      var z3 := Mod(J.z * z2, c.p);
      Jac(Mod(J.x * c.inv(z2), c.p), Mod(J.y * c.inv(z3), c.p), 1)
  }

  // Division by a residue undoes its multiplication.
  lemma DivideOut(c: Curve, X: int, x: int, u: int, r: int)
    requires c.Valid() && 0 <= x < c.p && Cong(X, x * u, c.p) && !Cong(u, 0, c.p) && r == Mod(u, c.p)
    ensures Mod(X * c.inv(r), c.p) == x
  {
    var i := c.inv(r);
    MulCong(X, x * u, i, i, c.p);
    MulCong(r, u, i, i, c.p);
    DivideIdentity(x, u, i);
    By(x * u * i, x, x, u * i, 1, c.p);
    Same(c, Mod(X * i, c.p), x);
  }

  lemma DivideIdentity(x: int, u: int, i: int)
    ensures x * u * i == x + x * (u * i - 1)
  {
  }

  lemma NormalizedRepresents(c: Curve, J: Jac, P: Affine)
    requires c.Valid() && Represents(c, J, P) && J.z != 0
    ensures Normalized(c, J) == Jac(P.x, P.y, 1) && Represents(c, Normalized(c, J), P)
  {
    if J.z == 1 {
      AffineAtOne(c, J, P);
    } else {
      var z := J.z;
      NonZeroResidue(c, z);
      NonZero(c, z, z);
      NonZero(c, z * z, z);
      var z2 := Mod(z * z, c.p);
      MulCong(z, z, z2, z * z, c.p);
      Swap(z, z * z);
      DivideOut(c, J.x, P.x, z * z, z2);
      DivideOut(c, J.y, P.y, z * z * z, Mod(z * z2, c.p));
    }
    assert P.x * (1 * 1) == P.x && P.y * (1 * 1 * 1) == P.y;
  }

  /** For every scalar k of at least one and every finite point of the curve,
      the walk computes k times the point, unless an addition meets the branch
      that departs from the formula. */
  lemma ScalarMultiple(c: Curve, k: nat, J: Jac)
    requires c.Valid() && Associative(c) && k >= 1
    requires JOnCurve(c, J) && J.z != 0
    requires NBits(3 * k) >= 2 ==> SafeWalk(c, k, J, Normalized(c, J), NBits(3 * k) - 2)
    ensures NBits(3 * k) >= 2 && OnCurve(c, ToAffine(c, J))
    ensures Represents(c, Walk(c, k, J, Normalized(c, J), NBits(3 * k) - 2), Times(c, k, ToAffine(c, J)))
  {
    var P := ToAffine(c, J);
    ToAffineRepresents(c, J);
    JOnCurveIff(c, J);
    NormalizedRepresents(c, J, P);
    PrefixTop(k);
    assert Times(c, 1, P) == Add(c, Times(c, 0, P), P) == P;
    WalkMultiplies(c, k, J, Normalized(c, J), P, NBits(3 * k) - 2, 1);
  }

  // ------------------------------------------------------------------
  // The accumulator never leaves the curve

  lemma CodeAddOnCurve(c: Curve, P: Jac, Q: Jac)
    requires c.Valid() && JOnCurve(c, P) && JOnCurve(c, Q) && Q.z == 1
    ensures JOnCurve(c, CodeAdd(c, P, Q))
  {
    var A, B := ToAffine(c, P), ToAffine(c, Q);
    ToAffineRepresents(c, P);
    ToAffineRepresents(c, Q);
    JOnCurveIff(c, P);
    JOnCurveIff(c, Q);
    if SafeToAdd(P, Q) {
      SafeAddRefines(c, P, Q, A, B);
      AddOnCurve(c, A, B);
      RepresentedOnCurve(c, CodeAdd(c, P, Q), Add(c, A, B));
    } else {
      UnsafeAdd(c, P, Q);
      DoubleOnCurve(c, P);
    }
  }

  lemma RepresentedOnCurve(c: Curve, J: Jac, P: Affine)
    requires c.Valid() && Represents(c, J, P) && OnCurve(c, P)
    ensures JOnCurve(c, J)
  {
    RepresentsUnique(c, J, P);
    JOnCurveIff(c, J);
  }

  lemma DoubleOnCurve(c: Curve, P: Jac)
    requires c.Valid() && JOnCurve(c, P)
    ensures JOnCurve(c, DoubleFormula(c, P))
  {
    var A := ToAffine(c, P);
    ToAffineRepresents(c, P);
    JOnCurveIff(c, P);
    DoubleRefines(c, P, A);
    AddOnCurve(c, A, A);
    assert Add(c, A, A) == Double(c, A);
    RepresentedOnCurve(c, DoubleFormula(c, P), Double(c, A));
  }

  lemma InverseOnCurve(c: Curve, B: Jac)
    requires c.Valid() && JOnCurve(c, B) && B.z == 1
    ensures JOnCurve(c, Inverse(c, B)) && Inverse(c, B).z == 1
  {
    var P := ToAffine(c, B);
    ToAffineRepresents(c, B);
    JOnCurveIff(c, B);
    InverseRepresents(c, B, P);
    NegOnCurve(c, P);
    RepresentedOnCurve(c, Inverse(c, B), Neg(c, P));
  }

  lemma StepOnCurve(c: Curve, k: nat, acc: Jac, B: Jac, i: nat)
    requires c.Valid() && JOnCurve(c, acc) && JOnCurve(c, B) && B.z == 1
    ensures JOnCurve(c, Step(c, k, acc, B, i))
  {
    DoubleOnCurve(c, acc);
    var d := DoubleFormula(c, acc);
    CodeAddOnCurve(c, d, B);
    InverseOnCurve(c, B);
    CodeAddOnCurve(c, d, Inverse(c, B));
  }

  /** Every iteration keeps the accumulator on the curve, whether or not the
      additions are right. */
  lemma {:induction false} WalkOnCurve(c: Curve, k: nat, acc: Jac, B: Jac, i: nat)
    requires c.Valid() && JOnCurve(c, acc) && JOnCurve(c, B) && B.z == 1
    ensures JOnCurve(c, Walk(c, k, acc, B, i))
    decreases i
  {
    if i > 0 {
      StepOnCurve(c, k, acc, B, i);
      WalkOnCurve(c, k, Step(c, k, acc, B, i), B, i - 1);
    }
  }

  // ------------------------------------------------------------------
  // The operations

  lemma DoubleReduced(c: Curve, J: Jac)
    requires c.Valid() && Reduced(c, J)
    ensures Reduced(c, DoubleFormula(c, J))
  {
  }

  lemma AddReduced(c: Curve, P: Jac, Q: Jac)
    requires c.Valid() && Reduced(c, P) && Reduced(c, Q)
    ensures Reduced(c, CodeAdd(c, P, Q))
  {
    DoubleReduced(c, P);
  }

  lemma StepReduced(c: Curve, k: nat, acc: Jac, B: Jac, i: nat)
    requires c.Valid() && Reduced(c, acc) && Reduced(c, B)
    ensures Reduced(c, DoubleFormula(c, acc)) && Reduced(c, Step(c, k, acc, B, i))
  {
    var d := DoubleFormula(c, acc);
    DoubleReduced(c, acc);
    AddReduced(c, d, B);
    AddReduced(c, d, Inverse(c, B));
  }

  // One round of the loop: double in place, then add the point or its inverse.
  method Round(result: MpiPoint, k: nat, i: nat, p1: MpiPoint, p2: MpiPoint, p1inv: MpiPoint, ctx: Context)
    requires ctx.Valid() && Reduced(ctx.c, result.Value()) && Reduced(ctx.c, p1.Value())
    requires result != p1 && result != p2 && result != p1inv && p1 != p2 && p1 != p1inv && p2 != p1inv
    modifies result, p2, p1inv, ctx.scratch
    ensures result.Value() == Step(ctx.c, k, old(result.Value()), p1.Value(), i)
  {
    DoubleReduced(ctx.c, result.Value());
    DupPoint(result, result, ctx);
    var h := 3 * k;
    if TestBit(h, i) && !TestBit(k, i) {
      p2.Set(result);
      AddPoints(result, p2, p1, ctx);
    }
    if !TestBit(h, i) && TestBit(k, i) {
      p2.Set(result);
      p1inv.Set(p1);
      p1inv.y := ctx.SubM(ctx.c.p, p1inv.y);
      AddPoints(result, p2, p1inv, ctx);
    }
  }

  // The affine copy of the point.
  method Normalize(point: MpiPoint, p1: MpiPoint, ctx: Context)
    requires ctx.Valid() && Reduced(ctx.c, point.Value()) && point.z != 0 && p1 != point
    modifies p1
    ensures p1.Value() == Normalized(ctx.c, point.Value())
  {
    if point.z == 1 {
      p1.x := point.x;
      p1.y := point.y;
    } else {
      var z2 := ctx.MulM(point.z, point.z);
      var z3 := ctx.MulM(point.z, z2);
      z2 := ctx.c.inv(z2);
      p1.x := ctx.MulM(point.x, z2);
      z3 := ctx.c.inv(z3);
      p1.y := ctx.MulM(point.y, z3);
    }
    p1.z := 1;
  }

  /** _gcry_mpi_ec_mul_point.  The scalar must be at least one: the unsigned
      loop counter starts at two less than the bit length of 3k. */
  method MulPoint(result: MpiPoint, scalar: nat, point: MpiPoint, ctx: Context)
    requires ctx.Valid() && Reduced(ctx.c, point.Value()) && point.z != 0 && scalar >= 1
    modifies result, ctx.scratch
    ensures NBits(3 * scalar) >= 2
    ensures var J := old(point.Value());
      result.Value() == Walk(ctx.c, scalar, J, Normalized(ctx.c, J), NBits(3 * scalar) - 2)
  {
    hide Step;
    ghost var c, J := ctx.c, point.Value();
    PrefixTop(scalar);
    var p1 := new MpiPoint();
    var p2 := new MpiPoint();
    var p1inv := new MpiPoint();
    Normalize(point, p1, ctx);
    ghost var B := p1.Value();
    result.Set(point);
    var loops := NBits(3 * scalar);
    var i := loops - 2;
    ghost var acc := J;
    ghost var target := Walk(c, scalar, J, B, i);
    while i > 0
      invariant 0 <= i <= loops - 2
      invariant p1.Value() == B && result.Value() == acc && Reduced(c, acc)
      invariant Walk(c, scalar, acc, B, i) == target
    {
      StepReduced(c, scalar, acc, B, i);
      Round(result, scalar, i, p1, p2, p1inv, ctx);
      acc := Step(c, scalar, acc, B, i);
      i := i - 1;
    }
  }

  /** _gcry_mpi_ec_get_affine: fails exactly at infinity, and for a point of the
      curve gives a solution of the affine equation. */
  method GetAffine(point: MpiPoint, ctx: Context) returns (ok: bool, x: int, y: int)
    requires ctx.Valid() && Reduced(ctx.c, point.Value())
    ensures ok <==> ToAffine(ctx.c, point.Value()) != Infinity
    ensures ok ==> Point(x, y) == ToAffine(ctx.c, point.Value())
    ensures ok && JOnCurve(ctx.c, point.Value()) ==> OnCurve(ctx.c, Point(x, y))
  {
    JOnCurveIff(ctx.c, point.Value());
    if point.z == 0 {
      return false, 0, 0;
    }
    var z1 := ctx.c.inv(point.z);
    var z2 := ctx.MulM(z1, z1);
    x := ctx.MulM(point.x, z2);
    var z3 := ctx.MulM(z2, z1);
    y := ctx.MulM(point.y, z3);
    ok := true;
  }
}
