/** A curve whose law is associative: y^2 = x^3 + 4x + 2 modulo 5, of order three. */
module SmallCurve {
  import opened Field
  import opened AffineCurve
  import Group
  import ScalarMul

  function Small(): Curve {
    Curve(5, 4, 2, (u: int) => if u == 2 then 3 else if u == 3 then 2 else u)
  }

  lemma SmallIsValid()
    ensures Small().Valid()
  {
    ModIsRemainder(1, 5);
    ModIsRemainder(6, 5);
    ModIsRemainder(16, 5);
  }

  const FIRST := Point(3, 1)
  const SECOND := Point(3, 4)

  lemma PointsOfSmall(P: Affine)
    requires Small().Valid()
    ensures OnCurve(Small(), P) <==> P == Infinity || P == FIRST || P == SECOND
  {
    if P.Point? && 0 <= P.x < 5 && 0 <= P.y < 5 {
      ModIsRemainder(Residual(Small(), P.x, P.y), 5);
      ModIsRemainder(0, 5);
      ResidueOf(P.x, P.y);
    }
  }

  lemma ResidueOf(x: int, y: int)
    requires 0 <= x < 5 && 0 <= y < 5
    ensures Residual(Small(), x, y) % 5 == 0 <==> x == 3 && (y == 1 || y == 4)
  {
    SquareOf(y);
    if x == 0 {
      assert Residual(Small(), x, y) == 2 - y * y;
    } else if x == 1 {
      assert Residual(Small(), x, y) == 7 - y * y;
    } else if x == 2 {
      assert Residual(Small(), x, y) == 18 - y * y;
    } else if x == 3 {
      assert Residual(Small(), x, y) == 41 - y * y;
    } else {
      assert Residual(Small(), x, y) == 82 - y * y;
    }
  }

  lemma SquareOf(y: int)
    requires 0 <= y < 5
    ensures y * y == if y == 0 then 0 else if y == 1 then 1 else if y == 2 then 4 else if y == 3 then 9 else 16
  {
  }

  // The tangents at the two finite points.
  lemma DoublesOfSmall()
    requires Small().Valid()
    ensures Double(Small(), FIRST) == SECOND && Double(Small(), SECOND) == FIRST
  {
    TangentAt(1, 3);
    TangentAt(4, 2);
    ModIsRemainder(3, 5);
    ModIsRemainder(-2, 5);
    ModIsRemainder(-1, 5);
    ModIsRemainder(-4, 5);
  }

  lemma TangentAt(y: int, l: int)
    requires Small().Valid() && ((y == 1 && l == 3) || (y == 4 && l == 2))
    ensures !Cong(2 * y, 0, 5) && Quot(Small(), 3 * 3 * 3 + 4, 2 * y) == l
  {
    TwoY(Small(), y);
    var q := Quot(Small(), 31, 2 * y);
    ModIsRemainder(31, 5);
    ModIsRemainder(q * (2 * y), 5);
    assert q == 0 || q == 1 || q == 2 || q == 3 || q == 4;
  }

  predicate IsPoint(P: Affine) {
    P == Infinity || P == FIRST || P == SECOND
  }

  function Sum(P: Affine, Q: Affine): Affine {
    if P == Infinity then Q else if Q == Infinity then P
    else if P != Q then Infinity else if P == FIRST then SECOND else FIRST
  }

  lemma SumOfSmall(P: Affine, Q: Affine)
    requires Small().Valid()
    ensures var g := ScalarMul.CurveGroup(Small());
      (g.has(P) <==> IsPoint(P)) && (IsPoint(P) && IsPoint(Q) ==> g.add(P, Q) == Sum(P, Q))
  {
    PointsOfSmall(P);
    PointsOfSmall(Q);
    DoublesOfSmall();
  }

  lemma SmallIsAssociative(P: Affine, Q: Affine, R: Affine)
    requires Small().Valid()
    ensures Group.Assoc(ScalarMul.CurveGroup(Small()), P, Q, R)
  {
    hide ScalarMul.CurveGroup, Small;
    SumOfSmall(P, Q);
    SumOfSmall(Q, R);
    SumOfSmall(R, Infinity);
    SumOfSmall(Sum(P, Q), R);
    SumOfSmall(P, Sum(Q, R));
  }

  lemma SmallHasNoOrderTwo(P: Affine)
    requires Small().Valid()
    ensures var g := ScalarMul.CurveGroup(Small()); g.has(P) && g.add(P, P) == Infinity ==> P == Infinity
  {
    hide ScalarMul.CurveGroup, Small;
    SumOfSmall(P, P);
  }

  /** There is a curve with an associative law, a finite point, and no point of
      order two. */
  lemma AssociativeExists()
    ensures exists c: Curve :: c.Valid() && ScalarMul.Associative(c) && OnCurve(c, FIRST) && Group.NoOrderTwo(ScalarMul.CurveGroup(c))
  {
    SmallIsValid();
    PointsOfSmall(FIRST);
    forall P, Q, R
      ensures Group.Assoc(ScalarMul.CurveGroup(Small()), P, Q, R)
    {
      SmallIsAssociative(P, Q, R);
    }
    forall P
      ensures var g := ScalarMul.CurveGroup(Small()); g.has(P) && g.add(P, P) == Infinity ==> P == Infinity
    {
      SmallHasNoOrderTwo(P);
    }
    hide OnCurve, Small, Group.Assoc;
    assert ScalarMul.Associative(Small());
  }
}
