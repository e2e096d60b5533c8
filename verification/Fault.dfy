/** When scalar multiplication is right although the addition is not always: in
    one branch ec.c takes the second abscissa from the first point (lines 390 to
    391).  The condition is exact for every scalar, every point and every curve. */
module Fault {
  import opened Field
  import opened AffineCurve
  import opened Jacobian
  import opened EllipticCurve
  import opened Group
  import opened ScalarMul

  lemma CurveIsAbelian(c: Curve)
    requires c.Valid() && Associative(c)
    ensures IsAbelian(CurveGroup(c))
  {
    var g := CurveGroup(c);
    CurveIsGroup(c);
    forall P, Q
      ensures Commutes(g, P, Q)
    {
      if OnCurve(c, P) && OnCurve(c, Q) {
        AddCommutes(c, P, Q);
      }
    }
  }

  // What a Jacobian point on the curve stands for.
  lemma StandsFor(c: Curve, J: Jac, P: Affine)
    requires c.Valid() && JOnCurve(c, J) && Canonical(c, P)
    ensures OnCurve(c, ToAffine(c, J)) && Represents(c, J, ToAffine(c, J))
    ensures Represents(c, J, P) <==> ToAffine(c, J) == P
  {
    JOnCurveIff(c, J);
    ToAffineRepresents(c, J);
    if Represents(c, J, P) {
      RepresentsUnique(c, J, P);
    }
  }

  // The step meets the branch.
  predicate Unsafe(c: Curve, k: nat, acc: Jac, B: Jac, i: nat)
    requires c.p > 0
  {
    Digit(k, i) != 0 && !SafeToAdd(DoubleFormula(c, acc), B)
  }

  /** How many additions of the walk meet the branch. */
  function Unsafes(c: Curve, k: nat, acc: Jac, B: Jac, i: nat): nat
    requires c.p > 0
    decreases i
  {
    if i == 0 then 0
    else (if Unsafe(c, k, acc, B, i) then 1 else 0) + Unsafes(c, k, Step(c, k, acc, B, i), B, i - 1)
  }

  lemma {:induction false} NoneIsSafe(c: Curve, k: nat, acc: Jac, B: Jac, i: nat)
    requires c.p > 0
    ensures Unsafes(c, k, acc, B, i) == 0 <==> SafeWalk(c, k, acc, B, i)
    decreases i
  {
    if i > 0 {
      NoneIsSafe(c, k, Step(c, k, acc, B, i), B, i - 1);
    }
  }

  // ------------------------------------------------------------------
  // Steps

  /** A step that does not meet the branch advances whatever the accumulator
      stands for. */
  lemma SafeStep(c: Curve, k: nat, acc: Jac, B: Jac, P: Affine, i: nat)
    requires c.Valid() && JOnCurve(c, acc) && OnCurve(c, P) && Represents(c, B, P) && B.z == 1
    requires !Unsafe(c, k, acc, B, i)
    ensures OnCurve(c, ToAffine(c, acc))
    ensures Represents(c, Step(c, k, acc, B, i), Advance(CurveGroup(c), P, Digit(k, i), ToAffine(c, acc)))
  {
    var V, d := ToAffine(c, acc), DoubleFormula(c, acc);
    StandsFor(c, acc, V);
    DoubleRefines(c, acc, V);
    AddOnCurve(c, V, V);
    assert Add(c, V, V) == Double(c, V);
    NegOnCurve(c, P);
    if Digit(k, i) == 1 {
      SafeAddRefines(c, d, B, Double(c, V), P);
    } else if Digit(k, i) == -1 {
      InverseRepresents(c, B, P);
      SafeAddRefines(c, d, ScalarMul.Inverse(c, B), Double(c, V), Neg(c, P));
    }
  }

  /** A step that meets it gives something else. */
  lemma UnsafeStep(c: Curve, k: nat, acc: Jac, B: Jac, P: Affine, i: nat)
    requires c.Valid() && JOnCurve(c, acc) && OnCurve(c, P) && Represents(c, B, P) && B.z == 1
    requires Unsafe(c, k, acc, B, i)
    ensures OnCurve(c, ToAffine(c, acc))
    ensures !Represents(c, Step(c, k, acc, B, i), Advance(CurveGroup(c), P, Digit(k, i), ToAffine(c, acc)))
  {
    var V, d := ToAffine(c, acc), DoubleFormula(c, acc);
    StandsFor(c, acc, V);
    DoubleRefines(c, acc, V);
    AddOnCurve(c, V, V);
    assert Add(c, V, V) == Double(c, V);
    NegOnCurve(c, P);
    if Digit(k, i) == 1 {
      AddIsRightExactlyWhenSafe(c, d, B, Double(c, V), P);
    } else {
      InverseRepresents(c, B, P);
      AddIsRightExactlyWhenSafe(c, d, ScalarMul.Inverse(c, B), Double(c, V), Neg(c, P));
    }
  }

  // ------------------------------------------------------------------
  // How an error travels

  lemma PrefixIsMultiple(c: Curve, k: nat, P: Affine, i: nat)
    requires c.Valid() && Associative(c) && OnCurve(c, P) && k >= 1 && 1 <= i && i + 1 < NBits(3 * k)
    ensures Prefix(k, i + 1) >= 1 && Prefix(k, i) >= 1
    ensures Advance(CurveGroup(c), P, Digit(k, i), Times(c, Prefix(k, i + 1), P)) == Times(c, Prefix(k, i), P)
  {
    PrefixPositive(k, i + 1);
    PrefixPositive(k, i);
    PrefixStep(k, i);
    CurveIsGroup(c);
    AdvanceMultiple(CurveGroup(c), P, Digit(k, i), Prefix(k, i + 1));
  }

  // One safe step of a wrong accumulator.
  lemma ErrorDoubles(c: Curve, k: nat, acc: Jac, B: Jac, P: Affine, i: nat, E: Affine) returns (next: Jac, F: Affine)
    requires c.Valid() && Associative(c) && JOnCurve(c, acc) && JOnCurve(c, B)
    requires OnCurve(c, P) && Represents(c, B, P) && B.z == 1 && OnCurve(c, E)
    requires k >= 1 && 1 <= i && i + 1 < NBits(3 * k) && SafeWalk(c, k, acc, B, i)
    requires Prefix(k, i + 1) >= 1 && ToAffine(c, acc) == CurveGroup(c).add(Times(c, Prefix(k, i + 1), P), E)
    ensures JOnCurve(c, next) && OnCurve(c, F) && Prefix(k, i) >= 1 && SafeWalk(c, k, next, B, i - 1)
    ensures Walk(c, k, acc, B, i) == Walk(c, k, next, B, i - 1)
    ensures Doubled(CurveGroup(c), i, E) == Doubled(CurveGroup(c), i - 1, F)
    ensures ToAffine(c, next) == CurveGroup(c).add(Times(c, Prefix(k, i), P), F)
  {
    var g, W := CurveGroup(c), Times(c, Prefix(k, i + 1), P);
    next, F := Step(c, k, acc, B, i), g.add(E, E);
    CurveIsAbelian(c);
    MultipleHas(g, Prefix(k, i + 1), P);
    AdvanceDoublesError(g, P, Digit(k, i), W, E);
    PrefixIsMultiple(c, k, P, i);
    SafeStep(c, k, acc, B, P, i);
    StepOnCurve(c, k, acc, B, i);
    StandsFor(c, next, Advance(g, P, Digit(k, i), ToAffine(c, acc)));
  }

  /** An accumulator that is wrong by E ends wrong by E doubled once for each
      remaining step, if no addition meets the branch any more. */
  lemma {:induction false} ErrorTravels(c: Curve, k: nat, acc: Jac, B: Jac, P: Affine, i: nat, E: Affine)
    requires c.Valid() && Associative(c) && JOnCurve(c, acc) && JOnCurve(c, B)
    requires OnCurve(c, P) && Represents(c, B, P) && B.z == 1 && OnCurve(c, E)
    requires k >= 1 && i + 1 < NBits(3 * k) && SafeWalk(c, k, acc, B, i)
    requires Prefix(k, i + 1) >= 1 && ToAffine(c, acc) == CurveGroup(c).add(Times(c, Prefix(k, i + 1), P), E)
    ensures JOnCurve(c, Walk(c, k, acc, B, i))
    ensures ToAffine(c, Walk(c, k, acc, B, i)) == CurveGroup(c).add(Times(c, k, P), Doubled(CurveGroup(c), i, E))
    decreases i
  {
    hide JOnCurve, OnCurve, Represents;
    if i == 0 {
      PrefixEnd(k);
    } else {
      var next, F := ErrorDoubles(c, k, acc, B, P, i, E);
      ErrorTravels(c, k, next, B, P, i - 1, F);
    }
  }

  // ------------------------------------------------------------------
  // The condition

  /** By how much the accumulator differs from a point. */
  ghost function Error(c: Curve, acc: Jac, W: Affine): Affine
    requires c.Valid() && Reduced(c, acc)
  {
    Excess(CurveGroup(c), ToAffine(c, acc), W)
  }

  lemma ErrorIs(c: Curve, acc: Jac, W: Affine)
    requires c.Valid() && Associative(c) && OnCurve(c, W) && JOnCurve(c, acc)
    ensures OnCurve(c, Error(c, acc, W))
    ensures ToAffine(c, acc) == CurveGroup(c).add(W, Error(c, acc, W))
    ensures Error(c, acc, W) == Infinity <==> Represents(c, acc, W)
  {
    CurveIsAbelian(c);
    StandsFor(c, acc, W);
    ExcessAdds(CurveGroup(c), ToAffine(c, acc), W);
  }

  // What the accumulator should stand for before iteration i.
  ghost function Goal(c: Curve, k: nat, P: Affine, i: nat): Affine
    requires c.Valid() && k >= 1 && i + 1 < NBits(3 * k)
  {
    PrefixPositive(k, i + 1);
    Times(c, Prefix(k, i + 1), P)
  }

  lemma GoalOnCurve(c: Curve, k: nat, P: Affine, i: nat)
    requires c.Valid() && Associative(c) && OnCurve(c, P) && k >= 1 && i + 1 < NBits(3 * k)
    ensures OnCurve(c, Goal(c, k, P, i))
    ensures i == 0 ==> Goal(c, k, P, i) == Times(c, k, P)
    ensures i >= 1 ==> Advance(CurveGroup(c), P, Digit(k, i), Goal(c, k, P, i)) == Goal(c, k, P, i - 1)
  {
    PrefixPositive(k, i + 1);
    CurveIsGroup(c);
    MultipleHas(CurveGroup(c), Prefix(k, i + 1), P);
    if i == 0 {
      PrefixEnd(k);
    } else {
      PrefixIsMultiple(c, k, P, i);
    }
  }

  /** After the last addition that meets the branch, the error there, doubled once
      for each step that remains, vanishes. */
  ghost predicate ErrorVanishes(c: Curve, k: nat, acc: Jac, B: Jac, P: Affine, i: nat)
    requires c.Valid() && k >= 1 && i + 1 < NBits(3 * k) && JOnCurve(c, acc) && JOnCurve(c, B) && B.z == 1
    decreases i
  {
    if SafeWalk(c, k, acc, B, i) then
      Doubled(CurveGroup(c), i, Error(c, acc, Goal(c, k, P, i))) == Infinity
    else
      StepOnCurve(c, k, acc, B, i);
      ErrorVanishes(c, k, Step(c, k, acc, B, i), B, P, i - 1)
  }

  lemma SafeEnding(c: Curve, k: nat, acc: Jac, B: Jac, P: Affine, i: nat)
    requires c.Valid() && Associative(c) && JOnCurve(c, acc) && JOnCurve(c, B)
    requires OnCurve(c, P) && Represents(c, B, P) && B.z == 1
    requires k >= 1 && i + 1 < NBits(3 * k) && SafeWalk(c, k, acc, B, i)
    ensures Represents(c, Walk(c, k, acc, B, i), Times(c, k, P)) <==>
            Doubled(CurveGroup(c), i, Error(c, acc, Goal(c, k, P, i))) == Infinity
  {
    var g, E := CurveGroup(c), Error(c, acc, Goal(c, k, P, i));
    PrefixPositive(k, i + 1);
    GoalOnCurve(c, k, P, i);
    ErrorIs(c, acc, Goal(c, k, P, i));
    ErrorTravels(c, k, acc, B, P, i, E);
    CurveIsAbelian(c);
    MultipleHas(g, k, P);
    DoubledZero(g, i, E);
    OnlyZeroKeeps(g, Times(c, k, P), Doubled(g, i, E));
    StandsFor(c, Walk(c, k, acc, B, i), Times(c, k, P));
  }

  lemma {:induction false} WalkIsRightIff(c: Curve, k: nat, acc: Jac, B: Jac, P: Affine, i: nat)
    requires c.Valid() && Associative(c) && JOnCurve(c, acc) && JOnCurve(c, B)
    requires OnCurve(c, P) && Represents(c, B, P) && B.z == 1
    requires k >= 1 && i + 1 < NBits(3 * k)
    ensures Represents(c, Walk(c, k, acc, B, i), Times(c, k, P)) <==> ErrorVanishes(c, k, acc, B, P, i)
    decreases i
  {
    if SafeWalk(c, k, acc, B, i) {
      SafeEnding(c, k, acc, B, P, i);
    } else {
      StepOnCurve(c, k, acc, B, i);
      WalkIsRightIff(c, k, Step(c, k, acc, B, i), B, P, i - 1);
    }
  }

  // ------------------------------------------------------------------
  // A whole multiplication

  // The copy of the point that is added.
  ghost function Addend(c: Curve, J: Jac): (B: Jac)
    requires c.Valid() && JOnCurve(c, J) && J.z != 0
    ensures B == Normalized(c, J) && JOnCurve(c, B) && B.z == 1 && Represents(c, B, ToAffine(c, J))
    ensures OnCurve(c, ToAffine(c, J))
  {
    ToAffineRepresents(c, J);
    JOnCurveIff(c, J);
    NormalizedRepresents(c, J, ToAffine(c, J));
    RepresentedOnCurve(c, Normalized(c, J), ToAffine(c, J));
    Normalized(c, J)
  }

  // The number of iterations.
  function Iterations(k: nat): (n: nat)
    requires k >= 1
    ensures n + 2 == NBits(3 * k)
  {
    PrefixTop(k);
    NBits(3 * k) - 2
  }

  // What the code leaves in the result.
  ghost function Computed(c: Curve, k: nat, J: Jac): Jac
    requires c.Valid() && k >= 1 && JOnCurve(c, J) && J.z != 0
  {
    Walk(c, k, J, Addend(c, J), Iterations(k))
  }

  ghost predicate IsRight(c: Curve, k: nat, J: Jac)
    requires c.Valid() && k >= 1 && JOnCurve(c, J) && J.z != 0
  {
    Represents(c, Computed(c, k, J), Times(c, k, ToAffine(c, J)))
  }

  /** For every curve, every finite point of it and every scalar of at least one:
      the multiplication is right if and only if the error after its last addition
      that meets the branch vanishes with the doublings that remain. */
  lemma RightIff(c: Curve, k: nat, J: Jac)
    requires c.Valid() && Associative(c) && k >= 1 && JOnCurve(c, J) && J.z != 0
    ensures IsRight(c, k, J) <==> ErrorVanishes(c, k, J, Addend(c, J), ToAffine(c, J), Iterations(k))
  {
    WalkIsRightIff(c, k, J, Addend(c, J), ToAffine(c, J), Iterations(k));
  }

  /** In particular it is right when no addition meets the branch. */
  lemma RightWhenSafe(c: Curve, k: nat, J: Jac)
    requires c.Valid() && Associative(c) && k >= 1 && JOnCurve(c, J) && J.z != 0
    requires SafeWalk(c, k, J, Addend(c, J), Iterations(k))
    ensures IsRight(c, k, J)
  {
    ScalarMultiple(c, k, J);
  }

  // ------------------------------------------------------------------
  // Curves without a point of order two

  lemma OrdinateZero(c: Curve, x: int)
    requires c.Valid()
    ensures OnCurve(c, Point(x, 0)) ==> !NoOrderTwo(CurveGroup(c))
  {
    if OnCurve(c, Point(x, 0)) {
      var g, e := CurveGroup(c), Point(x, 0);
      assert g.has(e) && g.add(e, e) == g.zero && e != g.zero;
    }
  }

  /** No element is its own inverse exactly when no point has ordinate zero. */
  lemma NoOrderTwoIff(c: Curve)
    requires c.Valid()
    ensures NoOrderTwo(CurveGroup(c)) <==> forall x :: !OnCurve(c, Point(x, 0))
  {
    var g := CurveGroup(c);
    forall x
      ensures OnCurve(c, Point(x, 0)) ==> !NoOrderTwo(g)
    {
      OrdinateZero(c, x);
    }
    if !NoOrderTwo(g) {
      var e :| g.has(e) && g.add(e, e) == g.zero && e != g.zero;
      assert OnCurve(c, Point(e.x, 0));
    }
  }

  lemma WrongFromHere(c: Curve, k: nat, acc: Jac, B: Jac, P: Affine, i: nat)
    requires c.Valid() && Associative(c) && NoOrderTwo(CurveGroup(c)) && JOnCurve(c, acc) && JOnCurve(c, B)
    requires OnCurve(c, P) && B.z == 1 && k >= 1 && i + 1 < NBits(3 * k) && SafeWalk(c, k, acc, B, i)
    requires !Represents(c, acc, Goal(c, k, P, i))
    ensures !ErrorVanishes(c, k, acc, B, P, i)
  {
    GoalOnCurve(c, k, P, i);
    ErrorIs(c, acc, Goal(c, k, P, i));
    CurveIsGroup(c);
    DoubledZero(CurveGroup(c), i, Error(c, acc, Goal(c, k, P, i)));
  }

  /** A step from a right value is right if and only if it does not meet the
      branch. */
  lemma StepIsRightIff(c: Curve, k: nat, acc: Jac, B: Jac, P: Affine, i: nat)
    requires c.Valid() && Associative(c) && JOnCurve(c, acc) && JOnCurve(c, B)
    requires OnCurve(c, P) && Represents(c, B, P) && B.z == 1
    requires k >= 1 && 1 <= i && i + 1 < NBits(3 * k) && Represents(c, acc, Goal(c, k, P, i))
    ensures JOnCurve(c, Step(c, k, acc, B, i))
    ensures Represents(c, Step(c, k, acc, B, i), Goal(c, k, P, i - 1)) <==> !Unsafe(c, k, acc, B, i)
  {
    StepOnCurve(c, k, acc, B, i);
    GoalOnCurve(c, k, P, i);
    StandsFor(c, acc, Goal(c, k, P, i));
    if Unsafe(c, k, acc, B, i) {
      UnsafeStep(c, k, acc, B, P, i);
    } else {
      SafeStep(c, k, acc, B, P, i);
    }
  }

  // The next value of an accumulator that is right, when the rest of the walk
  // meets the branch once.
  lemma NextValue(c: Curve, k: nat, acc: Jac, B: Jac, P: Affine, i: nat) returns (next: Jac, unsafe: bool)
    requires c.Valid() && Associative(c) && JOnCurve(c, acc) && JOnCurve(c, B)
    requires OnCurve(c, P) && Represents(c, B, P) && B.z == 1
    requires k >= 1 && i + 1 < NBits(3 * k) && Unsafes(c, k, acc, B, i) == 1
    requires Represents(c, acc, Goal(c, k, P, i))
    ensures i >= 1 && JOnCurve(c, next)
    ensures ErrorVanishes(c, k, acc, B, P, i) <==> ErrorVanishes(c, k, next, B, P, i - 1)
    ensures if unsafe then SafeWalk(c, k, next, B, i - 1) else Unsafes(c, k, next, B, i - 1) == 1
    ensures Represents(c, next, Goal(c, k, P, i - 1)) <==> !unsafe
  {
    hide JOnCurve, OnCurve, Represents, Goal, Step, Unsafe, Associative;
    NoneIsSafe(c, k, acc, B, i);
    next, unsafe := Step(c, k, acc, B, i), Unsafe(c, k, acc, B, i);
    NoneIsSafe(c, k, next, B, i - 1);
    StepIsRightIff(c, k, acc, B, P, i);
  }

  lemma {:induction false} OnceIsWrong(c: Curve, k: nat, acc: Jac, B: Jac, P: Affine, i: nat)
    requires c.Valid() && Associative(c) && NoOrderTwo(CurveGroup(c)) && JOnCurve(c, acc) && JOnCurve(c, B)
    requires OnCurve(c, P) && Represents(c, B, P) && B.z == 1
    requires k >= 1 && i + 1 < NBits(3 * k) && Unsafes(c, k, acc, B, i) == 1
    requires Represents(c, acc, Goal(c, k, P, i))
    ensures !ErrorVanishes(c, k, acc, B, P, i)
    decreases i
  {
    hide JOnCurve, OnCurve, Represents, Goal, Step, Unsafes, Associative, NoOrderTwo, ErrorVanishes;
    var next, unsafe := NextValue(c, k, acc, B, P, i);
    if unsafe {
      WrongFromHere(c, k, next, B, P, i - 1);
    } else {
      OnceIsWrong(c, k, next, B, P, i - 1);
    }
  }

  lemma FirstGoal(c: Curve, k: nat, J: Jac)
    requires c.Valid() && k >= 1 && JOnCurve(c, J) && J.z != 0
    ensures Represents(c, J, Goal(c, k, ToAffine(c, J), Iterations(k)))
  {
    var P := ToAffine(c, J);
    ToAffineRepresents(c, J);
    JOnCurveIff(c, J);
    PrefixTop(k);
    assert Times(c, 1, P) == Add(c, Times(c, 0, P), P) == P;
  }

  /** On a curve without a point of order two, a multiplication in which at most
      one addition meets the branch is right if and only if none does. */
  lemma RightExactlyWhenSafe(c: Curve, k: nat, J: Jac)
    requires c.Valid() && Associative(c) && NoOrderTwo(CurveGroup(c)) && k >= 1 && JOnCurve(c, J) && J.z != 0
    requires Unsafes(c, k, J, Addend(c, J), Iterations(k)) <= 1
    ensures IsRight(c, k, J) <==> SafeWalk(c, k, J, Addend(c, J), Iterations(k))
  {
    NoneIsSafe(c, k, J, Addend(c, J), Iterations(k));
    if SafeWalk(c, k, J, Addend(c, J), Iterations(k)) {
      RightWhenSafe(c, k, J);
    } else {
      FirstGoal(c, k, J);
      RightIff(c, k, J);
      OnceIsWrong(c, k, J, Addend(c, J), ToAffine(c, J), Iterations(k));
    }
  }

  // ------------------------------------------------------------------
  // The scalar that the code multiplies by

  // The doubled accumulator and the point that is added have one ordinate.
  predicate SameOrdinate(c: Curve, k: nat, acc: Jac, B: Jac, i: nat)
    requires c.p > 0
  {
    DoubleFormula(c, acc).y == if Digit(k, i) == 1 then B.y else ScalarMul.Inverse(c, B).y
  }

  // What becomes of the multiple n in one step: where the branch is met, the
  // doubled value is doubled again, or lost.
  function NextScalar(c: Curve, k: nat, acc: Jac, B: Jac, i: nat, n: int): int
    requires c.p > 0
  {
    if !Unsafe(c, k, acc, B, i) then 2 * n + Digit(k, i)
    else if SameOrdinate(c, k, acc, B, i) then 4 * n else 0
  }

  /** What becomes of it in the rest of the walk. */
  function LastScalar(c: Curve, k: nat, acc: Jac, B: Jac, i: nat, n: int): int
    requires c.p > 0
    decreases i
  {
    if i == 0 then n else LastScalar(c, k, Step(c, k, acc, B, i), B, i - 1, NextScalar(c, k, acc, B, i, n))
  }

  // The accumulator stands for a multiple.
  ghost predicate Holds(c: Curve, acc: Jac, n: int, P: Affine)
    requires c.Valid()
  {
    JOnCurve(c, acc) && ToAffine(c, acc) == Signed(CurveGroup(c), n, P)
  }

  lemma SafeCounts(c: Curve, k: nat, acc: Jac, B: Jac, P: Affine, i: nat, n: int)
    requires c.Valid() && Associative(c) && JOnCurve(c, B) && OnCurve(c, P) && Represents(c, B, P) && B.z == 1
    requires Holds(c, acc, n, P) && !Unsafe(c, k, acc, B, i)
    ensures Holds(c, Step(c, k, acc, B, i), 2 * n + Digit(k, i), P)
  {
    hide Unsafe, Step, Associative;
    CurveIsAbelian(c);
    AdvanceSigned(CurveGroup(c), P, Digit(k, i), n);
    SignedHas(CurveGroup(c), 2 * n + Digit(k, i), P);
    SafeStep(c, k, acc, B, P, i);
    StepOnCurve(c, k, acc, B, i);
    StandsFor(c, Step(c, k, acc, B, i), Signed(CurveGroup(c), 2 * n + Digit(k, i), P));
  }

  // Doubling the accumulator.
  lemma DoubleCounts(c: Curve, acc: Jac, P: Affine, n: int)
    requires c.Valid() && Associative(c) && OnCurve(c, P) && Holds(c, acc, n, P)
    ensures Holds(c, DoubleFormula(c, acc), 2 * n, P)
  {
    var g, V := CurveGroup(c), ToAffine(c, acc);
    CurveIsAbelian(c);
    SignedAdds(g, n, n, P);
    SignedHas(g, n, P);
    SignedHas(g, 2 * n, P);
    StandsFor(c, acc, V);
    DoubleRefines(c, acc, V);
    assert Add(c, V, V) == Double(c, V);
    RepresentedOnCurve(c, DoubleFormula(c, acc), Double(c, V));
    StandsFor(c, DoubleFormula(c, acc), Double(c, V));
  }

  // The faulty addition.
  lemma UnsafeIs(c: Curve, k: nat, acc: Jac, B: Jac, i: nat)
    requires c.Valid() && Reduced(c, acc) && Reduced(c, B) && B.z == 1 && Unsafe(c, k, acc, B, i)
    ensures Step(c, k, acc, B, i) == if SameOrdinate(c, k, acc, B, i) then DoubleFormula(c, DoubleFormula(c, acc)) else INFINITE
  {
    DoubleReduced(c, acc);
    UnsafeAdd(c, DoubleFormula(c, acc), if Digit(k, i) == 1 then B else ScalarMul.Inverse(c, B));
  }

  lemma InfinityCounts(c: Curve, P: Affine)
    requires c.Valid()
    ensures Holds(c, INFINITE, 0, P)
  {
  }

  lemma StepCounts(c: Curve, k: nat, acc: Jac, B: Jac, P: Affine, i: nat, n: int)
    requires c.Valid() && Associative(c) && JOnCurve(c, B) && OnCurve(c, P) && Represents(c, B, P) && B.z == 1
    requires Holds(c, acc, n, P)
    ensures Holds(c, Step(c, k, acc, B, i), NextScalar(c, k, acc, B, i, n), P)
  {
    hide Step, Represents, OnCurve, Associative;
    if !Unsafe(c, k, acc, B, i) {
      SafeCounts(c, k, acc, B, P, i, n);
    } else {
      UnsafeIs(c, k, acc, B, i);
      DoubleCounts(c, acc, P, n);
      DoubleCounts(c, DoubleFormula(c, acc), P, 2 * n);
      InfinityCounts(c, P);
    }
  }

  lemma {:induction false} WalkCounts(c: Curve, k: nat, acc: Jac, B: Jac, P: Affine, i: nat, n: int)
    requires c.Valid() && Associative(c) && JOnCurve(c, B) && OnCurve(c, P) && Represents(c, B, P) && B.z == 1
    requires Holds(c, acc, n, P)
    ensures Holds(c, Walk(c, k, acc, B, i), LastScalar(c, k, acc, B, i, n), P)
    decreases i
  {
    hide Holds, JOnCurve, OnCurve, Represents, Step, NextScalar, Associative;
    if i > 0 {
      StepCounts(c, k, acc, B, P, i, n);
      WalkCounts(c, k, Step(c, k, acc, B, i), B, P, i - 1, NextScalar(c, k, acc, B, i, n));
    }
  }

  /** The scalar that the code multiplies by. */
  ghost function CodeScalar(c: Curve, k: nat, J: Jac): int
    requires c.Valid() && k >= 1 && JOnCurve(c, J) && J.z != 0
  {
    LastScalar(c, k, J, Addend(c, J), Iterations(k), 1)
  }

  /** For every curve, every finite point of it and every scalar of at least one:
      the code computes a multiple of the point, by the scalar that its steps come
      to; and that is right if and only if the order of the point divides the
      difference of the scalars. */
  lemma RightIffOrder(c: Curve, k: nat, J: Jac)
    requires c.Valid() && Associative(c) && k >= 1 && JOnCurve(c, J) && J.z != 0
    ensures var (g, P) := (CurveGroup(c), ToAffine(c, J));
      && Holds(c, Computed(c, k, J), CodeScalar(c, k, J), P)
      && (IsRight(c, k, J) <==> Signed(g, CodeScalar(c, k, J) - k, P) == Infinity)
  {
    CodeCounts(c, k, J);
    var g, P := CurveGroup(c), ToAffine(c, J);
    hide JOnCurve, OnCurve, Represents, Computed, CodeScalar, Associative, Canonical, ToAffine;
    CurveIsAbelian(c);
    SameMultiple(g, CodeScalar(c, k, J), k, P);
    MultipleIsCanonical(c, k, P);
    StandsFor(c, Computed(c, k, J), Times(c, k, P));
  }

  lemma CodeCounts(c: Curve, k: nat, J: Jac)
    requires c.Valid() && Associative(c) && k >= 1 && JOnCurve(c, J) && J.z != 0
    ensures OnCurve(c, ToAffine(c, J)) && Holds(c, Computed(c, k, J), CodeScalar(c, k, J), ToAffine(c, J))
  {
    FirstHolds(c, J);
    hide JOnCurve, Holds, Walk, LastScalar, Associative;
    WalkCounts(c, k, J, Addend(c, J), ToAffine(c, J), Iterations(k), 1);
  }

  lemma FirstHolds(c: Curve, J: Jac)
    requires c.Valid() && Associative(c) && JOnCurve(c, J) && J.z != 0
    ensures OnCurve(c, ToAffine(c, J)) && Holds(c, J, 1, ToAffine(c, J))
  {
    var P := ToAffine(c, J);
    JOnCurveIff(c, J);
    CurveIsAbelian(c);
    assert Signed(CurveGroup(c), 1, P) == Add(c, Infinity, P) == P;
  }

  lemma MultipleIsCanonical(c: Curve, k: nat, P: Affine)
    requires c.Valid() && Associative(c) && OnCurve(c, P)
    ensures Canonical(c, Times(c, k, P))
  {
    CurveIsGroup(c);
    MultipleHas(CurveGroup(c), k, P);
  }

  // ------------------------------------------------------------------
  // One faulty addition

  // Without one, the scalar is what the digits add up to.
  lemma {:induction false} SafeScalar(c: Curve, k: nat, acc: Jac, B: Jac, i: nat, n: int)
    requires c.p > 0 && SafeWalk(c, k, acc, B, i)
    ensures LastScalar(c, k, acc, B, i, n) == Weight(i) * n + WeightedDigits(k, i)
    decreases i
  {
    if i > 0 {
      SafeScalar(c, k, Step(c, k, acc, B, i), B, i - 1, 2 * n + Digit(k, i));
      TwiceWeight(Weight(i - 1), n, Digit(k, i));
    }
  }

  lemma TwiceWeight(w: int, n: int, d: int)
    ensures w * (2 * n + d) == 2 * w * n + d * w
  {
  }

  // The iteration of the faulty addition, and whether the ordinates agree there.
  function FaultAt(c: Curve, k: nat, acc: Jac, B: Jac, i: nat): (j: nat)
    requires c.p > 0 && Unsafes(c, k, acc, B, i) >= 1
    ensures 1 <= j <= i
    decreases i
  {
    if Unsafe(c, k, acc, B, i) then i else FaultAt(c, k, Step(c, k, acc, B, i), B, i - 1)
  }

  predicate Repeats(c: Curve, k: nat, acc: Jac, B: Jac, i: nat)
    requires c.p > 0 && Unsafes(c, k, acc, B, i) >= 1
    decreases i
  {
    if Unsafe(c, k, acc, B, i) then SameOrdinate(c, k, acc, B, i) else Repeats(c, k, Step(c, k, acc, B, i), B, i - 1)
  }

  // By how much the scalar is wrong behind a faulty addition at iteration j.
  function Slip(k: nat, j: nat, repeats: bool): int {
    (if repeats then 4 * Prefix(k, j + 1) else 0) - Prefix(k, j)
  }

  lemma {:induction false} OneFaultScalar(c: Curve, k: nat, acc: Jac, B: Jac, i: nat)
    requires c.p > 0 && Unsafes(c, k, acc, B, i) == 1
    ensures var j := FaultAt(c, k, acc, B, i);
      LastScalar(c, k, acc, B, i, Prefix(k, i + 1)) == k + Weight(j - 1) * Slip(k, j, Repeats(c, k, acc, B, i))
    decreases i
  {
    hide Step, Prefix, Digit, SameOrdinate;
    var next, n := Step(c, k, acc, B, i), Prefix(k, i + 1);
    if Unsafe(c, k, acc, B, i) {
      var m := NextScalar(c, k, acc, B, i, n);
      NoneIsSafe(c, k, next, B, i - 1);
      SafeScalar(c, k, next, B, i - 1, m);
      DigitsAndPrefix(k, i - 1);
      Apart(Weight(i - 1), m, Prefix(k, i));
    } else {
      PrefixStep(k, i);
      OneFaultScalar(c, k, next, B, i - 1);
    }
  }

  lemma Apart(w: int, m: int, n: int)
    ensures w * (m - n) == w * m - n * w
  {
  }

  // In a whole multiplication.
  ghost predicate OneFault(c: Curve, k: nat, J: Jac)
    requires c.Valid() && k >= 1 && JOnCurve(c, J) && J.z != 0
  {
    Unsafes(c, k, J, Addend(c, J), Iterations(k)) == 1
  }

  ghost function FaultOf(c: Curve, k: nat, J: Jac): (j: nat)
    requires c.Valid() && k >= 1 && JOnCurve(c, J) && J.z != 0 && OneFault(c, k, J)
    ensures 1 <= j <= Iterations(k)
  {
    FaultAt(c, k, J, Addend(c, J), Iterations(k))
  }

  ghost predicate RepeatsIn(c: Curve, k: nat, J: Jac)
    requires c.Valid() && k >= 1 && JOnCurve(c, J) && J.z != 0 && OneFault(c, k, J)
  {
    Repeats(c, k, J, Addend(c, J), Iterations(k))
  }

  /** With one addition that meets the branch, in iteration j, the multiplication
      is right if and only if the order of the point divides 2^(j-1) times the
      slip there ... */
  lemma RightIffOneFault(c: Curve, k: nat, J: Jac)
    requires c.Valid() && Associative(c) && k >= 1 && JOnCurve(c, J) && J.z != 0 && OneFault(c, k, J)
    ensures var j := FaultOf(c, k, J);
      IsRight(c, k, J) <==> Signed(CurveGroup(c), Weight(j - 1) * Slip(k, j, RepeatsIn(c, k, J)), ToAffine(c, J)) == Infinity
  {
    hide JOnCurve, OneFault, FaultOf, RepeatsIn, CodeScalar, IsRight, Slip, Prefix, Weight, Holds, Computed, Signed, Associative, ToAffine;
    RightIffOrder(c, k, J);
    OneFaultSlip(c, k, J);
  }

  /** ... and when that addition gives infinity, if and only if it divides 2^(j-1)
      times the number that the digits from j on stand for. */
  lemma RightIffLost(c: Curve, k: nat, J: Jac, j: nat)
    requires c.Valid() && Associative(c) && k >= 1 && JOnCurve(c, J) && J.z != 0
    requires OneFault(c, k, J) && j == FaultOf(c, k, J) && !RepeatsIn(c, k, J)
    ensures 0 <= Weight(j - 1) * Prefix(k, j)
    ensures IsRight(c, k, J) <==> Times(c, Weight(j - 1) * Prefix(k, j), ToAffine(c, J)) == Infinity
  {
    CodeCounts(c, k, J);
    hide JOnCurve, OneFault, FaultOf, RepeatsIn, IsRight, Slip, Weight, Signed, Times, Prefix, Computed, Holds, Associative, ToAffine;
    RightIffOneFault(c, k, J);
    Lost(c, k, j, ToAffine(c, J));
  }

  lemma OneFaultSlip(c: Curve, k: nat, J: Jac)
    requires c.Valid() && k >= 1 && JOnCurve(c, J) && J.z != 0 && OneFault(c, k, J)
    ensures var j := FaultOf(c, k, J); CodeScalar(c, k, J) - k == Weight(j - 1) * Slip(k, j, RepeatsIn(c, k, J))
  {
    hide JOnCurve, Slip, Weight, LastScalar, Unsafes, FaultAt, Repeats, Addend, Iterations;
    FromTheTop(c, k, J, Addend(c, J));
  }

  lemma TopPrefix(k: nat)
    requires k >= 1
    ensures Prefix(k, Iterations(k) + 1) == 1
  {
    hide Prefix, NBits;
    PrefixTop(k);
  }

  lemma FromTheTop(c: Curve, k: nat, acc: Jac, B: Jac)
    requires c.p > 0 && k >= 1 && Unsafes(c, k, acc, B, Iterations(k)) == 1
    ensures var (n, j) := (Iterations(k), FaultAt(c, k, acc, B, Iterations(k)));
      LastScalar(c, k, acc, B, n, 1) == k + Weight(j - 1) * Slip(k, j, Repeats(c, k, acc, B, n))
  {
    hide Slip, Weight, LastScalar, Unsafes, FaultAt, Repeats, Prefix, NBits;
    TopPrefix(k);
    OneFaultScalar(c, k, acc, B, Iterations(k));
  }

  // The slip of an addition that gives infinity.
  lemma Lost(c: Curve, k: nat, j: nat, P: Affine)
    requires c.Valid() && Associative(c) && OnCurve(c, P) && k >= 1 && 1 <= j < NBits(3 * k)
    ensures 0 <= Weight(j - 1) * Prefix(k, j)
    ensures Signed(CurveGroup(c), Weight(j - 1) * Slip(k, j, false), P) == Infinity <==>
            Times(c, Weight(j - 1) * Prefix(k, j), P) == Infinity
  {
    PrefixPositive(k, j);
    hide Weight, Prefix, OnCurve, Associative;
    Product(Weight(j - 1), Prefix(k, j));
    CurveIsAbelian(c);
    SignedVanishes(CurveGroup(c), Weight(j - 1) * Prefix(k, j), P);
  }

  lemma Product(w: nat, n: int)
    requires n >= 1
    ensures 0 <= w * n && w * (0 - n) == 0 - w * n
  {
  }

  // ------------------------------------------------------------------
  // A failing run

  lemma Residues(c: Curve)
    requires c.p == 5 && c.inv(1) == 1 && c.inv(2) == 3 && c.inv(3) == 2 && c.inv(4) == 4
    ensures c.a == 0 && c.b == 2 ==> c.Valid()
  {
    ModIsRemainder(1, 5);
    ModIsRemainder(6, 5);
    ModIsRemainder(16, 5);
  }

  lemma DoubledTwice(c: Curve)
    requires c.p == 5 && c.a == 0
    ensures DoubleFormula(c, Jac(4, 1, 1)) == Jac(2, 4, 2)
    ensures DoubleFormula(c, Jac(2, 4, 2)) == Jac(3, 2, 1)
  {
    ModIsRemainder(48, 5);
    ModIsRemainder(16, 5);
    ModIsRemainder(7, 5);
    ModIsRemainder(8, 5);
    ModIsRemainder(-6, 5);
    ModIsRemainder(2, 5);
    ModIsRemainder(12, 5);
    ModIsRemainder(128, 5);
    ModIsRemainder(-2, 5);
    ModIsRemainder(2048, 5);
    ModIsRemainder(-3, 5);
  }

  lemma DigitsOfThree()
    ensures NBits(9) == 4 && Digit(3, 2) == 0 && Digit(3, 1) == -1
  {
    assert NBits(4) == 3 && NBits(2) == 2;
    assert Drop(9, 1) == 4 && Drop(9, 2) == 2 && Drop(3, 1) == 1 && Drop(3, 2) == 0;
  }

  // The walk of three: it meets the branch, and ends at infinity.
  lemma WalkOfThree(c: Curve)
    requires c.Valid() && c.p == 5 && c.a == 0 && c.b == 2
    ensures Walk(c, 3, Jac(4, 1, 1), Jac(4, 1, 1), 2) == INFINITE
    ensures Unsafes(c, 3, Jac(4, 1, 1), Jac(4, 1, 1), 2) == 1
  {
    var J := Jac(4, 1, 1);
    DigitsOfThree();
    DoubledTwice(c);
    assert Step(c, 3, J, J, 2) == Jac(2, 4, 2);
    var B := ScalarMul.Inverse(c, J);
    assert B == Jac(4, 4, 1);
    UnsafeAdd(c, Jac(3, 2, 1), B);
    assert Step(c, 3, Jac(2, 4, 2), J, 1) == INFINITE;
    assert Walk(c, 3, INFINITE, J, 0) == INFINITE;
  }

  lemma OnExample(c: Curve)
    requires c.Valid() && c.p == 5 && c.a == 0 && c.b == 2
    ensures JOnCurve(c, Jac(4, 1, 1)) && ToAffine(c, Jac(4, 1, 1)) == Point(4, 1) && OnCurve(c, Point(4, 1))
    ensures Normalized(c, Jac(4, 1, 1)) == Jac(4, 1, 1)
  {
    var J := Jac(4, 1, 1);
    UnitScale(c, 4, 1);
    RepresentsUnique(c, J, Point(4, 1));
    assert Residual(c, 4, 1) == 65;
    ModIsRemainder(65, 5);
    ModIsRemainder(0, 5);
    JOnCurveIff(c, J);
  }

  // The double of the point has another abscissa.
  lemma DoubleOfExample(c: Curve)
    requires c.Valid() && c.p == 5 && c.a == 0 && c.b == 2
    ensures Double(c, Point(4, 1)).Point? && Double(c, Point(4, 1)).x == 3
  {
    TwoY(c, 1);
    var l := Quot(c, 48, 2);
    ModIsRemainder(48, 5);
    ModIsRemainder(l * 2, 5);
    assert l == 4;
    ModIsRemainder(8, 5);
  }

  /** On y^2 = x^3 + 2 modulo 5 three times (4, 1) is a finite point, and the code
      says infinity. */
  lemma FailingRun(c: Curve)
    requires c.p == 5 && c.a == 0 && c.b == 2
    requires c.inv(1) == 1 && c.inv(2) == 3 && c.inv(3) == 2 && c.inv(4) == 4
    ensures c.Valid() && JOnCurve(c, Jac(4, 1, 1)) && ToAffine(c, Jac(4, 1, 1)) == Point(4, 1)
    ensures Computed(c, 3, Jac(4, 1, 1)) == INFINITE && Times(c, 3, Point(4, 1)).Point?
    ensures Unsafes(c, 3, Jac(4, 1, 1), Addend(c, Jac(4, 1, 1)), Iterations(3)) == 1
  {
    Residues(c);
    OnExample(c);
    DigitsOfThree();
    WalkOfThree(c);
    DoubleOfExample(c);
    var P, g := Point(4, 1), CurveGroup(c);
    AddOnCurve(c, P, P);
    assert Multiple(g, 1, P) == P && Multiple(g, 2, P) == Double(c, P);
    assert Multiple(g, 3, P) == Add(c, Double(c, P), P);
  }
}
