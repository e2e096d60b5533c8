/** Multiples of an element in a group given by its operations. */
module Group {
  datatype Group<!T> = Group(add: (T, T) -> T, neg: T -> T, zero: T, has: T -> bool)

  ghost predicate Closed<T>(g: Group<T>, x: T, y: T) {
    g.has(x) && g.has(y) ==> g.has(g.add(x, y))
  }

  ghost predicate Assoc<T>(g: Group<T>, x: T, y: T, z: T) {
    g.has(x) && g.has(y) && g.has(z) ==> g.add(g.add(x, y), z) == g.add(x, g.add(y, z))
  }

  ghost predicate Neutral<T>(g: Group<T>, x: T) {
    g.has(x) ==> g.add(x, g.zero) == x && g.has(g.neg(x)) && g.add(x, g.neg(x)) == g.zero
  }

  ghost predicate IsGroup<T(!new)>(g: Group<T>) {
    && g.has(g.zero)
    && (forall x, y :: Closed(g, x, y))
    && (forall x, y, z :: Assoc(g, x, y, z))
    && (forall x :: Neutral(g, x))
  }

  ghost function Multiple<T>(g: Group<T>, n: nat, x: T): T {
    if n == 0 then g.zero else g.add(Multiple(g, n - 1, x), x)
  }

  lemma {:induction false} MultipleHas<T(!new)>(g: Group<T>, n: nat, x: T)
    requires IsGroup(g) && g.has(x)
    ensures g.has(Multiple(g, n, x))
  {
    if n > 0 {
      MultipleHas(g, n - 1, x);
      assert Closed(g, Multiple(g, n - 1, x), x);
    }
  }

  lemma {:induction false} MultipleAdds<T(!new)>(g: Group<T>, m: nat, n: nat, x: T)
    requires IsGroup(g) && g.has(x)
    ensures Multiple(g, m + n, x) == g.add(Multiple(g, m, x), Multiple(g, n, x))
    decreases n
  {
    MultipleHas(g, m, x);
    if n == 0 {
      assert Neutral(g, Multiple(g, m, x));
    } else {
      MultipleAdds(g, m, n - 1, x);
      MultipleHas(g, n - 1, x);
      assert Assoc(g, Multiple(g, m, x), Multiple(g, n - 1, x), x);
    }
  }

  /** Doubling a multiple, and then adding or subtracting the element. */
  lemma DoubleAndAdd<T(!new)>(g: Group<T>, m: nat, x: T)
    requires IsGroup(g) && g.has(x) && m >= 1
    ensures var d := g.add(Multiple(g, m, x), Multiple(g, m, x));
      && Multiple(g, 2 * m, x) == d
      && Multiple(g, 2 * m + 1, x) == g.add(d, x)
      && Multiple(g, 2 * m - 1, x) == g.add(d, g.neg(x))
  {
    MultipleAdds(g, m, m, x);
    var t := Multiple(g, 2 * m - 1, x);
    MultipleHas(g, 2 * m - 1, x);
    assert Neutral(g, x) && Neutral(g, t);
    assert Assoc(g, t, x, g.neg(x));
  }

  lemma {:induction false} MultipleOfMultiple<T(!new)>(g: Group<T>, m: nat, n: nat, x: T)
    requires IsGroup(g) && g.has(x)
    ensures 0 <= n * m && Multiple(g, n, Multiple(g, m, x)) == Multiple(g, n * m, x)
    decreases n
  {
    if n > 0 {
      MultipleOfMultiple(g, m, n - 1, x);
      MultipleAdds(g, (n - 1) * m, m, x);
      assert n * m == (n - 1) * m + m;
    }
  }

  /** Multiples of multiples commute. */
  lemma MultiplesCommute<T(!new)>(g: Group<T>, m: nat, n: nat, x: T)
    requires IsGroup(g) && g.has(x)
    ensures Multiple(g, m, Multiple(g, n, x)) == Multiple(g, n, Multiple(g, m, x))
  {
    MultipleOfMultiple(g, m, n, x);
    MultipleOfMultiple(g, n, m, x);
    assert m * n == n * m;
  }

  // ------------------------------------------------------------------
  // A signed-digit walk in an Abelian group, and what an error becomes

  ghost predicate Commutes<T>(g: Group<T>, x: T, y: T) {
    g.has(x) && g.has(y) ==> g.add(x, y) == g.add(y, x)
  }

  ghost predicate IsAbelian<T(!new)>(g: Group<T>) {
    IsGroup(g) && forall x, y :: Commutes(g, x, y)
  }

  // One step of the walk: double, then add or subtract x, or leave it.
  ghost function Advance<T>(g: Group<T>, x: T, d: int, v: T): T {
    var w := g.add(v, v);
    if d == 1 then g.add(w, x) else if d == -1 then g.add(w, g.neg(x)) else w
  }

  // e, doubled n times.
  ghost function Doubled<T>(g: Group<T>, n: nat, e: T): T {
    if n == 0 then e else Doubled(g, n - 1, g.add(e, e))
  }

  ghost function Excess<T>(g: Group<T>, v: T, w: T): T {
    g.add(g.neg(w), v)
  }

  /** Only the neutral element leaves another one as it is. */
  lemma OnlyZeroKeeps<T(!new)>(g: Group<T>, w: T, e: T)
    requires IsAbelian(g) && g.has(w) && g.has(e)
    ensures g.add(w, e) == w <==> e == g.zero
  {
    var n := g.neg(w);
    assert Neutral(g, w) && Neutral(g, e);
    assert Assoc(g, n, w, e) && Commutes(g, n, w) && Commutes(g, g.zero, e);
  }

  lemma ExcessAdds<T(!new)>(g: Group<T>, v: T, w: T)
    requires IsAbelian(g) && g.has(v) && g.has(w)
    ensures g.has(Excess(g, v, w)) && g.add(w, Excess(g, v, w)) == v
    ensures Excess(g, v, w) == g.zero <==> v == w
  {
    assert Neutral(g, w) && Neutral(g, v) && Closed(g, g.neg(w), v);
    assert Assoc(g, w, g.neg(w), v);
    assert Commutes(g, g.zero, v);
    OnlyZeroKeeps(g, w, Excess(g, v, w));
  }

  lemma Regroup<T(!new)>(g: Group<T>, w: T, e: T)
    requires IsAbelian(g) && g.has(w) && g.has(e)
    ensures var v := g.add(w, e); g.add(v, v) == g.add(g.add(w, w), g.add(e, e))
  {
    var v := g.add(w, e);
    assert Closed(g, w, e) && Closed(g, e, e);
    assert Assoc(g, w, e, v) && Assoc(g, e, w, e) && Commutes(g, e, w) && Assoc(g, w, e, e) && Assoc(g, w, w, g.add(e, e));
  }

  lemma Behind<T(!new)>(g: Group<T>, w: T, e: T, y: T)
    requires IsAbelian(g) && g.has(w) && g.has(e) && g.has(y)
    ensures g.add(g.add(w, e), y) == g.add(g.add(w, y), e)
  {
    assert Assoc(g, w, e, y) && Commutes(g, e, y) && Assoc(g, w, y, e);
  }

  /** A step from a wrong value is wrong by twice as much. */
  lemma AdvanceDoublesError<T(!new)>(g: Group<T>, x: T, d: int, w: T, e: T)
    requires IsAbelian(g) && g.has(x) && g.has(w) && g.has(e)
    ensures g.has(Advance(g, x, d, w)) && g.has(g.add(e, e))
    ensures Advance(g, x, d, g.add(w, e)) == g.add(Advance(g, x, d, w), g.add(e, e))
  {
    assert Closed(g, w, w) && Closed(g, e, e) && Neutral(g, x);
    assert Closed(g, g.add(w, w), x) && Closed(g, g.add(w, w), g.neg(x));
    Regroup(g, w, e);
    Behind(g, g.add(w, w), g.add(e, e), x);
    Behind(g, g.add(w, w), g.add(e, e), g.neg(x));
  }

  /** The step of a multiple. */
  lemma AdvanceMultiple<T(!new)>(g: Group<T>, x: T, d: int, m: nat)
    requires IsGroup(g) && g.has(x) && m >= 1 && -1 <= d <= 1
    ensures Advance(g, x, d, Multiple(g, m, x)) == Multiple(g, 2 * m + d, x)
  {
    DoubleAndAdd(g, m, x);
  }

  // No element but the neutral one is its own inverse.
  ghost predicate NoOrderTwo<T(!new)>(g: Group<T>) {
    forall e :: g.has(e) && g.add(e, e) == g.zero ==> e == g.zero
  }

  lemma {:induction false} DoubledZero<T(!new)>(g: Group<T>, n: nat, e: T)
    requires IsGroup(g) && g.has(e)
    ensures g.has(Doubled(g, n, e))
    ensures e == g.zero ==> Doubled(g, n, e) == g.zero
    ensures NoOrderTwo(g) && Doubled(g, n, e) == g.zero ==> e == g.zero
    decreases n
  {
    assert Neutral(g, g.zero) && Closed(g, e, e);
    if n > 0 {
      DoubledZero(g, n - 1, g.add(e, e));
    }
  }

  // ------------------------------------------------------------------
  // Multiples by integers

  ghost function Signed<T>(g: Group<T>, n: int, x: T): T {
    if n >= 0 then Multiple(g, n, x) else g.neg(Multiple(g, -n, x))
  }

  lemma SignedHas<T(!new)>(g: Group<T>, n: int, x: T)
    requires IsGroup(g) && g.has(x)
    ensures g.has(Signed(g, n, x))
  {
    MultipleHas(g, if n >= 0 then n else -n, x);
    assert Neutral(g, Multiple(g, if n >= 0 then n else -n, x));
  }

  // From the right, equals can be taken away.
  lemma CancelRight<T(!new)>(g: Group<T>, u: T, v: T, a: T)
    requires IsGroup(g) && g.has(u) && g.has(v) && g.has(a) && g.add(u, a) == g.add(v, a)
    ensures u == v
  {
    assert Neutral(g, a) && Neutral(g, u) && Neutral(g, v);
    assert Assoc(g, u, a, g.neg(a)) && Assoc(g, v, a, g.neg(a));
  }

  lemma NegAdds<T(!new)>(g: Group<T>, a: T)
    requires IsAbelian(g) && g.has(a)
    ensures g.has(g.neg(a)) && g.add(g.neg(a), a) == g.zero
  {
    assert Neutral(g, a) && Commutes(g, a, g.neg(a));
  }

  // The inverse of a sum, less one of its parts.
  lemma NegOfSum<T(!new)>(g: Group<T>, a: T, x: T)
    requires IsAbelian(g) && g.has(a) && g.has(x)
    ensures g.neg(a) == g.add(g.neg(g.add(a, x)), x)
  {
    var s := g.add(a, x);
    assert Closed(g, a, x);
    NegAdds(g, a);
    NegAdds(g, s);
    assert Closed(g, g.neg(s), x) && Assoc(g, g.neg(s), x, a) && Commutes(g, x, a);
    CancelRight(g, g.neg(a), g.add(g.neg(s), x), a);
  }

  lemma SignedNext<T(!new)>(g: Group<T>, n: int, x: T)
    requires IsAbelian(g) && g.has(x)
    ensures Signed(g, n + 1, x) == g.add(Signed(g, n, x), x)
  {
    if n < 0 {
      MultipleHas(g, -n - 1, x);
      NegOfSum(g, Multiple(g, -n - 1, x), x);
      if n == -1 {
        assert Neutral(g, g.zero) && g.has(g.zero);
        NegAdds(g, g.zero);
        assert Neutral(g, g.neg(g.zero));
      }
    }
  }

  lemma SignedBefore<T(!new)>(g: Group<T>, n: int, x: T)
    requires IsAbelian(g) && g.has(x)
    ensures g.has(g.neg(x)) && Signed(g, n - 1, x) == g.add(Signed(g, n, x), g.neg(x))
  {
    SignedNext(g, n - 1, x);
    SignedHas(g, n - 1, x);
    assert Neutral(g, x) && Neutral(g, Signed(g, n - 1, x)) && Assoc(g, Signed(g, n - 1, x), x, g.neg(x));
  }

  lemma {:induction false} SignedAdds<T(!new)>(g: Group<T>, m: int, n: int, x: T)
    requires IsAbelian(g) && g.has(x)
    ensures Signed(g, m + n, x) == g.add(Signed(g, m, x), Signed(g, n, x))
    decreases if n < 0 then -n else n
  {
    SignedHas(g, m, x);
    if n == 0 {
      assert Neutral(g, Signed(g, m, x));
    } else if n > 0 {
      SignedAdds(g, m, n - 1, x);
      SignedNext(g, m + n - 1, x);
      SignedNext(g, n - 1, x);
      SignedHas(g, n - 1, x);
      assert Assoc(g, Signed(g, m, x), Signed(g, n - 1, x), x);
    } else {
      SignedAdds(g, m, n + 1, x);
      SignedBefore(g, m + n + 1, x);
      SignedBefore(g, n + 1, x);
      SignedHas(g, n + 1, x);
      assert Assoc(g, Signed(g, m, x), Signed(g, n + 1, x), g.neg(x));
    }
  }

  /** A step of the walk takes the integer n to 2n plus the digit. */
  lemma AdvanceSigned<T(!new)>(g: Group<T>, x: T, d: int, n: int)
    requires IsAbelian(g) && g.has(x) && -1 <= d <= 1
    ensures Advance(g, x, d, Signed(g, n, x)) == Signed(g, 2 * n + d, x)
  {
    SignedAdds(g, n, n, x);
    SignedNext(g, 2 * n, x);
    SignedBefore(g, 2 * n, x);
  }

  /** Two multiples are the same if and only if that of the difference vanishes. */
  lemma SameMultiple<T(!new)>(g: Group<T>, m: int, n: int, x: T)
    requires IsAbelian(g) && g.has(x)
    ensures Signed(g, m, x) == Signed(g, n, x) <==> Signed(g, m - n, x) == g.zero
  {
    SignedHas(g, n, x);
    SignedHas(g, m - n, x);
    SignedAdds(g, n, m - n, x);
    OnlyZeroKeeps(g, Signed(g, n, x), Signed(g, m - n, x));
  }

  lemma SignedVanishes<T(!new)>(g: Group<T>, n: nat, x: T)
    requires IsAbelian(g) && g.has(x)
    ensures Signed(g, 0 - n, x) == g.zero <==> Multiple(g, n, x) == g.zero
  {
    SameMultiple(g, 0, n, x);
    SameMultiple(g, n, 0, x);
  }
}
