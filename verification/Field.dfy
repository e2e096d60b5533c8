/** Arithmetic modulo a prime: residues, congruence reasoning, and inverses. */
module Field {
  /** The residue of n modulo p, in [0, p).  Defined by repeated subtraction, so
      that proofs use it only through the laws below. */
  function Mod(n: int, p: int): (r: int)
    requires p > 0
    ensures 0 <= r < p
    decreases if n < 0 then p - n else n
  {
    if n < 0 then Mod(n + p, p) else if n < p then n else Mod(n - p, p)
  }

  lemma Neighbours(q: int, p: int)
    ensures (q - 1) * p == q * p - p && (q + 1) * p == q * p + p
  {
  }

  lemma {:induction false} Quotient(n: int, p: int) returns (q: int)
    requires p > 0
    ensures n == Mod(n, p) + q * p
    decreases if n < 0 then p - n else n
  {
    if n < 0 {
      var r := Quotient(n + p, p);
      Neighbours(r, p);
      q := r - 1;
    } else if n < p {
      q := 0;
    } else {
      var r := Quotient(n - p, p);
      Neighbours(r, p);
      q := r + 1;
    }
  }

  lemma {:induction false} ModShift(n: int, k: int, p: int)
    requires p > 0
    ensures Mod(n + k * p, p) == Mod(n, p)
    decreases if k < 0 then -k else k
  {
    if k > 0 {
      assert n + k * p == n + (k - 1) * p + p;
      ModShift(n, k - 1, p);
      ModNext(n + (k - 1) * p, p);
    } else if k < 0 {
      assert n + k * p == n + (k + 1) * p - p;
      ModShift(n, k + 1, p);
      ModNext(n + k * p, p);
    }
  }

  lemma ModNext(n: int, p: int)
    requires p > 0
    ensures Mod(n + p, p) == Mod(n, p)
  {
  }

  /** It is the remainder of Euclidean division. */
  lemma ModIsRemainder(n: int, p: int)
    requires p > 0
    ensures Mod(n, p) == n % p
  {
    assert n == n % p + (n / p) * p;
    ModShift(n % p, n / p, p);
  }

  // Congruence modulo p.
  ghost predicate Cong(a: int, b: int, p: int)
    requires p > 0
  {
    Mod(a, p) == Mod(b, p)
  }

  lemma Residue(n: int, m: int, p: int)
    requires p > 0 && Cong(n, m, p)
    ensures Cong(Mod(n, p), m, p)
  {
  }

  /** The rule by which congruences are used: x and y differ by a multiple of
      the difference of two congruent numbers. */
  lemma By(x: int, y: int, c: int, a: int, b: int, p: int)
    requires p > 0 && Cong(a, b, p)
    requires x == y + c * (a - b)
    ensures Cong(x, y, p)
  {
    var q := Quotient(a, p);
    var r := Quotient(b, p);
    Difference(q, r, p);
    Regroup(c, q - r, p);
    assert x == y + c * ((q - r) * p);
    ModShift(y, c * (q - r), p);
  }

  lemma Difference(q: int, r: int, p: int)
    ensures (q - r) * p == q * p - r * p
  {
  }

  lemma Regroup(c: int, d: int, p: int)
    ensures c * (d * p) == (c * d) * p
  {
  }

  lemma By2(x: int, y: int, c: int, a: int, b: int, d: int, e: int, f: int, p: int)
    requires p > 0 && Cong(a, b, p) && Cong(e, f, p)
    requires x == y + c * (a - b) + d * (e - f)
    ensures Cong(x, y, p)
  {
    By(y + c * (a - b), y, c, a, b, p);
    By(x, y + c * (a - b), d, e, f, p);
  }

  lemma AddCong(a: int, b: int, c: int, d: int, p: int)
    requires p > 0 && Cong(a, b, p) && Cong(c, d, p)
    ensures Cong(a + c, b + d, p) && Cong(a - c, b - d, p)
  {
    By2(a + c, b + d, 1, a, b, 1, c, d, p);
    By2(a - c, b - d, 1, a, b, -1, c, d, p);
  }

  lemma MulCong(a: int, b: int, c: int, d: int, p: int)
    requires p > 0 && Cong(a, b, p) && Cong(c, d, p)
    ensures Cong(a * c, b * d, p)
  {
    assert a * c == b * d + c * (a - b) + b * (c - d);
    By2(a * c, b * d, c, a, b, b, c, d, p);
  }

  lemma Trans(a: int, b: int, c: int, p: int)
    requires p > 0 && Cong(a, b, p) && Cong(b, c, p)
    ensures Cong(a, c, p)
  {
  }
}
