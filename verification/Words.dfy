/** 32-bit words as their bits, least significant first, with the operators
    that the mask arithmetic of aacs.c uses. */
module Words {
  import opened Bytes

  type Word = w: seq<bool> | |w| == 32 witness seq(32, _ => false)

  function Zero(): Word { seq(32, _ => false) }
  function All(): Word { seq(32, _ => true) }

  function And(a: Word, b: Word): Word {
    seq(32, i requires 0 <= i < 32 => a[i] && b[i])
  }

  function Not(a: Word): Word {
    seq(32, i requires 0 <= i < 32 => !a[i])
  }

  function ShiftLeft(a: Word, n: nat): Word
    requires n <= 31
  {
    seq(32, i requires 0 <= i < 32 => i >= n && a[i - n])
  }

  // The sign bit is copied, as for a signed operand.
  function ShiftRightSigned(a: Word): Word {
    a[1..] + [a[31]]
  }

  // A number's bits; what is above the word is dropped.
  function FromNat(n: nat): Word {
    if n == 0 then Zero() else [n % 2 == 1] + FromNat(n / 2)[..31]
  }

  /** The word with h low zero bits: a mask of height h. */
  ghost function Mask(h: nat): Word
    requires h <= 32
  {
    seq(32, i requires 0 <= i < 32 => i >= h)
  }

  lemma MaskIsShift(h: nat)
    requires h <= 31
    ensures ShiftLeft(All(), h) == Mask(h)
  {
  }

  lemma MaskUp(h: nat)
    requires h < 32
    ensures ShiftLeft(Mask(h), 1) == Mask(h + 1)
  {
  }

  lemma MaskDown(h: nat)
    requires 0 < h < 32
    ensures ShiftRightSigned(Mask(h)) == Mask(h - 1)
  {
  }

  lemma MaskInjective(h: nat, g: nat)
    requires h <= 32 && g <= 32
    ensures Mask(h) == Mask(g) <==> h == g
  {
    if h < g {
      assert Mask(h)[h] != Mask(g)[h];
    } else if g < h {
      assert Mask(h)[g] != Mask(g)[g];
    }
  }

  // ------------------------------------------------------------------
  // Ancestors: two numbers have the same one at height h

  ghost predicate Same(x: Word, y: Word, h: nat) {
    forall i :: h <= i < 32 ==> x[i] == y[i]
  }

  lemma SameIsMasked(x: Word, y: Word, h: nat)
    requires h <= 32
    ensures And(x, Mask(h)) == And(y, Mask(h)) <==> Same(x, y, h)
  {
    var a, b := And(x, Mask(h)), And(y, Mask(h));
    if a == b {
      forall i | h <= i < 32
        ensures x[i] == y[i]
      {
        assert a[i] == b[i];
      }
    }
  }

  // x and y part exactly below height h + 1: x lies under the sibling of the
  // node of y at height h.
  ghost predicate Parts(x: Word, y: Word, h: nat)
    requires h < 32
  {
    x[h] != y[h] && Same(x, y, h + 1)
  }

  /** Numbers that differ above height lo but not above height hi part at
      exactly one height between. */
  lemma {:induction false} PartSomewhere(x: Word, y: Word, lo: nat, hi: nat) returns (h: nat)
    requires lo <= hi <= 32 && Same(x, y, hi) && !Same(x, y, lo)
    ensures lo <= h < hi && Parts(x, y, h)
    decreases hi
  {
    if x[hi - 1] != y[hi - 1] {
      h := hi - 1;
    } else {
      assert Same(x, y, hi - 1);
      h := PartSomewhere(x, y, lo, hi - 1);
    }
  }

  // ------------------------------------------------------------------
  // The node v of a number: just above its lowest set bit

  ghost predicate IsVHeight(uv: Word, h: nat) {
    1 <= h <= 32 && uv[h - 1] && forall i :: 0 <= i < h - 1 ==> !uv[i]
  }

  ghost function VHeightFrom(uv: Word, i: nat): (h: nat)
    requires i <= 32 && uv != Zero()
    requires forall j :: 0 <= j < i ==> !uv[j]
    ensures IsVHeight(uv, h)
    decreases 32 - i
  {
    assert i == 32 ==> uv == Zero();
    if uv[i] then i + 1 else VHeightFrom(uv, i + 1)
  }

  ghost function VHeight(uv: Word): (h: nat)
    requires uv != Zero()
    ensures IsVHeight(uv, h)
  {
    VHeightFrom(uv, 0)
  }

  lemma LetsNothingThrough(uv: Word, h: nat)
    requires uv != Zero() && h <= 32
    ensures And(uv, Not(Mask(h))) == Zero() <==> h < VHeight(uv)
  {
    var v := VHeight(uv);
    var a := And(uv, Not(Mask(h)));
    if v <= h {
      assert a[v - 1] && !Zero()[v - 1];
    }
  }

  /** _calc_v_mask.  A zero `uv` would never leave the loop; both callers skip
      such entries. */
  method CalcVMask(uv: Word) returns (vMask: Word)
    requires uv != Zero()
    ensures vMask == Mask(VHeight(uv))
  {
    vMask := All();
    ghost var h := 0;
    LetsNothingThrough(uv, 0);
    while And(uv, Not(vMask)) == Zero()
      invariant h <= VHeight(uv) && vMask == Mask(h)
      invariant And(uv, Not(vMask)) == Zero() <==> h < VHeight(uv)
      decreases VHeight(uv) - h
    {
      MaskUp(h);
      vMask := ShiftLeft(vMask, 1);
      h := h + 1;
      LetsNothingThrough(uv, h);
    }
  }

  // ------------------------------------------------------------------
  // Words as numbers

  function Bit(b: bool): nat {
    if b then 1 else 0
  }

  // The number without its i low bits.
  function Above(w: Word, i: nat): nat
    requires i <= 32
    decreases 32 - i
  {
    if i == 32 then 0 else 2 * Above(w, i + 1) + Bit(w[i])
  }

  function ToNat(w: Word): nat {
    Above(w, 0)
  }

  /** The bits of a word read from a number are those of the number. */
  lemma {:induction false} BitOfNat(n: nat, i: nat)
    requires i < 32
    ensures FromNat(n)[i] <==> n / Pow2(i) % 2 == 1
    decreases i
  {
    if n == 0 {
      assert 0 / Pow2(i) == 0;
    } else if i > 0 {
      BitOfNat(n / 2, i - 1);
      HalfThenShift(n, Pow2(i - 1));
    }
  }

  lemma HalfThenShift(n: nat, p: nat)
    requires p > 0
    ensures (n / 2) / p == n / (2 * p)
  {
    var q, r := (n / 2) / p, (n / 2) % p;
    QuotientAndRest(n / 2, p, q, r);
    Twice(p, q);
    DivideExactly(2 * p, q, 2 * r + n % 2, n);
  }

  lemma ShiftThenHalf(n: nat, p: nat)
    requires p > 0
    ensures n / p / 2 == n / (2 * p)
  {
    var q, r := n / p, n % p;
    QuotientAndRest(n, p, q, r);
    Twice(p, q / 2);
    Odd(p, q);
    DivideExactly(2 * p, q / 2, (q % 2) * p + r, n);
  }

  lemma Twice(p: nat, q: nat)
    ensures (2 * p) * q == 2 * (p * q)
  {
  }

  lemma Odd(p: nat, q: nat)
    ensures p * q == 2 * (p * (q / 2)) + (q % 2) * p
  {
    assert q == 2 * (q / 2) + q % 2;
    assert p * (2 * (q / 2) + q % 2) == p * (2 * (q / 2)) + p * (q % 2);
  }

  // What lies above bit i of a word read from a number.
  lemma {:induction false} AboveNat(n: nat, i: nat)
    requires n < 0x1_0000_0000 && i <= 32
    ensures Above(FromNat(n), i) == n / Pow2(i)
    decreases 32 - i
  {
    if i == 32 {
      BytePower(8);
      BytePower(16);
      BytePower(24);
      assert n / Pow2(32) == 0;
    } else {
      AboveNat(n, i + 1);
      BitOfNat(n, i);
      ShiftThenHalf(n, Pow2(i));
    }
  }

  /** Reading a number of 32 bits loses nothing. */
  lemma ReadsBack(n: nat)
    requires n < 0x1_0000_0000
    ensures ToNat(FromNat(n)) == n
  {
    AboveNat(n, 0);
    assert Pow2(0) == 1;
  }

  lemma {:induction false} SameIffAbove(x: Word, y: Word, h: nat)
    requires h <= 32
    ensures Same(x, y, h) <==> Above(x, h) == Above(y, h)
    decreases 32 - h
  {
    if h < 32 {
      SameIffAbove(x, y, h + 1);
      if Above(x, h) == Above(y, h) {
        assert x[h] == y[h] && Above(x, h + 1) == Above(y, h + 1);
      }
    }
  }

  lemma {:induction false} AboveIsQuotient(w: Word, i: nat)
    requires i <= 32
    ensures Above(w, i) == ToNat(w) / Pow2(i)
    decreases i
  {
    if i > 0 {
      AboveIsQuotient(w, i - 1);
      ShiftThenHalf(ToNat(w), Pow2(i - 1));
      assert Above(w, i - 1) / 2 == Above(w, i);
    } else {
      assert Pow2(0) == 1;
    }
  }

  // The largest power of two that divides a number.
  function LowestPower(n: nat): (p: nat)
    requires n > 0
    ensures p > 0 && n % p == 0 && n / p % 2 == 1
  {
    if n % 2 == 1 then 1 else
    var p := LowestPower(n / 2);
    EvenParts(n, p);
    2 * p
  }

  lemma EvenParts(n: nat, p: nat)
    requires p > 0 && n % 2 == 0 && n / 2 % p == 0
    ensures n % (2 * p) == 0 && n / (2 * p) == (n / 2) / p
  {
    var m := (n / 2) / p;
    QuotientAndRest(n / 2, p, m, 0);
    Twice(p, m);
    DivideExactly(2 * p, m, 0, n);
    QuotientAndRest(n, 2 * p, m, n % (2 * p));
  }

  lemma Lowest(n: nat)
    ensures n > 0 ==> LowestPower(n) == if n % 2 == 1 then 1 else 2 * LowestPower(n / 2)
  {
  }

  lemma AboveStep(w: Word, i: nat)
    requires i < 32
    ensures Above(w, i) == 2 * Above(w, i + 1) + (if w[i] then 1 else 0)
    ensures Above(w, i) / 2 == Above(w, i + 1) && (Above(w, i) % 2 == 1 <==> w[i])
  {
  }

  // The node of a number is just above that power.
  lemma {:induction false} VHeightIsLowest(w: Word, i: nat, h: nat)
    requires i < h && IsVHeight(w, h)
    ensures Above(w, i) > 0 && LowestPower(Above(w, i)) == Pow2(h - 1 - i)
    decreases h - i
  {
    hide LowestPower, Above;
    AboveStep(w, i);
    Lowest(Above(w, i));
    if i + 1 < h {
      VHeightIsLowest(w, i + 1, h);
      assert !w[i];
    } else {
      assert w[i] && Pow2(0) == 1;
    }
  }

  lemma {:induction false} ZeroIffNone(w: Word, i: nat)
    requires i <= 32
    ensures Above(w, i) == 0 <==> forall j :: i <= j < 32 ==> !w[j]
    decreases 32 - i
  {
    if i < 32 {
      ZeroIffNone(w, i + 1);
    }
  }

  lemma IsZeroIff(w: Word)
    ensures w == Zero() <==> ToNat(w) == 0
  {
    ZeroIffNone(w, 0);
  }

  // Two numbers agree after division.
  predicate Agree(x: nat, y: nat, p: nat)
    requires p > 0
  {
    x / p == y / p
  }

  /** Two numbers have the same node at the height of the second one's node if and
      only if they agree after division by twice the largest power of two that
      divides the second. */
  lemma SameAtNode(x: Word, w: Word)
    requires w != Zero()
    ensures ToNat(w) > 0
    ensures Same(x, w, VHeight(w)) <==> Agree(ToNat(x), ToNat(w), 2 * LowestPower(ToNat(w)))
  {
    IsZeroIff(w);
    VHeightIsLowest(w, 0, VHeight(w));
    assert Pow2(0) == 1 && Pow2(VHeight(w)) == 2 * Pow2(VHeight(w) - 1);
    hide VHeight, Same, LowestPower;
    SameIffAbove(x, w, VHeight(w));
    AboveIsQuotient(x, VHeight(w));
    AboveIsQuotient(w, VHeight(w));
  }

  /** And at a height h if and only if they agree after division by 2^h. */
  lemma SameAtHeight(x: Word, w: Word, h: nat)
    requires h <= 32
    ensures Same(x, w, h) <==> Agree(ToNat(x), ToNat(w), Pow2(h))
  {
    SameIffAbove(x, w, h);
    AboveIsQuotient(x, h);
    AboveIsQuotient(w, h);
  }

  /** Exclusive-or on numbers: a bit of the result is one if and only if the bits of
      the operands differ. */
  lemma {:induction false} XorIsBitwise(n: nat, a: nat, b: nat, i: nat)
    requires a < Pow2(n) && b < Pow2(n) && i < n
    ensures XorBits(n, a, b) / Pow2(i) % 2 == 1 <==> a / Pow2(i) % 2 != b / Pow2(i) % 2
    decreases n
  {
    var x := XorBits(n, a, b);
    assert x / 2 == XorBits(n - 1, a / 2, b / 2);
    if i == 0 {
      assert Pow2(0) == 1;
    } else {
      XorIsBitwise(n - 1, a / 2, b / 2, i - 1);
      HalfThenShift(x, Pow2(i - 1));
      HalfThenShift(a, Pow2(i - 1));
      HalfThenShift(b, Pow2(i - 1));
    }
  }
}
