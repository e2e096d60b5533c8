/** The message authentication code of crypto.c: its subkeys against section
    2.3 of RFC 4493, and its one-block form against section 2.4. */
module Cmac {
  import opened Bytes

  // ------------------------------------------------------------------
  // GF(2^n): numbers below 2^n whose bits are the coefficients.  The code uses
  // n = 128, written 8 * |k| for a block k.

  // x^n + x^7 + x^2 + x + 1
  function Modulus(n: nat): (r: nat)
    ensures r == Pow2(n) + Pow2(7) + Pow2(2) + Pow2(1) + Pow2(0)
  {
    Pow2(n) + 0x87
  }

  lemma Bounds(n: nat)
    ensures 2 * Pow2(n) == Pow2(n + 1) && Pow2(8) == 256 && Pow2(n + 8) == 256 * Pow2(n)
    ensures n >= 8 ==> 0x87 < 256 <= Pow2(n)
  {
    BytePower(n);
    if n >= 8 {
      BytePower(n - 8);
    }
  }

  // Reduction of a polynomial of degree at most n.
  function Reduce(n: nat, w: nat): (r: nat)
    requires w < Pow2(n + 1) && n >= 8
    ensures r < Pow2(n + 1)
  {
    Bounds(n);
    if w < Pow2(n) then w else XorBits(n + 1, w, Modulus(n))
  }

  lemma ReduceBelow(n: nat, w: nat)
    requires w < Pow2(n + 1) && n >= 8
    ensures Reduce(n, w) < Pow2(n)
  {
    Bounds(n);
    if w >= Pow2(n) {
      TopCancels(n, w - Pow2(n), 0x87);
    }
  }

  // A bit that both operands have is not in the exclusive-or.
  lemma {:induction false} TopCancels(n: nat, a: nat, b: nat)
    requires a < Pow2(n) && b < Pow2(n)
    ensures XorBits(n + 1, Pow2(n) + a, Pow2(n) + b) == XorBits(n, a, b)
  {
    if n > 0 {
      TopCancels(n - 1, a / 2, b / 2);
      HalfOfSum(n, a);
      HalfOfSum(n, b);
    }
  }

  lemma HalfOfSum(n: nat, a: nat)
    requires n > 0
    ensures (Pow2(n) + a) / 2 == Pow2(n - 1) + a / 2 && (Pow2(n) + a) % 2 == a % 2
  {
    assert Pow2(n) == 2 * Pow2(n - 1);
  }

  function TimesX(n: nat, a: nat): (r: nat)
    requires a < Pow2(n) && n >= 8
    ensures r < Pow2(n)
  {
    Bounds(n);
    ReduceBelow(n, 2 * a);
    Reduce(n, 2 * a)
  }

  /** Multiplication in the field: b's coefficients, lowest first. */
  function Product(n: nat, a: nat, b: nat): (r: nat)
    requires a < Pow2(n) && n >= 8
    ensures r < Pow2(n)
    decreases b
  {
    if b == 0 then 0
    else XorBits(n, if b % 2 == 1 then a else 0, TimesX(n, Product(n, a, b / 2)))
  }

  lemma {:induction false} XorWithZero(n: nat, a: nat)
    requires a < Pow2(n)
    ensures XorBits(n, a, 0) == a && XorBits(n, 0, a) == a
  {
    if n > 0 {
      XorWithZero(n - 1, a / 2);
    }
  }

  /** x and x^2 as factors. */
  lemma SmallProducts(n: nat, a: nat)
    requires a < Pow2(n) && n >= 8
    ensures Product(n, a, 1) == a && Product(n, a, 2) == TimesX(n, a) && Product(n, a, 4) == TimesX(n, TimesX(n, a))
  {
    assert Product(n, a, 0) == 0 && TimesX(n, 0) == 0;
    XorWithZero(n, a);
    assert Product(n, a, 1) == a;
    XorWithZero(n, TimesX(n, a));
    assert Product(n, a, 2) == TimesX(n, a);
    XorWithZero(n, TimesX(n, TimesX(n, a)));
    assert Product(n, a, 4) == XorBits(n, 0, TimesX(n, Product(n, a, 2)));
  }

  // ------------------------------------------------------------------
  // Numbers as byte strings

  lemma {:induction false} ValueFromLeft(s: seq<Byte>)
    requires s != []
    ensures Value(s) == s[0] * Pow2(8 * (|s| - 1)) + Value(s[1..])
    decreases |s|
  {
    if |s| == 1 {
      assert s[..0] == [] && s[1..] == [];
    } else {
      var t := s[..|s| - 1];
      ValueFromLeft(t);
      assert t[1..] == s[1..][..|s| - 2];
      Bounds(8 * (|s| - 2));
      Regroup(s[0], Pow2(8 * (|s| - 2)), Value(t[1..]));
    }
  }

  lemma Regroup(a: int, p: int, v: int)
    ensures 256 * (a * p + v) == a * (p * 256) + 256 * v
  {
  }

  // a, k bits further left.
  function Shifted(a: nat, k: nat): nat {
    if k == 0 then a else 2 * Shifted(a, k - 1)
  }

  /** Exclusive-or with a number of k bits leaves what is above them. */
  lemma {:induction false} XorLow(n: nat, a: nat, x: nat, y: nat, k: nat)
    requires a < Pow2(n) && x < Pow2(k) && y < Pow2(k)
    requires Shifted(a, k) + x < Pow2(n + k) && y < Pow2(n + k)
    ensures XorBits(n + k, Shifted(a, k) + x, y) == Shifted(a, k) + XorBits(k, x, y)
    decreases k
  {
    if k > 0 {
      assert Shifted(a, k) + x == 2 * (Shifted(a, k - 1) + x / 2) + x % 2;
      Unfold(n + k, Shifted(a, k) + x, y, Shifted(a, k - 1) + x / 2, y / 2, x % 2, y % 2);
      XorLow(n, a, x / 2, y / 2, k - 1);
      Unfold(k, x, y, x / 2, y / 2, x % 2, y % 2);
    } else {
      XorWithZero(n, a);
    }
  }

  lemma ShiftedByte(a: nat)
    ensures Shifted(a, 8) == 256 * a
  {
    assert Shifted(a, 1) == 2 * a;
    assert Shifted(a, 3) == 8 * a;
    assert Shifted(a, 5) == 32 * a;
    assert Shifted(a, 7) == 128 * a;
  }

  lemma Unfold(n: nat, v: nat, w: nat, v2: nat, w2: nat, i: nat, j: nat)
    requires n > 0 && v == 2 * v2 + i && w == 2 * w2 + j && i < 2 && j < 2
    requires v < Pow2(n) && w < Pow2(n)
    ensures v2 < Pow2(n - 1) && w2 < Pow2(n - 1)
    ensures XorBits(n, v, w) == 2 * XorBits(n - 1, v2, w2) + (if i == j then 0 else 1)
  {
    assert v / 2 == v2 && w / 2 == w2 && v % 2 == i && w % 2 == j;
  }

  // ------------------------------------------------------------------
  // Shifting

  // The bytes of tail, with a carry in front, are twice those of rest.
  ghost predicate Carried(o: nat, tail: seq<Byte>, rest: seq<Byte>) {
    |tail| == |rest| && o * Pow2(8 * |tail|) + Value(tail) == 2 * Value(rest)
  }

  /** _shl_128: the carry loop doubles, modulo two to the number of bits. */
  method Shl128(dst: array<Byte>, src: array<Byte>)
    requires dst.Length == src.Length > 0 && dst != src
    modifies dst
    ensures Value(dst[..]) == 2 * Value(src[..]) - (if src[0] < 128 then 0 else Pow2(8 * src.Length))
    ensures Value(dst[..]) == 2 * Value(src[..]) % Pow2(8 * src.Length)
  {
    ghost var n := src.Length;
    var overflow := 0;
    var i := src.Length - 1;
    assert src[n..] == [] && dst[n..] == [];
    while i >= 0
      invariant -1 <= i < n && 0 <= overflow <= 1
      invariant Carried(overflow, dst[i + 1..], src[i + 1..])
      invariant overflow == if i == n - 1 || src[i + 1] < 128 then 0 else 1
    {
      ghost var tail := dst[i + 1..];
      var shifted := src[i] as int * 2 % 256;
      dst[i] := shifted + overflow;
      ShiftStep(src[i], dst[i], overflow, tail, src[i + 1..]);
      assert dst[i..] == [dst[i]] + tail && src[i..] == [src[i]] + src[i + 1..];
      overflow := src[i] / 128;
      i := i - 1;
    }
    assert dst[0..] == dst[..] && src[0..] == src[..];
    ValueBound(dst[..]);
    Wrapped(overflow, Pow2(8 * n), Value(dst[..]), 2 * Value(src[..]));
  }

  lemma Prepend(b: Byte, s: seq<Byte>)
    ensures Value([b] + s) == b * Pow2(8 * |s|) + Value(s)
  {
    ValueFromLeft([b] + s);
    assert ([b] + s)[1..] == s;
  }

  lemma ShiftStep(s: Byte, d: Byte, o: nat, tail: seq<Byte>, rest: seq<Byte>)
    requires Carried(o, tail, rest) && d == s as int * 2 % 256 + o
    ensures Carried(s / 128, [d] + tail, [s] + rest)
  {
    Prepend(d, tail);
    Prepend(s, rest);
    Bounds(8 * |tail|);
    assert 8 * |[d] + tail| == 8 * |tail| + 8;
    CarryStep(s, d, o, Pow2(8 * |tail|), Pow2(8 * |tail| + 8), Value(tail), Value(rest), Value([d] + tail), Value([s] + rest));
  }

  lemma CarryStep(s: int, d: int, o: int, p: int, q: int, tail: int, rest: int, dv: int, sv: int)
    requires 0 <= s < 256 && o * p + tail == 2 * rest && d == s * 2 % 256 + o
    requires q == 256 * p && dv == d * p + tail && sv == s * p + rest
    ensures s / 128 * q + dv == 2 * sv
  {
    var h := s / 128;
    assert d == 2 * s - 256 * h + o;
    Distribute(d, s, h, o, p);
  }

  lemma Distribute(d: int, s: int, h: int, o: int, p: int)
    requires d == 2 * s - 256 * h + o
    ensures d * p == 2 * (s * p) - h * (256 * p) + o * p
  {
  }

  lemma Wrapped(o: int, m: int, v: int, w: int)
    requires 0 <= o <= 1 && 0 <= v < m && o * m + v == w
    ensures v == w % m
  {
    if o == 0 {
      SmallMod(v, m);
    } else {
      assert w == v + m;
      SmallMod(v, m);
    }
  }

  lemma SmallMod(v: int, m: int)
    requires 0 <= v < m
    ensures v % m == v && (v + m) % m == v
  {
  }

  // The last byte absorbs the low part of the modulus.
  lemma LastByte(s: seq<Byte>, y: Byte)
    requires s != []
    ensures Value(s) < Pow2(8 * |s|) && y < Pow2(8 * |s|)
    ensures Value(s[|s| - 1 := XorByte(s[|s| - 1], y)]) == XorBits(8 * |s|, Value(s), y)
  {
    var n := |s| - 1;
    Bounds(8 * n);
    ValueBound(s);
    ValueBound(s[..n]);
    ShiftedByte(Value(s[..n]));
    XorLow(8 * n, Value(s[..n]), s[n], y, 8);
    var t := s[n := XorByte(s[n], y)];
    assert t[..n] == s[..n];
  }

  lemma TimesXCases(s: seq<Byte>, d: nat)
    requires s != [] && d == 2 * Value(s) - (if s[0] < 128 then 0 else Pow2(8 * |s|))
    ensures Value(s) < Pow2(8 * |s|) && 0x87 < Pow2(8 * |s|)
    ensures d < Pow2(8 * |s|)
    ensures TimesX(8 * |s|, Value(s)) == if s[0] < 128 then d else XorBits(8 * |s|, d, 0x87)
  {
    var n := 8 * |s|;
    ValueBound(s);
    Bounds(n);
    HighBit(s);
    if s[0] >= 128 {
      TopCancels(n, d, 0x87);
    }
  }

  // Doubling in the field, on arrays.
  method DoubleKey(dst: array<Byte>, src: array<Byte>)
    requires dst.Length == src.Length > 0 && dst != src
    modifies dst
    ensures Value(src[..]) < Pow2(8 * src.Length) && Value(dst[..]) == TimesX(8 * src.Length, Value(src[..]))
  {
    Shl128(dst, src);
    ghost var d := dst[..];
    TimesXCases(src[..], Value(d));
    if src[0] >= 128 {
      LastByte(d, 0x87);
      dst[dst.Length - 1] := XorByte(dst[dst.Length - 1], 0x87);
      assert dst[..] == d[|d| - 1 := XorByte(d[|d| - 1], 0x87)];
    }
  }

  lemma HighBit(s: seq<Byte>)
    requires s != []
    ensures s[0] >= 128 <==> 2 * Value(s) >= Pow2(8 * |s|)
  {
    var p := Pow2(8 * (|s| - 1));
    Bounds(8 * (|s| - 1));
    ValueFromLeft(s);
    ValueBound(s[1..]);
    if s[0] >= 128 {
      Scale(128, s[0], p);
    } else {
      Scale(s[0], 127, p);
    }
  }

  lemma Scale(a: int, b: int, p: int)
    requires a <= b && p >= 0
    ensures a * p <= b * p
  {
  }

  // ------------------------------------------------------------------
  // Subkeys and code

  /** A subkey of section 2.3: L, the encryption of zero, times a power of x. */
  function Subkey(c: BlockCipher, key: Block, factor: nat): Block {
    var l := c.enc(key, ZeroBlock());
    ValueBound(l);
    Fixed(Product(8 * |l|, Value(l), factor), 16)
  }

  lemma {:induction false} ValueOfFixed(v: nat, n: nat)
    requires v < Pow2(8 * n)
    ensures Value(Fixed(v, n)) == v
    decreases n
  {
    if n > 0 {
      Bounds(8 * (n - 1));
      ValueOfFixed(v / 256, n - 1);
      assert Fixed(v, n)[..n - 1] == Fixed(v / 256, n - 1);
    }
  }

  lemma IsSubkey(c: BlockCipher, key: Block, factor: nat, k: Block)
    requires var l := c.enc(key, ZeroBlock());
             Value(l) < Pow2(8 * |l|) && Value(k) == Product(8 * |l|, Value(l), factor)
    ensures k == Subkey(c, key, factor)
  {
    FixedOfValue(k);
  }

  // One block is the other shifted by one bit; the bit that is lost comes back as 0x87.
  ghost predicate Doubles(l: Block, k: Block) {
    var p := Pow2(8 * |l|);
    if l[0] < 128 then Value(k) == 2 * Value(l)
    else 0x87 < p <= 2 * Value(l) < 2 * p && Value(k) == XorBits(8 * |l|, 2 * Value(l) - p, 0x87)
  }

  lemma TimesXDoubles(l: Block, k: Block)
    ensures Value(l) < Pow2(8 * |l|) && (Doubles(l, k) <==> Value(k) == TimesX(8 * |l|, Value(l)))
  {
    hide Pow2, XorBits, TimesX, Value;
    HighBit(l);
    TimesXCases(l, 2 * Value(l) - (if l[0] < 128 then 0 else Pow2(8 * |l|)));
  }

  /** _cmac_key: K1 is L times x and K2 is L times x^2. */
  method CmacKey(c: BlockCipher, aesKey: Block, k1: array<Byte>, k2: array<Byte>)
    requires k1.Length == 16 && k2.Length == 16 && k1 != k2
    modifies k1, k2
    ensures k1[..] == Subkey(c, aesKey, 2) && k2[..] == Subkey(c, aesKey, 4)
    ensures Doubles(c.enc(aesKey, Zeros(16)), k1[..]) && Doubles(k1[..], k2[..])
  {
    hide Doubles;
    var l := c.enc(aesKey, ZeroBlock());
    var key := new Byte[16](i requires 0 <= i < 16 => l[i]);
    assert key[..] == l;
    DoubleKey(k1, key);
    TimesXDoubles(l, k1[..]);
    DoubleKey(k2, k1);
    TimesXDoubles(k1[..], k2[..]);
    assert ZeroBlock() == Zeros(16);
    SmallProducts(8 * |l|, Value(l));
    IsSubkey(c, aesKey, 2, k1[..]);
    IsSubkey(c, aesKey, 4, k2[..]);
  }

  // Padding of an incomplete block: one bit and zeros.
  function Padded(m: seq<Byte>): Block
    requires |m| < 16
  {
    m + [0x80] + Zeros(15 - |m|)
  }

  // Section 2.4 of RFC 4493, from chaining value x on.
  function Chain(c: BlockCipher, key: Block, x: Block, m: seq<Byte>): Block
    decreases |m|
  {
    if |m| > 16 then Chain(c, key, c.enc(key, Xor(x, m[..16])), m[16..])
    else if |m| == 16 then c.enc(key, Xor(Xor(m, Subkey(c, key, 2)), x))
    else c.enc(key, Xor(Xor(Padded(m), Subkey(c, key, 4)), x))
  }

  /** The code of a message of any length. */
  function AesCmac(c: BlockCipher, key: Block, m: seq<Byte>): Block {
    Chain(c, key, ZeroBlock(), m)
  }

  lemma XorZero(b: Block)
    ensures Xor(b, ZeroBlock()) == b
  {
    forall i | 0 <= i < 16
      ensures Xor(b, ZeroBlock())[i] == b[i]
    {
      XorWithZero(8, b[i]);
    }
  }

  /** The code of sixteen bytes: they are encrypted once, combined with a subkey that
      doubles the encryption of zero. */
  ghost predicate IsCode(c: BlockCipher, key: Block, data: Block, code: Block) {
    exists k1: Block :: Doubles(c.enc(key, Zeros(16)), k1) && code == c.enc(key, Xor(data, k1))
  }

  lemma IsCodeIff(c: BlockCipher, key: Block, data: Block, code: Block)
    ensures IsCode(c, key, data, code) <==> code == AesCmac(c, key, data)
  {
    hide Doubles, TimesX, Product, Value, Fixed, Pow2;
    var l, k := c.enc(key, Zeros(16)), Subkey(c, key, 2);
    assert Zeros(16) == ZeroBlock();
    forall k1: Block
      ensures Doubles(l, k1) <==> k1 == k
    {
      TimesXDoubles(l, k1);
      SmallProducts(8 * |l|, Value(l));
      ValueOfSubkey(c, key);
      FixedOfValue(k1);
      FixedOfValue(k);
    }
    XorZero(Xor(data, k));
  }

  lemma ValueOfSubkey(c: BlockCipher, key: Block)
    ensures var l := c.enc(key, ZeroBlock());
            Value(l) < Pow2(8 * |l|) && Value(Subkey(c, key, 2)) == Product(8 * |l|, Value(l), 2)
  {
    hide Product, Value, Fixed, Pow2;
    var l := c.enc(key, ZeroBlock());
    ValueBound(l);
    ValueOfFixed(Product(8 * |l|, Value(l), 2), |l|);
  }

  /** crypto_aes_cmac_16: on sixteen bytes it is the general algorithm. */
  method AesCmac16(c: BlockCipher, data: Block, aesKey: Block) returns (cmac: Block)
    ensures cmac == AesCmac(c, aesKey, data)
    ensures IsCode(c, aesKey, data, cmac)
  {
    hide Doubles;
    var k1, k2 := new Byte[16], new Byte[16];
    CmacKey(c, aesKey, k1, k2);
    ghost var k: Block := k1[..];
    cmac := Xor(data, k1[..]);
    XorZero(cmac);
    cmac := c.enc(aesKey, cmac);
    assert Doubles(c.enc(aesKey, Zeros(16)), k) && cmac == c.enc(aesKey, Xor(data, k));
  }
}
