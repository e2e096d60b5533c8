/** Bytes, big-endian integers, exclusive-or and the block cipher that the
    other modules take as a parameter. */
module Bytes {
  datatype Option<+T> = None | Some(value: T)

  type Byte = n: int | 0 <= n < 256

  // A 16-byte AES block; keys have the same size.
  type Block = b: seq<Byte> | |b| == 16 witness seq(16, _ => 0)

  function ZeroBlock(): Block { seq(16, _ => 0) }

  function Pow2(n: nat): (r: nat)
    ensures r > 0
  {
    if n == 0 then 1 else 2 * Pow2(n - 1)
  }

  // Division with remainder.
  lemma QuotientAndRest(n: nat, p: nat, q: nat, r: nat)
    requires p > 0 && q == n / p && r == n % p
    ensures n == p * q + r && r < p
  {
  }

  lemma DivideExactly(p: nat, q: nat, r: nat, n: nat)
    requires p > 0 && r < p && n == p * q + r
    ensures n / p == q && n % p == r
  {
    QuotientAndRest(n, p, n / p, n % p);
    OneQuotient(p, q, r, n / p, n % p);
  }

  lemma OneQuotient(p: int, q: int, r: int, m: int, t: int)
    requires 0 <= r < p && 0 <= t < p && p * q + r == p * m + t
    ensures q == m
  {
    Between(p, m - q);
    ProductOfDifference(p, m, q);
  }

  lemma Between(p: int, d: int)
    requires p > 0
    ensures d >= 1 ==> p * d >= p
    ensures d <= -1 ==> p * d <= -p
  {
  }

  lemma ProductOfDifference(p: int, m: int, q: int)
    ensures p * (m - q) == p * m - p * q
  {
  }

  /** Big-endian value of a byte string. */
  function Value(s: seq<Byte>): nat {
    if s == [] then 0 else 256 * Value(s[..|s| - 1]) + s[|s| - 1]
  }

  lemma BytePower(n: nat)
    ensures Pow2(n + 8) == 256 * Pow2(n) && Pow2(8) == 256
  {
    assert Pow2(n + 2) == 4 * Pow2(n);
    assert Pow2(n + 4) == 16 * Pow2(n);
    assert Pow2(n + 6) == 64 * Pow2(n);
  }

  lemma {:induction false} ValueBound(s: seq<Byte>)
    ensures Value(s) < Pow2(8 * |s|)
    decreases |s|
  {
    if s != [] {
      ValueBound(s[..|s| - 1]);
      BytePower(8 * (|s| - 1));
    }
  }

  /** A number as a big-endian string of n bytes. */
  function Fixed(v: nat, n: nat): (s: seq<Byte>)
    ensures |s| == n
    decreases n
  {
    if n == 0 then [] else Fixed(v / 256, n - 1) + [v % 256]
  }

  lemma {:induction false} FixedOfValue(s: seq<Byte>)
    ensures Fixed(Value(s), |s|) == s
    decreases |s|
  {
    if s != [] {
      FixedOfValue(s[..|s| - 1]);
    }
  }

  // MKINT_BE16, MKINT_BE24, MKINT_BE32, MKINT_BE48 at an offset.
  function BE16(s: seq<Byte>, i: nat): (r: nat)
    requires i + 2 <= |s|
    ensures r < 0x1_0000
  {
    s[i] as int * 0x100 + s[i + 1] as int
  }

  function BE24(s: seq<Byte>, i: nat): (r: nat)
    requires i + 3 <= |s|
    ensures r < 0x100_0000
  {
    s[i] as int * 0x1_0000 + s[i + 1] as int * 0x100 + s[i + 2] as int
  }

  function BE32(s: seq<Byte>, i: nat): (r: nat)
    requires i + 4 <= |s|
    ensures r < 0x1_0000_0000
  {
    s[i] as int * 0x100_0000 + s[i + 1] as int * 0x1_0000 + s[i + 2] as int * 0x100 + s[i + 3] as int
  }

  function BE48(s: seq<Byte>, i: nat): (r: nat)
    requires i + 6 <= |s|
    ensures r < 0x1_0000_0000_0000
  {
    BE16(s, i) * 0x1_0000_0000 + BE32(s, i + 2)
  }

  /** They are the numbers that the bytes spell. */
  lemma ReadsValue(s: seq<Byte>)
    ensures |s| == 2 ==> BE16(s, 0) == Value(s)
    ensures |s| == 3 ==> BE24(s, 0) == Value(s)
    ensures |s| == 4 ==> BE32(s, 0) == Value(s)
    ensures |s| == 6 ==> BE48(s, 0) == Value(s)
  {
    if |s| >= 2 {
      LastByteOf(s);
      LastByteOf(s[..|s| - 1]);
    }
    if |s| >= 3 {
      LastByteOf(s[..|s| - 2]);
    }
    if |s| >= 4 {
      LastByteOf(s[..|s| - 3]);
    }
    if |s| == 6 {
      LastByteOf(s[..2]);
      LastByteOf(s[..1]);
    }
  }

  lemma LastByteOf(s: seq<Byte>)
    requires s != []
    ensures Value(s) == 256 * Value(s[..|s| - 1]) + s[|s| - 1]
    ensures Value([]) == 0
  {
  }

  // The inverse encodings.
  function Put16(n: nat): (r: seq<Byte>)
    requires n < 0x1_0000
    ensures |r| == 2 && BE16(r, 0) == n
  {
    [n / 0x100, n % 0x100]
  }

  function Put24(n: nat): (r: seq<Byte>)
    requires n < 0x100_0000
    ensures |r| == 3 && BE24(r, 0) == n
  {
    [n / 0x1_0000, n / 0x100 % 0x100, n % 0x100]
  }

  function Put32(n: nat): (r: seq<Byte>)
    requires n < 0x1_0000_0000
    ensures |r| == 4 && BE32(r, 0) == n
  {
    Put16(n / 0x1_0000) + Put16(n % 0x1_0000)
  }

  // ------------------------------------------------------------------
  // Exclusive-or

  /** Exclusive-or of two n-bit numbers, bit by bit. */
  function XorBits(n: nat, a: nat, b: nat): (r: nat)
    requires a < Pow2(n) && b < Pow2(n)
    ensures r < Pow2(n)
  {
    if n == 0 then 0
    else 2 * XorBits(n - 1, a / 2, b / 2) + (if a % 2 == b % 2 then 0 else 1)
  }

  lemma {:induction false} XorBitsCancel(n: nat, a: nat, b: nat)
    requires a < Pow2(n) && b < Pow2(n)
    ensures XorBits(n, XorBits(n, a, b), b) == a
  {
    if n > 0 {
      XorBitsCancel(n - 1, a / 2, b / 2);
      assert XorBits(n, a, b) / 2 == XorBits(n - 1, a / 2, b / 2);
    }
  }

  function XorByte(a: Byte, b: Byte): Byte {
    assert Pow2(8) == 256;
    XorBits(8, a, b)
  }

  lemma XorByteCancel(a: Byte, b: Byte)
    ensures XorByte(XorByte(a, b), b) == a
  {
    assert Pow2(8) == 256;
    XorBitsCancel(8, a, b);
  }

  function Xor(a: seq<Byte>, b: seq<Byte>): (r: seq<Byte>)
    requires |a| == |b|
    ensures |r| == |a|
  {
    seq(|a|, i requires 0 <= i < |a| => XorByte(a[i], b[i]))
  }

  /** Exclusive-or with the same operand twice is the identity. */
  lemma XorCancel(a: seq<Byte>, b: seq<Byte>)
    requires |a| == |b|
    ensures Xor(Xor(a, b), b) == a
  {
    forall i | 0 <= i < |a|
      ensures Xor(Xor(a, b), b)[i] == a[i]
    {
      XorByteCancel(a[i], b[i]);
    }
  }

  function Zeros(n: nat): (r: seq<Byte>)
    ensures |r| == n
  {
    seq(n, _ => 0)
  }

  // ------------------------------------------------------------------
  // The block cipher (AES-128), a parameter of everything that uses it

  datatype BlockCipher = BlockCipher(enc: (Block, Block) -> Block, dec: (Block, Block) -> Block)
  {
    /** Decryption and encryption under one key undo each other. */
    ghost predicate Lawful() {
      && (forall k: Block, x: Block :: dec(k, enc(k, x)) == x)
      && (forall k: Block, x: Block :: enc(k, dec(k, x)) == x)
    }
  }
}
