/** Keys as hexadecimal text (strutl.c). */
module HexText {
  import opened Bytes

  const NIBBLES := "0123456789abcdef"

  // _hexstring_to_unsigned_char: either case is accepted.
  function NibbleValue(ch: char): (r: Option<nat>)
    ensures r.Some? ==> r.value < 16
  {
    if '0' <= ch <= '9' then Some((ch - '0') as nat)
    else if 'a' <= ch <= 'f' then Some((ch - 'a') as nat + 10)
    else if 'A' <= ch <= 'F' then Some((ch - 'A') as nat + 10)
    else None
  }

  /** A digit has the value of its place among the sixteen, in either case, and
      nothing else has a value. */
  lemma NibbleIff(ch: char, n: nat)
    ensures NibbleValue(ch) == Some(n) <==> n < 16 && (ch == "0123456789abcdef"[n] || ch == "0123456789ABCDEF"[n])
  {
  }

  // The text of a byte string.
  function Hex(b: seq<Byte>): (s: string)
    ensures |s| == 2 * |b|
  {
    seq(2 * |b|, i requires 0 <= i < 2 * |b| =>
      if i % 2 == 0 then NIBBLES[b[i / 2] / 16] else NIBBLES[b[i / 2] % 16])
  }

  // The pair of digits at position i.
  function PairAt(s: string, i: nat): Option<Byte>
    requires 2 * i + 2 <= |s|
  {
    match (NibbleValue(s[2 * i]), NibbleValue(s[2 * i + 1]))
    case (Some(hi), Some(lo)) => Some(hi * 16 + lo)
    case _ => None
  }

  // How many pairs, from pair i on and up to n, are digits.
  function GoodPairs(s: string, i: nat, n: nat): (k: nat)
    requires i <= n && 2 * n <= |s|
    ensures i <= k <= n
    ensures forall j :: i <= j < k ==> PairAt(s, j).Some?
    ensures k < n ==> PairAt(s, k).None?
    decreases n - i
  {
    if i == n || PairAt(s, i).None? then i else GoodPairs(s, i + 1, n)
  }

  // The two digits, in either case, that stand for a byte.
  predicate Spells(s: string, i: nat, x: Byte)
    requires 2 * i + 2 <= |s|
  {
    && (s[2 * i] == "0123456789abcdef"[x / 16] || s[2 * i] == "0123456789ABCDEF"[x / 16])
    && (s[2 * i + 1] == "0123456789abcdef"[x % 16] || s[2 * i + 1] == "0123456789ABCDEF"[x % 16])
  }

  lemma PairIff(s: string, i: nat, x: Byte)
    requires 2 * i + 2 <= |s|
    ensures PairAt(s, i) == Some(x) <==> Spells(s, i, x)
  {
    hide NibbleValue;
    NibbleIff(s[2 * i], x / 16);
    NibbleIff(s[2 * i + 1], x % 16);
    if PairAt(s, i) == Some(x) {
      var hi, lo := NibbleValue(s[2 * i]).value, NibbleValue(s[2 * i + 1]).value;
      assert x / 16 == hi && x % 16 == lo;
    }
  }

  /** What parsing n pairs leaves: the bytes up to the first pair that spells none, and
      behind them what was there before. */
  ghost predicate ReadUpTo(s: string, before: seq<Byte>, after: seq<Byte>, k: nat) {
    && k <= |before| == |after| && 2 * |before| <= |s| && after[k..] == before[k..]
    && (forall i: nat :: i < k ==> Spells(s, i, after[i]))
    && (k < |before| ==> forall x: Byte :: !Spells(s, k, x))
  }

  lemma ReadsGood(s: string, before: seq<Byte>, after: seq<Byte>)
    requires |before| == |after| && 2 * |before| <= |s|
    requires forall i :: 0 <= i < |before| ==>
               after[i] == if i < GoodPairs(s, 0, |before|) then PairAt(s, i).value else before[i]
    ensures ReadUpTo(s, before, after, GoodPairs(s, 0, |before|))
  {
    hide PairAt, Spells;
    var k := GoodPairs(s, 0, |before|);
    forall i: nat | i < k
      ensures Spells(s, i, after[i])
    {
      PairIff(s, i, after[i]);
    }
    if k < |before| {
      forall x: Byte
        ensures !Spells(s, k, x)
      {
        PairIff(s, k, x);
      }
    }
  }

  /** What n pairs of text stand for. */
  ghost predicate Encodes(s: string, b: seq<Byte>) {
    2 * |b| <= |s| && forall i :: 0 <= i < |b| ==> PairAt(s, i) == Some(b[i])
  }

  lemma NibbleRoundTrip(n: nat)
    requires n < 16
    ensures NibbleValue(NIBBLES[n]) == Some(n)
  {
  }

  lemma HexAt(b: seq<Byte>, i: nat)
    requires i < |b|
    ensures Hex(b)[2 * i] == NIBBLES[b[i] / 16] && Hex(b)[2 * i + 1] == NIBBLES[b[i] % 16]
  {
    assert (2 * i) % 2 == 0 && (2 * i + 1) % 2 == 1 && (2 * i) / 2 == i && (2 * i + 1) / 2 == i;
  }

  lemma PairOf(s: string, i: nat, x: Byte)
    requires 2 * i + 2 <= |s| && s[2 * i] == NIBBLES[x / 16] && s[2 * i + 1] == NIBBLES[x % 16]
    ensures PairAt(s, i) == Some(x)
  {
    NibbleRoundTrip(x / 16);
    NibbleRoundTrip(x % 16);
  }

  /** str_print_hex: two digits a byte and a terminator. */
  method PrintHex(out: array<char>, buf: seq<Byte>)
    requires out.Length > 2 * |buf|
    modifies out
    ensures out[..2 * |buf|] == Hex(buf) && out[2 * |buf|] == '\0'
    ensures forall i :: 0 <= i < |buf| ==>
              out[2 * i] == "0123456789abcdef"[buf[i] / 16] && out[2 * i + 1] == "0123456789abcdef"[buf[i] % 16]
  {
    var zz := 0;
    while zz < |buf|
      invariant 0 <= zz <= |buf|
      invariant forall j :: 0 <= j < 2 * zz ==> out[j] == Hex(buf)[j]
    {
      out[zz * 2] := NIBBLES[buf[zz] / 16];
      out[zz * 2 + 1] := NIBBLES[buf[zz] % 16];
      zz := zz + 1;
    }
    out[zz * 2] := '\0';
    assert zz == |buf|;
    forall i | 0 <= i < |buf|
      ensures out[2 * i] == "0123456789abcdef"[buf[i] / 16] && out[2 * i + 1] == "0123456789abcdef"[buf[i] % 16]
    {
      HexAt(buf, i);
    }
  }

  /** hexstring_to_hex_array: the bytes before the first bad pair are written
      even when the conversion fails. */
  method ParseHex(out: array<Byte>, s: string) returns (ok: bool)
    requires 2 * out.Length <= |s|
    modifies out
    ensures ok == (GoodPairs(s, 0, out.Length) == out.Length)
    ensures forall i :: 0 <= i < out.Length ==>
              out[i] == if i < GoodPairs(s, 0, out.Length) then PairAt(s, i).value else old(out[i])
    ensures exists k: nat :: ReadUpTo(s, old(out[..]), out[..], k) && (ok <==> k == out.Length)
  {
    hide ReadUpTo, NibbleValue;
    ghost var before := out[..];
    ghost var good := GoodPairs(s, 0, out.Length);
    var i := 0;
    while i < out.Length
      invariant 0 <= i <= out.Length && good == GoodPairs(s, i, out.Length)
      invariant forall j :: 0 <= j < out.Length ==>
                  out[j] == if j < i then PairAt(s, j).value else old(out[j])
      invariant forall j :: 0 <= j < i ==> PairAt(s, j).Some?
    {
      var hi, lo := NibbleValue(s[i * 2]), NibbleValue(s[i * 2 + 1]);
      if hi.None? || lo.None? {
        ReadsGood(s, before, out[..]);
        return false;
      }
      out[i] := hi.value * 16;
      out[i] := out[i] + lo.value;
      i := i + 1;
    }
    ok := true;
    ReadsGood(s, before, out[..]);
  }

  /** Parsing what was printed gives the bytes back, whatever text follows. */
  lemma HexRoundTrip(b: seq<Byte>, s: string)
    requires Hex(b) <= s
    ensures Encodes(s, b) && GoodPairs(s, 0, |b|) == |b|
  {
    forall i | 0 <= i < |b|
      ensures PairAt(s, i) == Some(b[i])
    {
      HexAt(b, i);
      assert s[..|Hex(b)|] == Hex(b);
      assert s[2 * i] == Hex(b)[2 * i] && s[2 * i + 1] == Hex(b)[2 * i + 1];
      PairOf(s, i, b[i]);
    }
  }
}
