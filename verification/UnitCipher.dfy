/** The two cipher layers of an aligned unit (aacs.c, "Stream decryption"):
    cipher block chaining (section 6.2 of NIST SP 800-38A) under a key derived
    from the unit key and the first sixteen bytes, and under it the bus
    encryption of each sector. */
module UnitCipher {
  import opened Bytes

  const UNIT_LEN := 6144
  const SECTOR_LEN := 2048
  const PACKET_LEN := 192
  const PACKETS := 32

  type Unit = u: seq<Byte> | |u| == UNIT_LEN witness seq(UNIT_LEN, _ => 0)
  type Sector = s: seq<Byte> | |s| == SECTOR_LEN witness seq(SECTOR_LEN, _ => 0)

  function Iv(): Block {
    [0x0b, 0xa0, 0xf8, 0xdd, 0xfe, 0xa6, 0x1f, 0xb3, 0xd8, 0xdf, 0x9f, 0x56, 0x6a, 0x05, 0x0f, 0x78]
  }

  // ------------------------------------------------------------------
  // Cipher block chaining

  function CbcDecrypt(c: BlockCipher, key: Block, prev: Block, s: seq<Byte>): (r: seq<Byte>)
    requires |s| % 16 == 0
    ensures |r| == |s|
    decreases |s|
  {
    if s == [] then [] else
    var b: Block := s[..16];
    Xor(c.dec(key, b), prev) + CbcDecrypt(c, key, b, s[16..])
  }

  function CbcEncrypt(c: BlockCipher, key: Block, prev: Block, s: seq<Byte>): (r: seq<Byte>)
    requires |s| % 16 == 0
    ensures |r| == |s|
    decreases |s|
  {
    if s == [] then [] else
    var b: Block := c.enc(key, Xor(s[..16], prev));
    b + CbcEncrypt(c, key, b, s[16..])
  }

  lemma {:induction false} CbcRoundTrip(c: BlockCipher, key: Block, prev: Block, s: seq<Byte>)
    requires c.Lawful() && |s| % 16 == 0
    ensures CbcDecrypt(c, key, prev, CbcEncrypt(c, key, prev, s)) == s
    decreases |s|
  {
    if s != [] {
      var x := Xor(s[..16], prev);
      var b: Block := c.enc(key, x);
      var e := CbcEncrypt(c, key, prev, s);
      assert e[..16] == b && e[16..] == CbcEncrypt(c, key, b, s[16..]);
      XorCancel(s[..16], prev);
      CbcRoundTrip(c, key, b, s[16..]);
      assert s == s[..16] + s[16..];
    }
  }

  /** Chaining in terms of encryption alone: every sealed block is the encryption
      of the plain one combined with the sealed block before it. */
  ghost predicate Chained(c: BlockCipher, key: Block, prev: Block, plain: seq<Byte>, sealed: seq<Byte>) {
    && |plain| == |sealed|
    && forall at: nat {:trigger Before(prev, sealed, at)} :: at % 16 == 0 && at + 16 <= |sealed| ==>
         c.enc(key, Xor(plain[at..at + 16], Before(prev, sealed, at))) == sealed[at..at + 16]
  }

  function Before(prev: Block, sealed: seq<Byte>, at: nat): Block
    requires at % 16 == 0 && at + 16 <= |sealed|
  {
    if at == 0 then prev else sealed[at - 16..at]
  }

  // The first block, and the others behind it.
  lemma ChainedBehind(c: BlockCipher, key: Block, prev: Block, plain: seq<Byte>, sealed: seq<Byte>)
    requires |plain| == |sealed| >= 16 && |sealed| % 16 == 0
    ensures Chained(c, key, prev, plain, sealed) <==>
            c.enc(key, Xor(plain[..16], prev)) == sealed[..16] && Chained(c, key, sealed[..16], plain[16..], sealed[16..])
  {
    var p, s := plain[16..], sealed[16..];
    forall at: nat | at % 16 == 0 && at + 16 <= |s|
      ensures p[at..at + 16] == plain[at + 16..at + 32] && s[at..at + 16] == sealed[at + 16..at + 32]
      ensures Before(sealed[..16], s, at) == Before(prev, sealed, at + 16)
    {
      if at > 0 {
        assert s[at - 16..at] == sealed[at..at + 16];
      }
    }
    if Chained(c, key, sealed[..16], p, s) && c.enc(key, Xor(plain[..16], prev)) == sealed[..16] {
      forall at: nat | at % 16 == 0 && at + 16 <= |sealed|
        ensures c.enc(key, Xor(plain[at..at + 16], Before(prev, sealed, at))) == sealed[at..at + 16]
      {
        if at > 0 {
          assert Before(sealed[..16], s, at - 16) == Before(prev, sealed, at);
        }
      }
    }
    if Chained(c, key, prev, plain, sealed) {
      assert Before(prev, sealed, 0) == prev;
      forall at: nat | at % 16 == 0 && at + 16 <= |s|
        ensures c.enc(key, Xor(p[at..at + 16], Before(sealed[..16], s, at))) == s[at..at + 16]
      {
        assert Before(sealed[..16], s, at) == Before(prev, sealed, at + 16);
      }
    }
  }

  /** Decryption gives exactly what encryption would have been given. */
  lemma {:induction false} DecryptIff(c: BlockCipher, key: Block, prev: Block, plain: seq<Byte>, sealed: seq<Byte>)
    requires c.Lawful() && |plain| == |sealed| && |sealed| % 16 == 0
    ensures plain == CbcDecrypt(c, key, prev, sealed) <==> Chained(c, key, prev, plain, sealed)
    decreases |sealed|
  {
    if sealed != [] {
      var b: Block := sealed[..16];
      ChainedBehind(c, key, prev, plain, sealed);
      DecryptIff(c, key, b, plain[16..], sealed[16..]);
      XorCancel(c.dec(key, b), prev);
      XorCancel(plain[..16], prev);
      assert plain == plain[..16] + plain[16..];
      var d := CbcDecrypt(c, key, prev, sealed);
      assert d[..16] == Xor(c.dec(key, b), prev) && d[16..] == CbcDecrypt(c, key, b, sealed[16..]);
    }
  }

  function OfWords(a: nat, b: nat, d: nat, e: nat): Block
    requires a < 0x1_0000_0000 && b < 0x1_0000_0000 && d < 0x1_0000_0000 && e < 0x1_0000_0000
  {
    Put32(a) + Put32(b) + Put32(d) + Put32(e)
  }

  // Chaining from the vector that the specification prescribes.
  ghost predicate Deciphers(c: BlockCipher, key: Block, sealed: seq<Byte>, plain: seq<Byte>) {
    Chained(c, key, OfWords(0x0BA0F8DD, 0xFEA61FB3, 0xD8DF9F56, 0x6A050F78), plain, sealed)
  }

  lemma DeciphersIff(c: BlockCipher, key: Block, plain: seq<Byte>, sealed: seq<Byte>)
    requires c.Lawful() && |plain| == |sealed| && |sealed| % 16 == 0
    ensures plain == CbcDecrypt(c, key, Iv(), sealed) <==> Deciphers(c, key, sealed, plain)
  {
    assert Put32(0x0BA0F8DD) == [0x0B, 0xA0, 0xF8, 0xDD];
    assert Put32(0xFEA61FB3) == [0xFE, 0xA6, 0x1F, 0xB3];
    assert Put32(0xD8DF9F56) == [0xD8, 0xDF, 0x9F, 0x56];
    assert Put32(0x6A050F78) == [0x6A, 0x05, 0x0F, 0x78];
    assert OfWords(0x0BA0F8DD, 0xFEA61FB3, 0xD8DF9F56, 0x6A050F78) == Iv();
    DecryptIff(c, key, Iv(), plain, sealed);
  }

  // ------------------------------------------------------------------
  // The unit layer

  // The key of one unit, from its first sixteen bytes.
  function UnitBlockKey(c: BlockCipher, uk: Block, seed: Block): Block {
    Xor(c.enc(uk, seed), seed)
  }

  function OpenUnit(c: BlockCipher, uk: Block, u: Unit): Unit {
    u[..16] + CbcDecrypt(c, UnitBlockKey(c, uk, u[..16]), Iv(), u[16..])
  }

  function SealUnit(c: BlockCipher, uk: Block, u: Unit): Unit {
    u[..16] + CbcEncrypt(c, UnitBlockKey(c, uk, u[..16]), Iv(), u[16..])
  }

  lemma UnitRoundTrip(c: BlockCipher, uk: Block, u: Unit)
    requires c.Lawful()
    ensures OpenUnit(c, uk, SealUnit(c, uk, u)) == u
  {
    var key := UnitBlockKey(c, uk, u[..16]);
    var e := SealUnit(c, uk, u);
    assert e[..16] == u[..16] && e[16..] == CbcEncrypt(c, key, Iv(), u[16..]);
    CbcRoundTrip(c, key, Iv(), u[16..]);
    assert u == u[..16] + u[16..];
  }

  /** The first sixteen bytes stay.  The rest is deciphered under a block key which,
      combined with those bytes, decrypts under the unit key to those bytes. */
  ghost predicate Opens(c: BlockCipher, uk: Block, u: Unit, v: Unit) {
    v[..16] == u[..16] &&
    exists key: Block :: c.dec(uk, Xor(key, u[..16])) == u[..16] && Deciphers(c, key, u[16..], v[16..])
  }

  lemma OpensIff(c: BlockCipher, uk: Block, u: Unit, v: Unit)
    requires c.Lawful()
    ensures v == OpenUnit(c, uk, u) <==> Opens(c, uk, u, v)
  {
    hide Deciphers;
    var seed := u[..16];
    var own := UnitBlockKey(c, uk, seed);
    XorCancel(c.enc(uk, seed), seed);
    DeciphersIff(c, own, v[16..], u[16..]);
    if key: Block :| c.dec(uk, Xor(key, seed)) == seed && Deciphers(c, key, u[16..], v[16..]) {
      assert c.enc(uk, c.dec(uk, Xor(key, seed))) == Xor(key, seed);
      XorCancel(key, seed);
      assert key == own;
    }
    assert v == v[..16] + v[16..];
    var o := OpenUnit(c, uk, u);
    assert o[..16] == seed && o[16..] == CbcDecrypt(c, own, Iv(), u[16..]);
  }

  // ------------------------------------------------------------------
  // The bus layer: every sector on its own, its first sixteen bytes plain

  function OpenSector(c: BlockCipher, key: Block, s: Sector): Sector {
    s[..16] + CbcDecrypt(c, key, Iv(), s[16..])
  }

  function SealSector(c: BlockCipher, key: Block, s: Sector): Sector {
    s[..16] + CbcEncrypt(c, key, Iv(), s[16..])
  }

  lemma SectorRoundTrip(c: BlockCipher, key: Block, s: Sector)
    requires c.Lawful()
    ensures OpenSector(c, key, SealSector(c, key, s)) == s
  {
    var e := SealSector(c, key, s);
    assert e[..16] == s[..16] && e[16..] == CbcEncrypt(c, key, Iv(), s[16..]);
    CbcRoundTrip(c, key, Iv(), s[16..]);
    assert s == s[..16] + s[16..];
  }

  function OpenBus(c: BlockCipher, key: Block, u: Unit): Unit {
    OpenSector(c, key, u[..2048]) + OpenSector(c, key, u[2048..4096]) + OpenSector(c, key, u[4096..])
  }

  function SealBus(c: BlockCipher, key: Block, u: Unit): Unit {
    SealSector(c, key, u[..2048]) + SealSector(c, key, u[2048..4096]) + SealSector(c, key, u[4096..])
  }

  lemma BusRoundTrip(c: BlockCipher, key: Block, u: Unit)
    requires c.Lawful()
    ensures OpenBus(c, key, SealBus(c, key, u)) == u
  {
    var e := SealBus(c, key, u);
    SectorRoundTrip(c, key, u[..2048]);
    SectorRoundTrip(c, key, u[2048..4096]);
    SectorRoundTrip(c, key, u[4096..]);
    assert e[..2048] == SealSector(c, key, u[..2048]);
    assert e[2048..4096] == SealSector(c, key, u[2048..4096]);
    assert e[4096..] == SealSector(c, key, u[4096..]);
    assert u == u[..2048] + u[2048..4096] + u[4096..];
  }

  /** Three times: sixteen bytes stay and the other 2032 are deciphered under the
      bus key itself. */
  ghost predicate BusRemoved(c: BlockCipher, key: Block, u: Unit, v: Unit) {
    && v[..16] == u[..16] && Deciphers(c, key, u[16..2048], v[16..2048])
    && v[2048..2064] == u[2048..2064] && Deciphers(c, key, u[2064..4096], v[2064..4096])
    && v[4096..4112] == u[4096..4112] && Deciphers(c, key, u[4112..6144], v[4112..6144])
  }

  lemma BusRemovedIff(c: BlockCipher, key: Block, u: Unit, v: Unit)
    requires c.Lawful()
    ensures v == OpenBus(c, key, u) <==> BusRemoved(c, key, u, v)
  {
    hide Deciphers;
    SectorIff(c, key, u[..2048], v[..2048]);
    SectorIff(c, key, u[2048..4096], v[2048..4096]);
    SectorIff(c, key, u[4096..], v[4096..]);
    Sectors(u);
    Sectors(v);
    var o := OpenBus(c, key, u);
    assert o[..2048] == OpenSector(c, key, u[..2048]);
    assert o[2048..4096] == OpenSector(c, key, u[2048..4096]);
    assert o[4096..] == OpenSector(c, key, u[4096..]);
    assert v == v[..2048] + v[2048..4096] + v[4096..];
  }

  lemma Sectors(u: Unit)
    ensures u[..2048][..16] == u[..16] && u[..2048][16..] == u[16..2048]
    ensures u[2048..4096][..16] == u[2048..2064] && u[2048..4096][16..] == u[2064..4096]
    ensures u[4096..][..16] == u[4096..4112] && u[4096..][16..] == u[4112..6144]
  {
  }

  lemma SectorIff(c: BlockCipher, key: Block, s: Sector, t: Sector)
    requires c.Lawful()
    ensures t == OpenSector(c, key, s) <==> t[..16] == s[..16] && Deciphers(c, key, s[16..], t[16..])
  {
    DeciphersIff(c, key, t[16..], s[16..]);
    assert t == t[..16] + t[16..];
    var o := OpenSector(c, key, s);
    assert o[..16] == s[..16] && o[16..] == CbcDecrypt(c, key, Iv(), s[16..]);
  }

  // ------------------------------------------------------------------
  // Verification of the transport stream packets

  predicate Synced(u: Unit, n: nat)
    requires n < PACKETS
  {
    u[PACKET_LEN * n + 4] == 0x47
  }

  // The first packet without a sync byte, from packet n on.
  function FirstUnsynced(u: Unit, n: nat): (r: nat)
    requires n <= PACKETS
    ensures n <= r <= PACKETS
    decreases PACKETS - n
  {
    if n == PACKETS || !Synced(u, n) then n else FirstUnsynced(u, n + 1)
  }

  predicate IsStream(u: Unit) {
    FirstUnsynced(u, 0) == PACKETS
  }

  lemma {:induction false} FirstUnsyncedIsFirst(u: Unit, n: nat)
    requires n <= PACKETS
    ensures var r := FirstUnsynced(u, n);
            (forall j :: n <= j < r ==> Synced(u, j)) && (r < PACKETS ==> !Synced(u, r))
    decreases PACKETS - n
  {
    if n < PACKETS && Synced(u, n) {
      FirstUnsyncedIsFirst(u, n + 1);
    }
  }

  /** A transport stream: every one of its packets has the sync byte. */
  lemma StreamIff(u: Unit)
    ensures IsStream(u) <==> forall n :: 0 <= n < PACKETS ==> Synced(u, n)
  {
    FirstUnsyncedIsFirst(u, 0);
  }

  /** The unit with the copy permission bits cleared in its first n packets. */
  function Cleared(u: Unit, n: nat): (r: Unit)
    requires n <= PACKETS
    ensures forall k :: PACKET_LEN * n <= k < UNIT_LEN ==> r[k] == u[k]
  {
    if n == 0 then u
    else
      var i := PACKET_LEN * (n - 1);
      Cleared(u, n - 1)[i := u[i] % 64]
  }

  /** Nothing but those bits changes. */
  lemma {:induction false} ClearedBytes(u: Unit, n: nat, k: nat)
    requires n <= PACKETS && k < UNIT_LEN
    ensures Cleared(u, n)[k] == if k % PACKET_LEN == 0 && k / PACKET_LEN < n then u[k] % 64 else u[k]
    decreases n
  {
    if n > 0 {
      ClearedBytes(u, n - 1, k);
    }
  }

  // The fifth byte of packets 0 to n is the sync byte of a transport stream.
  predicate SyncedUpTo(u: Unit, n: nat) {
    forall m: nat :: m <= n && m < 32 ==> u[192 * m + 4] == 0x47
  }

  /** Byte by byte: it is fine if and only if every packet is; and the first byte of
      a packet loses its two high bits if and only if the packets up to it are. */
  ghost predicate Checked(u: Unit, after: Unit, ok: bool) {
    && (ok <==> SyncedUpTo(u, 31))
    && forall k: nat :: k < 6144 ==> after[k] == if k % 192 == 0 && SyncedUpTo(u, k / 192) then u[k] % 64 else u[k]
  }

  lemma CheckedIff(u: Unit, after: Unit, ok: bool)
    ensures Checked(u, after, ok) <==> after == Cleared(u, FirstUnsynced(u, 0)) && ok == IsStream(u)
  {
    var first := FirstUnsynced(u, 0);
    FirstUnsyncedIsFirst(u, 0);
    forall n: nat | n < 32
      ensures SyncedUpTo(u, n) <==> n < first
    {
      if n < first {
        forall m: nat | m <= n
          ensures u[192 * m + 4] == 0x47
        {
          assert Synced(u, m);
        }
      } else {
        assert u[192 * first + 4] != 0x47;
      }
    }
    forall k: nat | k < 6144
      ensures Cleared(u, first)[k] == if k % 192 == 0 && SyncedUpTo(u, k / 192) then u[k] % 64 else u[k]
    {
      ClearedBytes(u, first, k);
      assert k / 192 < 32;
    }
  }

  /** _verify_ts: the bits are cleared in the packets before the first bad one. */
  method VerifyTs(buf: array<Byte>) returns (ok: bool)
    requires buf.Length == UNIT_LEN
    modifies buf
    ensures ok <==> IsStream(old(buf[..]))
    ensures buf[..] == Cleared(old(buf[..]), FirstUnsynced(old(buf[..]), 0))
  {
    ghost var u: Unit := buf[..];
    ghost var first := FirstUnsynced(u, 0);
    var i := 0;
    ghost var n := 0;
    while i < UNIT_LEN
      invariant i == PACKET_LEN * n && n <= PACKETS
      invariant first == FirstUnsynced(u, n)
      invariant buf[..] == Cleared(u, n)
    {
      assert buf[..][i + 4] == u[i + 4];
      if buf[i + 4] != 0x47 {
        assert !Synced(u, n);
        return false;
      }
      ghost var before: Unit := buf[..];
      assert before[i] == u[i];
      buf[i] := buf[i] % 64;
      assert buf[..] == before[i := u[i] % 64];
      n := n + 1;
      i := i + PACKET_LEN;
    }
    ok := true;
  }
}
