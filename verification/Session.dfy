/** A disc session (`struct aacs`): the unit keys, the selected CPS unit, title
    selection, and decryption of aligned units in place. */
module Session {
  import opened Bytes
  import opened UnitCipher
  import opened UnitKey

  // uint16_t
  function Short(n: nat): nat {
    n % 0x1_0000
  }

  // ------------------------------------------------------------------
  // What decryption with one key gives

  /** The result of decrypting with a key, verified or not. */
  function Attempt(c: BlockCipher, key: Block, u: Unit): Unit {
    Cleared(OpenUnit(c, key, u), FirstUnsynced(OpenUnit(c, key, u), 0))
  }

  predicate Verifies(c: BlockCipher, key: Block, u: Unit) {
    IsStream(OpenUnit(c, key, u))
  }

  /** The same byte by byte: the unit opens under the key, and what it opens to is
      checked. */
  ghost predicate Played(c: BlockCipher, key: Block, u: Unit, after: Unit, ok: bool) {
    exists v: Unit :: Opens(c, key, u, v) && Checked(v, after, ok)
  }

  lemma PlayedIff(c: BlockCipher, key: Block, u: Unit, after: Unit, ok: bool)
    requires c.Lawful()
    ensures Played(c, key, u, after, ok) <==> after == Attempt(c, key, u) && ok == Verifies(c, key, u)
  {
    hide Opens, Checked, OpenUnit, Cleared, FirstUnsynced, BlockCipher.Lawful;
    forall v: Unit
      ensures v == OpenUnit(c, key, u) <==> Opens(c, key, u, v)
    {
      OpensIff(c, key, u, v);
    }
    CheckedIff(OpenUnit(c, key, u), after, ok);
  }

  // The first key, from index i on, whose output verifies.
  function FirstVerifying(c: BlockCipher, keys: seq<Block>, u: Unit, i: nat): (k: nat)
    requires i <= |keys|
    ensures i <= k <= |keys|
    decreases |keys| - i
  {
    if i == |keys| || Verifies(c, keys[i], u) then i else FirstVerifying(c, keys, u, i + 1)
  }

  lemma {:induction false} FirstVerifyingIsFirst(c: BlockCipher, keys: seq<Block>, u: Unit, i: nat)
    requires i <= |keys|
    ensures var k := FirstVerifying(c, keys, u, i);
            (forall j :: i <= j < k ==> !Verifies(c, keys[j], u)) && (k < |keys| ==> Verifies(c, keys[k], u))
    decreases |keys| - i
  {
    if i < |keys| && !Verifies(c, keys[i], u) {
      FirstVerifyingIsFirst(c, keys, u, i + 1);
    }
  }

  /** What a known key gives, and the result. */
  ghost predicate Applied(c: BlockCipher, key: Block, u: Unit, after: Unit, result: int) {
    after == Attempt(c, key, u) && result == if Verifies(c, key, u) then 1 else 0
  }

  /** What detection gives: the first key whose output verifies is applied and
      stays selected; without one the unit is as it was. */
  ghost predicate Detected(c: BlockCipher, keys: seq<Block>, u: Unit, after: Unit, result: int, cpsUnit: nat, selected: bool) {
    var k := FirstVerifying(c, keys, u, 0);
    if k < |keys| then
      result == 1 && after == Attempt(c, keys[k], u) && selected && cpsUnit == Short(k)
    else
      result == 0 && after == u
  }

  /** One key, under the bus layer if there is one, byte by byte. */
  ghost predicate Decrypts(c: BlockCipher, bus: bool, busKey: Block, key: Block, u: Unit, after: Unit, ok: bool) {
    exists w: Unit :: (if bus then BusRemoved(c, busKey, u, w) else w == u) && Played(c, key, w, after, ok)
  }

  ghost predicate Fails(c: BlockCipher, bus: bool, busKey: Block, key: Block, u: Unit) {
    exists after: Unit :: Decrypts(c, bus, busKey, key, u, after, false)
  }

  /** The key in force, or the first one that gives a stream, or none. */
  ghost predicate PlaysAs(c: BlockCipher, bus: bool, busKey: Block, keys: seq<Block>, known: bool, cps: nat,
                            u: Unit, after: Unit, result: int, chosen: nat)
    requires known ==> cps < |keys|
  {
    if known then (result == 0 || result == 1) && Decrypts(c, bus, busKey, keys[cps], u, after, result == 1)
    else if result == 1 then
      exists k: nat ::
        && k < |keys| && chosen == k % 0x1_0000 && Decrypts(c, bus, busKey, keys[k], u, after, true)
        && forall j: nat :: j < k ==> Fails(c, bus, busKey, keys[j], u)
    else
      && result == 0 && (if bus then BusRemoved(c, busKey, u, after) else after == u)
      && forall j: nat :: j < |keys| ==> Fails(c, bus, busKey, keys[j], u)
  }

  lemma DecryptsBelow(c: BlockCipher, bus: bool, busKey: Block, key: Block, u: Unit)
    requires c.Lawful()
    ensures var w := if bus then OpenBus(c, busKey, u) else u;
            && Decrypts(c, bus, busKey, key, u, Attempt(c, key, w), Verifies(c, key, w))
            && (!Verifies(c, key, w) ==> Fails(c, bus, busKey, key, u))
  {
    hide BusRemoved, OpenBus, Attempt, Verifies, Played, BlockCipher.Lawful;
    var w := if bus then OpenBus(c, busKey, u) else u;
    if bus {
      BusRemovedIff(c, busKey, u, w);
    }
    PlayedIff(c, key, w, Attempt(c, key, w), Verifies(c, key, w));
  }

  lemma IsPlayedAs(c: BlockCipher, bus: bool, busKey: Block, keys: seq<Block>, known: bool, cps: nat,
                    u: Unit, after: Unit, result: int, chosen: nat, selected: bool)
    requires c.Lawful() && (known ==> cps < |keys|)
    requires var w := if bus then OpenBus(c, busKey, u) else u;
             if known then Applied(c, keys[cps], w, after, result) else Detected(c, keys, w, after, result, chosen, selected)
    ensures PlaysAs(c, bus, busKey, keys, known, cps, u, after, result, chosen)
  {
    hide BusRemoved, OpenBus, Attempt, Verifies, Decrypts, Fails, BlockCipher.Lawful;
    var w := if bus then OpenBus(c, busKey, u) else u;
    forall j: nat | j < |keys|
      ensures Decrypts(c, bus, busKey, keys[j], u, Attempt(c, keys[j], w), Verifies(c, keys[j], w))
      ensures !Verifies(c, keys[j], w) ==> Fails(c, bus, busKey, keys[j], u)
    {
      DecryptsBelow(c, bus, busKey, keys[j], u);
    }
    if !known {
      FirstVerifyingIsFirst(c, keys, w, 0);
      if bus {
        BusRemovedIff(c, busKey, u, w);
      }
    }
  }

  // The two high bits of the first byte: is the unit encrypted at all?
  predicate Flagged(u: Unit) {
    u[0] >= 64
  }

  method CopyFrom(dst: array<Byte>, src: seq<Byte>, at: nat)
    requires at + |src| <= dst.Length
    modifies dst
    ensures dst[..] == old(dst[..])[..at] + src + old(dst[..])[at + |src|..]
  {
    forall i | 0 <= i < |src| {
      dst[at + i] := src[i];
    }
  }

  // crypto_aacs_decrypt on a stretch of the buffer, in place.
  method CbcInPlace(c: BlockCipher, key: Block, buf: array<Byte>, from: nat, to: nat)
    requires from <= to <= buf.Length && (to - from) % 16 == 0
    modifies buf
    ensures buf[..] == old(buf[..])[..from] + CbcDecrypt(c, key, Iv(), old(buf[from..to])) + old(buf[..])[to..]
  {
    CopyFrom(buf, CbcDecrypt(c, key, Iv(), buf[from..to]), from);
  }

  /** _decrypt_unit in place. */
  method DecryptInPlace(c: BlockCipher, uk: Block, buf: array<Byte>) returns (ok: bool)
    requires buf.Length == UNIT_LEN
    modifies buf
    ensures buf[..] == Attempt(c, uk, old(buf[..])) && ok == Verifies(c, uk, old(buf[..]))
    ensures c.Lawful() ==> Played(c, uk, old(buf[..]), buf[..], ok)
  {
    hide BlockCipher.Lawful, Checked, Played;
    ghost var u: Unit := buf[..];
    var key := c.enc(uk, buf[..16]);
    key := Xor(key, buf[..16]);
    assert u[..16] == buf[..16] && u[16..] == buf[16..UNIT_LEN];
    CbcInPlace(c, key, buf, 16, UNIT_LEN);
    assert buf[..] == OpenUnit(c, uk, u);
    ok := VerifyTs(buf);
    if c.Lawful() {
      PlayedIff(c, uk, u, buf[..], ok);
    }
  }

  /** _decrypt_unit from one buffer to another: it agrees with decryption in
      place and leaves its input alone. */
  method DecryptCopy(c: BlockCipher, uk: Block, outBuf: array<Byte>, inBuf: array<Byte>) returns (ok: bool)
    requires outBuf.Length == UNIT_LEN && inBuf.Length == UNIT_LEN && outBuf != inBuf
    modifies outBuf
    ensures outBuf[..] == Attempt(c, uk, inBuf[..]) && ok == Verifies(c, uk, inBuf[..])
    ensures c.Lawful() ==> Played(c, uk, inBuf[..], outBuf[..], ok)
  {
    hide BlockCipher.Lawful, Checked, Played;
    ghost var u: Unit := inBuf[..];
    CopyFrom(outBuf, inBuf[..16], 0);
    assert outBuf[..16] == inBuf[..16];
    var key := c.enc(uk, outBuf[..16]);
    key := Xor(key, outBuf[..16]);
    assert u[..16] == outBuf[..16] && u[16..] == inBuf[16..];
    CopyFrom(outBuf, CbcDecrypt(c, key, Iv(), inBuf[16..]), 16);
    assert outBuf[..] == OpenUnit(c, uk, u);
    ok := VerifyTs(outBuf);
    if c.Lawful() {
      PlayedIff(c, uk, u, outBuf[..], ok);
    }
  }

  // ------------------------------------------------------------------
  // The session

  class Aacs {
    var uk: UnitKeys?
    var mk: Block
    var vid: Block
    var readDataKey: Block
    var currentCpsUnit: nat // uint16_t
    var cpsUnitSelected: bool
    var bee: bool // bus encryption enabled, by the content certificate
    var bec: int // bus encryption capable, by the drive certificate; -1 when unread

    // aacs_init
    constructor ()
      ensures Valid() && uk == null && vid == ZeroBlock() && mk == ZeroBlock() && readDataKey == ZeroBlock()
      ensures currentCpsUnit == 0 && !cpsUnitSelected && !bee && bec == 0
    {
      uk := null;
      mk, vid, readDataKey := ZeroBlock(), ZeroBlock(), ZeroBlock();
      currentCpsUnit, cpsUnitSelected, bee, bec := 0, false, false, 0;
    }

    /** The selected CPS unit is one of those the disc has keys for. */
    ghost predicate Valid()
      reads this, uk, if uk == null then {} else {uk.titleCpsUnit}
    {
      && (uk == null ==> currentCpsUnit == 0)
      && (uk != null ==> uk.Valid() && (currentCpsUnit == 0 || currentCpsUnit < uk.numUk))
    }

    ghost predicate Loaded()
      reads this, uk
    {
      uk != null && uk.keys.Some?
    }

    /** aacs_select_title: the first play title leaves the unit unselected, so
        that it is detected; an unknown title changes nothing. */
    method SelectTitle(title: nat)
      requires Valid()
      modifies this`currentCpsUnit, this`cpsUnitSelected
      ensures Valid()
      ensures Loaded() ==> currentCpsUnit < |uk.keys.value|
      ensures uk != null && uk.titleCpsUnit != null && title == 0xffff ==>
                currentCpsUnit == uk.titleCpsUnit[0] && !cpsUnitSelected
      ensures uk != null && uk.titleCpsUnit != null && title != 0xffff && title <= uk.numTitles ==>
                currentCpsUnit == uk.titleCpsUnit[title + 1] && cpsUnitSelected
      ensures uk == null || uk.titleCpsUnit == null || (title != 0xffff && title > uk.numTitles) ==>
                currentCpsUnit == old(currentCpsUnit) && cpsUnitSelected == old(cpsUnitSelected)
    {
      if uk == null || uk.titleCpsUnit == null {
        return;
      }
      if title == 0xffff {
        currentCpsUnit := uk.titleCpsUnit[0];
        cpsUnitSelected := false;
        return;
      }
      if title <= uk.numTitles {
        currentCpsUnit := uk.titleCpsUnit[title + 1];
        cpsUnitSelected := true;
      }
    }

    // The unit below the bus layer, if there is one.
    function BelowBus(c: BlockCipher, u: Unit): Unit
      reads this
    {
      if bee && bec > 0 then OpenBus(c, readDataKey, u) else u
    }

    /** _decrypt_unit_bus */
    method DecryptUnitBus(c: BlockCipher, buf: array<Byte>)
      requires buf.Length == UNIT_LEN
      modifies buf
      ensures buf[..] == BelowBus(c, old(buf[..]))
      ensures c.Lawful() ==> if bee && bec > 0 then BusRemoved(c, readDataKey, old(buf[..]), buf[..]) else buf[..] == old(buf[..])
    {
      hide BusRemoved, BlockCipher.Lawful;
      if bee && bec > 0 {
        ghost var u: Unit := buf[..];
        CbcInPlace(c, readDataKey, buf, 16, SECTOR_LEN);
        ghost var v: Unit := buf[..];
        FirstSector(c, readDataKey, u, v);
        CbcInPlace(c, readDataKey, buf, SECTOR_LEN + 16, 2 * SECTOR_LEN);
        ghost var w: Unit := buf[..];
        SecondSector(c, readDataKey, u, v, w);
        CbcInPlace(c, readDataKey, buf, 2 * SECTOR_LEN + 16, 3 * SECTOR_LEN);
        ThirdSector(c, readDataKey, u, w, buf[..]);
        if c.Lawful() {
          BusRemovedIff(c, readDataKey, u, buf[..]);
        }
      }
    }

    // Does the key in force not need to be detected?
    predicate KnowsUnit()
      reads this, uk
    {
      uk != null && (cpsUnitSelected || uk.numUk == 1)
    }

    /** aacs_decrypt_unit.  Either the unit's flag is clear and nothing happens;
        or there are no keys; or the key in force is applied, whether the result
        verifies or not; or the first key whose output verifies is found and
        stays selected, and if there is none only the bus layer is removed. */
    method DecryptUnit(c: BlockCipher, buf: array<Byte>) returns (result: int)
      requires Valid() && buf.Length == UNIT_LEN
      modifies buf, this`currentCpsUnit, this`cpsUnitSelected
      ensures Valid()
      ensures Loaded() ==> currentCpsUnit < |uk.keys.value|
      ensures result == 1 || result == 0 || result == -1
      ensures !Flagged(old(buf[..])) ==> result == 1 && buf[..] == old(buf[..])
      ensures result == -1 <==> Flagged(old(buf[..])) && !Loaded()
      ensures result == -1 ==> buf[..] == old(buf[..])
      ensures Flagged(old(buf[..])) && Loaded() && old(KnowsUnit()) ==>
                Applied(c, uk.keys.value[old(currentCpsUnit)], BelowBus(c, old(buf[..])), buf[..], result)
      ensures Flagged(old(buf[..])) && Loaded() && !old(KnowsUnit()) ==>
                Detected(c, uk.keys.value, BelowBus(c, old(buf[..])), buf[..], result, currentCpsUnit, cpsUnitSelected)
      ensures result != 1 || !Flagged(old(buf[..])) || old(KnowsUnit()) ==>
                currentCpsUnit == old(currentCpsUnit) && cpsUnitSelected == old(cpsUnitSelected)
      ensures old(buf[0]) < 64 ==> result == 1 && buf[..] == old(buf[..])
      ensures old(buf[0]) >= 64 && (uk == null || uk.keys == None) ==> result == -1 && buf[..] == old(buf[..])
      ensures old(buf[0]) >= 64 && uk != null && uk.keys.Some? && c.Lawful() ==>
                PlaysAs(c, bee && bec > 0, readDataKey, uk.keys.value, old(cpsUnitSelected) || uk.numUk == 1,
                          old(currentCpsUnit), old(buf[..]), buf[..], result, currentCpsUnit)
      ensures cpsUnitSelected == (old(cpsUnitSelected) || (result == 1 && old(buf[0]) >= 64 && uk.numUk != 1))
    {
      hide PlaysAs, BlockCipher.Lawful, OpenBus, Applied, Detected;
      ghost var u: Unit, known, cps := buf[..], KnowsUnit(), currentCpsUnit;
      if buf[0] < 64 {
        return 1;
      }
      if uk == null || uk.keys.None? {
        return -1;
      }
      result := DecryptLoaded(c, buf);
      if c.Lawful() {
        IsPlayedAs(c, bee && bec > 0, readDataKey, uk.keys.value, known, cps, u, buf[..], result, currentCpsUnit, cpsUnitSelected);
      }
    }

    // Both layers, once there are keys.
    method DecryptLoaded(c: BlockCipher, buf: array<Byte>) returns (result: int)
      requires Valid() && Loaded() && buf.Length == UNIT_LEN
      modifies buf, this`currentCpsUnit, this`cpsUnitSelected
      ensures Valid() && (result == 1 || result == 0)
      ensures old(KnowsUnit()) ==>
                Applied(c, uk.keys.value[old(currentCpsUnit)], BelowBus(c, old(buf[..])), buf[..], result)
      ensures !old(KnowsUnit()) ==>
                Detected(c, uk.keys.value, BelowBus(c, old(buf[..])), buf[..], result, currentCpsUnit, cpsUnitSelected)
      ensures result != 1 || old(KnowsUnit()) ==>
                currentCpsUnit == old(currentCpsUnit) && cpsUnitSelected == old(cpsUnitSelected)
      ensures result == 1 && !old(KnowsUnit()) ==> cpsUnitSelected
    {
      hide Attempt, Played, BusRemoved, OpenBus, IsStream, OpenUnit, BlockCipher.Lawful;
      DecryptUnitBus(c, buf);
      if cpsUnitSelected || uk.numUk == 1 {
        var ok := DecryptInPlace(c, uk.keys.value[currentCpsUnit], buf);
        result := if ok then 1 else 0;
      } else {
        result := Detect(c, buf);
      }
    }

    // A key has been detected.
    method Select(i: nat, buf: array<Byte>, outBuf: array<Byte>)
      requires Valid() && uk != null && i < uk.numUk && buf.Length == outBuf.Length && buf != outBuf
      modifies buf, this`currentCpsUnit, this`cpsUnitSelected
      ensures Valid() && currentCpsUnit == Short(i) && cpsUnitSelected && buf[..] == outBuf[..]
    {
      currentCpsUnit := Short(i);
      cpsUnitSelected := true;
      CopyFrom(buf, outBuf[..], 0);
    }

    // The search for the key of a unit.
    method Detect(c: BlockCipher, buf: array<Byte>) returns (result: int)
      requires Valid() && Loaded() && buf.Length == UNIT_LEN
      modifies buf, this`currentCpsUnit, this`cpsUnitSelected
      ensures Valid()
      ensures Detected(c, uk.keys.value, old(buf[..]), buf[..], result, currentCpsUnit, cpsUnitSelected)
      ensures result != 1 ==> cpsUnitSelected == old(cpsUnitSelected) && currentCpsUnit == old(currentCpsUnit)
    {
      hide IsStream, Attempt, Cleared;
      ghost var u: Unit := buf[..];
      ghost var k := FirstVerifying(c, uk.keys.value, u, 0);
      var outBuf := new Byte[UNIT_LEN];
      var i := 0;
      while i < uk.numUk
        invariant 0 <= i <= uk.numUk && buf[..] == u
        invariant k == FirstVerifying(c, uk.keys.value, u, i)
        invariant currentCpsUnit == old(currentCpsUnit) && cpsUnitSelected == old(cpsUnitSelected)
      {
        var ok := DecryptCopy(c, uk.keys.value[i], outBuf, buf);
        if ok {
          Select(i, buf, outBuf);
          return 1;
        }
        i := i + 1;
      }
      result := 0;
    }
  }

  lemma FirstSector(c: BlockCipher, key: Block, u: Unit, v: Unit)
    requires v == u[..16] + CbcDecrypt(c, key, Iv(), u[16..SECTOR_LEN]) + u[SECTOR_LEN..]
    ensures v[..SECTOR_LEN] == OpenSector(c, key, u[..SECTOR_LEN]) && v[SECTOR_LEN..] == u[SECTOR_LEN..]
  {
    assert u[..SECTOR_LEN][16..] == u[16..SECTOR_LEN] && u[..SECTOR_LEN][..16] == u[..16];
  }

  lemma SecondSector(c: BlockCipher, key: Block, u: Unit, v: Unit, w: Unit)
    requires v[..SECTOR_LEN] == OpenSector(c, key, u[..SECTOR_LEN]) && v[SECTOR_LEN..] == u[SECTOR_LEN..]
    requires w == v[..SECTOR_LEN + 16] + CbcDecrypt(c, key, Iv(), v[SECTOR_LEN + 16..2 * SECTOR_LEN]) + v[2 * SECTOR_LEN..]
    ensures w[..2 * SECTOR_LEN] == OpenSector(c, key, u[..SECTOR_LEN]) + OpenSector(c, key, u[SECTOR_LEN..2 * SECTOR_LEN])
    ensures w[2 * SECTOR_LEN..] == u[2 * SECTOR_LEN..]
  {
    var s := u[SECTOR_LEN..2 * SECTOR_LEN];
    assert v[SECTOR_LEN..2 * SECTOR_LEN] == v[SECTOR_LEN..][..SECTOR_LEN] == s;
    assert s[16..] == v[SECTOR_LEN + 16..2 * SECTOR_LEN] && s[..16] == v[SECTOR_LEN..SECTOR_LEN + 16];
    assert v[2 * SECTOR_LEN..] == v[SECTOR_LEN..][SECTOR_LEN..];
    assert w[..2 * SECTOR_LEN] == v[..SECTOR_LEN] + (s[..16] + CbcDecrypt(c, key, Iv(), s[16..]));
  }

  lemma ThirdSector(c: BlockCipher, key: Block, u: Unit, w: Unit, x: Unit)
    requires w[..2 * SECTOR_LEN] == OpenSector(c, key, u[..SECTOR_LEN]) + OpenSector(c, key, u[SECTOR_LEN..2 * SECTOR_LEN])
    requires w[2 * SECTOR_LEN..] == u[2 * SECTOR_LEN..]
    requires x == w[..2 * SECTOR_LEN + 16] + CbcDecrypt(c, key, Iv(), w[2 * SECTOR_LEN + 16..3 * SECTOR_LEN]) + w[3 * SECTOR_LEN..]
    ensures x == OpenBus(c, key, u)
  {
    var s := u[2 * SECTOR_LEN..];
    assert s[16..] == w[2 * SECTOR_LEN + 16..3 * SECTOR_LEN] && s[..16] == w[2 * SECTOR_LEN..2 * SECTOR_LEN + 16];
    assert x == w[..2 * SECTOR_LEN] + (s[..16] + CbcDecrypt(c, key, Iv(), s[16..]));
  }

  // ------------------------------------------------------------------
  // What decryption promises

  /** Both layers together: a unit sealed under a unit key and then, sector by
      sector, under the bus key comes back with its copy permission bits cleared,
      and it verifies. */
  lemma BothLayers(c: BlockCipher, busKey: Block, key: Block, u: Unit)
    requires c.Lawful() && IsStream(u)
    ensures Verifies(c, key, OpenBus(c, busKey, SealBus(c, busKey, SealUnit(c, key, u))))
    ensures Attempt(c, key, OpenBus(c, busKey, SealBus(c, busKey, SealUnit(c, key, u)))) == Cleared(u, PACKETS)
  {
    BusRoundTrip(c, busKey, SealUnit(c, key, u));
    UnitRoundTrip(c, key, u);
  }

  // Sealing leaves the flag where it is.
  lemma SealKeepsFlag(c: BlockCipher, busKey: Block, key: Block, u: Unit)
    ensures Flagged(SealUnit(c, key, u)) == Flagged(u) == Flagged(SealBus(c, busKey, u)) == Flagged(OpenBus(c, busKey, u))
  {
  }

  /** The flag after an attempt with some key: it survives exactly when the
      first packet does not even look right.  So after a success a second call
      finds nothing to do; and after a failure in place a second call reports
      success without decrypting whenever only a later packet was bad. */
  lemma FlagAfterAttempt(c: BlockCipher, key: Block, u: Unit)
    requires Flagged(u)
    ensures Flagged(Attempt(c, key, u)) <==> !Synced(OpenUnit(c, key, u), 0)
    ensures Verifies(c, key, u) ==> !Flagged(Attempt(c, key, u))
  {
    var o := OpenUnit(c, key, u);
    ClearedBytes(o, FirstUnsynced(o, 0), 0);
  }

  /** Detection finds the right key when no earlier one gives a stream. */
  lemma DetectsOwnKey(c: BlockCipher, keys: seq<Block>, k: nat, u: Unit)
    requires c.Lawful() && k < |keys| && IsStream(u)
    requires forall j :: 0 <= j < k ==> !Verifies(c, keys[j], SealUnit(c, keys[k], u))
    ensures FirstVerifying(c, keys, SealUnit(c, keys[k], u), 0) == k
    ensures Attempt(c, keys[k], SealUnit(c, keys[k], u)) == Cleared(u, PACKETS)
  {
    UnitRoundTrip(c, keys[k], u);
    FirstVerifyingIsFirst(c, keys, SealUnit(c, keys[k], u), 0);
  }

  // A sealed unit under both layers, and what a session makes of it.
  ghost predicate Sealed(c: BlockCipher, busKey: Block, key: Block, u: Unit, sealed: Unit) {
    c.Lawful() && IsStream(u) && Flagged(u) && sealed == SealBus(c, busKey, SealUnit(c, key, u))
  }

  lemma SealedOpens(c: BlockCipher, busKey: Block, key: Block, u: Unit, sealed: Unit)
    requires Sealed(c, busKey, key, u, sealed)
    ensures Flagged(sealed) && !Flagged(Cleared(u, PACKETS))
    ensures forall after, result :: Applied(c, key, OpenBus(c, busKey, sealed), after, result) ==>
              result == 1 && after == Cleared(u, PACKETS)
  {
    BothLayers(c, busKey, key, u);
    SealKeepsFlag(c, busKey, key, u);
    SealKeepsFlag(c, busKey, key, SealUnit(c, key, u));
    SealKeepsFlag(c, busKey, key, sealed);
    FlagAfterAttempt(c, key, OpenBus(c, busKey, sealed));
  }

  /** A whole session: choose a title, and decrypt the same unit twice. */
  method PlayUnit(aacs: Aacs, c: BlockCipher, title: nat, buf: array<Byte>, ghost u: Unit) returns (first: int, second: int)
    requires aacs.Valid() && aacs.Loaded() && aacs.uk.titleCpsUnit != null && title <= aacs.uk.numTitles < 0xffff
    requires buf.Length == UNIT_LEN && aacs.bee && aacs.bec > 0
    requires Sealed(c, aacs.readDataKey, aacs.uk.keys.value[aacs.uk.titleCpsUnit[title + 1]], u, buf[..])
    modifies aacs, buf
    ensures first == 1 && second == 1 && buf[..] == Cleared(u, PACKETS)
  {
    hide PlaysAs, Detected, Sealed, Attempt, IsStream, OpenBus, Cleared;
    SealedOpens(c, aacs.readDataKey, aacs.uk.keys.value[aacs.uk.titleCpsUnit[title + 1]], u, buf[..]);
    aacs.SelectTitle(title);
    first := aacs.DecryptUnit(c, buf);
    second := aacs.DecryptUnit(c, buf);
  }

  /** Two calls on one unit whose key is in force.  The first succeeds exactly when
      the opened unit is a stream.  The second succeeds exactly when its first
      packet looks right, and then does nothing; or when opening once more what the
      first call left gives a stream. */
  method DecryptTwice(aacs: Aacs, c: BlockCipher, buf: array<Byte>) returns (first: int, second: int)
    requires aacs.Valid() && aacs.Loaded() && aacs.KnowsUnit() && buf.Length == UNIT_LEN && Flagged(buf[..])
    modifies aacs, buf
    ensures var key, v := old(aacs.uk.keys.value[aacs.currentCpsUnit]), old(aacs.BelowBus(c, buf[..]));
            && first == (if IsStream(OpenUnit(c, key, v)) then 1 else 0)
            && (Synced(OpenUnit(c, key, v), 0) ==> buf[..] == Attempt(c, key, v))
            && (second == 1 <==> Synced(OpenUnit(c, key, v), 0) || Verifies(c, key, old(aacs.BelowBus(c, OpenUnit(c, key, v)))))
  {
    hide PlaysAs, Detected, OpenBus, OpenUnit, BlockCipher.Lawful;
    ghost var key, v := aacs.uk.keys.value[aacs.currentCpsUnit], aacs.BelowBus(c, buf[..]);
    OpenBusKeepsFlag(c, aacs.readDataKey, buf[..]);
    FlagAfterAttempt(c, key, v);
    first := aacs.DecryptUnit(c, buf);
    second := aacs.DecryptUnit(c, buf);
  }

  lemma OpenBusKeepsFlag(c: BlockCipher, busKey: Block, u: Unit)
    ensures Flagged(OpenBus(c, busKey, u)) <==> Flagged(u)
  {
    SealKeepsFlag(c, busKey, busKey, u);
  }

  // A unit under both layers that is no stream, though its first packet looks
  // right.
  ghost predicate SealedBroken(c: BlockCipher, busKey: Block, key: Block, x: Unit, sealed: Unit) {
    && c.Lawful() && Flagged(x) && Synced(x, 0) && !IsStream(x)
    && sealed == SealBus(c, busKey, SealUnit(c, key, x))
  }

  lemma BrokenOpens(c: BlockCipher, busKey: Block, key: Block, x: Unit, sealed: Unit)
    requires SealedBroken(c, busKey, key, x, sealed)
    ensures Flagged(sealed) && OpenUnit(c, key, OpenBus(c, busKey, sealed)) == x
  {
    BusRoundTrip(c, busKey, SealUnit(c, key, x));
    UnitRoundTrip(c, key, x);
    SealKeepsFlag(c, busKey, key, x);
    SealKeepsFlag(c, busKey, key, SealUnit(c, key, x));
  }

  /** So such a unit fails, and on a second call passes for decrypted. */
  method RetryPasses(aacs: Aacs, c: BlockCipher, buf: array<Byte>, ghost x: Unit) returns (first: int, second: int)
    requires aacs.Valid() && aacs.Loaded() && aacs.KnowsUnit() && buf.Length == UNIT_LEN && aacs.bee && aacs.bec > 0
    requires SealedBroken(c, aacs.readDataKey, aacs.uk.keys.value[aacs.currentCpsUnit], x, buf[..])
    modifies aacs, buf
    ensures first == 0 && second == 1 && buf[..] == Cleared(x, FirstUnsynced(x, 0))
  {
    BrokenOpens(c, aacs.readDataKey, aacs.uk.keys.value[aacs.currentCpsUnit], x, buf[..]);
    first, second := DecryptTwice(aacs, c, buf);
  }
}
