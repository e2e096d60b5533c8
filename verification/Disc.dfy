/** Opening a disc and decrypting a unit of it (aacs.c): the unit key file, the
    waterfall, the read data key and the session together. */
module Disc {
  import opened Bytes
  import opened UnitCipher
  import opened UnitKey
  import opened KeyCache
  import opened Session
  import opened Waterfall
  import SubsetDifference
  import MediaKey
  import Mkb
  import MkbReader
  import Issue
  import Auth
  import RevocationList

  /** What opening finds out besides the keys: whether the disc and the drive use
      bus encryption, how the drive is opened for the read data key, after whatever
      was sent to it before, and the name of its cache file. */
  datatype Bus = Bus(bee: bool, bec: int, opening: Auth.Opening, kind: string)

  // The cache keeps the read data key apart from the keys of the waterfall.
  predicate OwnFile(bus: Bus) {
    bus.kind != "mk" && bus.kind != "vid" && bus.kind != "vuk"
  }

  // What the drive yields for the data keys.
  function DataReply(w: World, bus: Bus): Reply {
    DriveReply(w.(opening := bus.opening), Auth.DataKeys)
  }

  /** _read_read_data_key: the drive first, then the cache. */
  method ReadReadDataKey(w: World, aacs: Aacs, cache: Cache, bus: Bus, ghost t: Truth) returns (code: int)
    requires OwnFile(bus) && w.crypto.Fitting() && aacs.readDataKey == ZeroBlock()
    modifies aacs`readDataKey, cache
    ensures code == SUCCESS <==> DataReply(w, bus).code == SUCCESS || Cached(w, old(cache.files), bus.kind)
    ensures aacs.readDataKey == if DataReply(w, bus).code == SUCCESS || !w.useCache then DataReply(w, bus).data
                                else AfterFind(old(cache.files), FileOf(w, bus.kind), DataReply(w, bus).data)
    ensures DataReply(w, bus).code == SUCCESS && cache.reliable && w.useCache ==> Kept(w, cache.files, bus.kind, aacs.readDataKey)
    ensures TrueCache(w, t, old(cache.files)) ==> TrueCache(w, t, cache.files)
  {
    hide Kept, Auth.TryCerts, Auth.FirstServed, Auth.Failure, Auth.Authentic, AfterFind;
    var key := NewKey();
    code := Auth.ReadWithCerts(w.crypto, w.drive, w.stray, bus.opening, w.hcl, Auth.DataKeys, key);
    ghost var reply := key[..];
    assert Reply(code, reply) == DataReply(w, bus);
    if code == SUCCESS {
      var _ := SaveReadDataKey(w, cache, bus, key[..]);
    } else if w.useCache {
      var found := cache.Find(FileOf(w, bus.kind), key);
      if found {
        code := SUCCESS;
      }
    }
    aacs.readDataKey := key[..];
  }

  method SaveReadDataKey(w: World, cache: Cache, bus: Bus, key: Block) returns (ok: bool)
    modifies cache
    ensures forall kind :: kind != bus.kind ==> Same(old(cache.files), cache.files, FileOf(w, kind))
    ensures cache.reliable && w.useCache ==> Kept(w, cache.files, bus.kind, key)
  {
    ok := false;
    if w.useCache {
      ok := cache.Save(FileOf(w, bus.kind), key);
      if ok {
        SavedIsKept(w, cache.files, bus.kind, key);
      }
    }
  }

  // ------------------------------------------------------------------
  // Opening

  // The title map in memory is that of the file.
  ghost predicate TitlesOf(uk: UnitKeys, p: seq<Byte>)
    requires TitlesFit(p) && KeyCountFits(p)
    reads uk, uk.titleCpsUnit
  {
    && uk.titleCpsUnit != null && uk.numTitles == BE16(p, 24) && uk.titleCpsUnit.Length == BE16(p, 24) + 2
    && forall i :: 0 <= i < BE16(p, 24) + 2 ==> uk.titleCpsUnit[i] == ToIndex(TitleNumber(p, i), KeyCount(p))
  }

  // The disc's own unit key i.
  function TrueKey(w: World, t: Truth, p: seq<Byte>, stride: nat, i: nat): Block
    requires KeyCountFits(p) && KeyPos(p) + 48 + stride * i + 16 <= |p|
  {
    w.Cipher().dec(TrueVuk(w, t), KeyAt(p, stride, i))
  }

  ghost predicate TrueKeysOf(w: World, t: Truth, keys: seq<Block>, p: seq<Byte>, stride: nat)
    requires KeyCountFits(p)
  {
    && |keys| == KeyCount(p)
    && forall i :: 0 <= i < |keys| ==>
         KeyPos(p) + 48 + stride * i + 16 <= |p| && keys[i] == TrueKey(w, t, p, stride, i)
  }

  lemma {:induction false} DecryptedAt(c: BlockCipher, vuk: Block, enc: seq<Block>, i: nat)
    requires i < |enc|
    ensures Decrypted(c, vuk, enc)[i] == c.dec(vuk, enc[i])
    decreases |enc|
  {
    if i < |enc| - 1 {
      DecryptedAt(c, vuk, enc[..|enc| - 1], i);
    }
  }

  lemma DecryptedIsTrue(w: World, t: Truth, enc: seq<Block>, p: seq<Byte>, stride: nat)
    requires KeyCountFits(p) && |enc| == KeyCount(p)
    requires forall i :: 0 <= i < |enc| ==> KeyPos(p) + 48 + stride * i + 16 <= |p| && enc[i] == KeyAt(p, stride, i)
    ensures TrueKeysOf(w, t, Decrypted(w.Cipher(), TrueVuk(w, t), enc), p, stride)
  {
    forall i | 0 <= i < |enc|
      ensures Decrypted(w.Cipher(), TrueVuk(w, t), enc)[i] == TrueKey(w, t, p, stride, i)
    {
      DecryptedAt(w.Cipher(), TrueVuk(w, t), enc, i);
    }
  }

  // All sources agree with the disc, and yield its volume unique key.
  ghost predicate Coherent(w: World, t: Truth, files: map<Path, string>, cf: Option<Config>)
    requires Sane(w, t)
  {
    && Agreeing(w, t, files, cf, ZeroBlock()) && EntryOrNone(w, cf).uks == []
    && Reachable(w, t, files, cf, ZeroBlock())
  }

  lemma CoherentIs(w: World, t: Truth, files: map<Path, string>, cf: Option<Config>)
    requires Sane(w, t)
    ensures Agreeing(w, t, files, cf, ZeroBlock()) ==> TrueCache(w, t, files)
    ensures Coherent(w, t, files, cf) ==>
              && Agreeing(w, t, files, cf, ZeroBlock()) && Reachable(w, t, files, cf, ZeroBlock())
              && forall n :: !FromConfig(w, t, files, cf, ZeroBlock(), n)
  {
  }

  // A unit key file is used when it is larger than 2048 bytes and accepted.
  predicate Accepted(p: seq<Byte>) {
    |p| > 2048 && HeaderFits(p) && KeyCountFits(p) && (KeyCount(p) > 0 ==> KeysFit(p))
  }

  // The file that is used, or else its backup.
  function Chosen(p: seq<Byte>, backup: seq<Byte>): seq<Byte> {
    if Accepted(p) then p else backup
  }

  // The keys at the chosen stride lie inside a file.
  ghost predicate Inside(p: seq<Byte>, aacs2: bool) {
    |p| > 2048 && KeyCountFits(p) && KeysFit(p) ==> LastKeyFits(p, Stride(p, aacs2))
  }

  // What a parsed file holds.
  ghost predicate ParsedFrom(uk: UnitKeys, p: seq<Byte>, aacs2: bool)
    reads uk, uk.titleCpsUnit
  {
    && Accepted(p) && uk.Valid() && uk.numUk == |uk.encUk| == KeyCount(p) && uk.keys == None
    && (forall i :: 0 <= i < uk.numUk ==>
          KeyPos(p) + 48 + Stride(p, aacs2) * i + 16 <= |p| && uk.encUk[i] == KeyAt(p, Stride(p, aacs2), i))
    && (TitlesFit(p) ==> TitlesOf(uk, p))
  }

  method ParseFile(p: seq<Byte>, aacs2: bool) returns (uk: UnitKeys?)
    requires Inside(p, aacs2)
    ensures uk != null <==> Accepted(p)
    ensures uk != null ==> fresh(uk) && (uk.titleCpsUnit != null ==> fresh(uk.titleCpsUnit)) && ParsedFrom(uk, p, aacs2)
  {
    if |p| <= 2048 {
      return null;
    }
    uk := Parse(p, aacs2);
  }

  /** _calc_title_hash, as far as the unit keys. */
  method ReadUnitKeys(p: seq<Byte>, backup: seq<Byte>, aacs2: bool) returns (uk: UnitKeys?)
    requires Inside(p, aacs2) && Inside(backup, aacs2)
    ensures uk != null <==> Accepted(Chosen(p, backup))
    ensures uk != null ==> fresh(uk) && (uk.titleCpsUnit != null ==> fresh(uk.titleCpsUnit))
                           && ParsedFrom(uk, Chosen(p, backup), aacs2)
    ensures uk != null <==> (|p| > 2048 && Taken(p)) || (|backup| > 2048 && Taken(backup))
    ensures uk != null ==> KeysFrom(if |p| > 2048 && Taken(p) then p else backup, aacs2, uk.encUk)
  {
    hide KeysFrom;
    TakenIff(p);
    TakenIff(backup);
    uk := ParseFile(p, aacs2);
    if uk == null {
      uk := ParseFile(backup, aacs2);
    }
    if uk != null {
      KeysAreFrom(Chosen(p, backup), aacs2, uk.encUk);
    }
  }

  // The first half of opening: the keys.
  method OpenKeys(w: World, cache: Cache, lists: RevocationList.Lists, cf: Option<Config>, p: seq<Byte>, backup: seq<Byte>,
                  aacs2: bool, ghost t: Truth)
    returns (aacs: Aacs, code: int)
    requires Sane(w, t) && Inside(p, aacs2) && Inside(backup, aacs2)
    modifies cache, lists
    ensures fresh(aacs) && aacs.Valid() && (aacs.uk != null ==> fresh(aacs.uk)) && aacs.currentCpsUnit == 0
    ensures aacs.readDataKey == ZeroBlock()
    ensures var f := Chosen(p, backup);
      && (code == SUCCESS ==> Accepted(f) && aacs.uk != null && (KeyCount(f) > 0 ==> aacs.Loaded()))
      && (code == SUCCESS && TitlesFit(f) ==> TitlesOf(aacs.uk, f))
      && (Coherent(w, t, old(cache.files), cf) && Accepted(f) && KeyCount(f) > 0 ==>
            code == SUCCESS && TrueKeysOf(w, t, aacs.uk.keys.value, f, Stride(f, aacs2)))
    ensures Agreeing(w, t, old(cache.files), cf, ZeroBlock()) ==> TrueCache(w, t, cache.files)
    ensures RevocationList.Advances(w.verifier, old(lists.files), lists.files)
  {
    hide Sane, TrueWorld, TrueCache, Reachable, FromConfig, Agreeing, Coherent, Stride, TrueKeysOf, Inside;
    ghost var f := Chosen(p, backup);
    CoherentIs(w, t, cache.files, cf);
    aacs := new Aacs();
    var uk := ReadUnitKeys(p, backup, aacs2);
    aacs.uk := uk;
    if uk == null {
      return aacs, CORRUPTED_DISC;
    }
    code := LoadKeys(w, aacs, cache, lists, cf, f, aacs2, t);
  }

  // The keys of the file in use.
  method LoadKeys(w: World, aacs: Aacs, cache: Cache, lists: RevocationList.Lists, cf: Option<Config>, ghost f: seq<Byte>,
                  ghost aacs2: bool, ghost t: Truth)
    returns (code: int)
    requires Sane(w, t) && aacs.uk != null && ParsedFrom(aacs.uk, f, aacs2) && aacs.vid == ZeroBlock()
    modifies aacs`mk, aacs`vid, cache, lists, aacs.uk`keys, aacs.uk`numUk
    ensures aacs.uk.Valid() && (TitlesFit(f) ==> TitlesOf(aacs.uk, f))
    ensures code == SUCCESS && KeyCount(f) > 0 ==> aacs.uk.keys.Some? && |aacs.uk.keys.value| == aacs.uk.numUk > 0
    ensures Coherent(w, t, old(cache.files), cf) && KeyCount(f) > 0 ==>
              code == SUCCESS && TrueKeysOf(w, t, aacs.uk.keys.value, f, Stride(f, aacs2))
    ensures Agreeing(w, t, old(cache.files), cf, ZeroBlock()) ==> TrueCache(w, t, cache.files)
    ensures RevocationList.Advances(w.verifier, old(lists.files), lists.files)
  {
    hide Sane, TrueWorld, TrueCache, Reachable, FromConfig, Agreeing, Coherent, Stride, Decrypted, TrueKeysOf;
    CoherentIs(w, t, cache.files, cf);
    ghost var enc := aacs.uk.encUk;
    code := CalcUks(w, aacs, cache, lists, cf, t);
    DecryptedIsTrue(w, t, enc, f, Stride(f, aacs2));
  }

  /** aacs_open_device.  After it the session is valid; when it succeeds on a
      disc with keys they are loaded, and the selected unit is one of them.  When
      all sources agree with the disc they are the disc's. */
  method Open(w: World, cache: Cache, lists: RevocationList.Lists, cf: Option<Config>, bus: Bus, p: seq<Byte>, backup: seq<Byte>,
              aacs2: bool, ghost t: Truth)
    returns (aacs: Aacs, code: int)
    requires Sane(w, t) && Inside(p, aacs2) && Inside(backup, aacs2) && OwnFile(bus)
    modifies cache, lists
    ensures fresh(aacs) && aacs.Valid() && (aacs.uk != null ==> fresh(aacs.uk))
    ensures var f := Chosen(p, backup);
      && (code == SUCCESS ==> Accepted(f) && aacs.uk != null)
      && (code == SUCCESS && KeyCount(f) > 0 ==> aacs.Loaded() && aacs.currentCpsUnit < |aacs.uk.keys.value|)
      && (code == SUCCESS && TitlesFit(f) ==> TitlesOf(aacs.uk, f))
      && (Coherent(w, t, old(cache.files), cf) && Accepted(f) && KeyCount(f) > 0 && cf.Some?
          && DataReply(w, bus).code == SUCCESS ==>
            code == SUCCESS && TrueKeysOf(w, t, aacs.uk.keys.value, f, Stride(f, aacs2)))
    ensures code == SUCCESS ==> aacs.bee == bus.bee && (bus.bee ==> cf.Some? && aacs.bec == bus.bec)
    ensures code == SUCCESS && bus.bee && bus.bec > 0 && DataReply(w, bus).code == SUCCESS ==>
              aacs.readDataKey == DataReply(w, bus).data
    ensures Agreeing(w, t, old(cache.files), cf, ZeroBlock()) ==> TrueCache(w, t, cache.files)
    ensures RevocationList.Advances(w.verifier, old(lists.files), lists.files)
  {
    hide TrueWorld, TrueCache, Reachable, Agreeing, DriveReply, Coherent, TrueKeysOf, TitlesOf, Stride;
    aacs, code := OpenKeys(w, cache, lists, cf, p, backup, aacs2, t);
    aacs.bee := bus.bee;
    aacs.bec := -1;
    if code == SUCCESS && bus.bee {
      if cf.None? {
        return aacs, NO_CONFIG;
      }
      aacs.bec := bus.bec;
      if bus.bec > 0 {
        code := ReadReadDataKey(w, aacs, cache, bus, t);
      }
    }
  }

  // ------------------------------------------------------------------
  // From disc to plain stream

  // The key index of a title.
  function UnitOf(p: seq<Byte>, title: nat): (i: nat)
    requires TitlesFit(p) && KeyCountFits(p) && title <= BE16(p, 24)
    ensures KeyCount(p) > 0 ==> i < KeyCount(p)
  {
    ToIndex(TitleNumber(p, title + 1), KeyCount(p))
  }

  // A unit key file with the title.
  predicate Usable(p: seq<Byte>, title: nat) {
    Accepted(p) && KeyCount(p) > 0 && TitlesFit(p) && title <= BE16(p, 24)
  }

  /** A disc and its drive: the unit was sealed under the title's unit key, and by
      the drive under the read data key. */
  ghost predicate SealedOnDisc(w: World, t: Truth, dataKey: Block, p: seq<Byte>, stride: nat, title: nat, u: Unit, sealed: Unit)
    requires Usable(p, title)
  {
    var i := UnitOf(p, title);
    && KeyPos(p) + 48 + stride * i + 16 <= |p|
    && Sealed(w.Cipher(), dataKey, TrueKey(w, t, p, stride, i), u, sealed)
  }

  /** From an unopened disc to a plain unit: when every source agrees with the
      disc and yields its volume unique key, opening it, choosing a title and
      decrypting a unit of that title give the original unit with its copy
      permission bits cleared, whichever way the keys came. */
  method OpenAndDecrypt(w: World, cache: Cache, lists: RevocationList.Lists, cf: Option<Config>, bus: Bus, p: seq<Byte>,
                        backup: seq<Byte>, aacs2: bool, title: nat, buf: array<Byte>, ghost u: Unit, ghost t: Truth)
    returns (result: int)
    requires Sane(w, t) && Inside(p, aacs2) && Inside(backup, aacs2) && Usable(Chosen(p, backup), title) && OwnFile(bus)
    requires bus.bee && bus.bec > 0 && DataReply(w, bus).code == SUCCESS && cf.Some?
    requires Coherent(w, t, cache.files, cf) && buf.Length == UNIT_LEN
    requires var f := Chosen(p, backup);
             SealedOnDisc(w, t, DataReply(w, bus).data, f, Stride(f, aacs2), title, u, buf[..])
    modifies cache, lists, buf
    ensures result == 1 && buf[..] == Cleared(u, PACKETS)
    ensures TrueCache(w, t, cache.files)
  {
    hide Sane, TrueWorld, TrueCache, Reachable, Agreeing, DataReply, Sealed;
    var aacs, code := Open(w, cache, lists, cf, bus, p, backup, aacs2, t);
    var again;
    result, again := PlayUnit(aacs, w.Cipher(), title, buf, u);
  }
}
