/** The key waterfall (aacs.c): a volume unique key from the cache, from the
    configuration or from media key and volume ID, and unit keys from it. */
module Waterfall {
  import opened Bytes
  import opened HexText
  import opened KeyCache
  import opened UnitKey
  import opened Session
  import opened MkbReader
  import SubsetDifference
  import MediaKey
  import Auth
  import RevocationList

  /** A configuration entry; a key that is all zero is absent. */
  datatype Entry = Entry(disc: seq<Byte>, mk: Block, vid: Block, vuk: Block, uks: seq<Block>)

  type Config = seq<Entry>

  // A result code and the bytes left in the caller's buffer.
  datatype Reply = Reply(code: int, data: Block)

  /** What the waterfall can turn to: cryptography; whether the cache is used; the
      disc ID; the Media Key Block file and its backup, with device keys and
      processing keys for it; the drive, if it can be opened, how it is
      opened, and the host certificates; who signs revocation lists; and, for each
      CPS unit, whether its copy control file says that it is unencrypted, if that
      file or its backup can be read. */
  datatype World = World(
    crypto: Auth.Crypto, useCache: bool, disc: seq<Byte>,
    mkbFile: seq<Byte>, mkbBackup: seq<Byte>, dkl: seq<SubsetDifference.DeviceKey>, pkl: seq<Block>,
    drive: Option<Auth.Drive>, stray: seq<Byte> -> Block, opening: Auth.Opening, hcl: seq<Auth.HostCert>,
    verifier: RevocationList.Verifier, cci: nat -> Option<bool>)
  {
    function Cipher(): BlockCipher {
      crypto.cipher
    }
  }

  const SUCCESS := 0
  const CORRUPTED_DISC := -1
  const NO_CONFIG := -2

  function Vuk(c: BlockCipher, mk: Block, vid: Block): Block {
    Xor(c.dec(mk, vid), vid)
  }

  /** The volume unique key, combined with the volume ID, is what encrypts to the
      volume ID under the media key. */
  lemma VukIff(c: BlockCipher, mk: Block, vid: Block, vuk: Block)
    requires c.Lawful()
    ensures vuk == Vuk(c, mk, vid) <==> c.enc(mk, Xor(vuk, vid)) == vid
  {
    XorCancel(c.dec(mk, vid), vid);
    XorCancel(vuk, vid);
    assert c.dec(mk, c.enc(mk, Xor(vuk, vid))) == Xor(vuk, vid);
  }

  predicate Empty(key: seq<Byte>) {
    key == Zeros(|key|)
  }

  method Fill(a: array<Byte>, s: seq<Byte>)
    requires a.Length == |s|
    modifies a
    ensures a[..] == s
  {
    forall i | 0 <= i < |s| {
      a[i] := s[i];
    }
  }

  // ------------------------------------------------------------------
  // Truth

  /** The keys that belong to the disc; the authority's secret; and where the
      search of its Media Key Block ends. */
  datatype Truth = Truth(mk: Block, vid: Block, roots: SubsetDifference.Roots, end: nat)

  function TrueVuk(w: World, t: Truth): Block {
    Vuk(w.Cipher(), t.mk, t.vid)
  }

  function Decrypted(c: BlockCipher, vuk: Block, enc: seq<Block>): (r: seq<Block>)
    ensures |r| == |enc|
  {
    if enc == [] then [] else Decrypted(c, vuk, enc[..|enc| - 1]) + [c.dec(vuk, enc[|enc| - 1])]
  }

  /** Key by key: what encrypts to the keys of the file. */
  lemma {:induction false} DecryptedIff(c: BlockCipher, vuk: Block, enc: seq<Block>, keys: seq<Block>)
    requires c.Lawful()
    ensures keys == Decrypted(c, vuk, enc) <==> |keys| == |enc| && forall i :: 0 <= i < |enc| ==> c.enc(vuk, keys[i]) == enc[i]
    decreases |enc|
  {
    if enc != [] && |keys| == |enc| {
      var n := |enc| - 1;
      DecryptedIff(c, vuk, enc[..n], keys[..n]);
      assert keys == keys[..n] + [keys[n]];
      assert c.dec(vuk, c.enc(vuk, keys[n])) == keys[n];
    }
  }

  /** The unit keys of a disc, from its media key and volume ID: under some key that
      combines with the volume ID as above they encrypt to those of the file. */
  ghost predicate Unlocks(c: BlockCipher, mk: Block, vid: Block, enc: seq<Block>, keys: seq<Block>) {
    |keys| == |enc| &&
    exists vuk: Block :: c.enc(mk, Xor(vuk, vid)) == vid && forall i :: 0 <= i < |enc| ==> c.enc(vuk, keys[i]) == enc[i]
  }

  lemma UnlocksIff(w: World, t: Truth, enc: seq<Block>, keys: seq<Block>)
    requires w.Cipher().Lawful()
    ensures keys == Decrypted(w.Cipher(), TrueVuk(w, t), enc) <==> Unlocks(w.Cipher(), t.mk, t.vid, enc, keys)
  {
    hide BlockCipher.Lawful, Decrypted, Vuk;
    var vuk := TrueVuk(w, t);
    VukIff(w.Cipher(), t.mk, t.vid, vuk);
    DecryptedIff(w.Cipher(), vuk, enc, keys);
    if other: Block :| w.Cipher().enc(t.mk, Xor(other, t.vid)) == t.vid && forall i :: 0 <= i < |enc| && i < |keys| ==> w.Cipher().enc(other, keys[i]) == enc[i] {
      VukIff(w.Cipher(), t.mk, t.vid, other);
    }
  }

  function FileOf(w: World, kind: string): Path {
    Path(kind, w.disc)
  }

  /** Every file that the cache holds for the disc is true. */
  ghost predicate TrueCache(w: World, t: Truth, files: map<Path, string>) {
    && TrueFile(files, FileOf(w, "mk"), t.mk)
    && TrueFile(files, FileOf(w, "vid"), t.vid)
    && TrueFile(files, FileOf(w, "vuk"), TrueVuk(w, t))
  }

  // ------------------------------------------------------------------
  // The Media Key Block and the drive

  // What the reader makes of a file.
  function BufferOf(file: seq<Byte>): Option<seq<Byte>> {
    match LastHeader(file, 0)
    case None => None
    case Some(h) => Some(file[..h + 4])
  }

  function MkbBuffer(w: World): Option<seq<Byte>> {
    if BufferOf(w.mkbFile).Some? then BufferOf(w.mkbFile) else BufferOf(w.mkbBackup)
  }

  method ReadMkb(file: seq<Byte>) returns (buf: Option<seq<Byte>>)
    ensures buf == BufferOf(file)
  {
    var data, size := ReadMkbFile(file);
    if data == null {
      return None;
    }
    buf := Some(data[..size]);
  }

  /** _mkb_open: the file, or else its backup. */
  method OpenMkb(w: World) returns (buf: Option<seq<Byte>>)
    ensures buf == MkbBuffer(w)
  {
    buf := ReadMkb(w.mkbFile);
    if buf.None? {
      buf := ReadMkb(w.mkbBackup);
    }
  }

  /** The walks over the Media Key Block stay inside it, its device keys were
      issued, and coordinates and signatures have at most twenty bytes. */
  ghost predicate Sane(w: World, t: Truth) {
    && w.crypto.Fitting()
    && (MkbBuffer(w).Some? ==> MediaKey.Readable(w.Cipher(), t.roots, t.end, MkbBuffer(w).value, w.dkl))
  }

  function CodeOf(r: MediaKey.Result): int {
    match r
    case Success => SUCCESS
    case CorruptedDisc => CORRUPTED_DISC
    case NoDk => -8
    case NoPk => -3
  }

  // What the Media Key Block yields.
  ghost function MkbReply(w: World, t: Truth): Reply
    requires Sane(w, t)
  {
    match MkbBuffer(w)
    case None => Reply(CORRUPTED_DISC, ZeroBlock())
    case Some(buf) =>
      var (r, mk) := MediaKey.Derived(w.Cipher(), t.roots, t.end, buf, w.dkl, w.pkl, ZeroBlock());
      Reply(CodeOf(r), mk)
  }

  // What the drive yields for a request.
  function DriveReply(w: World, request: Auth.Request): Reply {
    match w.drive
    case None => Reply(Auth.MMC_OPEN, ZeroBlock())
    case Some(d) =>
      var (code, p) := Auth.TryCerts(w.crypto, d, w.stray, w.opening, w.hcl, request, w.opening.sent, Auth.NO_CERT, ZeroBlock());
      Reply(code, p)
  }

  /** The Media Key Block and the drive tell the truth or fail. */
  ghost predicate TrueWorld(w: World, t: Truth) {
    && Sane(w, t)
    && (MkbReply(w, t).code == SUCCESS ==> MkbReply(w, t).data == t.mk)
    && (DriveReply(w, Auth.VolumeId).code == SUCCESS ==> DriveReply(w, Auth.VolumeId).data == t.vid)
  }

  predicate Is(key: Block, truth: Block) {
    Empty(key) || key == truth
  }

  // ------------------------------------------------------------------
  // Media key, volume ID, volume unique key

  ghost predicate TruthOf(w: World, t: Truth, kind: string, key: Block) {
    || (kind == "mk" && key == t.mk)
    || (kind == "vid" && key == t.vid)
    || (kind == "vuk" && key == TrueVuk(w, t))
  }

  ghost predicate Same(a: map<Path, string>, b: map<Path, string>, path: Path) {
    (path in a <==> path in b) && (path in a ==> a[path] == b[path])
  }

  // Keys are saved, and writes succeed.
  predicate Keeps(w: World, cache: Cache) {
    cache.reliable && w.useCache && !Empty(w.disc)
  }

  // The key is found when it is looked for again.
  ghost predicate Kept(w: World, files: map<Path, string>, kind: string, key: Block) {
    Cached(w, files, kind) && forall before: Block :: AfterFind(files, FileOf(w, kind), before) == key
  }

  lemma SavedIsKept(w: World, files: map<Path, string>, kind: string, key: Block)
    requires w.useCache && FileOf(w, kind) in files && files[FileOf(w, kind)] == Hex(key)
    ensures Kept(w, files, kind, key)
  {
    hide Found, AfterFind, Hex;
    forall before: Block
      ensures Found(files, FileOf(w, kind), 16) && AfterFind(files, FileOf(w, kind), before) == key
    {
      SavedIsFound(files, FileOf(w, kind), key, before);
    }
    SavedIsFound(files, FileOf(w, kind), key, ZeroBlock());
  }

  // A write of a true key, wherever it stops, keeps the cache true.
  method SaveKey(w: World, cache: Cache, kind: string, key: Block, ghost t: Truth)
    modifies cache
    ensures TrueCache(w, t, old(cache.files)) && TruthOf(w, t, kind, key) ==> TrueCache(w, t, cache.files)
    ensures forall k :: k != kind ==> Same(old(cache.files), cache.files, FileOf(w, k))
    ensures Keeps(w, cache) ==> Kept(w, cache.files, kind, key)
  {
    hide Kept;
    if w.useCache && !Empty(w.disc) {
      var ok := cache.Save(FileOf(w, kind), key);
      if ok {
        SavedIsKept(w, cache.files, kind, key);
      }
    }
  }

  predicate Cached(w: World, files: map<Path, string>, kind: string) {
    w.useCache && Found(files, FileOf(w, kind), 16)
  }

  ghost predicate MkAvailable(w: World, t: Truth, files: map<Path, string>, mk: Block)
    requires Sane(w, t)
  {
    !Empty(mk) || Cached(w, files, "mk") || MkbReply(w, t).code == SUCCESS
  }

  // The media key from the block; the revocation lists are brought up to date.
  method DeriveMediaKey(w: World, lists: RevocationList.Lists, mk: array<Byte>, ghost t: Truth) returns (code: int)
    requires mk.Length == 16 && Sane(w, t)
    modifies mk, lists
    ensures code == MkbReply(w, t).code
    ensures code == SUCCESS ==> mk[..] == MkbReply(w, t).data
    ensures code != 0 ==> code == if MkbBuffer(w).None? || MediaKey.PkLayout(MkbBuffer(w).value).None? then -1 else -3
    ensures RevocationList.Advances(w.verifier, old(lists.files), lists.files)
  {
    var mkb := OpenMkb(w);
    if mkb.None? {
      return CORRUPTED_DISC;
    }
    if w.useCache {
      lists.UpdateRl(w.verifier, mkb.value);
    }
    MediaKey.DerivedIndependent(w.Cipher(), t.roots, t.end, mkb.value, w.dkl, w.pkl, mk[..], ZeroBlock());
    MediaKey.DerivedFailure(w.Cipher(), t.roots, t.end, mkb.value, w.dkl, w.pkl, mk[..]);
    var r := MediaKey.DeriveMk(w.Cipher(), mkb.value, w.dkl, w.pkl, mk, t.roots, t.end);
    code := CodeOf(r);
  }

  /** _calc_mk */
  method CalcMk(w: World, aacs: Aacs, cache: Cache, lists: RevocationList.Lists, mk: array<Byte>, ghost t: Truth) returns (code: int)
    requires mk.Length == 16 && Sane(w, t)
    modifies mk, aacs`mk, cache, lists
    ensures code == SUCCESS <==> MkAvailable(w, t, old(cache.files), old(mk[..]))
    ensures code != SUCCESS ==> code == MkbReply(w, t).code
    ensures code == SUCCESS && Empty(old(mk[..])) && !Cached(w, old(cache.files), "mk") ==>
              aacs.mk == mk[..] && (Keeps(w, cache) ==> Kept(w, cache.files, "mk", mk[..]))
    ensures code == SUCCESS ==> MkAvailable(w, t, cache.files, mk[..])
    ensures TrueWorld(w, t) && TrueCache(w, t, old(cache.files)) ==> TrueCache(w, t, cache.files)
    ensures TrueWorld(w, t) && TrueCache(w, t, old(cache.files)) && Is(old(mk[..]), t.mk) && code == SUCCESS ==> mk[..] == t.mk
    ensures Same(old(cache.files), cache.files, FileOf(w, "vuk"))
    ensures RevocationList.Advances(w.verifier, old(lists.files), lists.files)
  {
    if !Empty(mk[..]) {
      return SUCCESS;
    }
    if w.useCache {
      ghost var before := mk[..];
      var found := cache.Find(FileOf(w, "mk"), mk);
      if TrueCache(w, t, cache.files) {
        TrueFind(cache.files, FileOf(w, "mk"), t.mk, before);
      }
      if found {
        return SUCCESS;
      }
    }
    code := DeriveMediaKey(w, lists, mk, t);
    if code == SUCCESS {
      aacs.mk := mk[..];
      SaveKey(w, cache, "mk", mk[..], t);
    }
  }

  predicate VidAvailable(w: World, vid: Block) {
    !Empty(vid) || DriveReply(w, Auth.VolumeId).code == SUCCESS
  }

  /** _read_vid: a failed attempt leaves what the drive sent. */
  method ReadVid(w: World, aacs: Aacs, cache: Cache, ghost t: Truth) returns (code: int)
    requires Sane(w, t)
    modifies aacs`vid, cache
    ensures code == SUCCESS <==> VidAvailable(w, old(aacs.vid))
    ensures code != SUCCESS ==> code == DriveReply(w, Auth.VolumeId).code
    ensures code == SUCCESS && Empty(old(aacs.vid)) && Keeps(w, cache) ==> Kept(w, cache.files, "vid", aacs.vid)
    ensures aacs.vid == if Empty(old(aacs.vid)) then DriveReply(w, Auth.VolumeId).data else old(aacs.vid)
    ensures code == SUCCESS ==> VidAvailable(w, aacs.vid)
    ensures TrueWorld(w, t) && TrueCache(w, t, old(cache.files)) ==> TrueCache(w, t, cache.files)
    ensures TrueWorld(w, t) && Is(old(aacs.vid), t.vid) && code == SUCCESS ==> aacs.vid == t.vid
    ensures Same(old(cache.files), cache.files, FileOf(w, "vuk")) && Same(old(cache.files), cache.files, FileOf(w, "mk"))
  {
    if !Empty(aacs.vid) {
      return SUCCESS;
    }
    var vid := NewKey();
    code := Auth.ReadWithCerts(w.crypto, w.drive, w.stray, w.opening, w.hcl, Auth.VolumeId, vid);
    aacs.vid := vid[..];
    if code == SUCCESS {
      SaveKey(w, cache, "vid", aacs.vid, t);
    }
  }

  /** From where a volume unique key can come: it is there already, it is cached,
      or there is a configuration, a media key and a volume ID. */
  ghost predicate VukAvailable(w: World, t: Truth, files: map<Path, string>, config: bool, mk: Block, vuk: Block, vid: Block)
    requires Sane(w, t)
  {
    !Empty(vuk) || Cached(w, files, "vuk") || (config && MkAvailable(w, t, files, mk) && VidAvailable(w, vid))
  }

  // All that is at hand is true.
  ghost predicate Truthful(w: World, t: Truth, files: map<Path, string>, mk: Block, vuk: Block, vid: Block) {
    && TrueWorld(w, t) && TrueCache(w, t, files)
    && Is(mk, t.mk) && Is(vuk, TrueVuk(w, t)) && Is(vid, t.vid)
  }

  // The look at the cache.
  method LookForVuk(w: World, cache: Cache, vuk: array<Byte>, ghost t: Truth) returns (found: bool)
    requires vuk.Length == 16
    modifies vuk
    ensures found <==> Cached(w, cache.files, "vuk")
    ensures vuk[..] == if w.useCache then AfterFind(cache.files, FileOf(w, "vuk"), old(vuk[..])) else old(vuk[..])
    ensures TrueCache(w, t, cache.files) ==> vuk[..] == if found then TrueVuk(w, t) else old(vuk[..])
  {
    hide Vuk;
    found := false;
    if w.useCache {
      ghost var before := vuk[..];
      found := cache.Find(FileOf(w, "vuk"), vuk);
      if TrueCache(w, t, cache.files) {
        TrueFind(cache.files, FileOf(w, "vuk"), TrueVuk(w, t), before);
      }
    }
  }

  // The volume unique key from media key and volume ID.
  method ComputeVuk(w: World, cache: Cache, mk: Block, vid: Block, vuk: array<Byte>, ghost t: Truth)
    requires vuk.Length == 16
    modifies vuk, cache
    ensures vuk[..] == Vuk(w.Cipher(), mk, vid)
    ensures w.Cipher().Lawful() ==> w.Cipher().enc(mk, Xor(vuk[..], vid)) == vid
    ensures Keeps(w, cache) ==> Kept(w, cache.files, "vuk", vuk[..])
    ensures TrueCache(w, t, old(cache.files)) && mk == t.mk && vid == t.vid ==> TrueCache(w, t, cache.files)
    ensures forall k :: k != "vuk" ==> Same(old(cache.files), cache.files, FileOf(w, k))
  {
    hide Vuk, TrueCache, BlockCipher.Lawful, Kept;
    Fill(vuk, Vuk(w.Cipher(), mk, vid));
    if w.Cipher().Lawful() {
      VukIff(w.Cipher(), mk, vid, vuk[..]);
    }
    SaveKey(w, cache, "vuk", vuk[..], t);
  }

  /** _calc_vuk */
  method CalcVuk(w: World, aacs: Aacs, cache: Cache, lists: RevocationList.Lists, config: bool, mk: array<Byte>, vuk: array<Byte>, ghost t: Truth)
    returns (code: int)
    requires mk.Length == 16 && vuk.Length == 16 && mk != vuk
    requires Sane(w, t)
    modifies mk, vuk, aacs`mk, aacs`vid, cache, lists
    ensures RevocationList.Advances(w.verifier, old(lists.files), lists.files)
    ensures code == SUCCESS <==> VukAvailable(w, t, old(cache.files), config, old(mk[..]), old(vuk[..]), old(aacs.vid))
    ensures code == SUCCESS ==> VukAvailable(w, t, cache.files, config, mk[..], vuk[..], aacs.vid)
    ensures Truthful(w, t, old(cache.files), old(mk[..]), old(vuk[..]), old(aacs.vid)) ==>
              && TrueCache(w, t, cache.files)
              && (code == SUCCESS ==> vuk[..] == TrueVuk(w, t) && Truthful(w, t, cache.files, mk[..], vuk[..], aacs.vid))
    ensures !config || !Empty(old(vuk[..])) ==>
              mk[..] == old(mk[..]) && aacs.vid == old(aacs.vid) && cache.files == old(cache.files)
    ensures !Empty(old(vuk[..])) ==> vuk[..] == old(vuk[..])
    ensures Empty(old(vuk[..])) && !config ==>
              vuk[..] == if w.useCache then AfterFind(cache.files, FileOf(w, "vuk"), old(vuk[..])) else old(vuk[..])
    ensures w.Cipher().Lawful() && code == 0 && Empty(old(vuk[..])) && !Cached(w, old(cache.files), "vuk") ==>
              w.Cipher().enc(mk[..], Xor(vuk[..], aacs.vid)) == aacs.vid
    ensures code == 0 && Empty(old(vuk[..])) && Keeps(w, cache) ==>
              Cached(w, cache.files, "vuk") && AfterFind(cache.files, FileOf(w, "vuk"), old(vuk[..])) == vuk[..]
    ensures code != 0 ==>
              code == if !config then -2 else if !MkAvailable(w, t, old(cache.files), old(mk[..])) then MkbReply(w, t).code
                      else DriveReply(w, Auth.VolumeId).code
  {
    hide Sane, MkbReply, DriveReply, BlockCipher.Lawful, Vuk, TrueWorld, TrueCache, Empty, AfterFind;
    if !Empty(vuk[..]) {
      return SUCCESS;
    }
    var found := LookForVuk(w, cache, vuk, t);
    if found {
      return SUCCESS;
    }
    if !config {
      return NO_CONFIG;
    }
    code := CalcMk(w, aacs, cache, lists, mk, t);
    if code != SUCCESS {
      return;
    }
    code := ReadVid(w, aacs, cache, t);
    if code != SUCCESS {
      return;
    }
    ComputeVuk(w, cache, mk[..], aacs.vid, vuk, t);
  }

  /** What was obtained once is found again, without configuration, Media Key Block or
      drive, when it could be saved. */
  method ObtainAgain(w: World, aacs: Aacs, cache: Cache, lists: RevocationList.Lists, config: bool, mk: array<Byte>, vuk: array<Byte>, ghost t: Truth)
    returns (code: int, again: Block)
    requires mk.Length == 16 && vuk.Length == 16 && mk != vuk && vuk[..] == ZeroBlock()
    requires Sane(w, t) && Keeps(w, cache)
    modifies mk, vuk, aacs`mk, aacs`vid, cache, lists
    ensures code == SUCCESS <==> VukAvailable(w, t, old(cache.files), config, old(mk[..]), ZeroBlock(), old(aacs.vid))
    ensures code == SUCCESS ==> again == vuk[..]
  {
    hide Sane, VukAvailable, Cached, AfterFind, TrueCache, TrueWorld, MkbReply, DriveReply, TrueVuk, Truthful, BlockCipher.Lawful, MkAvailable;
    code := CalcVuk(w, aacs, cache, lists, config, mk, vuk, t);
    again := ZeroBlock();
    if code == SUCCESS {
      var other := new Byte[16](_ => 0);
      assert other[..] == ZeroBlock();
      var found := LookForVuk(w, cache, other, t);
      again := other[..];
    }
  }

  // ------------------------------------------------------------------
  // The configuration

  function FindEntry(cf: Config, disc: seq<Byte>): (r: Option<Entry>)
    ensures r.Some? ==> r.value in cf && r.value.disc == disc
    ensures r.None? ==> forall e :: e in cf ==> e.disc != disc
  {
    if cf == [] then None else if cf[0].disc == disc then Some(cf[0]) else FindEntry(cf[1..], disc)
  }

  /** It is the first one of the disc. */
  lemma {:induction false} FirstOfDisc(cf: Config, disc: seq<Byte>, i: nat)
    requires i < |cf| && cf[i].disc == disc && forall j :: 0 <= j < i ==> cf[j].disc != disc
    ensures FindEntry(cf, disc) == Some(cf[i])
    decreases i
  {
    if i > 0 {
      FirstOfDisc(cf[1..], disc, i - 1);
    }
  }

  function Override(key: Block, other: Block): Block {
    if Empty(other) then key else other
  }

  function Max(a: nat, b: nat): nat {
    if a > b then a else b
  }

  // The keys of an entry, in an array of n.
  function Placed(uks: seq<Block>, n: nat): (r: seq<Block>)
    requires |uks| <= n
    ensures |r| == n && r[..|uks|] == uks && (|uks| == n ==> r == uks)
  {
    uks + seq(n - |uks|, i => ZeroBlock())
  }

  /** Whether the entry's unit keys are taken: their number is right, or there is
      no other way. */
  ghost predicate Installs(w: World, t: Truth, files: map<Path, string>, e: Entry, n: nat, mk: Block, vuk: Block, vid: Block)
    requires Sane(w, t)
  {
    && e.uks != []
    && (|e.uks| == n ||
        !VukAvailable(w, t, files, true, Override(mk, e.mk), Override(vuk, e.vuk), Override(vid, e.vid)))
  }

  // memcpy unless empty
  method TakeKey(a: array<Byte>, key: Block)
    requires a.Length == 16
    modifies a
    ensures a[..] == Override(old(a[..]), key)
  {
    if !Empty(key) {
      Fill(a, key);
    }
  }

  /** _find_config_entry, for the entry of the disc */
  method UseEntry(w: World, aacs: Aacs, cache: Cache, lists: RevocationList.Lists, e: Entry, mk: array<Byte>, vuk: array<Byte>, ghost t: Truth)
    requires mk.Length == 16 && vuk.Length == 16 && mk != vuk
    requires aacs.uk != null && aacs.uk.keys == None
    requires Sane(w, t)
    modifies mk, vuk, aacs`mk, aacs`vid, cache, lists, aacs.uk`keys, aacs.uk`numUk
    ensures RevocationList.Advances(w.verifier, old(lists.files), lists.files)
    ensures var installs := Installs(w, t, old(cache.files), e, old(aacs.uk.numUk), old(mk[..]), old(vuk[..]), old(aacs.vid));
            if installs then
              && aacs.uk.numUk == Max(old(aacs.uk.numUk), |e.uks|)
              && aacs.uk.keys == Some(Placed(e.uks, aacs.uk.numUk))
            else
              && aacs.uk.keys == None && aacs.uk.numUk == old(aacs.uk.numUk)
              && (VukAvailable(w, t, cache.files, true, mk[..], vuk[..], aacs.vid) <==>
                  VukAvailable(w, t, old(cache.files), true, Override(old(mk[..]), e.mk), Override(old(vuk[..]), e.vuk),
                               Override(old(aacs.vid), e.vid)))
    ensures Truthful(w, t, old(cache.files), Override(old(mk[..]), e.mk), Override(old(vuk[..]), e.vuk), Override(old(aacs.vid), e.vid)) ==>
              && TrueCache(w, t, cache.files)
              && (aacs.uk.keys.None? ==> Truthful(w, t, cache.files, mk[..], vuk[..], aacs.vid))
    ensures !Empty(Override(old(vuk[..]), e.vuk)) ==> vuk[..] == Override(old(vuk[..]), e.vuk)
    ensures e.uks == [] ==> cache.files == old(cache.files) && mk[..] == Override(old(mk[..]), e.mk) && aacs.uk.keys.None?
    ensures e.uks != [] && |e.uks| == old(aacs.uk.numUk) ==> aacs.uk.keys == Some(e.uks)
    ensures e.uks != [] && |e.uks| != old(aacs.uk.numUk) ==>
              (aacs.uk.keys.None? <==>
               VukAvailable(w, t, old(cache.files), true, Override(old(mk[..]), e.mk), Override(old(vuk[..]), e.vuk), Override(old(aacs.vid), e.vid)))
  {
    hide Sane, MkbReply, DriveReply, TrueWorld, TrueCache, MkAvailable, VidAvailable, Cached, AfterFind, TrueVuk, Placed;
    TakeKey(mk, e.mk);
    if !Empty(e.mk) {
      aacs.mk := mk[..];
    }
    if !Empty(e.vid) {
      aacs.vid := e.vid;
    }
    TakeKey(vuk, e.vuk);
    if e.uks == [] {
      return;
    }
    if |e.uks| != aacs.uk.numUk {
      var code := CalcVuk(w, aacs, cache, lists, true, mk, vuk, t);
      if code == SUCCESS {
        return;
      }
    }
    Install(aacs.uk, e.uks);
  }

  method Install(uk: UnitKeys, uks: seq<Block>)
    modifies uk`keys, uk`numUk
    ensures uk.numUk == Max(old(uk.numUk), |uks|) && uk.keys == Some(Placed(uks, uk.numUk))
  {
    if |uks| > uk.numUk {
      uk.numUk := |uks|;
    }
    var n := uk.numUk;
    var keys: seq<Block> := seq(n, i => ZeroBlock());
    var i := 0;
    assert keys == Placed(uks[..0], n);
    while i < |uks|
      invariant 0 <= i <= |uks| <= n && uk.numUk == n
      invariant keys == Placed(uks[..i], n)
    {
      keys := keys[i := uks[i]];
      assert keys == Placed(uks[..i + 1], n);
      i := i + 1;
    }
    assert uks[..i] == uks;
    uk.keys := Some(keys);
  }

  // ------------------------------------------------------------------
  // Unit keys

  // _check_cci_unencrypted: a file that cannot be read gives minus one.
  function CheckUnencrypted(cci: Option<bool>): int {
    match cci
    case None => -1
    case Some(unencrypted) => if unencrypted then 1 else 0
  }

  predicate SeemUnencrypted(cci: nat -> Option<bool>, n: nat) {
    n == 0 || (SeemUnencrypted(cci, n - 1) && CheckUnencrypted(cci(n)) != 0)
  }

  /** The first n units pass for unencrypted if and only if no file of theirs says
      otherwise. */
  lemma {:induction false} SeemUnencryptedIff(cci: nat -> Option<bool>, n: nat)
    ensures SeemUnencrypted(cci, n) <==> forall i :: 1 <= i <= n ==> cci(i) != Some(false)
    decreases n
  {
    if n > 0 {
      SeemUnencryptedIff(cci, n - 1);
    }
  }

  // Some of the first n units is encrypted, and ...
  ghost predicate SomeEncrypted(encrypted: nat -> bool, n: nat) {
    exists i :: 1 <= i <= n && encrypted(i)
  }

  // ... one of those has a file that can be read.
  ghost predicate SomeKnown(encrypted: nat -> bool, cci: nat -> Option<bool>, n: nat) {
    exists i :: 1 <= i <= n && encrypted(i) && cci(i).Some?
  }

  /** When files say the truth, units pass for unencrypted rightly, if and only if
      none is encrypted or one that is has a file that can be read: a file that
      cannot be read counts as that of an unencrypted unit. */
  lemma PassRightlyIff(cci: nat -> Option<bool>, encrypted: nat -> bool, n: nat)
    requires forall i :: 1 <= i <= n && cci(i).Some? ==> cci(i).value == !encrypted(i)
    ensures (SeemUnencrypted(cci, n) <==> !SomeEncrypted(encrypted, n)) <==>
            !SomeEncrypted(encrypted, n) || SomeKnown(encrypted, cci, n)
  {
    SeemUnencryptedIff(cci, n);
    if i :| 1 <= i <= n && encrypted(i) && cci(i).Some? {
      assert cci(i) == Some(false);
    }
    if i :| 1 <= i <= n && cci(i) == Some(false) {
      assert encrypted(i);
    }
  }

  // The last loop of _calc_uks.
  method DecryptKeys(w: World, uk: UnitKeys, vukCode: int, vuk: Block) returns (code: int)
    requires uk.numUk == |uk.encUk|
    modifies uk`keys
    ensures code == SUCCESS <==> vukCode == SUCCESS || SeemUnencrypted(w.cci, uk.numUk)
    ensures code == SUCCESS ==> uk.keys == Some(Decrypted(w.Cipher(), vuk, uk.encUk))
    ensures uk.keys.Some? && |uk.keys.value| == uk.numUk
    ensures code != SUCCESS ==> code == vukCode
    ensures code == SUCCESS && w.Cipher().Lawful() ==>
              forall i :: 0 <= i < |uk.encUk| ==> w.Cipher().enc(vuk, uk.keys.value[i]) == uk.encUk[i]
  {
    hide BlockCipher.Lawful;
    code := SUCCESS;
    uk.keys := Some(seq(uk.numUk, i => ZeroBlock()));
    var i := 0;
    while i < uk.numUk
      invariant 0 <= i <= uk.numUk && uk.keys.Some? && |uk.keys.value| == uk.numUk
      invariant uk.keys.value[..i] == Decrypted(w.Cipher(), vuk, uk.encUk[..i])
      invariant code == SUCCESS && (vukCode != SUCCESS ==> SeemUnencrypted(w.cci, i))
    {
      if vukCode != SUCCESS && CheckUnencrypted(w.cci(i + 1)) == 0 {
        SeemsOtherwise(w.cci, i + 1, uk.numUk);
        code := vukCode;
        return;
      }
      uk.keys := Some(uk.keys.value[i := w.Cipher().dec(vuk, uk.encUk[i])]);
      assert uk.encUk[..i + 1][..i] == uk.encUk[..i];
      assert uk.keys.value[..i + 1] == uk.keys.value[..i] + [w.Cipher().dec(vuk, uk.encUk[i])];
      i := i + 1;
    }
    assert uk.encUk[..i] == uk.encUk && uk.keys.value[..i] == uk.keys.value;
    if w.Cipher().Lawful() {
      DecryptedIff(w.Cipher(), vuk, uk.encUk, uk.keys.value);
    }
  }

  lemma {:induction false} SeemsOtherwise(cci: nat -> Option<bool>, i: nat, n: nat)
    requires 0 < i <= n && CheckUnencrypted(cci(i)) == 0
    ensures !SeemUnencrypted(cci, n)
    decreases n
  {
    if i < n {
      SeemsOtherwise(cci, i, n - 1);
    }
  }

  function EntryOf(w: World, cf: Option<Config>): Option<Entry> {
    if cf.None? then None else FindEntry(cf.value, w.disc)
  }

  // An entry without a key.
  function NoEntry(w: World): Entry {
    Entry(w.disc, ZeroBlock(), ZeroBlock(), ZeroBlock(), [])
  }

  function EntryOrNone(w: World, cf: Option<Config>): Entry {
    if EntryOf(w, cf).Some? then EntryOf(w, cf).value else NoEntry(w)
  }

  // What the first look at the cache leaves in the empty buffer.
  function Glimpse(w: World, files: map<Path, string>): Block {
    if w.useCache then AfterFind(files, FileOf(w, "vuk"), ZeroBlock()) else ZeroBlock()
  }

  // The volume unique key that is taken for the configured one.
  function AtHand(w: World, files: map<Path, string>, cf: Option<Config>): Block {
    Override(Glimpse(w, files), EntryOrNone(w, cf).vuk)
  }

  /** A volume unique key can be had, in the end, with what the entry adds. */
  ghost predicate Reachable(w: World, t: Truth, files: map<Path, string>, cf: Option<Config>, vid: Block)
    requires Sane(w, t)
  {
    var e := EntryOrNone(w, cf);
    Cached(w, files, "vuk") ||
    VukAvailable(w, t, files, cf.Some?, Override(ZeroBlock(), e.mk), AtHand(w, files, cf), Override(vid, e.vid))
  }

  // What becomes of the attempt otherwise: there is no configuration, or the Media Key
  // Block or else the drive fails.
  ghost function WhyNot(w: World, t: Truth, files: map<Path, string>, cf: Option<Config>): int
    requires Sane(w, t)
  {
    if cf.None? then -2
    else if !MkAvailable(w, t, files, Override(ZeroBlock(), EntryOrNone(w, cf).mk)) then MkbReply(w, t).code
    else DriveReply(w, Auth.VolumeId).code
  }

  /** The unit keys are taken from the configuration. */
  ghost predicate FromConfig(w: World, t: Truth, files: map<Path, string>, cf: Option<Config>, vid: Block, n: nat)
    requires Sane(w, t)
  {
    && !Cached(w, files, "vuk") && EntryOf(w, cf).Some?
    && Installs(w, t, files, EntryOf(w, cf).value, n, ZeroBlock(), Glimpse(w, files), vid)
  }

  /** Cache, configuration, Media Key Block and drive hold no key but the disc's. */
  ghost predicate Agreeing(w: World, t: Truth, files: map<Path, string>, cf: Option<Config>, vid: Block) {
    && TrueWorld(w, t) && TrueCache(w, t, files) && Is(vid, t.vid)
    && var e := EntryOrNone(w, cf);
       Is(e.mk, t.mk) && Is(e.vid, t.vid) && Is(e.vuk, TrueVuk(w, t))
  }

  lemma AgreeingIsTruthful(w: World, t: Truth, files: map<Path, string>, cf: Option<Config>, vid: Block)
    requires Agreeing(w, t, files, cf, vid)
    ensures Truthful(w, t, files, ZeroBlock(), ZeroBlock(), vid)
    ensures var e := EntryOrNone(w, cf);
            !Cached(w, files, "vuk") ==>
              Truthful(w, t, files, Override(ZeroBlock(), e.mk), Override(Glimpse(w, files), e.vuk), Override(vid, e.vid))
  {
    TrueFind(files, FileOf(w, "vuk"), TrueVuk(w, t), ZeroBlock());
  }

  // The first look succeeds when the key is cached, and that settles it.
  lemma FirstLook(w: World, t: Truth, files: map<Path, string>, cf: Option<Config>, vid: Block, n: nat)
    requires Sane(w, t)
    ensures VukAvailable(w, t, files, false, ZeroBlock(), ZeroBlock(), vid) <==> Cached(w, files, "vuk")
    ensures Cached(w, files, "vuk") ==> Reachable(w, t, files, cf, vid) && !FromConfig(w, t, files, cf, vid, n)
  {
  }

  lemma AtHandReaches(w: World, t: Truth, files: map<Path, string>, cf: Option<Config>, vid: Block)
    requires Sane(w, t)
    ensures !Empty(AtHand(w, files, cf)) ==> Reachable(w, t, files, cf, vid)
    ensures Agreeing(w, t, files, cf, vid) ==> TrueCache(w, t, files)
  {
  }

  /** _calc_uks.  It fails exactly when no volume unique key can be had, the
      configuration has no unit keys, and some copy control file says that its unit
      is encrypted.  When all sources agree with the disc's keys, so does every key
      it gives, unless they are an incomplete list from the configuration or the
      disc seemed to be unencrypted. */
  method CalcUks(w: World, aacs: Aacs, cache: Cache, lists: RevocationList.Lists, cf: Option<Config>, ghost t: Truth) returns (code: int)
    requires aacs.uk != null && aacs.uk.keys == None && aacs.uk.numUk == |aacs.uk.encUk|
    requires Sane(w, t)
    modifies aacs`mk, aacs`vid, cache, lists, aacs.uk`keys, aacs.uk`numUk
    ensures RevocationList.Advances(w.verifier, old(lists.files), lists.files)
    ensures old(aacs.uk.numUk) == 0 ==> code == SUCCESS && aacs.uk.keys == None && aacs.uk.numUk == 0
    ensures old(aacs.uk.numUk) > 0 ==>
              var n, files, vid := old(aacs.uk.numUk), old(cache.files), old(aacs.vid);
              && (code == SUCCESS <==>
                    Reachable(w, t, files, cf, vid) || FromConfig(w, t, files, cf, vid, n) || SeemUnencrypted(w.cci, n))
              && (code != SUCCESS ==> code == WhyNot(w, t, files, cf))
              && (FromConfig(w, t, files, cf, vid, n) ==>
                    var uks := EntryOf(w, cf).value.uks;
                    aacs.uk.numUk == Max(n, |uks|) && aacs.uk.keys == Some(Placed(uks, aacs.uk.numUk)))
              && (!FromConfig(w, t, files, cf, vid, n) ==>
                    aacs.uk.numUk == n && aacs.uk.keys.Some? && |aacs.uk.keys.value| == n)
              && (Agreeing(w, t, files, cf, vid) && !FromConfig(w, t, files, cf, vid, n) && Reachable(w, t, files, cf, vid) ==>
                    aacs.uk.keys == Some(Decrypted(w.Cipher(), TrueVuk(w, t), aacs.uk.encUk)))
              && (!FromConfig(w, t, files, cf, vid, n) && !Cached(w, files, "vuk") && !Empty(AtHand(w, files, cf)) ==>
                    aacs.uk.keys == Some(Decrypted(w.Cipher(), AtHand(w, files, cf), aacs.uk.encUk)))
    ensures Agreeing(w, t, old(cache.files), cf, old(aacs.vid)) ==> TrueCache(w, t, cache.files)
  {
    hide Sane, Reachable, FromConfig, Agreeing, WhyNot, Cached, AtHand, Decrypted, TrueVuk, TrueCache, Placed, SeemUnencrypted, BlockCipher.Lawful;
    AtHandReaches(w, t, cache.files, cf, aacs.vid);
    code := SUCCESS;
    if aacs.uk.numUk < 1 {
      return;
    }
    var vukCode, vuk := SeekVuk(w, aacs, cache, lists, cf, t);
    if aacs.uk.keys.Some? {
      return;
    }
    code := DecryptKeys(w, aacs.uk, vukCode, vuk);
  }

  // Up to the volume unique key, or to unit keys from the configuration.
  method SeekVuk(w: World, aacs: Aacs, cache: Cache, lists: RevocationList.Lists, cf: Option<Config>, ghost t: Truth) returns (vukCode: int, key: Block)
    requires aacs.uk != null && aacs.uk.keys == None
    requires Sane(w, t)
    modifies aacs`mk, aacs`vid, cache, lists, aacs.uk`keys, aacs.uk`numUk
    ensures RevocationList.Advances(w.verifier, old(lists.files), lists.files)
    ensures var n, files, vid := old(aacs.uk.numUk), old(cache.files), old(aacs.vid);
            if FromConfig(w, t, files, cf, vid, n) then
              var uks := EntryOf(w, cf).value.uks;
              aacs.uk.numUk == Max(n, |uks|) && aacs.uk.keys == Some(Placed(uks, aacs.uk.numUk))
            else
              && aacs.uk.keys == None && aacs.uk.numUk == n
              && (vukCode == SUCCESS <==> Reachable(w, t, files, cf, vid))
              && (vukCode != SUCCESS ==> vukCode == WhyNot(w, t, files, cf))
              && (Agreeing(w, t, files, cf, vid) && vukCode == SUCCESS ==> key == TrueVuk(w, t))
              && (!Cached(w, files, "vuk") && !Empty(AtHand(w, files, cf)) ==> key == AtHand(w, files, cf))
    ensures Agreeing(w, t, old(cache.files), cf, old(aacs.vid)) ==> TrueCache(w, t, cache.files)
  {
    hide Sane, MkbReply, DriveReply, TrueWorld, VukAvailable, Reachable, FromConfig, Agreeing, Truthful, TrueCache, WhyNot;
    if Agreeing(w, t, cache.files, cf, aacs.vid) {
      AgreeingIsTruthful(w, t, cache.files, cf, aacs.vid);
    }
    FirstLook(w, t, cache.files, cf, aacs.vid, aacs.uk.numUk);
    var mk := NewKey();
    var vuk := NewKey();
    vukCode := CalcVuk(w, aacs, cache, lists, false, mk, vuk, t);
    if vukCode != SUCCESS {
      vukCode := SeekFurther(w, aacs, cache, lists, cf, mk, vuk, t);
    }
    key := vuk[..];
  }

  // After the first look at the cache: the configuration, and what it enables.
  method SeekFurther(w: World, aacs: Aacs, cache: Cache, lists: RevocationList.Lists, cf: Option<Config>, mk: array<Byte>, vuk: array<Byte>, ghost t: Truth)
    returns (vukCode: int)
    requires aacs.uk != null && aacs.uk.keys == None && mk.Length == 16 && vuk.Length == 16 && mk != vuk
    requires mk[..] == ZeroBlock() && vuk[..] == Glimpse(w, cache.files) && !Cached(w, cache.files, "vuk")
    requires Sane(w, t)
    modifies mk, vuk, aacs`mk, aacs`vid, cache, lists, aacs.uk`keys, aacs.uk`numUk
    ensures RevocationList.Advances(w.verifier, old(lists.files), lists.files)
    ensures var n, files, vid := old(aacs.uk.numUk), old(cache.files), old(aacs.vid);
            if FromConfig(w, t, files, cf, vid, n) then
              var uks := EntryOf(w, cf).value.uks;
              aacs.uk.numUk == Max(n, |uks|) && aacs.uk.keys == Some(Placed(uks, aacs.uk.numUk))
            else
              && aacs.uk.keys == None && aacs.uk.numUk == n
              && (vukCode == SUCCESS <==> Reachable(w, t, files, cf, vid))
              && (vukCode != SUCCESS ==> vukCode == WhyNot(w, t, files, cf))
              && (Agreeing(w, t, files, cf, vid) && vukCode == SUCCESS ==> vuk[..] == TrueVuk(w, t))
              && (!Empty(AtHand(w, files, cf)) ==> vuk[..] == AtHand(w, files, cf))
    ensures Agreeing(w, t, old(cache.files), cf, old(aacs.vid)) ==> TrueCache(w, t, cache.files)
  {
    hide Sane, MkbReply, DriveReply, TrueWorld, TrueCache, MkAvailable, VidAvailable, Agreeing, AfterFind, Placed;
    if Agreeing(w, t, cache.files, cf, aacs.vid) {
      AgreeingIsTruthful(w, t, cache.files, cf, aacs.vid);
    }
    OverrideNone();
    vukCode := NO_CONFIG;
    if cf.Some? && FindEntry(cf.value, w.disc).Some? {
      UseEntry(w, aacs, cache, lists, FindEntry(cf.value, w.disc).value, mk, vuk, t);
      if aacs.uk.keys.Some? {
        return;
      }
    }
    vukCode := CalcVuk(w, aacs, cache, lists, cf.Some?, mk, vuk, t);
  }

  lemma OverrideNone()
    ensures Empty(ZeroBlock()) && forall key :: Override(key, ZeroBlock()) == key
  {
  }

  method NewKey() returns (a: array<Byte>)
    ensures fresh(a) && a[..] == ZeroBlock()
  {
    a := new Byte[16](_ => 0);
  }

  // ------------------------------------------------------------------
  // What follows

  /** Coherence: when cache, configuration, Media Key Block and drive hold no key
      but the disc's, unit keys in the configuration are complete and right, and
      some copy control file says that its unit is encrypted, there is one answer or
      none. */
  method CoherentKeys(w: World, aacs: Aacs, cache: Cache, lists: RevocationList.Lists, cf: Option<Config>, ghost t: Truth) returns (code: int)
    requires aacs.uk != null && aacs.uk.keys == None && aacs.uk.numUk == |aacs.uk.encUk| > 0
    requires Agreeing(w, t, cache.files, cf, aacs.vid) && !SeemUnencrypted(w.cci, aacs.uk.numUk)
    requires EntryOrNone(w, cf).uks != [] ==> EntryOrNone(w, cf).uks == Decrypted(w.Cipher(), TrueVuk(w, t), aacs.uk.encUk)
    requires Sane(w, t)
    modifies aacs, cache, lists, aacs.uk
    ensures RevocationList.Advances(w.verifier, old(lists.files), lists.files)
    ensures code == SUCCESS <==>
              Reachable(w, t, old(cache.files), cf, old(aacs.vid)) || EntryOrNone(w, cf).uks != []
    ensures code == SUCCESS ==> aacs.uk == old(aacs.uk) && aacs.uk.keys == Some(Decrypted(w.Cipher(), TrueVuk(w, t), old(aacs.uk.encUk)))
    ensures code == SUCCESS && w.Cipher().Lawful() ==> Unlocks(w.Cipher(), t.mk, t.vid, old(aacs.uk.encUk), aacs.uk.keys.value)
    ensures TrueCache(w, t, cache.files)
  {
    hide BlockCipher.Lawful, Unlocks, Sane, Reachable, FromConfig, Agreeing, Decrypted, TrueVuk, TrueCache, WhyNot, Placed, SeemUnencrypted, AtHand, Cached;
    ghost var e, n := EntryOrNone(w, cf), aacs.uk.numUk;
    WholeList(w, t, cache.files, cf, aacs.vid, n);
    code := CalcUks(w, aacs, cache, lists, cf, t);
    if w.Cipher().Lawful() {
      UnlocksIff(w, t, aacs.uk.encUk, Decrypted(w.Cipher(), TrueVuk(w, t), aacs.uk.encUk));
    }
  }

  // A list of the right length is taken as it is, unless the cache comes first.
  lemma WholeList(w: World, t: Truth, files: map<Path, string>, cf: Option<Config>, vid: Block, n: nat)
    requires Sane(w, t)
    requires var uks := EntryOrNone(w, cf).uks; uks != [] ==> |uks| == n
    ensures var uks := EntryOrNone(w, cf).uks;
            && (FromConfig(w, t, files, cf, vid, n) ==> uks != [] && EntryOf(w, cf).value.uks == uks && Placed(uks, n) == uks)
            && (uks != [] ==> FromConfig(w, t, files, cf, vid, n) || Reachable(w, t, files, cf, vid))
  {
  }

  /** A cached text that is not the disc's key, but long enough and with a byte
      other than zero before its first bad pair, is not found and yet used: the
      bytes left in the buffer pass for a configured key.  Any other text that is
      not found does no harm. */
  lemma DamagedTextIsUsed(w: World, t: Truth, files: map<Path, string>, cf: Option<Config>, vid: Block)
    requires Sane(w, t) && w.useCache && !Cached(w, files, "vuk") && Empty(EntryOrNone(w, cf).vuk)
    ensures var path := FileOf(w, "vuk");
            !Empty(AtHand(w, files, cf)) <==> path in files && Damaged(files[path])
    ensures !Empty(AtHand(w, files, cf)) ==> Reachable(w, t, files, cf, vid)
  {
    OverrideNone();
    FailedFind(files, FileOf(w, "vuk"));
  }

  /** Without any key, but with every copy control file unreadable, a disc is
      opened with success, whatever it holds. */
  method WithoutAnyKey(w: World, aacs: Aacs, cache: Cache, lists: RevocationList.Lists, cf: Option<Config>, ghost t: Truth) returns (code: int)
    requires aacs.uk != null && aacs.uk.keys == None && aacs.uk.numUk == |aacs.uk.encUk| > 0 && Sane(w, t)
    requires !Reachable(w, t, cache.files, cf, aacs.vid) && !FromConfig(w, t, cache.files, cf, aacs.vid, aacs.uk.numUk)
    requires forall i :: 1 <= i <= aacs.uk.numUk ==> w.cci(i) == None
    modifies aacs`mk, aacs`vid, cache, lists, aacs.uk`keys, aacs.uk`numUk
    ensures code == SUCCESS && aacs.uk.keys.Some?
  {
    SeemUnencryptedIff(w.cci, aacs.uk.numUk);
    code := CalcUks(w, aacs, cache, lists, cf, t);
  }

  // ------------------------------------------------------------------
  // The volume ID, handed out

  /** What is handed out: the volume ID in memory; or a cached one; or what is in
      memory after asking the drive, whether the drive was believed or not. */
  function VidGiven(w: World, files: map<Path, string>, config: bool, vid: Block): Option<Block> {
    if !Empty(vid) then Some(vid) else
    var seen := if w.useCache then AfterFind(files, FileOf(w, "vid"), ZeroBlock()) else ZeroBlock();
    if Cached(w, files, "vid") then Some(seen) else
    var left := if config && Empty(seen) then DriveReply(w, Auth.VolumeId).data else seen;
    if Empty(left) then None else Some(left)
  }

  /** aacs_get_vid */
  method GetVid(w: World, aacs: Aacs, cache: Cache, config: bool, ghost t: Truth) returns (vid: Option<Block>)
    requires Sane(w, t)
    modifies aacs`vid, cache
    ensures vid == VidGiven(w, old(cache.files), config, old(aacs.vid))
    ensures vid.Some? ==> aacs.vid == vid.value
  {
    hide Sane, DriveReply;
    if !Empty(aacs.vid) {
      return Some(aacs.vid);
    }
    EmptyIsZero(aacs.vid);
    if w.useCache {
      var p := NewKey();
      var found := cache.Find(FileOf(w, "vid"), p);
      aacs.vid := p[..];
      if found {
        return Some(aacs.vid);
      }
    }
    if config {
      var _ := ReadVid(w, aacs, cache, t);
    }
    return if Empty(aacs.vid) then None else Some(aacs.vid);
  }

  lemma EmptyIsZero(key: Block)
    ensures Empty(key) <==> key == ZeroBlock()
  {
  }

  // Nothing in the cache, not even remains of a text.
  ghost predicate Blank(w: World, files: map<Path, string>) {
    var path := FileOf(w, "vid");
    w.useCache && path in files ==> !Found(files, path, 16) && !Damaged(files[path])
  }

  /** Under the last certificate under which the drive sends an identifier, none
      before it having succeeded, that is not the disc's and its code does not
      match. */
  ghost predicate Misled(w: World, t: Truth) {
    w.drive.Some? &&
    exists k: nat, reply: seq<Byte> ::
      && Auth.LastMismatch(w.crypto, w.drive.value, w.stray, w.opening, w.hcl, w.opening.sent, k, reply)
      && !Is(Auth.Payload(reply), t.vid)
  }

  lemma DriveLeaves(w: World, t: Truth)
    ensures DriveReply(w, Auth.VolumeId).code == SUCCESS ==> !Misled(w, t)
    ensures DriveReply(w, Auth.VolumeId).code != SUCCESS ==> (Is(DriveReply(w, Auth.VolumeId).data, t.vid) <==> !Misled(w, t))
  {
    hide Auth.LastMismatch, Auth.Payload, Auth.TryCerts, Auth.NoneArrives;
    EmptyIsZero(ZeroBlock());
    if w.drive.Some? {
      var (c, d) := (w.crypto, w.drive.value);
      Auth.WhatRemains(c, d, w.stray, w.opening, w.hcl, w.opening.sent, Auth.NO_CERT, ZeroBlock());
      forall k: nat, reply: seq<Byte> | Auth.LastMismatch(c, d, w.stray, w.opening, w.hcl, w.opening.sent, k, reply)
        ensures DriveReply(w, Auth.VolumeId).code != SUCCESS && DriveReply(w, Auth.VolumeId).data == Auth.Payload(reply)
      {
        Auth.MismatchDecides(c, d, w.stray, w.opening, w.hcl, w.opening.sent, Auth.NO_CERT, ZeroBlock(), k, reply);
      }
    }
  }

  /** What is handed out is the disc's volume ID or nothing, if and only if: a text
      in the cache, read as far as it can be, spells that volume ID; or there is no
      such text, and the drive is not asked or does not mislead. */
  lemma GivenVidIsTrue(w: World, t: Truth, files: map<Path, string>, config: bool)
    requires DriveReply(w, Auth.VolumeId).code == SUCCESS ==> DriveReply(w, Auth.VolumeId).data == t.vid
    requires !Empty(t.vid)
    ensures var given := VidGiven(w, files, config, ZeroBlock());
            (given == None || given == Some(t.vid)) <==>
            if !Blank(w, files) then AfterFind(files, FileOf(w, "vid"), ZeroBlock()) == t.vid
            else config ==> !Misled(w, t)
  {
    hide Auth.TryCerts, Misled, AfterFind, Damaged, DriveReply;
    EmptyIsZero(ZeroBlock());
    EmptyIsZero(DriveReply(w, Auth.VolumeId).data);
    if w.useCache {
      VidSeen(w, files);
    }
    DriveLeaves(w, t);
  }

  // What the look at the cache leaves in the empty buffer.
  lemma VidSeen(w: World, files: map<Path, string>)
    requires w.useCache
    ensures var seen := AfterFind(files, FileOf(w, "vid"), ZeroBlock());
            !Cached(w, files, "vid") ==> (Blank(w, files) <==> Empty(seen)) && (Blank(w, files) ==> seen == ZeroBlock())
  {
    EmptyIsZero(AfterFind(files, FileOf(w, "vid"), ZeroBlock()));
    if !Cached(w, files, "vid") {
      FailedFind(files, FileOf(w, "vid"));
    }
  }

  /** A damaged text in the cache is handed out as far as it could be read, whatever
      the drive would say. */
  lemma DamagedVidIsGiven(w: World, files: map<Path, string>, config: bool)
    requires w.useCache && !Cached(w, files, "vid") && !Blank(w, files)
    ensures FileOf(w, "vid") in files && Damaged(files[FileOf(w, "vid")])
    ensures VidGiven(w, files, config, ZeroBlock()) == Some(AfterFind(files, FileOf(w, "vid"), ZeroBlock()))
  {
    EmptyIsZero(ZeroBlock());
    VidSeen(w, files);
  }

  /** With a blank cache, the identifier of the last mismatch is handed out. */
  lemma MismatchIsGiven(w: World, files: map<Path, string>, k: nat, reply: seq<Byte>)
    requires w.drive.Some? && Blank(w, files) && !Empty(Auth.Payload(reply))
    requires Auth.LastMismatch(w.crypto, w.drive.value, w.stray, w.opening, w.hcl, w.opening.sent, k, reply)
    ensures VidGiven(w, files, true, ZeroBlock()) == Some(Auth.Payload(reply))
  {
    hide Auth.LastMismatch, Auth.Payload, Auth.TryCerts;
    EmptyIsZero(ZeroBlock());
    if w.useCache {
      VidSeen(w, files);
    }
    Auth.MismatchDecides(w.crypto, w.drive.value, w.stray, w.opening, w.hcl, w.opening.sent, Auth.NO_CERT, ZeroBlock(), k, reply);
  }

  /** And such drives there are: one that is honest except that it alters the code
      has any volume ID it holds handed out. */
  lemma LiarIsBelieved(w: World, files: map<Path, string>, d: Auth.Device, hc: Auth.HostCert)
    requires d.agid < 4 && w.drive == Some(Auth.Liar(w.crypto, d)) && w.hcl == [hc]
    requires Auth.Honest(w.crypto, d, Auth.HostOf(w.crypto, w.opening, hc)) && Blank(w, files) && !Empty(d.vid)
    ensures VidGiven(w, files, true, ZeroBlock()) == Some(d.vid)
  {
    hide VidGiven, Blank, Auth.SendsMismatch, Auth.Liar, Auth.LastMismatch;
    var h := Auth.HostOf(w.crypto, w.opening, hc);
    var reply := Auth.LiarMismatches(w.crypto, d, h, w.stray, w.opening.sent);
    Auth.OnlyMismatch(w.crypto, w.drive.value, w.stray, w.opening, hc, w.opening.sent, reply);
    MismatchIsGiven(w, files, 0, reply);
  }
}
