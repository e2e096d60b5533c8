/** From what the authority and the publisher made to a plain unit: the Media Key
    Block as it was issued, an honest drive, and keys for a device or a subset. */
module Playback {
  import opened Bytes
  import opened UnitCipher
  import opened UnitKey
  import opened KeyCache
  import opened Waterfall
  import opened Disc
  import SubsetDifference
  import Words
  import Mkb
  import MediaKey
  import MkbReader
  import Issue
  import Auth
  import RevocationList

  /** What was issued: the subsets, and the rest of the block. */
  datatype Issued = Issued(ss: seq<Issue.Subset>, f: Issue.Frame)

  // The verification data.
  function Vd(w: World, t: Truth, x: Issued): Block
    requires |x.f.rest| == 8
  {
    w.Cipher().enc(t.mk, Issue.Plain(x.f.rest))
  }

  /** The file on the disc is a block that was issued for its media key, with a
      number in its end entry and at least four bytes of padding; and the device
      keys are complete issued sets. */
  ghost predicate Published(w: World, t: Truth, x: Issued) {
    && w.crypto.Fitting() && w.Cipher().Lawful()
    && Issue.IssuedBlock(w.Cipher(), t.roots, x.ss, t.mk, x.f, w.mkbFile)
    && x.f.EndNumber() != Words.Zero() && t.end == |x.ss| && x.f.pad >= 4
    && MediaKey.AllIssued(w.Cipher(), t.roots, w.dkl) && MediaKey.CompleteSets(w.dkl)
  }

  /** Some listed device, behind the leading entries for device 0xffffffff, is in
      a subset, or the first processing key that passes for a subset opens it. */
  ghost predicate Entitled(w: World, t: Truth, x: Issued)
    requires |x.f.rest| == 8
  {
    || Issue.AnyContains(x.ss, w.dkl, MediaKey.Leading(w.dkl))
    || Issue.FirstOpens(w.Cipher(), t.roots, x.ss, t.mk, Vd(w, t, x), w.pkl)
  }

  // The block in memory is the file, less the padding that is not read.
  lemma BlockIsRead(w: World, t: Truth, x: Issued)
    requires Published(w, t, x)
    ensures MkbBuffer(w).Some? && Issue.IssuedBlock(w.Cipher(), t.roots, x.ss, t.mk, x.f.(pad := 4), MkbBuffer(w).value)
  {
    var rs := Issue.Records(w.Cipher(), t.roots, x.ss, t.mk, x.f);
    hide Issue.Entries, Issue.Joined, Issue.Data, MediaKey.AllIssued, MediaKey.CompleteSets, Mkb.WellFormed;
    MkbReader.ReadsAllRecords(rs, x.f.pad, w.mkbFile);
  }

  /** The published block yields a key if and only if a device is entitled to it or
      some processing key passes, and the media key if and only if there is a key
      for it. */
  lemma PublishedYields(w: World, t: Truth, x: Issued)
    requires Published(w, t, x)
    ensures Sane(w, t) && |x.f.rest| == 8
    ensures MkbReply(w, t).code == SUCCESS <==>
              || Issue.AnyContains(x.ss, w.dkl, MediaKey.Leading(w.dkl))
              || Issue.AnyPasses(w.Cipher(), t.roots, x.ss, t.mk, Vd(w, t, x), w.pkl)
    ensures MkbReply(w, t).code == SUCCESS && MkbReply(w, t).data == t.mk <==> Entitled(w, t, x)
  {
    hide MkbBuffer, Issue.AnyContains, Issue.AnyPasses, Issue.FirstOpens, MediaKey.Readable, MediaKey.Derived, Issue.IssuedBlock,
      MediaKey.AllIssued, MediaKey.CompleteSets, Issue.Plain;
    BlockIsRead(w, t, x);
    RestIsThere(w, t, x);
    Issue.UseAllKeys(w.Cipher(), t.roots, x.ss, t.mk, x.f.(pad := 4), MkbBuffer(w).value, w.dkl, w.pkl, ZeroBlock());
  }

  lemma RestIsThere(w: World, t: Truth, x: Issued)
    requires Issue.IssuedBlock(w.Cipher(), t.roots, x.ss, t.mk, x.f, w.mkbFile)
    ensures |x.f.rest| == 8
  {
  }

  /** The drive is honest, holds the disc's volume ID, and one of the host
      certificates will do, with the numbers drawn each time. */
  ghost predicate Attended(w: World, t: Truth, bus: Bus, d: Auth.Device) {
    && d.agid < 4 && w.drive == Some(Auth.HonestDrive(w.crypto, d)) && d.vid == t.vid
    && HasHonestCert(w, w.opening, d) && HasHonestCert(w, bus.opening, d)
  }

  ghost predicate HasHonestCert(w: World, opening: Auth.Opening, d: Auth.Device) {
    exists k :: 0 <= k < |w.hcl| && Auth.Honest(w.crypto, d, Auth.HostOf(w.crypto, opening, w.hcl[k]))
  }

  lemma DriveAnswers(w: World, d: Auth.Device, request: Auth.Request)
    requires w.Cipher().Lawful() && request != Auth.Unknown
    requires d.agid < 4 && w.drive == Some(Auth.HonestDrive(w.crypto, d)) && HasHonestCert(w, w.opening, d)
    ensures DriveReply(w, request) == Reply(SUCCESS, Auth.Secret(d, request))
  {
    hide Auth.Honest, Auth.TryCerts, Auth.HonestDrive;
    var k :| 0 <= k < |w.hcl| && Auth.Honest(w.crypto, d, Auth.HostOf(w.crypto, w.opening, w.hcl[k]));
    Auth.HonestCertFound(w.crypto, d, w.stray, w.opening, w.hcl, k, request, w.opening.sent, Auth.NO_CERT, ZeroBlock());
  }

  // The volume ID, and the read data key.
  lemma DriveTells(w: World, t: Truth, bus: Bus, d: Auth.Device)
    requires w.Cipher().Lawful() && Attended(w, t, bus, d)
    ensures DriveReply(w, Auth.VolumeId) == Reply(SUCCESS, t.vid)
    ensures DataReply(w, bus) == Reply(SUCCESS, d.dataKey)
  {
    hide HasHonestCert, DriveReply, Auth.HonestDrive;
    DriveAnswers(w, d, Auth.VolumeId);
    assert HasHonestCert(w.(opening := bus.opening), bus.opening, d) by {
      SameCerts(w, bus, d);
    }
    DriveAnswers(w.(opening := bus.opening), d, Auth.DataKeys);
  }

  lemma SameCerts(w: World, bus: Bus, d: Auth.Device)
    requires HasHonestCert(w, bus.opening, d)
    ensures HasHonestCert(w.(opening := bus.opening), bus.opening, d)
  {
    hide Auth.Honest;
  }

  // The configuration has no unit keys, and no other key but the disc's.
  ghost predicate Harmless(w: World, t: Truth, cf: Option<Config>) {
    var e := EntryOrNone(w, cf);
    e.uks == [] && Is(e.mk, t.mk) && Is(e.vid, t.vid) && Is(e.vuk, TrueVuk(w, t))
  }

  /** The Media Key Block was issued and a key fits; the drive is honest; cache and
      configuration hold nothing but the truth. */
  ghost predicate Ready(w: World, t: Truth, x: Issued, bus: Bus, d: Auth.Device, files: map<Path, string>, cf: Option<Config>) {
    && Published(w, t, x) && |x.f.rest| == 8 && Entitled(w, t, x) && Attended(w, t, bus, d)
    && cf.Some? && Harmless(w, t, cf) && TrueCache(w, t, files)
  }

  /** The unit key file, or else its backup, has the title, and a unit of it was
      sealed under its key and, by the drive, under the read data key. */
  ghost predicate Burnt(w: World, t: Truth, bus: Bus, dataKey: Block, p: seq<Byte>, backup: seq<Byte>, aacs2: bool,
                        title: nat, u: Unit, sealed: Unit)
  {
    && Inside(p, aacs2) && Inside(backup, aacs2) && OwnFile(bus) && bus.bee && bus.bec > 0
    && var f := Chosen(p, backup);
       Usable(f, title) && SealedOnDisc(w, t, dataKey, f, Stride(f, aacs2), title, u, sealed)
  }

  // So all sources agree, and a volume unique key can be had.
  lemma AllAgree(w: World, t: Truth, x: Issued, bus: Bus, d: Auth.Device, files: map<Path, string>, cf: Option<Config>)
    requires Ready(w, t, x, bus, d, files, cf)
    ensures DataReply(w, bus) == Reply(SUCCESS, d.dataKey) && cf.Some? && TrueCache(w, t, files)
    ensures Sane(w, t) && Coherent(w, t, files, cf)
  {
    hide Sane, MkbReply, DriveReply, DataReply, TrueCache, Attended, Entitled, Cached, Issue.IssuedBlock, Vd;
    PublishedYields(w, t, x);
    DriveTells(w, t, bus, d);
  }

  // A unit with every copy permission bit cleared.
  function AsPlayed(u: Unit): Unit {
    Cleared(u, PACKETS)
  }

  /** From end to end.  Any cipher; a Media Key Block issued for any list of subsets;
      any complete device keys of which one fits, or processing keys of which the
      first that passes fits; a drive and a
      host that are honest; any true cache, or none; and a unit sealed under the
      title's key and the drive's: opening the disc, choosing the title and
      decrypting give the original unit, with its copy permission bits cleared. */
  method PlayFromDisc(w: World, cache: Cache, lists: RevocationList.Lists, cf: Option<Config>, bus: Bus, p: seq<Byte>,
                      backup: seq<Byte>, aacs2: bool, title: nat, buf: array<Byte>,
                      ghost u: Unit, ghost t: Truth, ghost x: Issued, ghost d: Auth.Device)
    returns (result: int)
    requires Ready(w, t, x, bus, d, cache.files, cf)
    requires buf.Length == UNIT_LEN && Burnt(w, t, bus, d.dataKey, p, backup, aacs2, title, u, buf[..])
    modifies cache, lists, buf
    ensures result == 1 && buf[..] == AsPlayed(u)
    ensures TrueCache(w, t, cache.files)
  {
    hide Ready, Sane, TrueCache, Coherent, DataReply, SealedOnDisc, Usable, Inside, Stride;
    AllAgree(w, t, x, bus, d, cache.files, cf);
    result := OpenAndDecrypt(w, cache, lists, cf, bus, p, backup, aacs2, title, buf, u, t);
  }
}
