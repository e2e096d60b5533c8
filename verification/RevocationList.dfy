/** Revocation lists: kept from the newest Media Key Block (aacs.c), read back,
    and searched for a certificate (mkb.c). */
module RevocationList {
  import opened Bytes
  import opened Mkb

  // uint32_t
  function U32(n: nat): nat {
    n % 0x1_0000_0000
  }

  // Does a signature, by the licensing administrator, belong to the data?
  type Verifier = (seq<Byte>, seq<Byte>) -> bool

  // ------------------------------------------------------------------
  // A saved list: the type and version record, the header of the list record,
  // the total, the count of the first signature block, its entries, and its
  // signature

  const HEAD := 24

  function Count(rl: seq<Byte>): nat
    requires |rl| >= HEAD
  {
    BE32(rl, 20)
  }

  // The signature of the first block is inside.
  predicate Complete(rl: seq<Byte>) {
    |rl| >= 40 && HEAD + 8 * Count(rl) + 40 <= |rl| && Count(rl) < (0xffff_ffff - 24 - 40) / 8
  }

  predicate Verified(v: Verifier, rl: seq<Byte>) {
    Complete(rl) &&
    var len := HEAD + 8 * Count(rl);
    v(rl[len..len + 40], rl[..len])
  }

  /** In bytes: behind 24 bytes and the n entries whose number is in the last four
      of them there are forty more, which sign all before them. */
  ghost predicate Signed(v: Verifier, rl: seq<Byte>) {
    |rl| >= 24 &&
    var n := BE32(rl, 20);
    n < 536870903 && 24 + 8 * n + 40 <= |rl| && v(rl[24 + 8 * n..24 + 8 * n + 40], rl[..24 + 8 * n])
  }

  /** The guard on the count is what keeps the 32-bit length from wrapping; any
      count from twenty-four below 2^29 on would wrap. */
  lemma GuardAgainstWrap(entries: nat)
    requires entries < 0x1_0000_0000
    ensures entries < (0xffff_ffff - 24 - 40) / 8 ==> U32(12 + 12 + U32(8 * entries)) == 24 + 8 * entries
    ensures U32(12 + 12 + U32(8 * entries)) == 24 + 8 * entries <==> entries < 0x2000_0000 - 3
  {
  }

  /** _rl_verify_signature */
  method VerifySignature(v: Verifier, rl: seq<Byte>) returns (ok: bool)
    ensures ok <==> Verified(v, rl)
    ensures ok <==> Signed(v, rl)
  {
    if |rl| < 40 {
      return false;
    }
    var entries := BE32(rl, 12 + 8);
    if entries >= (0xffff_ffff - 24 - 40) / 8 {
      return false;
    }
    GuardAgainstWrap(entries);
    var len := U32(12 + 12 + U32(8 * entries));
    if len > |rl| - 40 {
      return false;
    }
    return v(rl[len..len + 40], rl[..len]);
  }

  // ------------------------------------------------------------------
  // The kept lists; a save is all or nothing

  datatype Saved = Saved(version: nat, data: seq<Byte>)

  datatype Kind = Drives | Hosts

  function RecordType(kind: Kind): Byte {
    match kind
    case Drives => DRIVE_REVOCATION
    case Hosts => HOST_REVOCATION
  }

  function KeptVersion(files: map<Kind, Saved>, kind: Kind): nat {
    if kind in files then files[kind].version else 0
  }

  // A type and version record, and a list record with its header.
  function Joined(buf: seq<Byte>, ver: Span, rec: Span): seq<Byte>
    requires ver.pos + 12 <= |buf| && 4 <= rec.pos && rec.pos + rec.len <= |buf|
  {
    buf[ver.pos..ver.pos + 12] + buf[rec.pos - 4..rec.pos + rec.len]
  }

  lemma JoinedHead(buf: seq<Byte>, ver: Span, rec: Span)
    requires ver.pos + 12 <= |buf| && 4 <= rec.pos && rec.pos + rec.len <= |buf| && rec.len > 8
    ensures var data := Joined(buf, ver, rec);
            |data| == 16 + rec.len && BE32(data, 8) == BE32(buf, ver.pos + 8) && Count(data) == BE32(buf, rec.pos + 4)
  {
    var data := Joined(buf, ver, rec);
    assert forall i :: 0 <= i < 12 ==> data[i] == buf[ver.pos + i];
    assert data[20] == buf[rec.pos + 4] && data[21] == buf[rec.pos + 5];
    assert data[22] == buf[rec.pos + 6] && data[23] == buf[rec.pos + 7];
  }

  // The list of a Media Key Block, in the form in which it is kept.
  function ListIn(buf: seq<Byte>, kind: Kind): (r: Option<seq<Byte>>)
    ensures r.Some? ==> |r.value| > HEAD && BE32(r.value, 8) == Version(buf) && Count(r.value) > 0
  {
    match (TypeAndVersionRecord(buf), SimpleRecord(buf, RecordType(kind)))
    case (Some(ver), Some(rec)) =>
      if rec.len <= 8 || BE32(buf, rec.pos + 4) == 0 then None
      else
        JoinedHead(buf, ver, rec);
        Some(Joined(buf, ver, rec))
    case _ => None
  }

  /** In a well-formed block that is: twelve bytes of the first record of type 16, and
      the whole first record of type 32, for drives, or 33, for hosts, if it has at
      least one entry. */
  lemma ListOfRecords(rs: seq<Record>, pad: nat, buf: seq<Byte>, kind: Kind)
    requires WellFormed(rs) && buf == Encode(rs) + Zeros(pad)
    ensures var i, j := FirstOf(rs, 16), FirstOf(rs, if kind == Drives then 32 else 33);
      ListIn(buf, kind) ==
        if i < |rs| && |rs[i].body| >= 8 && j < |rs| && |rs[j].body| > 8 && BE32(rs[j].body, 4) > 0
        then Some(EncodeRecord(rs[i])[..12] + EncodeRecord(rs[j])) else None
  {
    hide Encode, Find, EncodeRecord, FirstOf, WellFormed, Joined, At, BE32, Version, Zeros;
    var rtype := RecordType(kind);
    var i, j := FirstOf(rs, TYPE_AND_VERSION), FirstOf(rs, rtype);
    FindsRecordAt(rs, pad, buf, TYPE_AND_VERSION);
    FindsRecordAt(rs, pad, buf, rtype);
    if i < |rs| && j < |rs| {
      JoinedRecords(buf, Find(buf, 0, TYPE_AND_VERSION).value, Find(buf, 0, rtype).value, rs[i], rs[j]);
    }
  }

  // A record in a buffer, with its header.
  ghost predicate At(buf: seq<Byte>, s: Span, r: Record) {
    && s.pos + s.len <= |buf| && s.len == |r.body| + 4 < 0x100_0000
    && buf[s.pos] == r.rtype && BE24(buf, s.pos + 1) == s.len && buf[s.pos + 4..s.pos + s.len] == r.body
  }

  lemma FindsRecordAt(rs: seq<Record>, pad: nat, buf: seq<Byte>, rtype: Byte)
    requires WellFormed(rs) && rtype != 0 && buf == Encode(rs) + Zeros(pad)
    ensures match Find(buf, 0, rtype)
            case None => FirstOf(rs, rtype) == |rs|
            case Some(s) => FirstOf(rs, rtype) < |rs| && At(buf, s, rs[FirstOf(rs, rtype)]) && s.len == |rs[FirstOf(rs, rtype)].body| + 4
  {
    hide Encode;
    FindsFirstRecord(rs, pad, buf, rtype);
  }

  lemma JoinedRecords(buf: seq<Byte>, s: Span, t: Span, q: Record, r: Record)
    requires At(buf, s, q) && At(buf, t, r)
    ensures |q.body| >= 8 ==> Joined(buf, s, Span(t.pos + 4, t.len - 4)) == EncodeRecord(q)[..12] + EncodeRecord(r)
    ensures |r.body| >= 8 ==> BE32(r.body, 4) == BE32(buf, t.pos + 8)
  {
    hide EncodeRecord, BE32;
    WholeRecord(buf, s, q);
    WholeRecord(buf, t, r);
    if |q.body| >= 8 {
      assert buf[s.pos..s.pos + s.len][..12] == buf[s.pos..s.pos + 12];
    }
    SliceAt(buf, t.pos + 4, t.pos + t.len);
  }

  lemma WholeRecord(buf: seq<Byte>, s: Span, r: Record)
    requires At(buf, s, r)
    ensures buf[s.pos..s.pos + s.len] == EncodeRecord(r)
  {
    var e, length := EncodeRecord(r), Put24(s.len);
    assert BE24(length, 0) == BE24(buf, s.pos + 1);
    assert e[1] == length[0] && e[2] == length[1] && e[3] == length[2];
    assert e[4..] == r.body;
    HeaderAndBody(buf[s.pos..s.pos + s.len], e);
  }

  lemma HeaderAndBody(a: seq<Byte>, b: seq<Byte>)
    requires |a| == |b| >= 4 && a[0] == b[0] && a[1] == b[1] && a[2] == b[2] && a[3] == b[3] && a[4..] == b[4..]
    ensures a == b
  {
    assert a == [a[0], a[1], a[2], a[3]] + a[4..];
    assert b == [b[0], b[1], b[2], b[3]] + b[4..];
  }

  /** A disc's list replaces the kept one when it is newer and its signature is
      good. */
  predicate Replaces(v: Verifier, files: map<Kind, Saved>, buf: seq<Byte>, kind: Kind) {
    && (kind !in files || files[kind].version < Version(buf))
    && ListIn(buf, kind).Some? && Verified(v, ListIn(buf, kind).value)
  }

  // The list of the disc is kept.
  predicate IsKept(files: map<Kind, Saved>, buf: seq<Byte>, kind: Kind) {
    kind in files && ListIn(buf, kind).Some? && files[kind] == Saved(Version(buf), ListIn(buf, kind).value)
  }

  // What may be kept after a disc; the save can fail.
  ghost predicate Kept(v: Verifier, before: map<Kind, Saved>, after: map<Kind, Saved>, buf: seq<Byte>, kind: Kind) {
    || after == before
    || (Replaces(v, before, buf, kind) && after == before[kind := Saved(Version(buf), ListIn(buf, kind).value)])
  }

  ghost predicate Processed(v: Verifier, before: map<Kind, Saved>, after: map<Kind, Saved>, buf: seq<Byte>) {
    exists mid :: Kept(v, before, mid, buf, Drives) && Kept(v, mid, after, buf, Hosts)
  }

  /** What is kept is verified, and its version is the one that the signature
      covers. */
  ghost predicate Sound(v: Verifier, files: map<Kind, Saved>) {
    forall kind :: kind in files ==> SoundList(v, files[kind])
  }

  ghost predicate SoundList(v: Verifier, s: Saved) {
    Signed(v, s.data) && Verified(v, s.data) && s.version == BE32(s.data, 8) && Count(s.data) > 0
  }

  /** No kept version is older, and what is kept is still sound. */
  ghost predicate Advances(v: Verifier, before: map<Kind, Saved>, after: map<Kind, Saved>) {
    && (forall kind :: KeptVersion(before, kind) <= KeptVersion(after, kind))
    && (Sound(v, before) ==> Sound(v, after))
  }

  datatype Entry = Entry(range: nat, id: seq<Byte>)

  // Entry i of the first block.
  function EntryAt(rl: seq<Byte>, i: nat): Entry
    requires HEAD + 8 * i + 8 <= |rl|
  {
    Entry(BE16(rl, HEAD + 8 * i), rl[HEAD + 8 * i + 2..HEAD + 8 * i + 8])
  }

  function FirstBlock(rl: seq<Byte>): (r: seq<Entry>)
    requires Complete(rl)
    ensures |r| == Count(rl)
  {
    seq(Count(rl), i requires 0 <= i < Count(rl) => EntryAt(rl, i))
  }

  lemma ListToSave(buf: seq<Byte>, kind: Kind, ver: Span, rec: Span)
    requires TypeAndVersionRecord(buf) == Some(ver) && SimpleRecord(buf, RecordType(kind)) == Some(rec) && rec.len > 8
    ensures BE24(buf, rec.pos - 3) >= 4
    ensures ListIn(buf, kind) == if BE32(buf, rec.pos + 4) == 0 then None else Some(Joined(buf, ver, rec))
  {
    hide Find, Joined, Version, BE24, BE32;
  }

  class Lists {
    var files: map<Kind, Saved>
    const reliable: bool // every save succeeds

    constructor (reliable: bool)
      ensures files == map[] && this.reliable == reliable
    {
      files := map[];
      this.reliable := reliable;
    }

    /** _save_rl, for a list record whose body starts at rec.pos */
    method SaveRl(v: Verifier, kind: Kind, buf: seq<Byte>, version: nat, ver: Span, rec: Span)
      requires TypeAndVersionRecord(buf) == Some(ver) && SimpleRecord(buf, RecordType(kind)) == Some(rec)
      requires version == Version(buf) && rec.len > 8
      requires kind !in files || files[kind].version < version
      modifies this
      ensures Kept(v, old(files), files, buf, kind)
      ensures reliable && Replaces(v, old(files), buf, kind) ==> IsKept(files, buf, kind)
    {
      hide Signed, Verified, ListIn, SimpleRecord, TypeAndVersionRecord, Version, Joined, BE24, BE32;
      ListToSave(buf, kind, ver, rec);
      var len, entries := BE24(buf, rec.pos - 3), BE32(buf, rec.pos + 4);
      if len < 4 || entries == 0 {
        return;
      }
      var data := Joined(buf, ver, rec);
      var good := VerifySignature(v, data);
      var written: bool := *;
      if good && (written || reliable) {
        files := files[kind := Saved(version, data)];
      }
    }

    /** _update_rl: never older, and sound if it was. */
    method UpdateRl(v: Verifier, buf: seq<Byte>)
      modifies this
      ensures Processed(v, old(files), files, buf)
      ensures Advances(v, old(files), files)
      ensures forall kind :: kind in old(files) ==>
                kind in files && (files[kind] == old(files)[kind] || files[kind].version > old(files)[kind].version)
      ensures reliable && Replaces(v, old(files), buf, Drives) ==> IsKept(files, buf, Drives)
      ensures reliable && Replaces(v, old(files), buf, Hosts) ==> IsKept(files, buf, Hosts)
    {
      hide Replaces, Kept, IsKept, Advances;
      ghost var before := files;
      UpdateKind(v, buf, Drives);
      ghost var mid := files;
      UpdateKind(v, buf, Hosts);
      assert Kept(v, before, mid, buf, Drives) && Kept(v, mid, files, buf, Hosts);
      EachKept(v, before, mid, files, buf);
      ProcessedIsNotOlder(v, before, files, buf);
    }

    // One of its two halves.
    method UpdateKind(v: Verifier, buf: seq<Byte>, kind: Kind)
      modifies this
      ensures Kept(v, old(files), files, buf, kind)
      ensures reliable && Replaces(v, old(files), buf, kind) ==> IsKept(files, buf, kind)
    {
      var version := Version(buf);
      if kind !in files || files[kind].version < version {
        var ver, rec := TypeAndVersionRecord(buf), SimpleRecord(buf, RecordType(kind));
        if ver.Some? && rec.Some? && rec.value.len > 8 {
          SaveRl(v, kind, buf, version, ver.value, rec.value);
        }
      }
    }

    /** _get_rl: exactly the entries of the first signature block. */
    method GetRl(v: Verifier, kind: Kind) returns (rl: Option<seq<Entry>>, version: nat)
      ensures rl.Some? <==> kind in files && files[kind].version > 0 && |files[kind].data| > 24 && Verified(v, files[kind].data)
      ensures rl.Some? ==> rl.value == FirstBlock(files[kind].data) && version == files[kind].version
      ensures rl.Some? ==> Signed(v, files[kind].data) && forall i :: 0 <= i < |rl.value| ==>
                rl.value[i].range == BE16(files[kind].data, 24 + 8 * i) && rl.value[i].id == files[kind].data[26 + 8 * i..32 + 8 * i]
      ensures rl.None? ==> version == 0
    {
      rl, version := None, 0;
      if kind !in files || files[kind].version == 0 || |files[kind].data| <= 24 {
        return;
      }
      var data := files[kind].data;
      var good := VerifySignature(v, data);
      if !good {
        return;
      }
      var numRecords := BE32(data, 20);
      var room := (|data| - 24) / 8;
      if room < numRecords {
        numRecords := room;
      }
      var entries: seq<Entry> := [];
      var p := 24;
      while |entries| < numRecords
        invariant |entries| <= numRecords == Count(data) && p == HEAD + 8 * |entries|
        invariant forall i :: 0 <= i < |entries| ==> entries[i] == EntryAt(data, i)
      {
        var range := BE16(data, p);
        p := p + 2;
        entries := entries + [Entry(range, data[p..p + 6])];
        p := p + 6;
      }
      return Some(entries), files[kind].version;
    }
  }

  // One kind after the other.
  lemma EachKept(v: Verifier, before: map<Kind, Saved>, mid: map<Kind, Saved>, after: map<Kind, Saved>, buf: seq<Byte>)
    requires Kept(v, before, mid, buf, Drives) && Kept(v, mid, after, buf, Hosts)
    ensures Replaces(v, before, buf, Hosts) == Replaces(v, mid, buf, Hosts)
    ensures IsKept(mid, buf, Drives) ==> IsKept(after, buf, Drives)
    ensures forall kind :: kind in before ==>
              kind in after && (after[kind] == before[kind] || after[kind].version > before[kind].version)
  {
    hide Verified, ListIn, Version;
  }

  lemma KeptIsNotOlder(v: Verifier, before: map<Kind, Saved>, after: map<Kind, Saved>, buf: seq<Byte>, kind: Kind)
    requires Kept(v, before, after, buf, kind)
    ensures forall k :: KeptVersion(before, k) <= KeptVersion(after, k)
    ensures Sound(v, before) ==> Sound(v, after)
  {
    hide Signed, Verified, ListIn, Complete;
    if after != before {
      VerifiedIsSigned(v, ListIn(buf, kind).value);
    }
  }

  lemma VerifiedIsSigned(v: Verifier, rl: seq<Byte>)
    ensures Verified(v, rl) <==> Signed(v, rl)
  {
  }

  lemma ProcessedIsNotOlder(v: Verifier, before: map<Kind, Saved>, after: map<Kind, Saved>, buf: seq<Byte>)
    requires Processed(v, before, after, buf)
    ensures Advances(v, before, after)
  {
    var mid :| Kept(v, before, mid, buf, Drives) && Kept(v, mid, after, buf, Hosts);
    KeptIsNotOlder(v, before, mid, buf, Drives);
    KeptIsNotOlder(v, mid, after, buf, Hosts);
  }

  // ------------------------------------------------------------------
  // Runs

  // The lists kept before each disc of a run, and after the last.
  ghost predicate Run(v: Verifier, discs: seq<seq<Byte>>, states: seq<map<Kind, Saved>>) {
    && |states| == |discs| + 1
    && forall i :: 0 <= i < |discs| ==> Processed(v, states[i], states[i + 1], discs[i])
  }

  /** Over every run of discs, in any order, the kept version never decreases and
      every kept list stays verified. */
  lemma {:induction false} NeverOlder(v: Verifier, discs: seq<seq<Byte>>, states: seq<map<Kind, Saved>>, i: nat, j: nat, kind: Kind)
    requires Run(v, discs, states) && i <= j <= |discs|
    ensures KeptVersion(states[i], kind) <= KeptVersion(states[j], kind)
    ensures Sound(v, states[i]) ==> Sound(v, states[j])
    decreases j
  {
    hide Sound, Processed;
    if i < j {
      NeverOlder(v, discs, states, i, j - 1, kind);
      ProcessedIsNotOlder(v, states[j - 1], states[j], discs[j - 1]);
    }
  }

  // A run in which every save succeeds.
  ghost predicate FullRun(v: Verifier, discs: seq<seq<Byte>>, states: seq<map<Kind, Saved>>) {
    && Run(v, discs, states)
    && forall i, kind :: 0 <= i < |discs| && Replaces(v, states[i], discs[i], kind) ==>
         KeptVersion(states[i + 1], kind) == Version(discs[i])
  }

  /** What is kept after such a run is as new as every disc whose list is verified. */
  lemma AsNewAsAny(v: Verifier, discs: seq<seq<Byte>>, states: seq<map<Kind, Saved>>, i: nat, kind: Kind)
    requires FullRun(v, discs, states) && i < |discs|
    requires ListIn(discs[i], kind).Some? && Verified(v, ListIn(discs[i], kind).value)
    ensures KeptVersion(states[|discs|], kind) >= Version(discs[i])
  {
    NeverOlder(v, discs, states, i, i + 1, kind);
    NeverOlder(v, discs, states, i + 1, |discs|, kind);
    assert Replaces(v, states[i], discs[i], kind) || KeptVersion(states[i], kind) >= Version(discs[i]);
  }

  // ------------------------------------------------------------------
  // Membership

  predicate Covers(e: Entry, id: nat)
    requires |e.id| == 6
  {
    BE48(e.id, 0) <= id <= BE48(e.id, 0) + e.range
  }

  // Entry i of a list record body revokes the certificate.
  predicate CoveredBy(rl: seq<Byte>, i: nat, id: nat)
    requires 8 + 8 * i + 8 <= |rl|
  {
    BE48(rl, 8 + 8 * i + 2) <= id <= BE48(rl, 8 + 8 * i + 2) + BE16(rl, 8 + 8 * i)
  }

  predicate BodyComplete(rl: seq<Byte>) {
    |rl| > 8 && BE32(rl, 4) < (0xffff_ffff - 8 - 40) / 8 && 8 + 8 * BE32(rl, 4) + 40 <= |rl|
  }

  /** In bytes: the first block is complete with its signature, and one of its
      entries, a two-byte range behind which a six-byte number stands, has the
      identifier at most that far behind the number. */
  ghost predicate Listed(rl: seq<Byte>, id: nat) {
    |rl| > 8 &&
    var n := BE32(rl, 4);
    && n < 536870905 && 8 * n + 48 <= |rl|
    && exists i: nat {:trigger EntryNumber(rl, i)} :: i < n && EntryNumber(rl, i) <= id <= EntryNumber(rl, i) + BE16(rl, 8 * i + 8)
  }

  function EntryNumber(rl: seq<Byte>, i: nat): nat
    requires 8 * i + 16 <= |rl|
  {
    BE48(rl, 8 * i + 10)
  }

  ghost predicate Revoked(rl: seq<Byte>, id: nat) {
    BodyComplete(rl) && exists i :: 0 <= i < BE32(rl, 4) && CoveredBy(rl, i, id)
  }

  lemma BodyGuard(entries: nat)
    requires entries < (0xffff_ffff - 8 - 40) / 8
    ensures U32(4 + 4 + U32(8 * entries) + 40) == 8 * entries + 48
  {
  }

  lemma ListedIff(rl: seq<Byte>, id: nat)
    ensures Listed(rl, id) <==> Revoked(rl, id)
  {
    hide BE48, BE16;
    if Revoked(rl, id) {
      var i :| 0 <= i < BE32(rl, 4) && CoveredBy(rl, i, id);
      assert EntryNumber(rl, i) <= id;
    }
    if Listed(rl, id) {
      var i: nat :| i < BE32(rl, 4) && EntryNumber(rl, i) <= id <= EntryNumber(rl, i) + BE16(rl, 8 * i + 8);
      assert CoveredBy(rl, i, id);
    }
  }

  /** _cert_is_revoked, on the body of a list record */
  method CertIsRevoked(body: seq<Byte>, certId: seq<Byte>) returns (r: int)
    requires |certId| == 6
    ensures r == 1 <==> Revoked(body, BE48(certId, 0))
    ensures r == 1 <==> Listed(body, BE48(certId, 0))
    ensures r == -1 <==> |body| > 8 && BE32(body, 4) < (0xffff_ffff - 8 - 40) / 8 && !BodyComplete(body)
    ensures r == 1 || r == 0 || r == -1
  {
    ListedIff(body, BE48(certId, 0));
    hide Listed, BE48, BE16, U32;
    if |body| <= 8 {
      return 0;
    }
    var id, entries := BE48(certId, 0), BE32(body, 4);
    if entries >= (0xffff_ffff - 8 - 40) / 8 {
      return 0;
    }
    BodyGuard(entries);
    var recLen := U32(4 + 4 + U32(8 * entries) + 40);
    if recLen > |body| {
      return -1;
    }
    var rl := 8;
    var ii := 0;
    while ii < entries
      invariant 0 <= ii <= entries && rl == 8 + 8 * ii
      invariant forall i :: 0 <= i < ii ==> !CoveredBy(body, i, id)
    {
      if BE48(body, rl + 2) <= id <= BE48(body, rl + 2) + BE16(body, rl) {
        assert CoveredBy(body, ii, id);
        return 1;
      }
      rl := rl + 8;
      ii := ii + 1;
    }
    return 0;
  }

  lemma SameEntry(rl: seq<Byte>, i: nat, id: nat)
    requires HEAD + 8 * i + 8 <= |rl|
    ensures CoveredBy(rl[16..], i, id) <==> Covers(EntryAt(rl, i), id)
  {
    var e, body := EntryAt(rl, i), rl[16..];
    assert BE16(body, 8 + 8 * i) == e.range;
    assert forall k :: 0 <= k < 6 ==> body[8 + 8 * i + 2 + k] == e.id[k];
    assert BE48(body, 8 + 8 * i + 2) == BE48(e.id, 0);
  }

  /** The entries that are handed out and the search of the record agree. */
  lemma Agree(v: Verifier, rl: seq<Byte>, id: nat)
    requires Verified(v, rl) && Count(rl) > 0
    ensures Revoked(rl[16..], id) <==> exists i :: 0 <= i < |FirstBlock(rl)| && Covers(FirstBlock(rl)[i], id)
  {
    var body, block := rl[16..], FirstBlock(rl);
    assert BE32(body, 4) == Count(rl);
    forall i | 0 <= i < |block|
      ensures CoveredBy(body, i, id) <==> Covers(block[i], id)
    {
      SameEntry(rl, i, id);
    }
    if Revoked(body, id) {
      var i :| 0 <= i < BE32(body, 4) && CoveredBy(body, i, id);
      assert Covers(block[i], id);
    }
    if i :| 0 <= i < |block| && Covers(block[i], id) {
      assert CoveredBy(body, i, id);
    }
  }
}
