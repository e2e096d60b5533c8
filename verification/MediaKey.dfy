/** The media key from device keys: search of the subset-difference records of
    a Media Key Block, derivation of the processing key, and validation of the
    media key (aacs.c, `_validate_pk` and `_calc_mk_dks`); and from processing
    keys (`_calc_mk_pks`). */
module MediaKey {
  import opened Bytes
  import opened Words
  import opened SubsetDifference
  import opened Mkb

  datatype Result = Success | CorruptedDisc | NoDk | NoPk

  // ------------------------------------------------------------------
  // Validation of a processing key

  function Magic(): seq<Byte> {
    [0x01, 0x23, 0x45, 0x67, 0x89, 0xAB, 0xCD, 0xEF]
  }

  // The last four bytes are combined with the uv number of the record.
  function XorTail(b: Block, uv: seq<Byte>): Block
    requires |uv| == 4
  {
    b[..12] + Xor(b[12..], uv)
  }

  lemma XorTailCancel(b: Block, uv: seq<Byte>)
    requires |uv| == 4
    ensures XorTail(XorTail(b, uv), uv) == b
  {
    XorCancel(b[12..], uv);
  }

  function Candidate(c: BlockCipher, pk: Block, cvalue: Block, uv: seq<Byte>): Block
    requires |uv| == 4
  {
    XorTail(c.dec(pk, cvalue), uv)
  }

  predicate Verifies(c: BlockCipher, mk: Block, vd: Block) {
    c.dec(mk, vd)[..8] == Magic()
  }

  /** _validate_pk: the buffer receives the candidate whether it verifies or
      not. */
  method ValidatePk(c: BlockCipher, pk: Block, cvalue: Block, uv: seq<Byte>, vd: Block, mk: array<Byte>)
    returns (r: Result)
    requires mk.Length == 16 && |uv| == 4
    modifies mk
    ensures mk[..] == Candidate(c, pk, cvalue, uv)
    ensures r == if Verifies(c, Candidate(c, pk, cvalue, uv), vd) then Success else NoPk
    ensures c.Lawful() ==> c.enc(pk, mk[..12] + Xor(mk[12..16], uv)) == cvalue
    ensures r == Success <==> BE32(c.dec(mk[..], vd), 0) == 0x01234567 && BE32(c.dec(mk[..], vd), 4) == 0x89ABCDEF
  {
    var m := c.dec(pk, cvalue);
    Store(mk, m);
    for a := 0 to 4
      invariant forall i :: 0 <= i < 16 ==> mk[i] == if 12 <= i < 12 + a then XorByte(m[i], uv[i - 12]) else m[i]
    {
      mk[a + 12] := XorByte(mk[a + 12], uv[a]);
    }
    assert mk[..] == XorTail(m, uv);
    UndoesTail(m, mk[..], uv);
    MagicNumber(c.dec(mk[..], vd));
    if c.dec(mk[..], vd)[..8] == Magic() {
      return Success;
    }
    return NoPk;
  }

  lemma UndoesTail(m: Block, t: Block, uv: seq<Byte>)
    requires |uv| == 4 && t == XorTail(m, uv)
    ensures t[..12] + Xor(t[12..16], uv) == m
  {
    assert t[12..16] == Xor(m[12..], uv);
    XorCancel(m[12..], uv);
  }

  // The eight bytes as a number.
  lemma MagicNumber(d: Block)
    ensures d[..8] == Magic() <==> BE32(d, 0) == 0x01234567 && BE32(d, 4) == 0x89ABCDEF
  {
    if BE32(d, 0) == 0x01234567 && BE32(d, 4) == 0x89ABCDEF {
      FourBytes(d, 0, 0x01, 0x23, 0x45, 0x67);
      FourBytes(d, 4, 0x89, 0xAB, 0xCD, 0xEF);
    }
  }

  lemma FourBytes(d: seq<Byte>, i: nat, a: Byte, b: Byte, e: Byte, f: Byte)
    requires i + 4 <= |d| && BE32(d, i) == a * 0x100_0000 + b * 0x1_0000 + e * 0x100 + f
    ensures d[i] == a && d[i + 1] == b && d[i + 2] == e && d[i + 3] == f
  {
  }

  // ------------------------------------------------------------------
  // The records a Media Key Block must have

  /** Where the subset-difference entries, the media key data and the
      verification data start.  The source takes the number of entries from
      the length of the media key data. */
  datatype Layout = Layout(buf: seq<Byte>, uvs: nat, cvalues: nat, dv: nat, count: nat)

  function GetLayout(buf: seq<Byte>): (r: Option<Layout>)
    ensures r.Some? ==> r.value.buf == buf && r.value.count > 0 && r.value.dv + 16 <= |buf|
  {
    match (SimpleRecord(buf, SUBDIFF), SimpleRecord(buf, CVALUES), MkDv(buf))
    case (Some(u), Some(v), Some(d)) =>
      if v.len / 5 < 1 then None else Some(Layout(buf, u.pos, v.pos, d, v.len / 5))
    case _ => None
  }

  ghost predicate InBounds(p: Layout, i: nat) {
    p.uvs + 5 * i + 5 <= |p.buf|
  }

  function Shift(p: Layout, i: nat): Byte
    requires p.uvs + 5 * i + 5 <= |p.buf|
  {
    p.buf[p.uvs + 5 * i]
  }

  function UvBytes(p: Layout, i: nat): (r: seq<Byte>)
    requires p.uvs + 5 * i + 5 <= |p.buf|
    ensures |r| == 4
  {
    p.buf[p.uvs + 1 + 5 * i..p.uvs + 5 + 5 * i]
  }

  function Uv(p: Layout, i: nat): Word
    requires p.uvs + 5 * i + 5 <= |p.buf|
  {
    FromNat(BE32(UvBytes(p, i), 0))
  }

  function CValue(p: Layout, i: nat): Block
    requires p.cvalues + 16 * i + 16 <= |p.buf|
  {
    p.buf[p.cvalues + 16 * i..p.cvalues + 16 * i + 16]
  }

  function Dv(p: Layout): Block
    requires p.dv + 16 <= |p.buf|
  {
    p.buf[p.dv..p.dv + 16]
  }

  // A body stands in the block from some place on.
  ghost predicate Stands(buf: seq<Byte>, at: nat, body: seq<Byte>) {
    at + |body| <= |buf| && buf[at..at + |body|] == body
  }

  // The verification data are the first sixteen bytes of the record for the type.
  ghost predicate VerifiesAt(rs: seq<Record>, buf: seq<Byte>, dv: nat) {
    var body := BodyOf(rs, if TypeOf(rs) == 0x48141003 || TypeOf(rs) == 0x48151003 then 134 else 129);
    body.Some? && |body.value| >= 16 && Stands(buf, dv, body.value[..16])
  }

  /** In a well-formed block the entries are the body of the first record of type 4,
      and the media key data that of type 5, whose length alone gives the number of
      entries that devices go through. */
  lemma LayoutOfRecords(rs: seq<Record>, pad: nat, buf: seq<Byte>)
    requires WellFormed(rs) && buf == Encode(rs) + Zeros(pad)
    ensures match GetLayout(buf)
      case None => BodyOf(rs, 4).None? || BodyOf(rs, 5).None? || |BodyOf(rs, 5).value| < 5 || forall dv: nat :: !VerifiesAt(rs, buf, dv)
      case Some(p) =>
        && BodyOf(rs, 4).Some? && Stands(buf, p.uvs, BodyOf(rs, 4).value)
        && BodyOf(rs, 5).Some? && Stands(buf, p.cvalues, BodyOf(rs, 5).value)
        && VerifiesAt(rs, buf, p.dv) && p.count == |BodyOf(rs, 5).value| / 5
  {
    hide Encode, Find, FirstOf, WellFormed, MkDv;
    FindsBody(rs, pad, buf, 4);
    FindsBody(rs, pad, buf, 5);
    TypeDecides(rs, pad, buf);
  }

  // A nonzero entry with one of the two high bits of the shift set ends the
  // search; the device is revoked.
  ghost predicate Terminator(p: Layout, i: nat)
    requires InBounds(p, i)
  {
    Uv(p, i) != Zero() && Shift(p, i) >= 64
  }

  /** The search over the entries stays inside the block and meets t entries
      before it ends, by a terminator or by the count. */
  ghost predicate EndsAt(p: Layout, t: nat) {
    && t <= p.count
    && (t < p.count ==> InBounds(p, t) && Terminator(p, t))
    && p.dv + 16 <= |p.buf|
    && forall i :: 0 <= i < t ==>
         && InBounds(p, i)
         && p.cvalues + 16 * i + 16 <= |p.buf|
         && (Uv(p, i) != Zero() ==> Shift(p, i) <= 31)
  }

  /** The same in bytes: a number that is not zero with a shift of 64 or more ends
      the search; before it, shifts of such numbers are at most 31. */
  lemma EndsIff(p: Layout, t: nat)
    ensures EndsAt(p, t) <==>
            && t <= p.count && p.dv + 16 <= |p.buf|
            && (t < p.count ==> InBounds(p, t) && BE32(p.buf, p.uvs + 5 * t + 1) > 0 && p.buf[p.uvs + 5 * t] >= 64)
            && forall i: nat :: i < t ==>
                 && InBounds(p, i) && p.cvalues + 16 * i + 16 <= |p.buf|
                 && (BE32(p.buf, p.uvs + 5 * i + 1) > 0 ==> p.buf[p.uvs + 5 * i] <= 31)
  {
    hide FromNat, BE32, UvBytes;
    forall i: nat | InBounds(p, i)
      ensures Uv(p, i) != Zero() <==> BE32(p.buf, p.uvs + 5 * i + 1) > 0
    {
      NonzeroIff(p, i);
    }
    if EndsAt(p, t) {
      assert t < p.count ==> Terminator(p, t);
      forall i: nat | i < t
        ensures InBounds(p, i) && p.cvalues + 16 * i + 16 <= |p.buf|
        ensures BE32(p.buf, p.uvs + 5 * i + 1) > 0 ==> p.buf[p.uvs + 5 * i] <= 31
      {
        assert InBounds(p, i) && (Uv(p, i) != Zero() ==> Shift(p, i) <= 31);
      }
    }
  }

  lemma SameNumber(p: Layout, i: nat)
    requires InBounds(p, i)
    ensures BE32(UvBytes(p, i), 0) == BE32(p.buf, p.uvs + 5 * i + 1)
  {
  }

  lemma NonzeroIff(p: Layout, i: nat)
    requires InBounds(p, i)
    ensures Uv(p, i) != Zero() <==> BE32(p.buf, p.uvs + 5 * i + 1) > 0
  {
    SameNumber(p, i);
    hide FromNat, BE32, UvBytes;
    ReadsBack(BE32(p.buf, p.uvs + 5 * i + 1));
    IsZeroIff(Uv(p, i));
  }

  ghost predicate Matches(p: Layout, i: nat, device: Word)
    requires InBounds(p, i)
  {
    Uv(p, i) != Zero() && InSubset(device, Shift(p, i), Uv(p, i))
  }

  /** Some subset before the end of the search contains the device. */
  ghost predicate Covered(p: Layout, t: nat, device: Word)
    requires EndsAt(p, t)
  {
    exists i :: 0 <= i < t && Matches(p, i, device)
  }

  ghost function FirstMatch(p: Layout, t: nat, device: Word, i: nat): (r: nat)
    requires EndsAt(p, t) && i <= t
    ensures i <= r <= t
    ensures r < t ==> Matches(p, r, device)
    ensures forall j :: i <= j < r ==> !Matches(p, j, device)
    decreases t - i
  {
    if i == t || Matches(p, i, device) then i else FirstMatch(p, t, device, i + 1)
  }

  /** A device is in the subset of an entry: read as numbers, they agree after
      division by two to the shift, and differ after division by twice the largest
      power of two that divides the number of the entry. */
  predicate InEntry(device: nat, uv: nat, shift: nat) {
    uv > 0 && Agree(device, uv, Pow2(shift)) && !Agree(device, uv, 2 * LowestPower(uv))
  }

  // In entry i, byte by byte.
  predicate InEntryAt(p: Layout, i: nat, device: nat) {
    p.uvs + 5 * i + 5 <= |p.buf| && InEntry(device, BE32(p.buf, p.uvs + 5 * i + 1), p.buf[p.uvs + 5 * i])
  }

  lemma InSubsetIff(device: Word, n: nat, shift: nat)
    requires n < 0x1_0000_0000 && shift <= 32
    ensures FromNat(n) != Zero() && InSubset(device, shift, FromNat(n)) <==> InEntry(ToNat(device), n, shift)
  {
    hide LowestPower, ToNat, Same, FromNat, VHeight, Agree, Pow2;
    ReadsBack(n);
    IsZeroIff(FromNat(n));
    if n > 0 {
      SameAtHeight(device, FromNat(n), shift);
      SameAtNode(device, FromNat(n));
    }
  }

  lemma MatchesIff(p: Layout, i: nat, device: Word)
    requires InBounds(p, i) && (Uv(p, i) != Zero() ==> Shift(p, i) <= 31)
    ensures Matches(p, i, device) <==> InEntryAt(p, i, ToNat(device))
  {
    hide InSubset, InEntry, ToNat, FromNat, BE32, UvBytes;
    SameNumber(p, i);
    NonzeroIff(p, i);
    if Uv(p, i) != Zero() {
      InSubsetIff(device, BE32(p.buf, p.uvs + 5 * i + 1), Shift(p, i));
    } else {
      NotInZero(ToNat(device), Shift(p, i));
    }
  }

  lemma NotInZero(device: nat, shift: nat)
    ensures !InEntry(device, 0, shift)
  {
  }

  lemma FirstEntryByBytes(p: Layout, t: nat, device: Word)
    requires EndsAt(p, t)
    ensures var f := FirstMatch(p, t, device, 0);
            (forall j: nat :: j < f ==> !InEntryAt(p, j, ToNat(device))) && (f < t ==> InEntryAt(p, f, ToNat(device)))
  {
    hide InEntryAt, Matches, ToNat;
    forall j: nat | j < t
      ensures Matches(p, j, device) <==> InEntryAt(p, j, ToNat(device))
    {
      MatchesIff(p, j, device);
    }
  }

  /** The search for the applying subset: the first entry, before the search ends,
      whose subset the device is in. */
  method FindSubset(p: Layout, device: Word, ghost t: nat) returns (found: bool, idx: nat, uMask: Word, vMask: Word)
    requires EndsAt(p, t)
    ensures found == (FirstMatch(p, t, device, 0) < t)
    ensures found ==> idx == FirstMatch(p, t, device, 0)
    ensures found ==> uMask == Mask(Shift(p, idx)) && vMask == Mask(VHeight(Uv(p, idx)))
    ensures found ==> idx < t && InEntryAt(p, idx, ToNat(device))
    ensures forall j: nat :: j < (if found then idx else t) ==> !InEntryAt(p, j, ToNat(device))
  {
    FirstEntryByBytes(p, t, device);
    hide InEntryAt;
    idx, uMask, vMask := 0, Zero(), Zero();
    ghost var first := FirstMatch(p, t, device, 0);
    while idx < p.count
      invariant idx <= t || (idx > p.count && first == t)
      invariant idx <= t ==> first == FirstMatch(p, t, device, idx)
      decreases p.count - idx
    {
      var uv := Uv(p, idx);
      if uv != Zero() {
        var shift := Shift(p, idx);
        if shift >= 64 {
          idx := p.count;
        } else {
          uMask := ShiftLeft(All(), shift);
          vMask := CalcVMask(uv);
          MaskIsShift(shift);
          SameIsMasked(device, uv, shift);
          SameIsMasked(device, uv, VHeight(uv));
          if And(device, uMask) == And(uv, uMask) && And(device, vMask) != And(uv, vMask) {
            break;
          }
        }
      }
      idx := idx + 1;
    }
    found := idx < p.count;
  }

  // ------------------------------------------------------------------
  // One device after the other

  ghost predicate AllIssued(c: BlockCipher, roots: Roots, dkl: seq<DeviceKey>) {
    forall j :: 0 <= j < |dkl| ==> Issued(c, roots, dkl[j])
  }

  // A device is tried where its number differs from the one before; all ones
  // stands for "no device yet".
  ghost predicate StartsRun(dkl: seq<DeviceKey>, j: nat)
    requires j < |dkl|
  {
    dkl[j].node != if j == 0 then All() else dkl[j - 1].node
  }

  /** The media key candidate, if any, that the device of entry j gets from the
      entries from j on. */
  ghost function CandidateAt(c: BlockCipher, roots: Roots, p: Layout, t: nat, dkl: seq<DeviceKey>, j: nat): Option<Block>
    requires EndsAt(p, t) && AllIssued(c, roots, dkl) && j < |dkl|
  {
    var device := dkl[j].node;
    var i := FirstMatch(p, t, device, 0);
    if i == t then None else
    var k := FirstApplying(dkl, device, Uv(p, i), Shift(p, i), j);
    if k == |dkl| then None else
    DerivesSubsetKey(c, roots, Shift(p, i), Uv(p, i), device, dkl[k]);
    var v := Descend(c, dkl[k].key, Uv(p, i), VHeight(dkl[k].uv), VHeight(Uv(p, i)));
    Some(Candidate(c, ProcessingKey(c, v), CValue(p, i), UvBytes(p, i)))
  }

  ghost function Tried(c: BlockCipher, roots: Roots, p: Layout, t: nat, dkl: seq<DeviceKey>, j: nat): Option<Block>
    requires EndsAt(p, t) && AllIssued(c, roots, dkl) && j < |dkl|
  {
    if StartsRun(dkl, j) then CandidateAt(c, roots, p, t, dkl, j) else None
  }

  ghost function AllTried(c: BlockCipher, roots: Roots, p: Layout, t: nat, dkl: seq<DeviceKey>): seq<Option<Block>>
    requires EndsAt(p, t) && AllIssued(c, roots, dkl)
  {
    seq(|dkl|, j requires 0 <= j < |dkl| => Tried(c, roots, p, t, dkl, j))
  }

  /** The result and the buffer after trying the candidates from j on. */
  ghost function Outcome(c: BlockCipher, vd: Block, tried: seq<Option<Block>>, j: nat, mk: Block): (Result, Block)
    requires j <= |tried|
    decreases |tried| - j
  {
    if j == |tried| then (NoDk, mk)
    else match tried[j]
      case None => Outcome(c, vd, tried, j + 1, mk)
      case Some(m) => if Verifies(c, m, vd) then (Success, m) else Outcome(c, vd, tried, j + 1, m)
  }

  /** _calc_mk_dks. */
  method CalcMkDks(c: BlockCipher, buf: seq<Byte>, dkl: seq<DeviceKey>, mk: array<Byte>,
                   ghost roots: Roots, ghost t: nat) returns (r: Result)
    requires mk.Length == 16
    requires AllIssued(c, roots, dkl)
    requires GetLayout(buf).Some? ==> EndsAt(GetLayout(buf).value, t)
    modifies mk
    ensures match GetLayout(buf)
            case None => r == CorruptedDisc && mk[..] == old(mk[..])
            case Some(p) => (r, mk[..]) == Outcome(c, Dv(p), AllTried(c, roots, p, t, dkl), 0, old(mk[..]))
  {
    hide GetLayout, EndsAt, AllIssued, CandidateAt, Verifies, All;
    var layout := GetLayout(buf);
    if layout.None? {
      return CorruptedDisc;
    }
    var p := layout.value;
    ghost var tried := AllTried(c, roots, p, t, dkl);
    ghost var outcome := Outcome(c, Dv(p), tried, 0, mk[..]);
    var deviceNumber := All();
    var j := 0;
    while j < |dkl|
      invariant j <= |dkl|
      invariant deviceNumber == if j == 0 then All() else dkl[j - 1].node
      invariant outcome == Outcome(c, Dv(p), tried, j, mk[..])
    {
      assert tried[j] == Tried(c, roots, p, t, dkl, j);
      if deviceNumber != dkl[j].node {
        deviceNumber := dkl[j].node;
        var done := TryDevice(c, p, dkl, j, mk, roots, t);
        if done {
          return Success;
        }
      }
      j := j + 1;
    }
    return NoDk;
  }

  // The body of the loop over the devices.
  method TryDevice(c: BlockCipher, p: Layout, dkl: seq<DeviceKey>, j: nat, mk: array<Byte>,
                   ghost roots: Roots, ghost t: nat) returns (done: bool)
    requires mk.Length == 16
    requires AllIssued(c, roots, dkl) && EndsAt(p, t)
    requires j < |dkl| && StartsRun(dkl, j)
    modifies mk
    ensures match Tried(c, roots, p, t, dkl, j)
            case None => !done && mk[..] == old(mk[..])
            case Some(m) => mk[..] == m && done == Verifies(c, m, Dv(p))
  {
    var device := dkl[j].node;
    var found, i, uMask, vMask := FindSubset(p, device, t);
    if !found {
      return false;
    }
    var uv := Uv(p, i);
    var k, devKeyVMask := FindDk(dkl, j, uv, uMask, Shift(p, i));
    if k == |dkl| {
      return false;
    }
    DerivesSubsetKey(c, roots, Shift(p, i), uv, device, dkl[k]);
    var pk := new Byte[16];
    ghost var steps := CalcPk(c, dkl[k].key, pk, uv, vMask, devKeyVMask, VHeight(dkl[k].uv), VHeight(uv));
    var r := ValidatePk(c, pk[..], CValue(p, i), UvBytes(p, i), Dv(p), mk);
    done := r == Success;
  }

  // ------------------------------------------------------------------
  // What the block is for

  /** The block carries the media key: the verification data shows it, and the
      i-th media key datum is the media key, combined with the i-th uv number,
      encrypted under the key of the i-th subset. */
  ghost predicate Carries(c: BlockCipher, roots: Roots, p: Layout, t: nat, mediaKey: Block)
    requires EndsAt(p, t)
  {
    && (exists rest: seq<Byte> :: |rest| == 8 && Dv(p) == c.enc(mediaKey, Magic() + rest))
    && (forall i :: 0 <= i < t && InBounds(p, i) && Uv(p, i) != Zero() && VHeight(Uv(p, i)) <= Shift(p, i) ==>
          CValue(p, i) == c.enc(SubsetKey(c, roots, Shift(p, i), Uv(p, i)), XorTail(mediaKey, UvBytes(p, i))))
  }

  lemma MediaKeyVerifies(c: BlockCipher, roots: Roots, p: Layout, t: nat, mediaKey: Block)
    requires c.Lawful() && EndsAt(p, t) && Carries(c, roots, p, t, mediaKey)
    ensures Verifies(c, mediaKey, Dv(p))
  {
    var rest: seq<Byte> :| |rest| == 8 && Dv(p) == c.enc(mediaKey, Magic() + rest);
    assert (Magic() + rest)[..8] == Magic();
  }

  /** Every candidate that is tried is the media key, found through a covered
      device ... */
  lemma CandidateSound(c: BlockCipher, roots: Roots, p: Layout, t: nat, dkl: seq<DeviceKey>, j: nat, mediaKey: Block)
    requires c.Lawful() && EndsAt(p, t) && AllIssued(c, roots, dkl) && j < |dkl|
    requires Carries(c, roots, p, t, mediaKey)
    requires CandidateAt(c, roots, p, t, dkl, j).Some?
    ensures CandidateAt(c, roots, p, t, dkl, j).value == mediaKey
    ensures Covered(p, t, dkl[j].node)
  {
    var device := dkl[j].node;
    var i := FirstMatch(p, t, device, 0);
    var uh, uv := Shift(p, i), Uv(p, i);
    InSubsetHeights(device, uh, uv);
    var k := FirstApplying(dkl, device, uv, uh, j);
    DerivesSubsetKey(c, roots, uh, uv, device, dkl[k]);
    XorTailCancel(mediaKey, UvBytes(p, i));
  }

  // The entry j is the first of its device, from entry n on.
  ghost predicate IsFirst(dkl: seq<DeviceKey>, n: nat, j: nat)
    requires n <= j < |dkl|
  {
    forall i :: n <= i < j ==> dkl[i].node != dkl[j].node
  }

  /** ... and a covered device with all its keys from entry n on has a candidate
      where it is first listed from there. */
  lemma CandidateComplete(c: BlockCipher, roots: Roots, p: Layout, t: nat, dkl: seq<DeviceKey>, n: nat, j: nat)
    requires EndsAt(p, t) && AllIssued(c, roots, dkl) && n <= j < |dkl|
    requires IsFirst(dkl, n, j) && Complete(dkl[n..], dkl[j].node) && Covered(p, t, dkl[j].node)
    ensures CandidateAt(c, roots, p, t, dkl, j).Some?
  {
    hide Issued, Complete;
    var device := dkl[j].node;
    var i := FirstMatch(p, t, device, 0);
    var a := HasApplyingKey(c, roots, dkl[n..], device, Shift(p, i), Uv(p, i));
    assert dkl[n + a] == dkl[n..][a] && n + a >= j;
  }

  // If every candidate is one verifying key, it is the result.
  lemma {:induction false} OutcomeOfOneKey(c: BlockCipher, vd: Block, tried: seq<Option<Block>>, j: nat,
                                           mk: Block, mediaKey: Block)
    requires j <= |tried| && Verifies(c, mediaKey, vd)
    requires forall i :: 0 <= i < |tried| && tried[i].Some? ==> tried[i].value == mediaKey
    ensures Outcome(c, vd, tried, j, mk) ==
      if AnyTried(tried, j) then (Success, mediaKey) else (NoDk, mk)
    decreases |tried| - j
  {
    if j < |tried| {
      OutcomeOfOneKey(c, vd, tried, j + 1, mk, mediaKey);
    }
  }

  lemma FirstEntry(dkl: seq<DeviceKey>, n: nat, k: nat) returns (f: nat)
    requires n <= k < |dkl|
    ensures n <= f <= k && dkl[f].node == dkl[k].node && IsFirst(dkl, n, f)
  {
    f := n;
    while dkl[f].node != dkl[k].node
      decreases k - f
      invariant n <= f <= k
      invariant forall i :: n <= i < f ==> dkl[i].node != dkl[k].node
    {
      f := f + 1;
    }
  }

  /** Some device that is listed from entry n on is covered. */
  ghost predicate AnyCovered(p: Layout, t: nat, dkl: seq<DeviceKey>, n: nat)
    requires EndsAt(p, t)
  {
    exists j :: n <= j < |dkl| && Covered(p, t, dkl[j].node)
  }

  ghost predicate AnyTried(tried: seq<Option<Block>>, j: nat) {
    exists i :: j <= i < |tried| && tried[i].Some?
  }

  lemma OnlyTheMediaKey(c: BlockCipher, roots: Roots, p: Layout, t: nat, dkl: seq<DeviceKey>, n: nat, mediaKey: Block)
    requires c.Lawful() && EndsAt(p, t) && AllIssued(c, roots, dkl)
    requires Carries(c, roots, p, t, mediaKey)
    ensures var tried := AllTried(c, roots, p, t, dkl);
      && (forall j :: 0 <= j < |tried| && tried[j].Some? ==> tried[j].value == mediaKey)
      && (AnyTried(tried, n) ==> AnyCovered(p, t, dkl, n))
  {
    forall j | 0 <= j < |dkl| && Tried(c, roots, p, t, dkl, j).Some?
      ensures Tried(c, roots, p, t, dkl, j).value == mediaKey && Covered(p, t, dkl[j].node)
    {
      CandidateSound(c, roots, p, t, dkl, j, mediaKey);
    }
  }

  // ------------------------------------------------------------------
  // Any list of devices

  /** How many entries at the head of the list are for the device whose number
      stands for "no device yet". */
  function Leading(dkl: seq<DeviceKey>): (n: nat)
    ensures n <= |dkl|
    ensures forall i :: 0 <= i < n ==> dkl[i].node == All()
    ensures n < |dkl| ==> dkl[n].node != All()
  {
    if dkl == [] || dkl[0].node != All() then 0 else 1 + Leading(dkl[1..])
  }

  /** Those entries are passed over, covered or not. */
  lemma LeadingEntriesIgnored(c: BlockCipher, roots: Roots, p: Layout, t: nat, dkl: seq<DeviceKey>, mk: Block)
    requires EndsAt(p, t) && AllIssued(c, roots, dkl)
    ensures var tried := AllTried(c, roots, p, t, dkl);
      Outcome(c, Dv(p), tried, 0, mk) == Outcome(c, Dv(p), tried, Leading(dkl), mk)
  {
    hide AllIssued, CandidateAt, Verifies, All, InBounds;
    var tried := AllTried(c, roots, p, t, dkl);
    for i := 0 to Leading(dkl)
      invariant Outcome(c, Dv(p), tried, 0, mk) == Outcome(c, Dv(p), tried, i, mk)
    {
      assert tried[i] == None;
    }
  }

  /** The entries behind the leading ones are complete sets: each device listed
      there has all its keys there. */
  ghost predicate CompleteSets(dkl: seq<DeviceKey>) {
    forall j :: Leading(dkl) <= j < |dkl| ==> Complete(dkl[Leading(dkl)..], dkl[j].node)
  }

  lemma CoveredIsTried(c: BlockCipher, roots: Roots, p: Layout, t: nat, dkl: seq<DeviceKey>)
    requires EndsAt(p, t) && AllIssued(c, roots, dkl) && CompleteSets(dkl) && AnyCovered(p, t, dkl, Leading(dkl))
    ensures AnyTried(AllTried(c, roots, p, t, dkl), Leading(dkl))
  {
    var n := Leading(dkl);
    var j :| n <= j < |dkl| && Covered(p, t, dkl[j].node);
    var f := FirstEntry(dkl, n, j);
    FirstIsTried(c, roots, p, t, dkl, f);
  }

  lemma FirstIsTried(c: BlockCipher, roots: Roots, p: Layout, t: nat, dkl: seq<DeviceKey>, f: nat)
    requires EndsAt(p, t) && AllIssued(c, roots, dkl) && CompleteSets(dkl)
    requires Leading(dkl) <= f < |dkl| && IsFirst(dkl, Leading(dkl), f) && Covered(p, t, dkl[f].node)
    ensures AllTried(c, roots, p, t, dkl)[f].Some?
  {
    CandidateComplete(c, roots, p, t, dkl, Leading(dkl), f);
    FirstStarts(dkl, f);
    assert AllTried(c, roots, p, t, dkl)[f] == Tried(c, roots, p, t, dkl, f);
  }

  lemma FirstStarts(dkl: seq<DeviceKey>, f: nat)
    requires Leading(dkl) <= f < |dkl| && IsFirst(dkl, Leading(dkl), f)
    ensures StartsRun(dkl, f)
  {
    hide All, Leading;
    if Leading(dkl) < f {
      assert dkl[f - 1].node != dkl[f].node;
    } else if f > 0 {
      assert dkl[f - 1].node == All();
    }
  }

  // What the block should give, counting the devices from entry n on.
  ghost function Intended(p: Layout, t: nat, dkl: seq<DeviceKey>, n: nat, mediaKey: Block, mk: Block): (Result, Block)
    requires EndsAt(p, t)
  {
    if AnyCovered(p, t, dkl, n) then (Success, mediaKey) else (NoDk, mk)
  }

  /** For every Media Key Block and every list of complete device-key sets, in
      any order, the computation succeeds if and only if some device listed behind
      the leading entries lies in a subset met before the end of the search, and
      then the buffer holds the media key; otherwise there is no device key and
      the buffer is as it was.  That is what the block should give exactly unless
      there are leading entries, their device is covered and no other one is. */
  lemma MediaKeyTheorem(c: BlockCipher, roots: Roots, p: Layout, t: nat, dkl: seq<DeviceKey>, mk: Block, mediaKey: Block)
    requires c.Lawful() && EndsAt(p, t) && AllIssued(c, roots, dkl) && CompleteSets(dkl)
    requires Carries(c, roots, p, t, mediaKey)
    ensures var outcome, n := Outcome(c, Dv(p), AllTried(c, roots, p, t, dkl), 0, mk), Leading(dkl);
      && outcome == Intended(p, t, dkl, n, mediaKey, mk)
      && (outcome == Intended(p, t, dkl, 0, mediaKey, mk) <==> n == 0 || !Covered(p, t, All()) || AnyCovered(p, t, dkl, n))
  {
    var n := Leading(dkl);
    OnlyTheMediaKey(c, roots, p, t, dkl, n, mediaKey);
    MediaKeyVerifies(c, roots, p, t, mediaKey);
    LeadingEntriesIgnored(c, roots, p, t, dkl, mk);
    OutcomeOfOneKey(c, Dv(p), AllTried(c, roots, p, t, dkl), n, mk, mediaKey);
    if AnyCovered(p, t, dkl, n) {
      CoveredIsTried(c, roots, p, t, dkl);
    }
    CoveredAtHead(p, t, dkl);
  }

  lemma CoveredAtHead(p: Layout, t: nat, dkl: seq<DeviceKey>)
    requires EndsAt(p, t)
    ensures var n := Leading(dkl);
            AnyCovered(p, t, dkl, 0) <==> (n > 0 && Covered(p, t, All())) || AnyCovered(p, t, dkl, n)
  {
    if Leading(dkl) > 0 && Covered(p, t, All()) {
      assert Covered(p, t, dkl[0].node);
    }
  }

  /** So the complete keys of a single covered device give the media key if and
      only if its number is not 0xffffffff. */
  lemma SingleDevice(c: BlockCipher, roots: Roots, p: Layout, t: nat, dkl: seq<DeviceKey>, device: Word,
                     mk: Block, mediaKey: Block)
    requires c.Lawful() && EndsAt(p, t) && AllIssued(c, roots, dkl)
    requires Complete(dkl, device) && Covered(p, t, device)
    requires forall j :: 0 <= j < |dkl| ==> dkl[j].node == device
    requires Carries(c, roots, p, t, mediaKey)
    ensures Outcome(c, Dv(p), AllTried(c, roots, p, t, dkl), 0, mk) ==
      if device != All() then (Success, mediaKey) else (NoDk, mk)
  {
    assert HasKeyFor(dkl, device, 2, 1);
    if device != All() {
      assert dkl[0..] == dkl && Covered(p, t, dkl[0].node);
    }
    MediaKeyTheorem(c, roots, p, t, dkl, mk, mediaKey);
  }

  // ------------------------------------------------------------------
  // Processing keys

  // The number of entries before one with a high bit of the shift set, or
  // before the end of the record.
  function PlainEntries(buf: seq<Byte>, at: nat, len: nat, i: nat): (n: nat)
    requires at + len <= |buf|
    ensures n >= i
    decreases len - i
  {
    if 5 * i >= len || buf[at + 5 * i] >= 64 then i else PlainEntries(buf, at, len, i + 1)
  }

  /** The entries up to the first one with a shift of 64 or more, or up to the end of
      their record. */
  lemma {:induction false} PlainIff(buf: seq<Byte>, at: nat, len: nat, i: nat, n: nat)
    requires at + len <= |buf| && i <= n
    ensures n == PlainEntries(buf, at, len, i) <==>
            && (forall j :: i <= j < n ==> 5 * j < len && buf[at + 5 * j] < 64)
            && (5 * n < len ==> buf[at + 5 * n] >= 64)
    decreases n - i
  {
    if i < n {
      if 5 * i < len && buf[at + 5 * i] < 64 {
        PlainIff(buf, at, len, i + 1, n);
      }
    }
  }

  // The same records, counted in this other way.
  function PkLayout(buf: seq<Byte>): (r: Option<Layout>)
    ensures r.Some? ==> r.value.dv + 16 <= |buf| && r.value.buf == buf
  {
    match (SimpleRecord(buf, SUBDIFF), SimpleRecord(buf, CVALUES), MkDv(buf))
    case (Some(u), Some(v), Some(d)) => Some(Layout(buf, u.pos, v.pos, d, PlainEntries(buf, u.pos, u.len, 0)))
    case _ => None
  }

  ghost predicate PkInBounds(p: Layout) {
    && p.dv + 16 <= |p.buf|
    && forall i :: 0 <= i < p.count ==> InBounds(p, i) && p.cvalues + 16 * i + 16 <= |p.buf|
  }

  ghost function PkCandidate(c: BlockCipher, p: Layout, pk: Block, i: nat): Block
    requires PkInBounds(p) && i < p.count
  {
    assert InBounds(p, i);
    Candidate(c, pk, CValue(p, i), UvBytes(p, i))
  }

  // The result of one processing key against the entries from i on.
  ghost function ScanPk(c: BlockCipher, p: Layout, pk: Block, i: nat, mk: Block): (bool, Block)
    requires PkInBounds(p) && i <= p.count
    decreases p.count - i
  {
    if i == p.count then (false, mk) else
    var m := PkCandidate(c, p, pk, i);
    if Verifies(c, m, Dv(p)) then (true, m) else ScanPk(c, p, pk, i + 1, m)
  }

  ghost function ScanPks(c: BlockCipher, p: Layout, pkl: seq<Block>, mk: Block): (Result, Block)
    requires PkInBounds(p)
    decreases |pkl|
  {
    if pkl == [] then (NoPk, mk) else
    var (found, m) := ScanPk(c, p, pkl[0], 0, mk);
    if found then (Success, m) else ScanPks(c, p, pkl[1..], m)
  }

  /** _calc_mk_pks.  The subset-difference record must be there. */
  method CalcMkPks(c: BlockCipher, buf: seq<Byte>, pkl: seq<Block>, mk: array<Byte>) returns (r: Result)
    requires mk.Length == 16 && SimpleRecord(buf, SUBDIFF).Some?
    requires PkLayout(buf).Some? ==> PkInBounds(PkLayout(buf).value)
    modifies mk
    ensures match PkLayout(buf)
            case None => r == CorruptedDisc && mk[..] == old(mk[..])
            case Some(p) => (r, mk[..]) == ScanPks(c, p, pkl, old(mk[..]))
  {
    hide MkDv, SimpleRecord, PkInBounds;
    var dv := MkDv(buf);
    if dv.None? {
      return CorruptedDisc;
    }
    var uvs := SimpleRecord(buf, SUBDIFF).value;
    var rec, numUvs := 0, 0;
    while rec < uvs.len
      invariant rec == 5 * numUvs
      invariant PlainEntries(buf, uvs.pos, uvs.len, 0) == PlainEntries(buf, uvs.pos, uvs.len, numUvs)
    {
      if buf[uvs.pos + rec] >= 64 {
        break;
      }
      rec := rec + 5;
      numUvs := numUvs + 1;
    }
    var cvalues := SimpleRecord(buf, CVALUES);
    if cvalues.None? {
      return CorruptedDisc;
    }
    r := TryPks(c, Layout(buf, uvs.pos, cvalues.value.pos, dv.value, numUvs), pkl, mk);
  }

  // The two loops over keys and entries.
  method TryPks(c: BlockCipher, p: Layout, pkl: seq<Block>, mk: array<Byte>) returns (r: Result)
    requires mk.Length == 16 && PkInBounds(p)
    modifies mk
    ensures (r, mk[..]) == ScanPks(c, p, pkl, old(mk[..]))
  {
    var k := 0;
    ghost var result := ScanPks(c, p, pkl, mk[..]);
    assert pkl[0..] == pkl;
    while k < |pkl|
      invariant k <= |pkl| && result == ScanPks(c, p, pkl[k..], mk[..])
    {
      assert pkl[k..][0] == pkl[k] && pkl[k..][1..] == pkl[k + 1..];
      var a := 0;
      ghost var scan := ScanPk(c, p, pkl[k], 0, mk[..]);
      while a < p.count
        invariant a <= p.count && scan == ScanPk(c, p, pkl[k], a, mk[..])
      {
        assert InBounds(p, a);
        var v := ValidatePk(c, pkl[k], CValue(p, a), UvBytes(p, a), Dv(p), mk);
        if v == Success {
          return Success;
        }
        a := a + 1;
      }
      k := k + 1;
    }
    return NoPk;
  }

  // Key k and entry i give a key that verifies.
  ghost predicate Valid(c: BlockCipher, p: Layout, pkl: seq<Block>, k: nat, i: nat)
    requires PkInBounds(p)
  {
    k < |pkl| && i < p.count && Verifies(c, PkCandidate(c, p, pkl[k], i), Dv(p))
  }

  // The first pair, key by key.
  ghost predicate FirstValid(c: BlockCipher, p: Layout, pkl: seq<Block>, k: nat, i: nat)
    requires PkInBounds(p)
  {
    && Valid(c, p, pkl, k, i)
    && forall l: nat, j: nat :: Valid(c, p, pkl, l, j) ==> k < l || (k == l && i <= j)
  }

  lemma {:induction false} ScanPkIs(c: BlockCipher, p: Layout, pk: Block, i: nat, mk: Block) returns (a: nat)
    requires PkInBounds(p) && i <= p.count
    ensures i <= a <= p.count && forall j :: i <= j < a ==> !Verifies(c, PkCandidate(c, p, pk, j), Dv(p))
    ensures ScanPk(c, p, pk, i, mk).0 <==> a < p.count
    ensures a < p.count ==> Verifies(c, PkCandidate(c, p, pk, a), Dv(p)) && ScanPk(c, p, pk, i, mk).1 == PkCandidate(c, p, pk, a)
    decreases p.count - i
  {
    a := i;
    if i < p.count && !Verifies(c, PkCandidate(c, p, pk, i), Dv(p)) {
      a := ScanPkIs(c, p, pk, i + 1, PkCandidate(c, p, pk, i));
    }
  }

  // The pairs of the keys behind the first one.
  lemma ValidBehind(c: BlockCipher, p: Layout, pkl: seq<Block>)
    requires PkInBounds(p) && pkl != []
    ensures forall k: nat, i: nat :: Valid(c, p, pkl, k + 1, i) <==> Valid(c, p, pkl[1..], k, i)
  {
  }

  lemma FirstValidBehind(c: BlockCipher, p: Layout, pkl: seq<Block>, k: nat, i: nat)
    requires PkInBounds(p) && pkl != [] && FirstValid(c, p, pkl[1..], k, i)
    requires forall j: nat :: !Valid(c, p, pkl, 0, j)
    ensures FirstValid(c, p, pkl, k + 1, i)
  {
    ValidBehind(c, p, pkl);
    forall l: nat, j: nat | Valid(c, p, pkl, l, j)
      ensures k + 1 < l || (k + 1 == l && i <= j)
    {
      assert l > 0 && Valid(c, p, pkl[1..], l - 1, j);
    }
  }

  /** It succeeds if and only if some listed key and some entry give a key that
      verifies, and the buffer then holds the key that the first such pair gives. */
  lemma {:induction false} ScanPksIff(c: BlockCipher, p: Layout, pkl: seq<Block>, mk: Block)
    requires PkInBounds(p)
    ensures var (r, m) := ScanPks(c, p, pkl, mk);
      && (r == Success || r == NoPk)
      && (r == Success <==> exists k: nat, i: nat :: Valid(c, p, pkl, k, i))
      && (r == Success ==> exists k: nat, i: nat :: FirstValid(c, p, pkl, k, i) && m == PkCandidate(c, p, pkl[k], i))
    decreases |pkl|
  {
    if pkl != [] {
      var a := ScanPkIs(c, p, pkl[0], 0, mk);
      if a < p.count {
        assert Valid(c, p, pkl, 0, a);
        assert FirstValid(c, p, pkl, 0, a);
      } else {
        var m := ScanPk(c, p, pkl[0], 0, mk).1;
        ScanPksIff(c, p, pkl[1..], m);
        ValidBehind(c, p, pkl);
        if k: nat, i: nat :| FirstValid(c, p, pkl[1..], k, i) && ScanPks(c, p, pkl[1..], m).1 == PkCandidate(c, p, pkl[1..][k], i) {
          FirstValidBehind(c, p, pkl, k, i);
          assert pkl[1..][k] == pkl[k + 1];
        }
        if k: nat, i: nat :| Valid(c, p, pkl, k, i) {
          assert k > 0 && Valid(c, p, pkl[1..], k - 1, i);
        }
      }
    }
  }

  lemma FirstIsResult(c: BlockCipher, p: Layout, pkl: seq<Block>, k: nat, i: nat, mk: Block)
    requires PkInBounds(p) && FirstValid(c, p, pkl, k, i)
    ensures k < |pkl| && i < p.count && ScanPks(c, p, pkl, mk) == (Success, PkCandidate(c, p, pkl[k], i))
  {
    hide Verifies, Candidate;
    ScanPksIff(c, p, pkl, mk);
  }

  /** The processing key of any one entry is enough to succeed; and if it is the
      first to give a key that verifies, both ways give the same media key. */
  lemma OneProcessingKey(c: BlockCipher, roots: Roots, p: Layout, t: nat, pkl: seq<Block>, k: nat, i: nat, mk: Block, mediaKey: Block)
    requires c.Lawful() && PkInBounds(p) && EndsAt(p, t) && Carries(c, roots, p, t, mediaKey)
    requires k < |pkl| && i < t && i < p.count && InBounds(p, i) && Uv(p, i) != Zero() && VHeight(Uv(p, i)) <= Shift(p, i)
    requires pkl[k] == SubsetKey(c, roots, Shift(p, i), Uv(p, i))
    ensures Valid(c, p, pkl, k, i) && ScanPks(c, p, pkl, mk).0 == Success
    ensures FirstValid(c, p, pkl, k, i) ==> ScanPks(c, p, pkl, mk) == (Success, mediaKey)
  {
    hide Carries, EndsAt, SubsetKey, Verifies;
    SubsetKeyGives(c, roots, p, t, pkl[k], i, mediaKey);
    ScanPksIff(c, p, pkl, mk);
  }

  lemma SubsetKeyGives(c: BlockCipher, roots: Roots, p: Layout, t: nat, pk: Block, i: nat, mediaKey: Block)
    requires c.Lawful() && PkInBounds(p) && EndsAt(p, t) && Carries(c, roots, p, t, mediaKey)
    requires i < t && i < p.count && InBounds(p, i) && Uv(p, i) != Zero() && VHeight(Uv(p, i)) <= Shift(p, i)
    requires pk == SubsetKey(c, roots, Shift(p, i), Uv(p, i))
    ensures PkCandidate(c, p, pk, i) == mediaKey && Verifies(c, mediaKey, Dv(p))
  {
    MediaKeyVerifies(c, roots, p, t, mediaKey);
    XorTailCancel(mediaKey, UvBytes(p, i));
  }

  // ------------------------------------------------------------------
  // Device keys first, then processing keys

  /** The walks over the block stay inside it, and the device keys were issued. */
  ghost predicate Readable(c: BlockCipher, roots: Roots, t: nat, buf: seq<Byte>, dkl: seq<DeviceKey>) {
    && AllIssued(c, roots, dkl)
    && (GetLayout(buf).Some? ==> EndsAt(GetLayout(buf).value, t))
    && SimpleRecord(buf, SUBDIFF).Some?
    && (PkLayout(buf).Some? ==> PkInBounds(PkLayout(buf).value))
  }

  ghost function ByDks(c: BlockCipher, roots: Roots, t: nat, buf: seq<Byte>, dkl: seq<DeviceKey>, mk: Block): (Result, Block)
    requires Readable(c, roots, t, buf, dkl)
  {
    if dkl == [] then (NoPk, mk) else
    match GetLayout(buf)
    case None => (CorruptedDisc, mk)
    case Some(p) => Outcome(c, Dv(p), AllTried(c, roots, p, t, dkl), 0, mk)
  }

  ghost function ByPks(c: BlockCipher, buf: seq<Byte>, pkl: seq<Block>, mk: Block): (Result, Block)
    requires PkLayout(buf).Some? ==> PkInBounds(PkLayout(buf).value)
  {
    match PkLayout(buf)
    case None => (CorruptedDisc, mk)
    case Some(p) => ScanPks(c, p, pkl, mk)
  }

  // The result and the buffer after both.
  ghost function Derived(c: BlockCipher, roots: Roots, t: nat, buf: seq<Byte>, dkl: seq<DeviceKey>, pkl: seq<Block>, mk: Block): (Result, Block)
    requires Readable(c, roots, t, buf, dkl)
  {
    var (r, m) := ByDks(c, roots, t, buf, dkl, mk);
    if r == Success then (r, m) else ByPks(c, buf, pkl, m)
  }

  /** The middle of _calc_mk. */
  method DeriveMk(c: BlockCipher, buf: seq<Byte>, dkl: seq<DeviceKey>, pkl: seq<Block>, mk: array<Byte>,
                  ghost roots: Roots, ghost t: nat) returns (r: Result)
    requires mk.Length == 16 && Readable(c, roots, t, buf, dkl)
    modifies mk
    ensures (r, mk[..]) == Derived(c, roots, t, buf, dkl, pkl, old(mk[..]))
  {
    r := NoPk;
    if dkl != [] {
      r := CalcMkDks(c, buf, dkl, mk, roots, t);
    }
    if r != Success {
      r := CalcMkPks(c, buf, pkl, mk);
    }
  }

  // What the buffer held before does not matter.
  lemma {:induction false} OutcomeIndependent(c: BlockCipher, vd: Block, tried: seq<Option<Block>>, j: nat, mk: Block, other: Block)
    requires j <= |tried|
    ensures var o, p := Outcome(c, vd, tried, j, mk), Outcome(c, vd, tried, j, other);
            o.0 == p.0 && (o.0 == Success ==> o.1 == p.1)
    decreases |tried| - j
  {
    if j < |tried| && tried[j].None? {
      OutcomeIndependent(c, vd, tried, j + 1, mk, other);
    }
  }

  lemma {:induction false} ScanPkIndependent(c: BlockCipher, p: Layout, pk: Block, i: nat, mk: Block, other: Block)
    requires PkInBounds(p) && i <= p.count
    ensures var o, q := ScanPk(c, p, pk, i, mk), ScanPk(c, p, pk, i, other);
            o.0 == q.0 && (o.0 ==> o.1 == q.1)
    decreases p.count - i
  {
  }

  lemma {:induction false} ScanPksIndependent(c: BlockCipher, p: Layout, pkl: seq<Block>, mk: Block, other: Block)
    requires PkInBounds(p)
    ensures var o, q := ScanPks(c, p, pkl, mk), ScanPks(c, p, pkl, other);
            o.0 == q.0 && (o.0 == Success ==> o.1 == q.1)
    decreases |pkl|
  {
    if pkl != [] {
      ScanPkIndependent(c, p, pkl[0], 0, mk, other);
      ScanPksIndependent(c, p, pkl[1..], ScanPk(c, p, pkl[0], 0, mk).1, ScanPk(c, p, pkl[0], 0, other).1);
    }
  }

  lemma DerivedIndependent(c: BlockCipher, roots: Roots, t: nat, buf: seq<Byte>, dkl: seq<DeviceKey>, pkl: seq<Block>, mk: Block, other: Block)
    requires Readable(c, roots, t, buf, dkl)
    ensures var o, q := Derived(c, roots, t, buf, dkl, pkl, mk), Derived(c, roots, t, buf, dkl, pkl, other);
            o.0 == q.0 && (o.0 == Success ==> o.1 == q.1)
  {
    if GetLayout(buf).Some? {
      var p := GetLayout(buf).value;
      OutcomeIndependent(c, Dv(p), AllTried(c, roots, p, t, dkl), 0, mk, other);
    }
    if PkLayout(buf).Some? {
      ScanPksIndependent(c, PkLayout(buf).value, pkl,
                         ByDks(c, roots, t, buf, dkl, mk).1, ByDks(c, roots, t, buf, dkl, other).1);
    }
  }

  // A failure is that of the processing keys.
  lemma DerivedFailure(c: BlockCipher, roots: Roots, t: nat, buf: seq<Byte>, dkl: seq<DeviceKey>, pkl: seq<Block>, mk: Block)
    requires Readable(c, roots, t, buf, dkl)
    ensures var r := Derived(c, roots, t, buf, dkl, pkl, mk).0;
            r != Success ==> r == if PkLayout(buf).None? then CorruptedDisc else NoPk
  {
    hide PkInBounds, GetLayout, PkLayout;
    if PkLayout(buf).Some? {
      ScanPksIff(c, PkLayout(buf).value, pkl, ByDks(c, roots, t, buf, dkl, mk).1);
    }
  }

  // The block carries the media key where the search for devices finds it.
  ghost predicate HoldsKey(c: BlockCipher, roots: Roots, t: nat, buf: seq<Byte>, mediaKey: Block) {
    && GetLayout(buf).Some? && EndsAt(GetLayout(buf).value, t)
    && Carries(c, roots, GetLayout(buf).value, t, mediaKey)
  }

  // The first pair of a processing key and an entry that verifies gives the key m.
  ghost predicate FirstGives(c: BlockCipher, buf: seq<Byte>, pkl: seq<Block>, m: Block)
    requires PkLayout(buf).Some? ==> PkInBounds(PkLayout(buf).value)
  {
    PkLayout(buf).Some? &&
    exists k: nat, i: nat :: FirstValid(c, PkLayout(buf).value, pkl, k, i) && PkCandidate(c, PkLayout(buf).value, pkl[k], i) == m
  }

  /** What device keys give is the media key.  What processing keys give is the
      media key if and only if the first pair that verifies gives it. */
  lemma DerivedIsTrue(c: BlockCipher, roots: Roots, t: nat, buf: seq<Byte>, dkl: seq<DeviceKey>, pkl: seq<Block>, mk: Block, mediaKey: Block)
    requires c.Lawful() && Readable(c, roots, t, buf, dkl) && HoldsKey(c, roots, t, buf, mediaKey)
    ensures var (r, m) := Derived(c, roots, t, buf, dkl, pkl, mk);
            r == Success ==> (m == mediaKey <==> ByDks(c, roots, t, buf, dkl, mk).0 == Success || FirstGives(c, buf, pkl, mediaKey))
  {
    hide GetLayout, PkLayout, Carries, EndsAt, AllIssued, PkInBounds, AllTried, AnyCovered, Valid;
    var p := GetLayout(buf).value;
    OnlyTheMediaKey(c, roots, p, t, dkl, 0, mediaKey);
    MediaKeyVerifies(c, roots, p, t, mediaKey);
    OutcomeOfOneKey(c, Dv(p), AllTried(c, roots, p, t, dkl), 0, mk, mediaKey);
    if PkLayout(buf).Some? {
      ScanPksIff(c, PkLayout(buf).value, pkl, ByDks(c, roots, t, buf, dkl, mk).1);
    }
  }

  /** Device keys give it if and only if a device behind the leading entries is
      covered. */
  lemma ByDksOutcome(c: BlockCipher, roots: Roots, t: nat, buf: seq<Byte>, dkl: seq<DeviceKey>, mk: Block, mediaKey: Block)
    requires c.Lawful() && Readable(c, roots, t, buf, dkl) && HoldsKey(c, roots, t, buf, mediaKey) && CompleteSets(dkl)
    ensures var (r, m) := ByDks(c, roots, t, buf, dkl, mk);
            if AnyCovered(GetLayout(buf).value, t, dkl, Leading(dkl)) then r == Success && m == mediaKey else r != Success
  {
    MediaKeyTheorem(c, roots, GetLayout(buf).value, t, dkl, mk, mediaKey);
  }
}
