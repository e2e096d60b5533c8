/** What a licensing authority issues: a Media Key Block in its record format,
    for a list of subsets, that the code of libaacs must be able to use. */
module Issue {
  import opened Bytes
  import opened Words
  import opened SubsetDifference
  import opened Mkb
  import opened MediaKey

  // A subset: the height of u, and the number of u and v.
  datatype Subset = Subset(shift: Byte, uv: seq<Byte>)

  function Number(s: Subset): Word
    requires |s.uv| == 4
  {
    FromNat(BE32(s.uv, 0))
  }

  ghost predicate Proper(s: Subset) {
    |s.uv| == 4 && s.shift <= 31 && Number(s) != Zero() && VHeight(Number(s)) <= s.shift
  }

  ghost predicate AllProper(ss: seq<Subset>) {
    forall i :: 0 <= i < |ss| ==> Proper(ss[i])
  }

  ghost predicate Contains(s: Subset, device: Word) {
    Proper(s) && InSubset(device, s.shift, Number(s))
  }

  ghost predicate InAny(ss: seq<Subset>, device: Word) {
    exists i :: 0 <= i < |ss| && Contains(ss[i], device)
  }

  // Some device that is listed from entry n on is in some subset.
  ghost predicate AnyContains(ss: seq<Subset>, dkl: seq<DeviceKey>, n: nat) {
    exists j :: n <= j < |dkl| && InAny(ss, dkl[j].node)
  }

  // ------------------------------------------------------------------
  // The records

  /** What is left open: the version; the entry that ends the list, with one of
      the two high bits of its shift set; the other half of the verification data;
      and the padding. */
  datatype Frame = Frame(version: seq<Byte>, end: seq<Byte>, rest: seq<Byte>, pad: nat)
  {
    ghost predicate Valid() {
      |version| == 4 && |end| == 5 && end[0] >= 64 && |rest| == 8
    }

    // The number of the end entry.
    function EndNumber(): Word
      requires |end| == 5
    {
      FromNat(BE32(end, 1))
    }
  }

  ghost function Entries(ss: seq<Subset>, end: seq<Byte>): (r: seq<Byte>)
    requires AllProper(ss) && |end| == 5
    ensures |r| == 5 * |ss| + 5
  {
    if ss == [] then end else
    assert Proper(ss[0]);
    [ss[0].shift] + ss[0].uv + Entries(ss[1..], end)
  }

  // The media key for one subset.
  ghost function Datum(c: BlockCipher, roots: Roots, s: Subset, mediaKey: Block): Block
    requires Proper(s)
  {
    c.enc(SubsetKey(c, roots, s.shift, Number(s)), XorTail(mediaKey, s.uv))
  }

  ghost function Data(c: BlockCipher, roots: Roots, ss: seq<Subset>, mediaKey: Block): (r: seq<Block>)
    requires AllProper(ss)
    ensures |r| == |ss|
  {
    seq(|ss|, i requires 0 <= i < |ss| => assert Proper(ss[i]); Datum(c, roots, ss[i], mediaKey))
  }

  ghost function Joined(blocks: seq<Block>): (r: seq<Byte>)
    ensures |r| == 16 * |blocks|
  {
    if blocks == [] then [] else blocks[0] + Joined(blocks[1..])
  }

  // An ordinary type, and a version.
  function TypeBody(version: seq<Byte>): (r: seq<Byte>)
    requires |version| == 4
    ensures |r| == 8 && BE32(r, 0) == 0x0003_1003
  {
    [0, 3, 0x10, 3] + version
  }

  // What the verification data decrypt to.
  function Plain(rest: seq<Byte>): Block
    requires |rest| == 8
  {
    Magic() + rest
  }

  function FourRecords(first: seq<Byte>, second: seq<Byte>, third: seq<Byte>, fourth: seq<Byte>): (rs: seq<Record>)
    requires |first| < 0xff_fff0 && |second| < 0xff_fff0 && |third| < 0xff_fff0 && |fourth| < 0xff_fff0
    ensures WellFormed(rs)
  {
    [Record(TYPE_AND_VERSION, first), Record(SUBDIFF, second), Record(CVALUES, third), Record(0x81, fourth)]
  }

  ghost function Records(c: BlockCipher, roots: Roots, ss: seq<Subset>, mediaKey: Block, f: Frame): (rs: seq<Record>)
    requires AllProper(ss) && |ss| < 0x10_0000 - 4 && f.Valid()
    ensures WellFormed(rs)
  {
    FourRecords(TypeBody(f.version), Entries(ss, f.end), Joined(Data(c, roots, ss, mediaKey)), c.enc(mediaKey, Plain(f.rest)))
  }

  // The string s stands at a position.
  ghost predicate At(buf: seq<Byte>, pos: nat, s: seq<Byte>) {
    pos + |s| <= |buf| && forall k :: 0 <= k < |s| ==> buf[pos + k] == s[k]
  }

  lemma AtSlice(buf: seq<Byte>, pos: nat, s: seq<Byte>)
    ensures At(buf, pos, s) <==> pos + |s| <= |buf| && buf[pos..pos + |s|] == s
  {
    if pos + |s| <= |buf| {
      var t := buf[pos..pos + |s|];
      assert forall k :: 0 <= k < |s| ==> t[k] == buf[pos + k];
    }
  }

  lemma Inside(buf: seq<Byte>, pos: nat, s: seq<Byte>, x: nat, t: seq<Byte>)
    requires At(buf, pos, s) && At(s, x, t)
    ensures At(buf, pos + x, t)
  {
    forall k | 0 <= k < |t|
      ensures buf[pos + x + k] == t[k]
    {
      assert s[x + k] == t[k];
    }
  }

  lemma Behind(first: seq<Byte>, rest: seq<Byte>, x: nat, t: seq<Byte>)
    requires At(rest, x, t)
    ensures At(first + rest, |first| + x, t)
  {
    forall k | 0 <= k < |t|
      ensures (first + rest)[|first| + x + k] == t[k]
    {
      assert rest[x + k] == t[k];
    }
  }

  lemma {:induction false} EntryAt(ss: seq<Subset>, end: seq<Byte>, i: nat)
    requires AllProper(ss) && |end| == 5 && i < |ss|
    ensures At(Entries(ss, end), 5 * i, [ss[i].shift] + ss[i].uv)
    decreases i
  {
    assert Proper(ss[0]);
    var first := [ss[0].shift] + ss[0].uv;
    assert Entries(ss, end) == first + Entries(ss[1..], end);
    if i > 0 {
      EntryAt(ss[1..], end, i - 1);
      Behind(first, Entries(ss[1..], end), 5 * (i - 1), [ss[i].shift] + ss[i].uv);
    }
  }

  lemma {:induction false} EndAt(ss: seq<Subset>, end: seq<Byte>)
    requires AllProper(ss) && |end| == 5
    ensures At(Entries(ss, end), 5 * |ss|, end)
  {
    if ss != [] {
      EndAt(ss[1..], end);
      assert Proper(ss[0]);
      var first := [ss[0].shift] + ss[0].uv;
      assert Entries(ss, end) == first + Entries(ss[1..], end);
      Behind(first, Entries(ss[1..], end), 5 * |ss[1..]|, end);
    }
  }

  lemma {:induction false} BlockAt(blocks: seq<Block>, i: nat)
    requires i < |blocks|
    ensures At(Joined(blocks), 16 * i, blocks[i])
    decreases i
  {
    assert Joined(blocks) == blocks[0] + Joined(blocks[1..]);
    if i > 0 {
      BlockAt(blocks[1..], i - 1);
      Behind(blocks[0], Joined(blocks[1..]), 16 * (i - 1), blocks[i]);
    }
  }

  // ------------------------------------------------------------------
  // How the code sees them

  ghost predicate IssuedBlock(c: BlockCipher, roots: Roots, ss: seq<Subset>, mediaKey: Block, f: Frame, buf: seq<Byte>) {
    && AllProper(ss) && 0 < |ss| < 0x10_0000 - 4 && f.Valid()
    && buf == Encode(Records(c, roots, ss, mediaKey, f)) + Zeros(f.pad)
  }

  // A record's body, where the code looks for it.
  lemma BodyOf(rs: seq<Record>, pad: nat, buf: seq<Byte>, k: nat)
    requires WellFormed(rs) && buf == Encode(rs) + Zeros(pad) && k < |rs| && FirstOf(rs, rs[k].rtype) == k
    ensures var s := SimpleRecord(buf, rs[k].rtype);
            s.Some? && s.value.len == |rs[k].body| && At(buf, s.value.pos, rs[k].body)
  {
    hide Encode, At, FirstOf;
    FindsFirstRecord(rs, pad, buf, rs[k].rtype);
    var s := SimpleRecord(buf, rs[k].rtype).value;
    AtSlice(buf, s.pos, rs[k].body);
  }

  lemma DifferentTypes(rs: seq<Record>)
    requires |rs| == 4 && rs[0].rtype == TYPE_AND_VERSION && rs[1].rtype == SUBDIFF && rs[2].rtype == CVALUES && rs[3].rtype == 0x81
    ensures FirstOf(rs, SUBDIFF) == 1 && FirstOf(rs, CVALUES) == 2 && FirstOf(rs, 0x81) == 3
  {
    assert FirstOf(rs[3..], 0x81) == 0;
    assert rs[1..][1..] == rs[2..] && rs[2..][1..] == rs[3..];
  }

  lemma OrdinaryType(rs: seq<Record>, pad: nat, buf: seq<Byte>, version: seq<Byte>)
    requires WellFormed(rs) && buf == Encode(rs) + Zeros(pad) && |version| == 4
    requires rs != [] && rs[0] == Record(TYPE_AND_VERSION, TypeBody(version))
    ensures DvRecordType(buf) == 0x81
  {
    hide Encode, At;
    FindsFirstRecord(rs, pad, buf, TYPE_AND_VERSION);
    var s := Find(buf, 0, TYPE_AND_VERSION).value;
    AtSlice(buf, s.pos + 4, TypeBody(version));
    NumberAt(buf, s.pos + 4, TypeBody(version));
  }

  lemma NumberAt(buf: seq<Byte>, pos: nat, s: seq<Byte>)
    requires At(buf, pos, s) && |s| >= 4
    ensures BE32(buf, pos) == BE32(s, 0)
  {
    assert buf[pos + 0] == s[0] && buf[pos + 1] == s[1] && buf[pos + 2] == s[2] && buf[pos + 3] == s[3];
  }

  // Where the code finds the bodies of such a list of records.
  lemma LayoutOf(rs: seq<Record>, pad: nat, buf: seq<Byte>, version: seq<Byte>)
    requires WellFormed(rs) && buf == Encode(rs) + Zeros(pad) && |version| == 4
    requires |rs| == 4 && rs[0] == Record(TYPE_AND_VERSION, TypeBody(version))
    requires rs[1].rtype == SUBDIFF && rs[2].rtype == CVALUES && rs[3].rtype == 0x81
    requires |rs[2].body| >= 5 && |rs[3].body| >= 16
    ensures GetLayout(buf).Some?
    ensures var p := GetLayout(buf).value;
            && At(buf, p.uvs, rs[1].body) && At(buf, p.cvalues, rs[2].body) && At(buf, p.dv, rs[3].body)
            && p.count == |rs[2].body| / 5
            && SimpleRecord(buf, SUBDIFF) == Some(Span(p.uvs, |rs[1].body|))
  {
    DifferentTypes(rs);
    BodyOf(rs, pad, buf, 1);
    BodyOf(rs, pad, buf, 2);
    BodyOf(rs, pad, buf, 3);
    OrdinaryType(rs, pad, buf, version);
  }

  // The bodies of an issued block.
  ghost predicate Shows(c: BlockCipher, roots: Roots, ss: seq<Subset>, mediaKey: Block, f: Frame, p: Layout)
    requires AllProper(ss) && f.Valid()
  {
    && At(p.buf, p.uvs, Entries(ss, f.end))
    && At(p.buf, p.cvalues, Joined(Data(c, roots, ss, mediaKey)))
    && At(p.buf, p.dv, c.enc(mediaKey, Plain(f.rest)))
    && p.count == 16 * |ss| / 5
  }

  lemma IssuedShows(c: BlockCipher, roots: Roots, ss: seq<Subset>, mediaKey: Block, f: Frame, buf: seq<Byte>)
    requires IssuedBlock(c, roots, ss, mediaKey, f, buf)
    ensures AllProper(ss) && |ss| > 0 && f.Valid()
    ensures GetLayout(buf).Some? && Shows(c, roots, ss, mediaKey, f, GetLayout(buf).value)
    ensures SimpleRecord(buf, SUBDIFF) == Some(Span(GetLayout(buf).value.uvs, 5 * |ss| + 5))
  {
    LayoutOf(Records(c, roots, ss, mediaKey, f), f.pad, buf, f.version);
  }

  // One entry, and its media key datum.
  lemma ShownEntry(p: Layout, d: seq<Byte>, i: nat, s: Subset)
    requires At(p.buf, p.uvs, d) && |s.uv| == 4 && At(d, 5 * i, [s.shift] + s.uv)
    ensures InBounds(p, i) && Shift(p, i) == s.shift && UvBytes(p, i) == s.uv && Uv(p, i) == Number(s)
  {
    Inside(p.buf, p.uvs, d, 5 * i, [s.shift] + s.uv);
    EntryParts(p, i, s.shift, s.uv);
  }

  lemma EntryParts(p: Layout, i: nat, shift: Byte, uv: seq<Byte>)
    requires |uv| == 4 && At(p.buf, p.uvs + 5 * i, [shift] + uv)
    ensures InBounds(p, i) && Shift(p, i) == shift && UvBytes(p, i) == uv
  {
    var e, at := [shift] + uv, p.uvs + 5 * i;
    assert p.buf[at + 0] == e[0];
    assert At(p.buf, at + 1, uv) by {
      forall k | 0 <= k < 4
        ensures p.buf[at + 1 + k] == uv[k]
      {
        assert p.buf[at + (k + 1)] == e[k + 1];
      }
    }
    AtSlice(p.buf, at + 1, uv);
  }

  lemma ShownDatum(p: Layout, d: seq<Byte>, i: nat, b: Block)
    requires At(p.buf, p.cvalues, d) && At(d, 16 * i, b)
    ensures p.cvalues + 16 * i + 16 <= |p.buf| && CValue(p, i) == b
  {
    Inside(p.buf, p.cvalues, d, 16 * i, b);
    DatumParts(p, i, b);
  }

  lemma DatumParts(p: Layout, i: nat, b: Block)
    requires At(p.buf, p.cvalues + 16 * i, b)
    ensures p.cvalues + 16 * i + 16 <= |p.buf| && CValue(p, i) == b
  {
    AtSlice(p.buf, p.cvalues + 16 * i, b);
  }

  lemma ShownEnd(p: Layout, d: seq<Byte>, i: nat, end: seq<Byte>)
    requires At(p.buf, p.uvs, d) && |end| == 5 && At(d, 5 * i, end)
    ensures InBounds(p, i) && Shift(p, i) == end[0] && Uv(p, i) == FromNat(BE32(end, 1))
  {
    assert end == [end[0]] + end[1..];
    Inside(p.buf, p.uvs, d, 5 * i, end);
    EntryParts(p, i, end[0], end[1..]);
    assert BE32(end[1..], 0) == BE32(end, 1);
  }

  lemma ShownRecord(c: BlockCipher, roots: Roots, ss: seq<Subset>, mediaKey: Block, f: Frame, p: Layout, i: nat)
    requires AllProper(ss) && f.Valid() && Shows(c, roots, ss, mediaKey, f, p) && i < |ss|
    ensures InBounds(p, i) && p.cvalues + 16 * i + 16 <= |p.buf| && Proper(ss[i])
    ensures Shift(p, i) == ss[i].shift && UvBytes(p, i) == ss[i].uv && Uv(p, i) == Number(ss[i])
    ensures CValue(p, i) == Datum(c, roots, ss[i], mediaKey)
  {
    var blocks := Data(c, roots, ss, mediaKey);
    assert Proper(ss[i]);
    EntryAt(ss, f.end, i);
    ShownEntry(p, Entries(ss, f.end), i, ss[i]);
    BlockAt(blocks, i);
    ShownDatum(p, Joined(blocks), i, blocks[i]);
  }

  // The search for devices ends at the end of the list if and only if the end
  // entry has a number.
  lemma ShownEnds(c: BlockCipher, roots: Roots, ss: seq<Subset>, mediaKey: Block, f: Frame, p: Layout)
    requires AllProper(ss) && |ss| > 0 && f.Valid() && Shows(c, roots, ss, mediaKey, f, p)
    ensures EndsAt(p, |ss|) <==> f.EndNumber() != Zero()
  {
    EndAt(ss, f.end);
    ShownEnd(p, Entries(ss, f.end), |ss|, f.end);
    forall i | 0 <= i < |ss|
      ensures InBounds(p, i) && p.cvalues + 16 * i + 16 <= |p.buf| && Shift(p, i) <= 31
    {
      ShownRecord(c, roots, ss, mediaKey, f, p, i);
    }
  }

  lemma ShownCarries(c: BlockCipher, roots: Roots, ss: seq<Subset>, mediaKey: Block, f: Frame, p: Layout)
    requires AllProper(ss) && |ss| > 0 && f.Valid() && Shows(c, roots, ss, mediaKey, f, p) && f.EndNumber() != Zero()
    ensures EndsAt(p, |ss|) && Carries(c, roots, p, |ss|, mediaKey)
  {
    ShownEnds(c, roots, ss, mediaKey, f, p);
    forall i | 0 <= i < |ss|
      ensures InBounds(p, i) && p.cvalues + 16 * i + 16 <= |p.buf| && Shift(p, i) <= 31 && CarriesAt(c, roots, p, i, mediaKey)
    {
      ShownRecord(c, roots, ss, mediaKey, f, p, i);
    }
    DvIsIssued(c, roots, ss, mediaKey, f, p);
  }

  lemma DvIsIssued(c: BlockCipher, roots: Roots, ss: seq<Subset>, mediaKey: Block, f: Frame, p: Layout)
    requires AllProper(ss) && f.Valid() && Shows(c, roots, ss, mediaKey, f, p)
    ensures p.dv + 16 <= |p.buf| && Dv(p) == c.enc(mediaKey, Plain(f.rest))
  {
    AtSlice(p.buf, p.dv, c.enc(mediaKey, Plain(f.rest)));
  }

  ghost predicate CarriesAt(c: BlockCipher, roots: Roots, p: Layout, i: nat, mediaKey: Block)
    requires InBounds(p, i) && p.cvalues + 16 * i + 16 <= |p.buf| && Shift(p, i) <= 31
  {
    Uv(p, i) != Zero() && VHeight(Uv(p, i)) <= Shift(p, i) ==>
      CValue(p, i) == c.enc(SubsetKey(c, roots, Shift(p, i), Uv(p, i)), XorTail(mediaKey, UvBytes(p, i)))
  }

  /** When the end entry has a number, the block carries the media key, and the
      search for devices ends at the end of the list. */
  lemma IssuedCarries(c: BlockCipher, roots: Roots, ss: seq<Subset>, mediaKey: Block, f: Frame, buf: seq<Byte>)
    requires IssuedBlock(c, roots, ss, mediaKey, f, buf) && f.EndNumber() != Zero()
    ensures HoldsKey(c, roots, |ss|, buf, mediaKey)
  {
    IssuedShows(c, roots, ss, mediaKey, f, buf);
    ShownCarries(c, roots, ss, mediaKey, f, GetLayout(buf).value);
  }

  lemma CoveredIffContained(c: BlockCipher, roots: Roots, ss: seq<Subset>, mediaKey: Block, f: Frame, buf: seq<Byte>, device: Word)
    requires IssuedBlock(c, roots, ss, mediaKey, f, buf)
    requires GetLayout(buf).Some? && EndsAt(GetLayout(buf).value, |ss|)
    ensures Covered(GetLayout(buf).value, |ss|, device) <==> InAny(ss, device)
  {
    IssuedShows(c, roots, ss, mediaKey, f, buf);
    var p := GetLayout(buf).value;
    forall i | 0 <= i < |ss|
      ensures InBounds(p, i) && (Matches(p, i, device) <==> Contains(ss[i], device))
    {
      ShownRecord(c, roots, ss, mediaKey, f, p, i);
    }
  }

  lemma AnyCoveredIffContains(c: BlockCipher, roots: Roots, ss: seq<Subset>, mediaKey: Block, f: Frame, buf: seq<Byte>,
                              dkl: seq<DeviceKey>, n: nat)
    requires IssuedBlock(c, roots, ss, mediaKey, f, buf)
    requires GetLayout(buf).Some? && EndsAt(GetLayout(buf).value, |ss|)
    ensures AnyCovered(GetLayout(buf).value, |ss|, dkl, n) <==> AnyContains(ss, dkl, n)
  {
    forall j | 0 <= j < |dkl|
      ensures Covered(GetLayout(buf).value, |ss|, dkl[j].node) <==> InAny(ss, dkl[j].node)
    {
      CoveredIffContained(c, roots, ss, mediaKey, f, buf, dkl[j].node);
    }
  }

  /** Issue and use: for every cipher, every secret of the authority, every list
      of subsets and every media key, the search of the issued block with the
      complete keys of any devices, in any order, gives that media key if and only
      if one of the devices is in one of the subsets, not counting leading entries
      for device 0xffffffff; and that is the intended result exactly unless such
      entries lead, their device is in a subset, and no other is. */
  method UseIssuedBlock(c: BlockCipher, roots: Roots, ss: seq<Subset>, mediaKey: Block, f: Frame, buf: seq<Byte>,
                        dkl: seq<DeviceKey>, mk: array<Byte>) returns (r: Result)
    requires mk.Length == 16 && c.Lawful() && IssuedBlock(c, roots, ss, mediaKey, f, buf) && f.EndNumber() != Zero()
    requires AllIssued(c, roots, dkl) && CompleteSets(dkl)
    modifies mk
    ensures r == if AnyContains(ss, dkl, Leading(dkl)) then Success else NoDk
    ensures mk[..] == if AnyContains(ss, dkl, Leading(dkl)) then mediaKey else old(mk[..])
    ensures (r == if AnyContains(ss, dkl, 0) then Success else NoDk) <==>
              Leading(dkl) == 0 || !InAny(ss, All()) || AnyContains(ss, dkl, Leading(dkl))
  {
    hide IssuedBlock, GetLayout, EndsAt, Carries, Covered, AnyCovered, AllIssued, CompleteSets, Issued;
    IssuedCarries(c, roots, ss, mediaKey, f, buf);
    ghost var p := GetLayout(buf).value;
    MediaKeyTheorem(c, roots, p, |ss|, dkl, mk[..], mediaKey);
    AnyCoveredIffContains(c, roots, ss, mediaKey, f, buf, dkl, 0);
    AnyCoveredIffContains(c, roots, ss, mediaKey, f, buf, dkl, Leading(dkl));
    CoveredIffContained(c, roots, ss, mediaKey, f, buf, All());
    r := CalcMkDks(c, buf, dkl, mk, roots, |ss|);
  }

  // ------------------------------------------------------------------
  // For processing keys

  lemma {:induction false} PlainCount(buf: seq<Byte>, at: nat, len: nat, i: nat, n: nat)
    requires at + len <= |buf| && i <= n && 5 * n < len && buf[at + 5 * n] >= 64
    requires forall j :: i <= j < n ==> buf[at + 5 * j] < 64
    ensures PlainEntries(buf, at, len, i) == n
    decreases n - i
  {
    if i < n {
      PlainCount(buf, at, len, i + 1, n);
    }
  }

  lemma EndShift(ss: seq<Subset>, end: seq<Byte>, p: Layout)
    requires AllProper(ss) && |end| == 5 && end[0] >= 64 && At(p.buf, p.uvs, Entries(ss, end))
    ensures p.uvs + 5 * |ss| + 5 <= |p.buf| && p.buf[p.uvs + 5 * |ss|] >= 64
  {
    EndAt(ss, end);
    ShownEnd(p, Entries(ss, end), |ss|, end);
  }

  lemma SmallShifts(c: BlockCipher, roots: Roots, ss: seq<Subset>, mediaKey: Block, f: Frame, p: Layout)
    requires AllProper(ss) && f.Valid() && Shows(c, roots, ss, mediaKey, f, p)
    ensures p.uvs + 5 * |ss| + 5 <= |p.buf| && p.buf[p.uvs + 5 * |ss|] >= 64
    ensures forall j :: 0 <= j < |ss| ==> p.buf[p.uvs + 5 * j] < 64
  {
    EndShift(ss, f.end, p);
    hide Shows, UvBytes, Uv, Number, Datum, CValue;
    forall j | 0 <= j < |ss|
      ensures p.buf[p.uvs + 5 * j] < 64
    {
      ShownRecord(c, roots, ss, mediaKey, f, p, j);
    }
  }

  // The other count comes to the number of subsets.
  lemma CountedTheSame(c: BlockCipher, roots: Roots, ss: seq<Subset>, mediaKey: Block, f: Frame, buf: seq<Byte>)
    requires IssuedBlock(c, roots, ss, mediaKey, f, buf)
    ensures GetLayout(buf).Some? && PkLayout(buf) == Some(GetLayout(buf).value.(count := |ss|))
  {
    hide MkDv, IssuedBlock, Shows, Proper;
    IssuedShows(c, roots, ss, mediaKey, f, buf);
    var p := GetLayout(buf).value;
    SmallShifts(c, roots, ss, mediaKey, f, p);
    PlainCount(buf, p.uvs, 5 * |ss| + 5, 0, |ss|);
  }

  /** The two searches look at the same entries if and only if the end entry has a
      number: without one the search for devices runs on. */
  lemma SearchesAgree(c: BlockCipher, roots: Roots, ss: seq<Subset>, mediaKey: Block, f: Frame, buf: seq<Byte>)
    requires IssuedBlock(c, roots, ss, mediaKey, f, buf)
    ensures GetLayout(buf).Some? && PkLayout(buf).Some?
    ensures EndsAt(GetLayout(buf).value, PkLayout(buf).value.count) <==> f.EndNumber() != Zero()
  {
    hide GetLayout, PkLayout, IssuedBlock, Shows, EndsAt;
    CountedTheSame(c, roots, ss, mediaKey, f, buf);
    IssuedShows(c, roots, ss, mediaKey, f, buf);
    ShownEnds(c, roots, ss, mediaKey, f, GetLayout(buf).value);
  }

  // The other search stays inside the block.
  lemma ShownInBounds(c: BlockCipher, roots: Roots, ss: seq<Subset>, mediaKey: Block, f: Frame, p: Layout)
    requires AllProper(ss) && f.Valid() && Shows(c, roots, ss, mediaKey, f, p)
    ensures PkInBounds(p.(count := |ss|)) && Dv(p) == Dv(p.(count := |ss|)) == c.enc(mediaKey, Plain(f.rest))
  {
    DvIsIssued(c, roots, ss, mediaKey, f, p);
    forall i | 0 <= i < |ss|
      ensures InBounds(p.(count := |ss|), i) && p.cvalues + 16 * i + 16 <= |p.buf|
    {
      ShownRecord(c, roots, ss, mediaKey, f, p, i);
    }
  }

  /** Both ways of reading an issued block stay inside it. */
  lemma IssuedReadable(c: BlockCipher, roots: Roots, ss: seq<Subset>, mediaKey: Block, f: Frame, buf: seq<Byte>, dkl: seq<DeviceKey>)
    requires IssuedBlock(c, roots, ss, mediaKey, f, buf) && f.EndNumber() != Zero() && AllIssued(c, roots, dkl)
    ensures Readable(c, roots, |ss|, buf, dkl)
  {
    hide GetLayout, PkLayout, IssuedBlock, Shows, EndsAt, Carries, Issued, PkInBounds;
    IssuedCarries(c, roots, ss, mediaKey, f, buf);
    IssuedShows(c, roots, ss, mediaKey, f, buf);
    CountedTheSame(c, roots, ss, mediaKey, f, buf);
    ShownInBounds(c, roots, ss, mediaKey, f, GetLayout(buf).value);
  }

  // A key passes for a subset: what it makes of the datum there verifies.
  ghost predicate Passes(c: BlockCipher, roots: Roots, s: Subset, mediaKey: Block, vd: Block, pk: Block) {
    Proper(s) && Verifies(c, Candidate(c, pk, Datum(c, roots, s, mediaKey), s.uv), vd)
  }

  // A key opens what is there for a subset: it gives the media key.
  ghost predicate Opens(c: BlockCipher, roots: Roots, s: Subset, mediaKey: Block, pk: Block) {
    Proper(s) && c.dec(pk, Datum(c, roots, s, mediaKey)) == XorTail(mediaKey, s.uv)
  }

  // The processing key of a subset does.
  lemma SubsetKeyOpens(c: BlockCipher, roots: Roots, s: Subset, mediaKey: Block)
    requires c.Lawful() && Proper(s)
    ensures Opens(c, roots, s, mediaKey, SubsetKey(c, roots, s.shift, Number(s)))
  {
  }

  lemma OpensIs(c: BlockCipher, roots: Roots, s: Subset, mediaKey: Block, rest: seq<Byte>, pk: Block)
    requires c.Lawful() && Proper(s) && |rest| == 8
    ensures Opens(c, roots, s, mediaKey, pk) <==> Candidate(c, pk, Datum(c, roots, s, mediaKey), s.uv) == mediaKey
    ensures Opens(c, roots, s, mediaKey, pk) ==> Passes(c, roots, s, mediaKey, c.enc(mediaKey, Plain(rest)), pk)
  {
    XorTailCancel(c.dec(pk, Datum(c, roots, s, mediaKey)), s.uv);
    XorTailCancel(mediaKey, s.uv);
    assert Plain(rest)[..8] == Magic();
  }

  // Key k passes for subset i.
  ghost predicate PassesAt(c: BlockCipher, roots: Roots, ss: seq<Subset>, mediaKey: Block, vd: Block, pkl: seq<Block>, k: nat, i: nat) {
    k < |pkl| && i < |ss| && Passes(c, roots, ss[i], mediaKey, vd, pkl[k])
  }

  ghost predicate AnyPasses(c: BlockCipher, roots: Roots, ss: seq<Subset>, mediaKey: Block, vd: Block, pkl: seq<Block>) {
    exists k: nat, i: nat :: PassesAt(c, roots, ss, mediaKey, vd, pkl, k, i)
  }

  // The first such pair, key by key.
  ghost predicate FirstPass(c: BlockCipher, roots: Roots, ss: seq<Subset>, mediaKey: Block, vd: Block, pkl: seq<Block>, k: nat, i: nat) {
    && PassesAt(c, roots, ss, mediaKey, vd, pkl, k, i)
    && forall l: nat, j: nat :: PassesAt(c, roots, ss, mediaKey, vd, pkl, l, j) ==> k < l || (k == l && i <= j)
  }

  // It opens.
  ghost predicate FirstOpens(c: BlockCipher, roots: Roots, ss: seq<Subset>, mediaKey: Block, vd: Block, pkl: seq<Block>) {
    exists k: nat, i: nat :: FirstPass(c, roots, ss, mediaKey, vd, pkl, k, i) && Opens(c, roots, ss[i], mediaKey, pkl[k])
  }

  // No listed key passes without opening.
  ghost predicate Distinct(c: BlockCipher, roots: Roots, ss: seq<Subset>, mediaKey: Block, vd: Block, pkl: seq<Block>) {
    forall k: nat, i: nat :: PassesAt(c, roots, ss, mediaKey, vd, pkl, k, i) ==> Opens(c, roots, ss[i], mediaKey, pkl[k])
  }

  ghost predicate AnyOpens(c: BlockCipher, roots: Roots, ss: seq<Subset>, mediaKey: Block, pkl: seq<Block>) {
    exists k: nat, i: nat :: k < |pkl| && i < |ss| && Opens(c, roots, ss[i], mediaKey, pkl[k])
  }

  lemma CandidateThere(c: BlockCipher, roots: Roots, ss: seq<Subset>, mediaKey: Block, f: Frame, p: Layout, pk: Block, i: nat)
    requires AllProper(ss) && f.Valid() && Shows(c, roots, ss, mediaKey, f, p) && PkInBounds(p.(count := |ss|)) && i < |ss|
    ensures Proper(ss[i]) && PkCandidate(c, p.(count := |ss|), pk, i) == Candidate(c, pk, Datum(c, roots, ss[i], mediaKey), ss[i].uv)
  {
    hide Shows, Candidate, Proper, Datum;
    ShownRecord(c, roots, ss, mediaKey, f, p, i);
  }

  // A pair verifies if and only if the key passes, and gives the media key if and
  // only if it opens.
  lemma ValidIsPass(c: BlockCipher, roots: Roots, ss: seq<Subset>, mediaKey: Block, f: Frame, p: Layout, pkl: seq<Block>, k: nat, i: nat)
    requires c.Lawful() && AllProper(ss) && f.Valid() && Shows(c, roots, ss, mediaKey, f, p) && PkInBounds(p.(count := |ss|))
    ensures Valid(c, p.(count := |ss|), pkl, k, i) <==> PassesAt(c, roots, ss, mediaKey, c.enc(mediaKey, Plain(f.rest)), pkl, k, i)
    ensures k < |pkl| && i < |ss| ==>
              (PkCandidate(c, p.(count := |ss|), pkl[k], i) == mediaKey <==> Opens(c, roots, ss[i], mediaKey, pkl[k]))
  {
    hide Shows, Candidate, Verifies, Opens, Datum, Plain, PkInBounds, PkCandidate;
    if k < |pkl| && i < |ss| {
      CandidateThere(c, roots, ss, mediaKey, f, p, pkl[k], i);
      ShownInBounds(c, roots, ss, mediaKey, f, p);
      OpensIs(c, roots, ss[i], mediaKey, f.rest, pkl[k]);
    }
  }

  lemma FirstIsFirst(c: BlockCipher, roots: Roots, ss: seq<Subset>, mediaKey: Block, f: Frame, p: Layout, pkl: seq<Block>, k: nat, i: nat)
    requires c.Lawful() && AllProper(ss) && f.Valid() && Shows(c, roots, ss, mediaKey, f, p) && PkInBounds(p.(count := |ss|))
    ensures FirstValid(c, p.(count := |ss|), pkl, k, i) <==> FirstPass(c, roots, ss, mediaKey, c.enc(mediaKey, Plain(f.rest)), pkl, k, i)
    ensures FirstValid(c, p.(count := |ss|), pkl, k, i) ==> k < |pkl| && i < |ss|
  {
    ValidInside(c, p.(count := |ss|), pkl, k, i);
    hide Shows, Valid, PassesAt, PkInBounds, Plain;
    forall l: nat, j: nat
      ensures Valid(c, p.(count := |ss|), pkl, l, j) <==> PassesAt(c, roots, ss, mediaKey, c.enc(mediaKey, Plain(f.rest)), pkl, l, j)
    {
      ValidIsPass(c, roots, ss, mediaKey, f, p, pkl, l, j);
    }
  }

  lemma ValidInside(c: BlockCipher, p: Layout, pkl: seq<Block>, k: nat, i: nat)
    requires PkInBounds(p)
    ensures Valid(c, p, pkl, k, i) ==> k < |pkl| && i < p.count
  {
  }

  /** Processing keys succeed if and only if one of them passes for a subset, and
      give the media key if and only if the first one that passes opens. */
  lemma UseProcessingKeys(c: BlockCipher, roots: Roots, ss: seq<Subset>, mediaKey: Block, f: Frame, buf: seq<Byte>, pkl: seq<Block>, mk: Block)
    requires c.Lawful() && IssuedBlock(c, roots, ss, mediaKey, f, buf)
    ensures f.Valid() && PkLayout(buf).Some? && PkInBounds(PkLayout(buf).value)
    ensures var ((r, m), vd) := (ByPks(c, buf, pkl, mk), c.enc(mediaKey, Plain(f.rest)));
      && (r == Success || r == NoPk)
      && (r == Success <==> AnyPasses(c, roots, ss, mediaKey, vd, pkl))
      && (r == Success && m == mediaKey <==> FirstOpens(c, roots, ss, mediaKey, vd, pkl))
      && (r == Success ==> exists k: nat, i: nat :: FirstPass(c, roots, ss, mediaKey, vd, pkl, k, i))
  {
    hide GetLayout, PkLayout, IssuedBlock, Shows, Opens, Valid, FirstValid, PassesAt, FirstPass, PkInBounds, Proper, PkCandidate, Plain;
    IssuedShows(c, roots, ss, mediaKey, f, buf);
    CountedTheSame(c, roots, ss, mediaKey, f, buf);
    var p := GetLayout(buf).value;
    ShownInBounds(c, roots, ss, mediaKey, f, p);
    forall k: nat, i: nat
      ensures Valid(c, p.(count := |ss|), pkl, k, i) <==> PassesAt(c, roots, ss, mediaKey, c.enc(mediaKey, Plain(f.rest)), pkl, k, i)
      ensures FirstValid(c, p.(count := |ss|), pkl, k, i) <==> FirstPass(c, roots, ss, mediaKey, c.enc(mediaKey, Plain(f.rest)), pkl, k, i)
      ensures FirstValid(c, p.(count := |ss|), pkl, k, i) ==>
                k < |pkl| && i < |ss| && (PkCandidate(c, p.(count := |ss|), pkl[k], i) == mediaKey <==> Opens(c, roots, ss[i], mediaKey, pkl[k]))
    {
      ValidIsPass(c, roots, ss, mediaKey, f, p, pkl, k, i);
      FirstIsFirst(c, roots, ss, mediaKey, f, p, pkl, k, i);
    }
    ScanPksIff(c, p.(count := |ss|), pkl, mk);
    if k: nat, i: nat :| FirstValid(c, p.(count := |ss|), pkl, k, i) && Opens(c, roots, ss[i], mediaKey, pkl[k]) {
      FirstIsResult(c, p.(count := |ss|), pkl, k, i, mk);
    }
  }

  /** In particular, when no listed key passes without opening, a success gives
      the media key, and there is one if and only if some key opens. */
  lemma UseDistinctKeys(c: BlockCipher, roots: Roots, ss: seq<Subset>, mediaKey: Block, f: Frame, buf: seq<Byte>, pkl: seq<Block>, mk: Block)
    requires c.Lawful() && IssuedBlock(c, roots, ss, mediaKey, f, buf)
    requires Distinct(c, roots, ss, mediaKey, c.enc(mediaKey, Plain(f.rest)), pkl)
    ensures PkLayout(buf).Some? && PkInBounds(PkLayout(buf).value)
    ensures var (r, m) := ByPks(c, buf, pkl, mk);
            if AnyOpens(c, roots, ss, mediaKey, pkl) then r == Success && m == mediaKey else r == NoPk
  {
    hide IssuedBlock, PkLayout, PkInBounds, Opens, Plain, ByPks, Passes;
    UseProcessingKeys(c, roots, ss, mediaKey, f, buf, pkl, mk);
    if k: nat, i: nat :| k < |pkl| && i < |ss| && Opens(c, roots, ss[i], mediaKey, pkl[k]) {
      OpensPasses(c, roots, ss[i], mediaKey, f.rest, pkl[k]);
      assert PassesAt(c, roots, ss, mediaKey, c.enc(mediaKey, Plain(f.rest)), pkl, k, i);
    }
  }

  lemma OpensPasses(c: BlockCipher, roots: Roots, s: Subset, mediaKey: Block, rest: seq<Byte>, pk: Block)
    requires c.Lawful() && |rest| == 8 && Opens(c, roots, s, mediaKey, pk)
    ensures Passes(c, roots, s, mediaKey, c.enc(mediaKey, Plain(rest)), pk)
  {
    OpensIs(c, roots, s, mediaKey, rest, pk);
  }

  /** Device keys first, then processing keys: on an issued block the computation
      succeeds if and only if some listed device, behind the leading entries for
      device 0xffffffff, is in a subset, or some processing key passes for one; and
      what it gives is the media key if and only if there is such a device, or the
      first processing key that passes opens. */
  lemma UseAllKeys(c: BlockCipher, roots: Roots, ss: seq<Subset>, mediaKey: Block, f: Frame, buf: seq<Byte>,
                   dkl: seq<DeviceKey>, pkl: seq<Block>, mk: Block)
    requires c.Lawful() && IssuedBlock(c, roots, ss, mediaKey, f, buf) && f.EndNumber() != Zero()
    requires AllIssued(c, roots, dkl) && CompleteSets(dkl)
    ensures Readable(c, roots, |ss|, buf, dkl)
    ensures var ((r, m), vd) := (Derived(c, roots, |ss|, buf, dkl, pkl, mk), c.enc(mediaKey, Plain(f.rest)));
      && (r == Success || r == NoPk)
      && (r == Success <==> AnyContains(ss, dkl, Leading(dkl)) || AnyPasses(c, roots, ss, mediaKey, vd, pkl))
      && (r == Success && m == mediaKey <==>
            AnyContains(ss, dkl, Leading(dkl)) || FirstOpens(c, roots, ss, mediaKey, vd, pkl))
  {
    hide GetLayout, IssuedBlock, EndsAt, AnyPasses, FirstOpens, AnyCovered, CompleteSets, AnyContains, Plain;
    IssuedReadable(c, roots, ss, mediaKey, f, buf, dkl);
    IssuedCarries(c, roots, ss, mediaKey, f, buf);
    AnyCoveredIffContains(c, roots, ss, mediaKey, f, buf, dkl, Leading(dkl));
    var (r, m) := ByDks(c, roots, |ss|, buf, dkl, mk);
    UseProcessingKeys(c, roots, ss, mediaKey, f, buf, pkl, m);
    ByDksOutcome(c, roots, |ss|, buf, dkl, mk, mediaKey);
  }
}
