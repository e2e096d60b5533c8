/** Media Key Block records (mkb.c): a type byte, a 24-bit length that counts
    the four header bytes, and a body.  Pointers into the block are offsets. */
module Mkb {
  import opened Bytes

  // A record inside the buffer: where it starts and how long it is.
  datatype Span = Span(pos: nat, len: nat)

  // ------------------------------------------------------------------
  // What the format means: a list of records, encoded one after the other

  datatype Record = Record(rtype: Byte, body: seq<Byte>)

  // A type byte of 0 is padding, and the length field has 24 bits.
  predicate WellFormed(rs: seq<Record>) {
    forall i :: 0 <= i < |rs| ==> rs[i].rtype != 0 && |rs[i].body| + 4 < 0x100_0000
  }

  function EncodeRecord(r: Record): (s: seq<Byte>)
    requires |r.body| + 4 < 0x100_0000
    ensures |s| == |r.body| + 4
  {
    [r.rtype] + Put24(|r.body| + 4) + r.body
  }

  function Encode(rs: seq<Record>): seq<Byte>
    requires WellFormed(rs)
  {
    if rs == [] then [] else EncodeRecord(rs[0]) + Encode(rs[1..])
  }

  // The first record of the given type, in the record list ...
  function FirstOf(rs: seq<Record>, rtype: Byte): (i: nat)
    ensures i <= |rs|
    ensures i < |rs| ==> rs[i].rtype == rtype
    ensures forall j :: 0 <= j < i ==> rs[j].rtype != rtype
  {
    if rs == [] || rs[0].rtype == rtype then 0 else 1 + FirstOf(rs[1..], rtype)
  }

  // ... and in the buffer, as the walk from `pos` finds it.
  function Find(buf: seq<Byte>, pos: nat, rtype: Byte): (r: Option<Span>)
    ensures r.Some? ==> r.value.pos + 4 <= |buf| && r.value.pos + r.value.len <= |buf|
    ensures r.Some? ==> buf[r.value.pos] == rtype && r.value.len == BE24(buf, r.value.pos + 1)
    decreases |buf| - pos
  {
    if pos + 4 > |buf| then None
    else
      var len := BE24(buf, pos + 1);
      if buf[pos] == rtype then
        if len > |buf| - pos then None else Some(Span(pos, len))
      else if len == 0 then None
      else Find(buf, pos + len, rtype)
  }

  /** _record: the type must be found before the data ends or a record of
      length 0 stops the walk, and the record must not be truncated. */
  method GetRecord(buf: seq<Byte>, rtype: Byte) returns (r: Option<Span>)
    ensures r == Find(buf, 0, rtype)
  {
    var pos := 0;
    while pos + 4 <= |buf|
      invariant Find(buf, 0, rtype) == Find(buf, pos, rtype)
      decreases |buf| - pos
    {
      var len := BE24(buf, pos + 1);
      if buf[pos] == rtype {
        if len > |buf| - pos {
          return None;
        }
        return Some(Span(pos, len));
      }
      if len == 0 {
        break;
      }
      pos := pos + len;
    }
    return None;
  }

  /** mkb_data_size moves on only while records have a length, so it ends
      exactly when the walk meets no typed record of length 0. */
  ghost predicate Walkable(buf: seq<Byte>, pos: nat)
    decreases |buf| - pos
  {
    pos + 4 <= |buf| && buf[pos] != 0 ==>
      var len := BE24(buf, pos + 1);
      len > 0 && Walkable(buf, pos + len)
  }

  ghost function EndOfRecords(buf: seq<Byte>, pos: nat): nat
    requires Walkable(buf, pos)
    decreases |buf| - pos
  {
    if pos + 4 <= |buf| && buf[pos] != 0 then EndOfRecords(buf, pos + BE24(buf, pos + 1)) else pos
  }

  method DataSize(buf: seq<Byte>) returns (size: nat)
    requires Walkable(buf, 0)
    ensures size == if EndOfRecords(buf, 0) > |buf| then |buf| else EndOfRecords(buf, 0)
  {
    var pos := 0;
    while pos + 4 <= |buf|
      invariant Walkable(buf, pos) && EndOfRecords(buf, pos) == EndOfRecords(buf, 0)
      decreases |buf| - pos
    {
      if buf[pos] == 0 {
        break;
      }
      pos := pos + BE24(buf, pos + 1);
    }
    if pos > |buf| {
      return |buf|;
    }
    return pos;
  }

  // _simple_record: skip the four header bytes.
  function SimpleRecord(buf: seq<Byte>, rtype: Byte): (r: Option<Span>)
    ensures r.Some? ==> 4 <= r.value.pos && r.value.pos + r.value.len <= |buf|
  {
    match Find(buf, 0, rtype)
    case None => None
    case Some(s) => if s.len < 4 then None else Some(Span(s.pos + 4, s.len - 4))
  }

  const TYPE_AND_VERSION: Byte := 0x10
  const SUBDIFF: Byte := 0x04
  const CVALUES: Byte := 0x05
  const DRIVE_REVOCATION: Byte := 0x20
  const HOST_REVOCATION: Byte := 0x21
  const MKB_20_CATEGORY_C := 0x4814_1003
  const MKB_21_CATEGORY_C := 0x4815_1003

  function TypeAndVersionRecord(buf: seq<Byte>): (r: Option<Span>)
    ensures r.Some? ==> r.value.pos + 12 <= |buf|
  {
    match Find(buf, 0, TYPE_AND_VERSION)
    case None => None
    case Some(s) => if s.len < 12 then None else Some(s)
  }

  function MkbType(buf: seq<Byte>): nat {
    match TypeAndVersionRecord(buf)
    case None => 0
    case Some(s) => BE32(buf, s.pos + 4)
  }

  function Version(buf: seq<Byte>): nat {
    match TypeAndVersionRecord(buf)
    case None => 0
    case Some(s) => BE32(buf, s.pos + 8)
  }

  function DvRecordType(buf: seq<Byte>): Byte {
    if MkbType(buf) == MKB_20_CATEGORY_C || MkbType(buf) == MKB_21_CATEGORY_C then 0x86 else 0x81
  }

  // mkb_mk_dv: sixteen bytes of media key verification data.
  function MkDv(buf: seq<Byte>): (r: Option<nat>)
    ensures r.Some? ==> r.value + 16 <= |buf|
  {
    match SimpleRecord(buf, DvRecordType(buf))
    case None => None
    case Some(s) => if s.len < 16 then None else Some(s.pos)
  }

  // ------------------------------------------------------------------
  // The walk against the format

  // Sum of the first i record lengths: where record i starts.
  function Offset(rs: seq<Record>, i: nat): nat
    requires i <= |rs|
  {
    if i == 0 then 0 else 4 + |rs[0].body| + Offset(rs[1..], i - 1)
  }

  // What the walk must return for a list of records placed at `start`.
  ghost function Expected(rs: seq<Record>, rtype: Byte, start: nat): Option<Span> {
    if rs == [] then None
    else if rs[0].rtype == rtype then Some(Span(start, 4 + |rs[0].body|))
    else Expected(rs[1..], rtype, start + 4 + |rs[0].body|)
  }

  lemma {:induction false} ExpectedIsFirst(rs: seq<Record>, rtype: Byte, start: nat)
    ensures var k := FirstOf(rs, rtype);
      Expected(rs, rtype, start) ==
        if k < |rs| then Some(Span(start + Offset(rs, k), 4 + |rs[k].body|)) else None
    decreases |rs|
  {
    if rs != [] && rs[0].rtype != rtype {
      ExpectedIsFirst(rs[1..], rtype, start + 4 + |rs[0].body|);
    }
  }

  // The records rs and some padding are what the buffer holds from `pos` on.
  ghost predicate Holds(buf: seq<Byte>, pos: nat, rs: seq<Record>, pad: nat) {
    pos <= |buf| && WellFormed(rs) && buf[pos..] == Encode(rs) + Zeros(pad)
  }

  // What a walk sees of them: the headers, one after the other, then zeros.
  ghost predicate Laid(buf: seq<Byte>, pos: nat, rs: seq<Record>)
    decreases |rs|
  {
    if rs == [] then pos + 4 <= |buf| ==> buf[pos] == 0 && BE24(buf, pos + 1) == 0
    else
      var len := 4 + |rs[0].body|;
      && pos + len <= |buf|
      && buf[pos] == rs[0].rtype != 0
      && BE24(buf, pos + 1) == len
      && buf[pos + 4..pos + len] == rs[0].body
      && Laid(buf, pos + len, rs[1..])
  }

  // A record shows its type, length and body, and the rest follows it.
  lemma Header(buf: seq<Byte>, pos: nat, rs: seq<Record>, pad: nat)
    requires Holds(buf, pos, rs, pad) && rs != []
    ensures pos + 4 + |rs[0].body| <= |buf|
    ensures buf[pos] == rs[0].rtype
    ensures BE24(buf, pos + 1) == 4 + |rs[0].body|
    ensures buf[pos + 4..pos + 4 + |rs[0].body|] == rs[0].body
    ensures Holds(buf, pos + 4 + |rs[0].body|, rs[1..], pad)
  {
    var e := EncodeRecord(rs[0]);
    var tail := buf[pos..];
    assert tail == e + (Encode(rs[1..]) + Zeros(pad));
    assert forall j :: 0 <= j < |e| ==> buf[pos + j] == tail[j] == e[j];
    assert BE24(e, 1) == BE24(Put24(|rs[0].body| + 4), 0);
    assert buf[pos + |e|..] == tail[|e|..];
  }

  lemma {:induction false} HeldIsLaid(buf: seq<Byte>, pos: nat, rs: seq<Record>, pad: nat)
    requires Holds(buf, pos, rs, pad)
    ensures Laid(buf, pos, rs)
    decreases |rs|
  {
    if rs == [] {
      var tail := buf[pos..];
      assert tail == Zeros(pad);
      assert forall j :: 0 <= j < |tail| ==> buf[pos + j] == tail[j] == 0;
    } else {
      Header(buf, pos, rs, pad);
      HeldIsLaid(buf, pos + 4 + |rs[0].body|, rs[1..], pad);
    }
  }

  lemma {:induction false} FindLaid(buf: seq<Byte>, pos: nat, rs: seq<Record>, rtype: Byte)
    requires Laid(buf, pos, rs) && rtype != 0
    ensures Find(buf, pos, rtype) == Expected(rs, rtype, pos)
    decreases |rs|
  {
    if rs != [] {
      FindLaid(buf, pos + 4 + |rs[0].body|, rs[1..], rtype);
    }
  }

  lemma {:induction false} EndLaid(buf: seq<Byte>, pos: nat, rs: seq<Record>)
    requires Laid(buf, pos, rs) && WellFormed(rs)
    ensures Walkable(buf, pos) && EndOfRecords(buf, pos) == pos + |Encode(rs)|
    decreases |rs|
  {
    if rs != [] {
      EndLaid(buf, pos + 4 + |rs[0].body|, rs[1..]);
    }
  }

  lemma {:induction false} BodyLaid(buf: seq<Byte>, pos: nat, rs: seq<Record>, k: nat)
    requires Laid(buf, pos, rs) && k < |rs|
    ensures var at := pos + Offset(rs, k);
      at + 4 + |rs[k].body| <= |buf| && buf[at + 4..at + 4 + |rs[k].body|] == rs[k].body
    decreases k
  {
    if k > 0 {
      BodyLaid(buf, pos + 4 + |rs[0].body|, rs[1..], k - 1);
    }
  }

  /** For every list of records followed by zero padding, the walk returns
      exactly the first record of the requested type, with its body, or
      nothing if there is none. */
  lemma FindsFirstRecord(rs: seq<Record>, pad: nat, buf: seq<Byte>, rtype: Byte)
    requires WellFormed(rs) && rtype != 0 && buf == Encode(rs) + Zeros(pad)
    ensures var k := FirstOf(rs, rtype);
      match Find(buf, 0, rtype)
      case None => k == |rs|
      case Some(s) => k < |rs| && s == Span(Offset(rs, k), 4 + |rs[k].body|)
                      && buf[s.pos + 4..s.pos + s.len] == rs[k].body
  {
    hide Encode, Find;
    assert buf[0..] == buf;
    HeldIsLaid(buf, 0, rs, pad);
    FindLaid(buf, 0, rs, rtype);
    ExpectedIsFirst(rs, rtype, 0);
    if FirstOf(rs, rtype) < |rs| {
      BodyLaid(buf, 0, rs, FirstOf(rs, rtype));
    }
  }

  // Without its four header bytes.
  lemma FindsBody(rs: seq<Record>, pad: nat, buf: seq<Byte>, rtype: Byte)
    requires WellFormed(rs) && rtype != 0 && buf == Encode(rs) + Zeros(pad)
    ensures var k := FirstOf(rs, rtype);
      match SimpleRecord(buf, rtype)
      case None => k == |rs|
      case Some(s) => k < |rs| && s == Span(Offset(rs, k) + 4, |rs[k].body|) && buf[s.pos..s.pos + s.len] == rs[k].body
  {
    hide Encode, Find;
    FindsFirstRecord(rs, pad, buf, rtype);
  }

  // The body of the first record of a type, if there is one.
  function BodyOf(rs: seq<Record>, rtype: Byte): Option<seq<Byte>> {
    if FirstOf(rs, rtype) == |rs| then None else Some(rs[FirstOf(rs, rtype)].body)
  }

  // The type of a block: the first word of a record of type 16 that has two.
  function TypeOf(rs: seq<Record>): nat {
    match BodyOf(rs, 16)
    case None => 0
    case Some(body) => if |body| < 8 then 0 else BE32(body, 0)
  }

  /** In such a buffer, type and version are the two words of the first record of
      type 16; and the verification data are the first sixteen bytes of the first
      record of type 134 in a category C block of either generation, and of type 129
      in any other. */
  lemma TypeDecides(rs: seq<Record>, pad: nat, buf: seq<Byte>)
    requires WellFormed(rs) && buf == Encode(rs) + Zeros(pad)
    ensures MkbType(buf) == TypeOf(rs)
    ensures Version(buf) == if BodyOf(rs, 16).None? || |BodyOf(rs, 16).value| < 8 then 0 else BE32(BodyOf(rs, 16).value, 4)
    ensures var body := BodyOf(rs, if TypeOf(rs) == 0x48141003 || TypeOf(rs) == 0x48151003 then 134 else 129);
      match MkDv(buf)
      case None => body.None? || |body.value| < 16
      case Some(d) => body.Some? && |body.value| >= 16 && buf[d..d + 16] == body.value[..16]
  {
    hide Encode, Find, FirstOf, Offset, WellFormed, MkbType, TypeOf, Version, SimpleRecord, BE32;
    WordsOfRecord(rs, pad, buf);
    FindsBody(rs, pad, buf, DvRecordType(buf));
    if MkDv(buf).Some? {
      var s := SimpleRecord(buf, DvRecordType(buf)).value;
      assert buf[s.pos..s.pos + s.len][..16] == buf[s.pos..s.pos + 16];
    }
  }

  lemma SliceAt(buf: seq<Byte>, lo: nat, hi: nat)
    requires lo <= hi <= |buf|
    ensures forall i :: 0 <= i < hi - lo ==> buf[lo..hi][i] == buf[lo + i]
    ensures hi - lo >= 8 ==> BE32(buf[lo..hi], 0) == BE32(buf, lo) && BE32(buf[lo..hi], 4) == BE32(buf, lo + 4)
  {
  }

  lemma WordsOfRecord(rs: seq<Record>, pad: nat, buf: seq<Byte>)
    requires WellFormed(rs) && buf == Encode(rs) + Zeros(pad)
    ensures MkbType(buf) == TypeOf(rs)
    ensures Version(buf) == if BodyOf(rs, 16).None? || |BodyOf(rs, 16).value| < 8 then 0 else BE32(BodyOf(rs, 16).value, 4)
  {
    hide Encode, Find;
    FindsFirstRecord(rs, pad, buf, TYPE_AND_VERSION);
    if FirstOf(rs, 16) < |rs| {
      var s, body := Find(buf, 0, 16).value, rs[FirstOf(rs, 16)].body;
      SliceAt(buf, s.pos + 4, s.pos + s.len);
    }
  }

  /** The data size of such a buffer is the total of the record lengths. */
  lemma DataSizeIsTotal(rs: seq<Record>, pad: nat, buf: seq<Byte>)
    requires WellFormed(rs) && buf == Encode(rs) + Zeros(pad)
    ensures Walkable(buf, 0) && EndOfRecords(buf, 0) == |Encode(rs)|
  {
    assert buf[0..] == buf;
    HeldIsLaid(buf, 0, rs, pad);
    EndLaid(buf, 0, rs);
  }
}
