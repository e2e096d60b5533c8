/** The unit key file (unit_key.c): encrypted unit keys at a fixed stride, and
    the CPS unit of every title. */
module UnitKey {
  import opened Bytes

  // AACS_UK
  class UnitKeys {
    var appType: nat
    var numBdmvDir: nat
    var useSkbMkb: nat
    var numUk: nat
    var encUk: seq<Block>
    var keys: Option<seq<Block>>
    var numTitles: nat
    var titleCpsUnit: array?<nat>

    constructor ()
      ensures numUk == 0 && encUk == [] && keys == None && numTitles == 0 && titleCpsUnit == null
    {
      appType, numBdmvDir, useSkbMkb, numUk, numTitles := 0, 0, 0, 0, 0;
      encUk, keys := [], None;
      titleCpsUnit := null;
    }

    /** The titles are the two special ones and the counted ones, and the index
        of each is below the key count, if there is a key at all.  Once decrypted
        keys are loaded there are as many as counted, and at least one. */
    ghost predicate Valid()
      reads this, titleCpsUnit
    {
      && |encUk| <= numUk
      && (keys.Some? ==> |keys.value| == numUk > 0)
      && (titleCpsUnit != null ==>
            && titleCpsUnit.Length == numTitles + 2
            && forall i :: 0 <= i < numTitles + 2 ==> titleCpsUnit[i] == 0 || titleCpsUnit[i] < numUk)
    }
  }

  // ------------------------------------------------------------------
  // Header

  predicate HeaderFits(p: seq<Byte>) {
    |p| >= 20 && p[17] >= 1
  }

  // _parse_header
  method ParseHeader(uk: UnitKeys, p: seq<Byte>) returns (ok: bool)
    modifies uk`appType, uk`numBdmvDir, uk`useSkbMkb
    ensures ok == HeaderFits(p)
    ensures |p| >= 20 ==> uk.appType == p[16] && uk.numBdmvDir == p[17] && uk.useSkbMkb == p[18] / 128
  {
    if |p| < 20 {
      return false;
    }
    uk.appType := p[16];
    uk.numBdmvDir := p[17];
    uk.useSkbMkb := p[18] / 128;
    return uk.numBdmvDir >= 1;
  }

  // ------------------------------------------------------------------
  // Keys

  const KEY_STRIDE := 48
  const KEY_STRIDE_AACS2 := 64

  // Where the key data start, and how many keys there are.
  function KeyPos(p: seq<Byte>): nat
    requires |p| >= 4
  {
    BE32(p, 0)
  }

  predicate KeyCountFits(p: seq<Byte>) {
    |p| >= 4 && KeyPos(p) + 2 <= |p|
  }

  function KeyCount(p: seq<Byte>): nat
    requires KeyCountFits(p)
  {
    BE16(p, KeyPos(p))
  }

  /** The division check: room for every key at the stride of 48 bytes. */
  predicate KeysFit(p: seq<Byte>)
    requires KeyCountFits(p)
  {
    |p| - KeyPos(p) >= 16 && (|p| - KeyPos(p) - 16) / 48 >= KeyCount(p)
  }

  // The place looked at to tell an AACS2 file; an absolute position.
  predicate LooksLikeAacs2(p: seq<Byte>)
    requires |p| >= 128
  {
    p[112..128] != Zeros(16)
  }

  function Stride(p: seq<Byte>, aacs2: bool): nat
    requires |p| >= 128 && KeyCountFits(p)
  {
    if aacs2 && (KeyCount(p) <= 1 || LooksLikeAacs2(p)) then KEY_STRIDE_AACS2 else KEY_STRIDE
  }

  function KeyAt(p: seq<Byte>, stride: nat, i: nat): Block
    requires KeyCountFits(p) && KeyPos(p) + 48 + stride * i + 16 <= |p|
  {
    p[KeyPos(p) + 48 + stride * i..KeyPos(p) + 48 + stride * i + 16]
  }

  // The last key lies inside the file.
  ghost predicate LastKeyFits(p: seq<Byte>, stride: nat)
    requires KeyCountFits(p)
  {
    KeyCount(p) > 0 ==> KeyPos(p) + 48 + stride * (KeyCount(p) - 1) + 16 <= |p|
  }

  /** The division check is exactly what the 48-byte stride needs; for the
      64-byte stride it is not enough, and the check the source makes for that
      case compares with a key count that is still zero. */
  lemma DivisionCheck(p: seq<Byte>)
    requires KeyCountFits(p) && KeyCount(p) > 0
    ensures KeysFit(p) <==> LastKeyFits(p, KEY_STRIDE)
  {
  }

  lemma WideStrideCheck(p: seq<Byte>)
    requires KeyCountFits(p) && KeyCount(p) > 0
    ensures LastKeyFits(p, KEY_STRIDE_AACS2) <==> KeyPos(p) + KEY_STRIDE_AACS2 * KeyCount(p) <= |p|
  {
  }

  /** When the keys of a file that passes every check lie inside it, at the stride
      that is chosen: always at the stride of 48, and at the stride of 64 if the
      keys themselves, up to the end of the last one, do. */
  lemma ReadsStayInside(p: seq<Byte>, aacs2: bool)
    requires |p| >= 128 && HeaderFits(p) && KeyCountFits(p) && KeyCount(p) > 0 && KeysFit(p)
    ensures LastKeyFits(p, Stride(p, aacs2)) <==>
              || !aacs2
              || (KeyCount(p) > 1 && p[112..128] == Zeros(16))
              || KeyPos(p) + 64 * KeyCount(p) <= |p|
  {
    DivisionCheck(p);
    WideStrideCheck(p);
  }

  /** A file that passes every check of the source and whose last key is outside:
      one BDMV directory, and thirty keys at position 593 of 2049 bytes.  The size
      check for this stride compares with a key count that is still zero. */
  lemma WideStrideOverruns(p: seq<Byte>)
    requires p == Zeros(2049)[2 := 2][3 := 81][17 := 1][112 := 1][594 := 30]
    ensures HeaderFits(p) && KeyCountFits(p) && KeyCount(p) == 30 && KeysFit(p) && Stride(p, true) == KEY_STRIDE_AACS2
    ensures |p| >= KeyPos(p) + 64 * 0 + 16 && !LastKeyFits(p, KEY_STRIDE_AACS2)
  {
    assert p[112..128][0] == 1;
  }

  lemma StrideMonotone(stride: nat, i: nat, n: nat)
    requires i <= n
    ensures stride * i <= stride * n
  {
  }

  // The loop over the keys.
  method ReadKeys(p: seq<Byte>, numUk: nat, stride64: bool) returns (keys: seq<Block>)
    requires KeyCountFits(p) && numUk == KeyCount(p) && numUk > 0
    requires LastKeyFits(p, if stride64 then KEY_STRIDE_AACS2 else KEY_STRIDE)
    ensures |keys| == numUk
    ensures var stride := if stride64 then KEY_STRIDE_AACS2 else KEY_STRIDE;
      forall i :: 0 <= i < numUk ==> KeyPos(p) + 48 + stride * i + 16 <= |p| && keys[i] == KeyAt(p, stride, i)
  {
    var ukPos := KeyPos(p);
    ghost var stride := if stride64 then KEY_STRIDE_AACS2 else KEY_STRIDE;
    keys := [];
    var i := 0;
    while i < numUk
      invariant 0 <= i <= numUk && |keys| == i
      invariant ukPos == KeyPos(p) + stride * i
      invariant forall j :: 0 <= j < i ==>
                  KeyPos(p) + 48 + stride * j + 16 <= |p| && keys[j] == KeyAt(p, stride, j)
    {
      StrideMonotone(stride, i, numUk - 1);
      EntryLength(stride, i + 1);
      ukPos := ukPos + 48;
      keys := keys + [p[ukPos..ukPos + 16]];
      if stride64 {
        ukPos := ukPos + 16;
      }
      i := i + 1;
    }
  }

  /** _parse_uks.  A unit key file is larger than 2048 bytes (its caller sees to
      that), and the 64-byte stride must end inside it. */
  method ParseUks(uk: UnitKeys, p: seq<Byte>, aacs2: bool) returns (ok: bool)
    requires |p| > 2048
    requires KeyCountFits(p) && KeysFit(p) ==> LastKeyFits(p, Stride(p, aacs2))
    modifies uk`numUk, uk`encUk
    ensures ok <==> KeyCountFits(p) && (KeyCount(p) > 0 ==> KeysFit(p))
    ensures !ok || KeyCount(p) == 0 ==> uk.numUk == 0 && uk.encUk == old(uk.encUk)
    ensures ok && KeyCount(p) > 0 ==>
              && uk.numUk == |uk.encUk| == KeyCount(p)
              && forall i :: 0 <= i < uk.numUk ==>
                   KeyPos(p) + 48 + Stride(p, aacs2) * i + 16 <= |p| && uk.encUk[i] == KeyAt(p, Stride(p, aacs2), i)
  {
    uk.numUk := 0;
    var ukPos := BE32(p, 0);
    if |p| - 2 < ukPos {
      return false;
    }
    var numUk := BE16(p, ukPos);
    if numUk < 1 {
      return true;
    }
    if |p| - ukPos < 16 {
      return false;
    }
    if (|p| - ukPos - 16) / 48 < numUk {
      return false;
    }
    var stride64 := aacs2;
    if aacs2 && numUk > 1 {
      if p[112..128] == Zeros(16) {
        stride64 := false;
      } else if |p| < ukPos + 64 * uk.numUk + 16 {
        return false;
      }
    }
    var keys := ReadKeys(p, numUk, stride64);
    uk.encUk := keys;
    uk.numUk := numUk;
    return true;
  }

  // ------------------------------------------------------------------
  // Titles

  predicate TitlesFit(p: seq<Byte>) {
    |p| >= 26 && BE16(p, 24) <= 0xfffd && 26 + 4 * BE16(p, 24) <= |p|
  }

  // The CPS unit number of entry i: first play, top menu, then the titles.
  function TitleNumber(p: seq<Byte>, i: nat): nat
    requires TitlesFit(p) && i < BE16(p, 24) + 2
  {
    if i == 0 then BE16(p, 20) else if i == 1 then BE16(p, 22) else BE16(p, 28 + 4 * (i - 2))
  }

  // Numbers 1 to n become indices 0 to n - 1, anything else index 0.
  function ToIndex(number: nat, n: nat): (r: nat)
    ensures r == 0 || r < n
  {
    if number < 1 || number > n then 0 else number - 1
  }

  // _assign_titles
  method AssignTitles(uk: UnitKeys, p: seq<Byte>) returns (ok: bool)
    requires uk.titleCpsUnit == null
    modifies uk`numTitles, uk`titleCpsUnit
    ensures ok == TitlesFit(p)
    ensures !ok ==> uk.titleCpsUnit == null
    ensures ok ==> uk.titleCpsUnit != null && fresh(uk.titleCpsUnit) && uk.numTitles == BE16(p, 24)
                   && uk.titleCpsUnit.Length == uk.numTitles + 2
                   && forall i :: 0 <= i < uk.numTitles + 2 ==>
                        uk.titleCpsUnit[i] == ToIndex(TitleNumber(p, i), uk.numUk)
  {
    if |p| < 26 {
      return false;
    }
    var firstPlay, topMenu, numTitles := BE16(p, 20), BE16(p, 22), BE16(p, 24);
    if numTitles > 0xffff - 2 {
      return false;
    }
    if |p| < 26 + 4 * numTitles {
      uk.numTitles := 0;
      return false;
    }
    var t := new nat[numTitles + 2];
    uk.titleCpsUnit := t;
    uk.numTitles := numTitles;
    t[0] := firstPlay;
    t[1] := topMenu;
    var i := 0;
    while i < numTitles
      invariant 0 <= i <= numTitles && uk.titleCpsUnit == t && uk.numTitles == numTitles
      invariant forall j :: 0 <= j < i + 2 ==> t[j] == TitleNumber(p, j)
    {
      t[i + 2] := BE16(p, 26 + 2 + 4 * i);
      i := i + 1;
    }
    i := 0;
    while i < numTitles + 2
      invariant 0 <= i <= numTitles + 2 && uk.titleCpsUnit == t && uk.numTitles == numTitles
      invariant forall j :: 0 <= j < i ==> t[j] == ToIndex(TitleNumber(p, j), uk.numUk)
      invariant forall j :: i <= j < numTitles + 2 ==> t[j] == TitleNumber(p, j)
    {
      if t[i] < 1 || t[i] > uk.numUk {
        t[i] := 0;
      } else {
        t[i] := t[i] - 1;
      }
      i := i + 1;
    }
    return true;
  }

  /** In bytes, when a file is taken: it names at least one directory, and there is
      room for the number of keys and for every key. */
  ghost predicate Taken(p: seq<Byte>) {
    && |p| >= 20 && p[17] > 0 && BE32(p, 0) + 2 <= |p|
    && var n := BE16(p, BE32(p, 0)); n > 0 ==> BE32(p, 0) + 48 * n + 16 <= |p|
  }

  // Where the keys are: 48 bytes apart, or 64 in an AACS2 file that has a single key
  // or anything but zeros behind its first 112 bytes.
  ghost predicate KeysFrom(p: seq<Byte>, aacs2: bool, keys: seq<Block>) {
    && |p| >= 128 && BE32(p, 0) + 2 <= |p| && |keys| == BE16(p, BE32(p, 0))
    && var wide := aacs2 && (|keys| <= 1 || exists i :: 112 <= i < 128 && p[i] != 0);
    && forall i: nat :: i < |keys| ==>
         var at := BE32(p, 0) + 48 + (if wide then 64 * i else 48 * i);
         at + 16 <= |p| && keys[i] == p[at..at + 16]
  }

  // The titles are counted from 1, in the file, and an unknown unit is taken for the
  // first.
  ghost predicate TitlesFrom(p: seq<Byte>, n: nat, units: seq<nat>) {
    && |p| >= 26 && |units| == BE16(p, 24) + 2 <= 65535 && 26 + 4 * BE16(p, 24) <= |p|
    && forall i: nat :: i < |units| ==>
         var number := BE16(p, if i < 2 then 20 + 2 * i else 20 + 4 * i);
         units[i] == if 1 <= number <= n then number - 1 else 0
  }

  lemma TakenIff(p: seq<Byte>)
    ensures Taken(p) <==> HeaderFits(p) && KeyCountFits(p) && (KeyCount(p) > 0 ==> KeysFit(p))
  {
    if HeaderFits(p) && KeyCountFits(p) && KeyCount(p) > 0 {
      DivisionCheck(p);
    }
  }

  lemma KeysAreFrom(p: seq<Byte>, aacs2: bool, keys: seq<Block>)
    requires |p| >= 128 && KeyCountFits(p) && |keys| == KeyCount(p)
    requires forall i :: 0 <= i < |keys| ==>
               KeyPos(p) + 48 + Stride(p, aacs2) * i + 16 <= |p| && keys[i] == KeyAt(p, Stride(p, aacs2), i)
    ensures KeysFrom(p, aacs2, keys)
  {
    hide BE16, BE32;
    NotZeros(p);
    assert Stride(p, aacs2) == if aacs2 && (|keys| <= 1 || exists i :: 112 <= i < 128 && p[i] != 0) then 64 else 48;
  }

  lemma NotZeros(p: seq<Byte>)
    requires |p| >= 128
    ensures LooksLikeAacs2(p) <==> exists i :: 112 <= i < 128 && p[i] != 0
  {
    var s := p[112..128];
    if s != Zeros(16) {
      var i :| 0 <= i < 16 && s[i] != 0;
      assert p[112 + i] != 0;
    }
    if i :| 112 <= i < 128 && p[i] != 0 {
      assert s[i - 112] != 0;
    }
  }

  lemma TitlesAreFrom(p: seq<Byte>, n: nat, units: seq<nat>)
    requires TitlesFit(p) && |units| == BE16(p, 24) + 2
    requires forall i :: 0 <= i < |units| ==> units[i] == ToIndex(TitleNumber(p, i), n)
    ensures TitlesFrom(p, n, units)
  {
    hide BE16;
  }

  /** uk_parse: a file whose header or key data do not fit gives nothing; a bad
      title map is not fatal. */
  method Parse(p: seq<Byte>, aacs2: bool) returns (uk: UnitKeys?)
    requires |p| > 2048
    requires KeyCountFits(p) && KeysFit(p) ==> LastKeyFits(p, Stride(p, aacs2))
    ensures uk != null <==> HeaderFits(p) && KeyCountFits(p) && (KeyCount(p) > 0 ==> KeysFit(p))
    ensures uk != null ==>
              && fresh(uk) && uk.Valid() && uk.numUk == |uk.encUk| == KeyCount(p) && uk.keys == None
              && (uk.titleCpsUnit != null ==> fresh(uk.titleCpsUnit))
              && (forall i :: 0 <= i < uk.numUk ==>
                    KeyPos(p) + 48 + Stride(p, aacs2) * i + 16 <= |p| && uk.encUk[i] == KeyAt(p, Stride(p, aacs2), i))
              && (TitlesFit(p) <==> uk.titleCpsUnit != null)
              && (TitlesFit(p) ==>
                    uk.numTitles == BE16(p, 24) &&
                    forall i :: 0 <= i < uk.numTitles + 2 ==>
                      uk.titleCpsUnit[i] == ToIndex(TitleNumber(p, i), uk.numUk))
    ensures uk != null <==> Taken(p)
    ensures uk != null ==>
              && KeysFrom(p, aacs2, uk.encUk)
              && (uk.titleCpsUnit != null <==> BE16(p, 24) <= 65533 && 26 + 4 * BE16(p, 24) <= |p|)
              && (uk.titleCpsUnit != null ==> TitlesFrom(p, uk.numUk, uk.titleCpsUnit[..]))
  {
    hide BE16, BE32, Taken, KeysFrom, TitlesFrom;
    TakenIff(p);
    var k := new UnitKeys();
    var header := ParseHeader(k, p);
    if !header {
      return null;
    }
    var result := ParseUks(k, p, aacs2);
    var titles := AssignTitles(k, p);
    if !result {
      return null;
    }
    KeysAreFrom(p, aacs2, k.encUk);
    if titles {
      TitlesAreFrom(p, k.numUk, k.titleCpsUnit[..]);
    }
    return k;
  }

  // ------------------------------------------------------------------
  // Writing such a file

  predicate Shorts(s: seq<nat>) {
    forall i :: 0 <= i < |s| ==> s[i] < 0x1_0000
  }

  function TitleEntries(titles: seq<nat>): (s: seq<Byte>)
    requires Shorts(titles)
    ensures |s| == 4 * |titles|
  {
    if titles == [] then [] else Zeros(2) + Put16(titles[0]) + TitleEntries(titles[1..])
  }

  // Every key is preceded by 32 bytes and followed by what fills the stride.
  function KeyEntries(keys: seq<Block>, stride: nat): (s: seq<Byte>)
    requires stride >= 48
    ensures |s| == stride * |keys|
  {
    if keys == [] then [] else
    EntryLength(stride, |keys|);
    Zeros(32) + keys[0] + Zeros(stride - 48) + KeyEntries(keys[1..], stride)
  }

  lemma EntryLength(stride: nat, n: nat)
    requires n > 0
    ensures stride + stride * (n - 1) == stride * n
  {
  }

  function Head(firstPlay: nat, topMenu: nat, count: nat): (s: seq<Byte>)
    requires firstPlay < 0x1_0000 && topMenu < 0x1_0000 && count <= 0xfffd
    ensures |s| == 26
    ensures BE32(s, 0) == 26 + 4 * count && s[17] == 1
    ensures BE16(s, 20) == firstPlay && BE16(s, 22) == topMenu && BE16(s, 24) == count
  {
    Put32(26 + 4 * count) + Zeros(12) + [1, 1, 0, 0] + Put16(firstPlay) + Put16(topMenu) + Put16(count)
  }

  /** A unit key file, padded to any length. */
  function Print(keys: seq<Block>, firstPlay: nat, topMenu: nat, titles: seq<nat>, stride: nat, pad: nat): seq<Byte>
    requires firstPlay < 0x1_0000 && topMenu < 0x1_0000 && |titles| <= 0xfffd && Shorts(titles)
    requires |keys| < 0x1_0000 && stride >= 48
  {
    Head(firstPlay, topMenu, |titles|) + TitleEntries(titles) +
    (Put16(|keys|) + Zeros(14)) + KeyEntries(keys, stride) + Zeros(pad)
  }

  lemma {:induction false} TitleEntryAt(titles: seq<nat>, i: nat)
    requires Shorts(titles) && i < |titles|
    ensures BE16(TitleEntries(titles), 4 * i + 2) == titles[i]
  {
    var e := Zeros(2) + Put16(titles[0]);
    var s := TitleEntries(titles);
    assert s[..4] == e && s[4..] == TitleEntries(titles[1..]);
    if i == 0 {
      assert BE16(s, 2) == BE16(Put16(titles[0]), 0);
    } else {
      TitleEntryAt(titles[1..], i - 1);
      assert BE16(s, 4 * i + 2) == BE16(s[4..], 4 * (i - 1) + 2);
    }
  }

  lemma {:induction false} KeyEntryAt(keys: seq<Block>, stride: nat, i: nat, a: nat)
    requires i < |keys| && stride >= 48 && a == stride * i
    requires a + stride <= stride * |keys|
    ensures KeyEntries(keys, stride)[a + 32..a + 48] == keys[i]
    decreases i
  {
    if i == 0 {
      FirstEntry(keys, stride);
    } else {
      EntryLength(stride, i);
      EntryLength(stride, |keys|);
      KeyEntryAt(keys[1..], stride, i - 1, a - stride);
      LaterEntry(keys, stride, a - stride);
    }
  }

  lemma SliceOfSlice(p: seq<Byte>, at: nat, len: nat, x: nat, y: nat)
    requires at + len <= |p| && x <= y <= len
    ensures p[at..at + len][x..y] == p[at + x..at + y]
  {
    var s := p[at..at + len];
    assert forall i :: x <= i < y ==> s[i] == p[at + i];
    assert s[x..y] == p[at + x..at + y];
  }

  lemma FirstEntry(keys: seq<Block>, stride: nat)
    requires keys != [] && stride >= 48
    ensures 48 <= |KeyEntries(keys, stride)| && KeyEntries(keys, stride)[32..48] == keys[0]
  {
    var e := Zeros(32) + keys[0] + Zeros(stride - 48);
    var s := KeyEntries(keys, stride);
    assert s == e + KeyEntries(keys[1..], stride);
    assert s[32..48] == e[32..48] == keys[0];
  }

  lemma LaterEntry(keys: seq<Block>, stride: nat, a: nat)
    requires keys != [] && stride >= 48 && a + 48 <= |KeyEntries(keys[1..], stride)|
    ensures stride + a + 48 <= |KeyEntries(keys, stride)|
    ensures KeyEntries(keys, stride)[stride + a + 32..stride + a + 48] == KeyEntries(keys[1..], stride)[a + 32..a + 48]
  {
    var e := Zeros(32) + keys[0] + Zeros(stride - 48);
    var s, rest := KeyEntries(keys, stride), KeyEntries(keys[1..], stride);
    assert s == e + rest && |e| == stride;
  }

  lemma PrintedHead(p: seq<Byte>, firstPlay: nat, topMenu: nat, n: nat)
    requires firstPlay < 0x1_0000 && topMenu < 0x1_0000 && n <= 0xfffd
    requires |p| >= 26 && p[..26] == Head(firstPlay, topMenu, n)
    ensures HeaderFits(p) && BE32(p, 0) == 26 + 4 * n
    ensures BE16(p, 20) == firstPlay && BE16(p, 22) == topMenu && BE16(p, 24) == n
  {
    assert forall i :: 0 <= i < 26 ==> p[i] == p[..26][i];
  }

  // The parts of the printed file, as the parser addresses them.
  lemma PrintedParts(keys: seq<Block>, firstPlay: nat, topMenu: nat, titles: seq<nat>, stride: nat, pad: nat, p: seq<Byte>)
    requires firstPlay < 0x1_0000 && topMenu < 0x1_0000 && |titles| <= 0xfffd && Shorts(titles)
    requires |keys| < 0x1_0000 && stride >= 48 && p == Print(keys, firstPlay, topMenu, titles, stride, pad)
    ensures HeaderFits(p) && KeyCountFits(p) && KeyPos(p) == 26 + 4 * |titles| && KeyCount(p) == |keys|
    ensures TitlesFit(p) && BE16(p, 20) == firstPlay && BE16(p, 22) == topMenu && BE16(p, 24) == |titles|
    ensures p[26..26 + 4 * |titles|] == TitleEntries(titles)
    ensures var at, k := KeyPos(p) + 16, KeyEntries(keys, stride); at + |k| <= |p| && p[at..at + |k|] == k
  {
    var h, t := Head(firstPlay, topMenu, |titles|), TitleEntries(titles);
    var n, k := Put16(|keys|) + Zeros(14), KeyEntries(keys, stride);
    FiveParts(h, t, n, k, Zeros(pad), p);
    PrintedHead(p, firstPlay, topMenu, |titles|);
    assert BE16(n, 0) == BE16(Put16(|keys|), 0);
    hide Head, KeyEntries, TitleEntries, Put16;
    SameBE16(p, 26 + |t|, n);
  }

  lemma FiveParts(h: seq<Byte>, t: seq<Byte>, n: seq<Byte>, k: seq<Byte>, z: seq<Byte>, p: seq<Byte>)
    requires p == h + t + n + k + z
    ensures p[..|h|] == h && p[|h|..|h| + |t|] == t
    ensures var at := |h| + |t|; p[at..at + |n|] == n && p[at + |n|..at + |n| + |k|] == k
  {
  }

  lemma SameBE16(p: seq<Byte>, at: nat, s: seq<Byte>)
    requires at + |s| <= |p| && p[at..at + |s|] == s && |s| >= 2
    ensures BE16(p, at) == BE16(s, 0)
  {
    assert p[at..at + |s|][0] == p[at] && p[at..at + |s|][1] == p[at + 1];
  }

  // The keys that the parser reads, and the title map that it builds.
  ghost predicate HasKeys(p: seq<Byte>, stride: nat, keys: seq<Block>) {
    && KeyCountFits(p) && KeyCount(p) == |keys| && KeysFit(p) && LastKeyFits(p, stride)
    && forall i :: 0 <= i < |keys| ==> KeyPos(p) + 48 + stride * i + 16 <= |p| && KeyAt(p, stride, i) == keys[i]
  }

  ghost predicate HasTitles(p: seq<Byte>, numbers: seq<nat>, n: nat) {
    && TitlesFit(p) && BE16(p, 24) + 2 == |numbers|
    && forall i :: 0 <= i < |numbers| ==> ToIndex(TitleNumber(p, i), n) + 1 == numbers[i]
  }

  // A printed file shows its keys at its stride, and its title map.
  lemma PrintedFile(keys: seq<Block>, firstPlay: nat, topMenu: nat, titles: seq<nat>, stride: nat, pad: nat, p: seq<Byte>)
    requires Printed(keys, firstPlay, topMenu, titles, stride, pad, p)
    ensures HeaderFits(p)
    ensures HasKeys(p, stride, keys)
    ensures HasTitles(p, [firstPlay, topMenu] + titles, |keys|)
  {
    PrintedParts(keys, firstPlay, topMenu, titles, stride, pad, p);
    PrintedKeys(keys, stride, p);
    PrintedTitles(firstPlay, topMenu, titles, |keys|, p);
  }

  // A printed file with keys, and with the number of a key for every title.
  ghost predicate Printed(keys: seq<Block>, firstPlay: nat, topMenu: nat, titles: seq<nat>, stride: nat, pad: nat, p: seq<Byte>) {
    && 0 < |keys| < 0x1_0000 && |titles| <= 0xfffd && stride >= 48
    && 1 <= firstPlay <= |keys| && 1 <= topMenu <= |keys|
    && (forall i :: 0 <= i < |titles| ==> 1 <= titles[i] <= |keys|)
    && Shorts(titles) && p == Print(keys, firstPlay, topMenu, titles, stride, pad)
  }

  // The parsed title map is that of the numbers.
  ghost predicate TitlesAre(uk: UnitKeys, numbers: seq<nat>)
    reads uk, uk.titleCpsUnit
  {
    && uk.titleCpsUnit != null && uk.numTitles + 2 == uk.titleCpsUnit.Length == |numbers|
    && forall i :: 0 <= i < |numbers| ==> uk.titleCpsUnit[i] + 1 == numbers[i]
  }

  /** Printing and then parsing recovers every key and the whole title map, for
      any number of keys and titles, when the file was printed at the stride that
      the parser chooses. */
  method RoundTrip(ghost keys: seq<Block>, ghost firstPlay: nat, ghost topMenu: nat, ghost titles: seq<nat>,
                   ghost stride: nat, ghost pad: nat, p: seq<Byte>, aacs2: bool)
    returns (uk: UnitKeys?)
    requires Printed(keys, firstPlay, topMenu, titles, stride, pad, p) && |p| > 2048
    requires KeyCountFits(p) ==> Stride(p, aacs2) == stride
    ensures uk != null && uk.numUk == |keys| && uk.encUk == keys && TitlesAre(uk, [firstPlay, topMenu] + titles)
  {
    PrintedFile(keys, firstPlay, topMenu, titles, stride, pad, p);
    uk := Parse(p, aacs2);
    assert forall i :: 0 <= i < |keys| ==> uk.encUk[i] == keys[i];
  }

  // ------------------------------------------------------------------
  // When a file with the wide stride is read with the narrow one

  /** Every byte of the key data: a key's, or filler. */
  lemma {:induction false} EntryByte(keys: seq<Block>, stride: nat, j: nat, o: nat, a: nat)
    requires j < |keys| && stride >= 48 && o < stride && a == stride * j + o
    ensures a < |KeyEntries(keys, stride)|
    ensures KeyEntries(keys, stride)[a] == if 32 <= o < 48 then keys[j][o - 32] else 0
    decreases j
  {
    EntryLength(stride, |keys|);
    var e := Zeros(32) + keys[0] + Zeros(stride - 48);
    assert |e| == stride;
    assert KeyEntries(keys, stride) == e + KeyEntries(keys[1..], stride);
    if j > 0 {
      EntryLength(stride, j);
      EntryByte(keys[1..], stride, j - 1, o, a - stride);
    }
  }

  // What the narrow stride finds in a file with the wide one: every fourth
  // place holds a key, another one than it should.
  function Misread(keys: seq<Block>, i: nat): Block
    requires i < |keys|
  {
    if i % 4 == 0 then keys[3 * (i / 4)] else ZeroBlock()
  }

  lemma MisreadByte(keys: seq<Block>, i: nat, r: nat)
    requires i < |keys| && r < 16
    ensures 48 * i + 32 + r < |KeyEntries(keys, 64)|
    ensures KeyEntries(keys, 64)[48 * i + 32 + r] == Misread(keys, i)[r]
  {
    var q, m := i / 4, i % 4;
    var a := 48 * i + 32 + r;
    if m == 0 {
      EntryByte(keys, 64, 3 * q, 32 + r, a);
    } else if m == 1 {
      EntryByte(keys, 64, 3 * q + 1, 16 + r, a);
    } else if m == 2 {
      EntryByte(keys, 64, 3 * q + 2, r, a);
    } else {
      EntryByte(keys, 64, 3 * q + 2, 48 + r, a);
    }
  }

  lemma BlockInside(p: seq<Byte>, at: nat, k: seq<Byte>, x: nat, b: Block)
    requires at + |k| <= |p| && p[at..at + |k|] == k && x + 16 <= |k|
    requires forall r :: 0 <= r < 16 ==> k[x + r] == b[r]
    ensures p[at + x..at + x + 16] == b
  {
    forall r | 0 <= r < 16
      ensures p[at + x + r] == b[r]
    {
      assert p[at..at + |k|][x + r] == k[x + r] == b[r];
    }
  }

  lemma MisreadBlock(keys: seq<Block>, i: nat)
    requires i < |keys|
    ensures 48 * i + 48 <= |KeyEntries(keys, 64)|
    ensures forall r :: 0 <= r < 16 ==> KeyEntries(keys, 64)[48 * i + 32 + r] == Misread(keys, i)[r]
  {
    MisreadByte(keys, i, 15);
    forall r | 0 <= r < 16
      ensures KeyEntries(keys, 64)[48 * i + 32 + r] == Misread(keys, i)[r]
    {
      MisreadByte(keys, i, r);
    }
  }

  lemma NarrowRead(p: seq<Byte>, k: seq<Byte>, i: nat, b: Block)
    requires KeyCountFits(p) && KeyPos(p) + 16 + |k| <= |p| && p[KeyPos(p) + 16..KeyPos(p) + 16 + |k|] == k
    requires 48 * i + 48 <= |k| && forall r :: 0 <= r < 16 ==> k[48 * i + 32 + r] == b[r]
    ensures KeyPos(p) + 48 + 48 * i + 16 <= |p| && KeyAt(p, KEY_STRIDE, i) == b
  {
    BlockInside(p, KeyPos(p) + 16, k, 48 * i + 32, b);
  }

  ghost predicate OnlyFirst(keys: seq<Block>) {
    forall i :: 1 <= i < |keys| ==> keys[i] == ZeroBlock()
  }

  // Every key but the first would have to be empty.
  lemma {:induction false} MisreadsAll(keys: seq<Block>, i: nat)
    requires 1 <= i < |keys| && forall j :: 0 <= j < |keys| ==> Misread(keys, j) == keys[j]
    ensures keys[i] == ZeroBlock()
    decreases i
  {
    assert Misread(keys, i) == keys[i];
    if i % 4 == 0 {
      MisreadsAll(keys, 3 * (i / 4));
    }
  }

  lemma MisreadsIff(keys: seq<Block>)
    ensures (forall i :: 0 <= i < |keys| ==> Misread(keys, i) == keys[i]) <==> OnlyFirst(keys)
  {
    if forall i :: 0 <= i < |keys| ==> Misread(keys, i) == keys[i] {
      forall i | 1 <= i < |keys|
        ensures keys[i] == ZeroBlock()
      {
        MisreadsAll(keys, i);
      }
    }
  }

  lemma ReadNarrowly(keys: seq<Block>, firstPlay: nat, topMenu: nat, titles: seq<nat>, pad: nat, p: seq<Byte>)
    requires Printed(keys, firstPlay, topMenu, titles, KEY_STRIDE_AACS2, pad, p)
    ensures KeyCountFits(p)
    ensures forall i :: 0 <= i < |keys| ==> KeyPos(p) + 48 + 48 * i + 16 <= |p| && KeyAt(p, 48, i) == Misread(keys, i)
  {
    PrintedParts(keys, firstPlay, topMenu, titles, KEY_STRIDE_AACS2, pad, p);
    hide Print, KeyEntries, TitleEntries, Misread, HeaderFits, TitlesFit, Shorts;
    forall i | 0 <= i < |keys|
      ensures KeyPos(p) + 48 + 48 * i + 16 <= |p| && KeyAt(p, 48, i) == Misread(keys, i)
    {
      MisreadBlock(keys, i);
      NarrowRead(p, KeyEntries(keys, 64), i, Misread(keys, i));
    }
  }

  /** The place that tells the two strides apart is an absolute position: a file
      printed with the wide stride is parsed right if and only if it has one key,
      or something happens to stand at that place, or its other keys are empty. */
  method ParseWide(ghost keys: seq<Block>, ghost firstPlay: nat, ghost topMenu: nat, ghost titles: seq<nat>,
                   ghost pad: nat, p: seq<Byte>)
    returns (uk: UnitKeys?)
    requires Printed(keys, firstPlay, topMenu, titles, KEY_STRIDE_AACS2, pad, p) && |p| > 2048
    ensures uk != null && |uk.encUk| == |keys|
    ensures uk.encUk == keys <==> |keys| == 1 || p[112..128] != Zeros(16) || OnlyFirst(keys)
    ensures TitlesAre(uk, [firstPlay, topMenu] + titles)
  {
    PrintedFile(keys, firstPlay, topMenu, titles, KEY_STRIDE_AACS2, pad, p);
    uk := Parse(p, true);
    if Stride(p, true) == KEY_STRIDE_AACS2 {
      assert forall i :: 0 <= i < |keys| ==> uk.encUk[i] == keys[i];
    } else {
      ReadNarrowly(keys, firstPlay, topMenu, titles, pad, p);
      MisreadsIff(keys);
      assert uk.encUk == keys <==> forall i :: 0 <= i < |keys| ==> Misread(keys, i) == keys[i];
    }
  }

  /** In particular, without titles the place is filler: two or more keys are
      misread as soon as the second is not empty. */
  lemma WithoutTitles(keys: seq<Block>, firstPlay: nat, topMenu: nat, pad: nat, p: seq<Byte>)
    requires Printed(keys, firstPlay, topMenu, [], KEY_STRIDE_AACS2, pad, p) && |keys| >= 2
    ensures KeyCountFits(p) && |p| >= 128 && p[112..128] == Zeros(16) && Stride(p, true) == KEY_STRIDE
  {
    PrintedParts(keys, firstPlay, topMenu, [], KEY_STRIDE_AACS2, pad, p);
    var at, k := KeyPos(p) + 16, KeyEntries(keys, 64);
    EntryByte(keys, 64, 1, 21, 85);
    forall x | 112 <= x < 128
      ensures p[x] == 0
    {
      EntryByte(keys, 64, 1, x - 106, x - 42);
      assert p[at..at + |k|][x - 42] == p[x];
    }
  }

  lemma PrintedTitles(firstPlay: nat, topMenu: nat, titles: seq<nat>, n: nat, p: seq<Byte>)
    requires Shorts(titles) && 1 <= firstPlay <= n && 1 <= topMenu <= n
    requires forall i :: 0 <= i < |titles| ==> 1 <= titles[i] <= n
    requires TitlesFit(p) && BE16(p, 20) == firstPlay && BE16(p, 22) == topMenu && BE16(p, 24) == |titles|
    requires p[26..26 + 4 * |titles|] == TitleEntries(titles)
    ensures HasTitles(p, [firstPlay, topMenu] + titles, n)
  {
    forall i | 0 <= i < |titles| + 2
      ensures TitleNumber(p, i) == ([firstPlay, topMenu] + titles)[i]
    {
      if i >= 2 {
        TitleEntryAt(titles, i - 2);
        assert BE16(p, 28 + 4 * (i - 2)) == BE16(p[26..26 + 4 * |titles|], 4 * (i - 2) + 2);
      }
    }
  }

  lemma PrintedKeys(keys: seq<Block>, stride: nat, p: seq<Byte>)
    requires KeyCountFits(p) && KeyCount(p) == |keys| && |keys| > 0 && stride >= 48
    requires var at, k := KeyPos(p) + 16, KeyEntries(keys, stride); at + |k| <= |p| && p[at..at + |k|] == k
    ensures HasKeys(p, stride, keys)
  {
    forall i | 0 <= i < |keys|
      ensures KeyPos(p) + 48 + stride * i + 16 <= |p| && KeyAt(p, stride, i) == keys[i]
    {
      PrintedKey(keys, stride, p, i, stride * i);
    }
    StrideAtLeast(stride, |keys|);
  }

  lemma PrintedKey(keys: seq<Block>, stride: nat, p: seq<Byte>, i: nat, a: nat)
    requires i < |keys| && stride >= 48 && a == stride * i && KeyCountFits(p)
    requires var at, k := KeyPos(p) + 16, KeyEntries(keys, stride); at + |k| <= |p| && p[at..at + |k|] == k
    ensures KeyPos(p) + 48 + a + 16 <= |p| && p[KeyPos(p) + 48 + a..KeyPos(p) + 48 + a + 16] == keys[i]
  {
    var at, k := KeyPos(p) + 16, KeyEntries(keys, stride);
    EntryLength(stride, i + 1);
    StrideMonotone(stride, i + 1, |keys|);
    KeyEntryAt(keys, stride, i, a);
    SliceOfSlice(p, at, |k|, a + 32, a + 48);
  }

  lemma StrideAtLeast(stride: nat, n: nat)
    requires stride >= 48
    ensures 48 * n <= stride * n
  {
  }
}
