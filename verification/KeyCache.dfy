/** The key cache (keydbcfg.c): one text file for each kind of key and disc. */
module KeyCache {
  import opened Bytes
  import opened HexText

  datatype Path = Path(kind: string, disc: seq<Byte>)

  // What reading a key leaves in the buffer: the bytes before the first pair
  // that is not hexadecimal, even when the whole does not count as read.
  function Parsed(s: string, before: seq<Byte>): (r: seq<Byte>)
    requires 2 * |before| <= |s|
    ensures |r| == |before|
  {
    seq(|before|, i requires 0 <= i < |before| => if i < GoodPairs(s, 0, |before|) then PairAt(s, i).value else before[i])
  }

  predicate LongEnough(files: map<Path, string>, path: Path, n: nat) {
    path in files && |files[path]| >= 2 * n
  }

  predicate Found(files: map<Path, string>, path: Path, n: nat) {
    LongEnough(files, path, n) && GoodPairs(files[path], 0, n) == n
  }

  function AfterFind(files: map<Path, string>, path: Path, before: seq<Byte>): (r: seq<Byte>)
    ensures |r| == |before|
  {
    if LongEnough(files, path, |before|) then Parsed(files[path], before) else before
  }

  class Cache {
    var files: map<Path, string>
    const reliable: bool // every write succeeds

    /** keycache_save.  Opening may fail, and writing may stop at any point. */
    method Save(path: Path, key: seq<Byte>) returns (ok: bool)
      modifies this
      ensures files == old(files)
           || exists n :: 0 <= n <= 2 * |key| && files == old(files)[path := Hex(key)[..n]]
      ensures ok ==> files == old(files)[path := Hex(key)]
      ensures reliable ==> ok
    {
      var opens: bool := *;
      if !opens && !reliable {
        return false;
      }
      var keyStr := new char[2 * |key| + 1](_ => '\0');
      PrintHex(keyStr, key);
      var n :| 0 <= n <= 2 * |key| && (reliable ==> n == 2 * |key|);
      files := files[path := keyStr[..n]];
      assert keyStr[..n] == Hex(key)[..n];
      ok := n == 2 * |key|;
    }

    /** keycache_find */
    method Find(path: Path, key: array<Byte>) returns (ok: bool)
      modifies key
      ensures ok == Found(files, path, key.Length)
      ensures key[..] == AfterFind(files, path, old(key[..]))
      ensures if path in files && |files[path]| >= 2 * key.Length then
                exists k: nat :: ReadUpTo(files[path], old(key[..]), key[..], k) && (ok <==> k == key.Length)
              else !ok && key[..] == old(key[..])
    {
      hide ReadUpTo;
      if path !in files || |files[path]| < 2 * key.Length {
        return false;
      }
      ghost var before := key[..];
      ok := ParseHex(key, files[path]);
      assert key[..] == Parsed(files[path], before);
    }
  }

  // ------------------------------------------------------------------
  // A true cache

  /** The text of a key, whole or cut short. */
  ghost predicate Genuine(text: string, key: Block) {
    text <= Hex(key) || Hex(key) <= text
  }

  ghost predicate TrueFile(files: map<Path, string>, path: Path, key: Block) {
    path in files ==> Genuine(files[path], key)
  }

  /** What is read from a true file is the key, or nothing at all. */
  lemma TrueFind(files: map<Path, string>, path: Path, key: Block, before: Block)
    requires TrueFile(files, path, key)
    ensures AfterFind(files, path, before) == if Found(files, path, 16) then key else before
    ensures Found(files, path, 16) <==> LongEnough(files, path, 16)
  {
    if LongEnough(files, path, 16) {
      ParsedIsKey(files[path], key, before);
    }
  }

  lemma ParsedIsKey(text: string, key: Block, before: Block)
    requires Hex(key) <= text
    ensures GoodPairs(text, 0, 16) == 16 && Parsed(text, before) == key
  {
    hide Hex;
    HexRoundTrip(key, text);
  }

  /** A complete save is found again. */
  lemma SavedIsFound(files: map<Path, string>, path: Path, key: Block, before: Block)
    requires path in files && files[path] == Hex(key)
    ensures Found(files, path, 16) && AfterFind(files, path, before) == key
  {
    TrueFind(files, path, key, before);
  }

  // ------------------------------------------------------------------
  // A damaged cache

  ghost predicate Damaged(text: string) {
    |text| >= 32 && exists i :: 0 <= i < GoodPairs(text, 0, 16) < 16 && PairAt(text, i) != Some(0)
  }

  /** A key that is not found leaves the empty buffer empty, except when the file
      is long enough and has a byte other than zero before its first bad pair. */
  lemma FailedFind(files: map<Path, string>, path: Path)
    requires !Found(files, path, 16)
    ensures AfterFind(files, path, ZeroBlock()) != ZeroBlock() <==> path in files && Damaged(files[path])
  {
    if LongEnough(files, path, 16) {
      var s, z := files[path], ZeroBlock();
      GoodOnes(s, 0, 16);
      var after := Parsed(s, z);
      if after != z {
        var i :| 0 <= i < 16 && after[i] != z[i];
        assert PairAt(s, i) != Some(0);
      }
      if Damaged(s) {
        var i :| 0 <= i < GoodPairs(s, 0, 16) && PairAt(s, i) != Some(0);
        assert after[i] != 0;
      }
    }
  }

  lemma GoodOnes(s: string, i: nat, n: nat)
    requires i <= n && 2 * n <= |s|
    ensures forall j :: i <= j < GoodPairs(s, i, n) ==> PairAt(s, j).Some?
  {
  }

  /** For instance: two digits and then something else. */
  lemma DamagedExample(text: string)
    requires |text| >= 32 && text[..4] == "01zz"
    ensures Damaged(text) && GoodPairs(text, 0, 16) == 1
  {
    assert text[0] == text[..4][0] && text[1] == text[..4][1] && text[2] == text[..4][2];
    assert PairAt(text, 0) == Some(1) && PairAt(text, 1) == None;
    assert GoodPairs(text, 1, 16) == 1;
  }
}
