/** Reading a Media Key Block file (aacs.c): a body and the header behind it at a
    time, into a buffer that grows. */
module MkbReader {
  import opened Bytes
  import opened Mkb

  /** The header that the walk from `pos` stops at: its length is less than that
      of a header, or reaches past the end of the file.  There is none when the
      place of a header itself does. */
  function LastHeader(file: seq<Byte>, pos: nat): (r: Option<nat>)
    ensures r.Some? ==> pos <= r.value && r.value + 4 <= |file|
    decreases |file| - pos
  {
    if pos + 4 > |file| then None
    else
      var len := BE24(file, pos + 1);
      if len < 4 || len > |file| - pos then Some(pos) else LastHeader(file, pos + len)
  }

  // file_read, behind what has been read so far
  method ReadFile(file: seq<Byte>, data: array<Byte>, size: nat, n: nat) returns (ok: bool)
    requires size + n <= data.Length && size <= |file| && data[..size] == file[..size]
    modifies data
    ensures ok <==> size + n <= |file|
    ensures ok ==> data[..size + n] == file[..size + n]
  {
    ok := size + n <= |file|;
    if ok {
      forall i | 0 <= i < n {
        data[size + i] := file[size + i];
      }
      assert data[..size] == file[..size];
      assert data[size..size + n] == file[size..size + n];
      assert data[..size + n] == data[..size] + data[size..size + n];
    }
  }

  // realloc
  method Grow(data: array<Byte>, size: nat, capacity: nat) returns (bigger: array<Byte>)
    requires size <= data.Length <= capacity
    ensures fresh(bigger) && bigger.Length == capacity && bigger[..size] == data[..size]
  {
    bigger := new Byte[capacity](_ => 0);
    forall i | 0 <= i < data.Length {
      bigger[i] := data[i];
    }
  }

  lemma SameBE24(file: seq<Byte>, part: seq<Byte>, size: nat, i: nat)
    requires size <= |file| && part == file[..size] && i + 3 <= size
    ensures BE24(part, i) == BE24(file, i)
  {
  }

  /** _read_mkb_file: it ends, never reads past its buffer, and what it returns is
      the file up to and with the header that the walk stops at. */
  method ReadMkbFile(file: seq<Byte>) returns (data: array?<Byte>, size: nat)
    ensures data != null <==> LastHeader(file, 0).Some?
    ensures data == null ==> size == 0
    ensures data != null ==>
              size == LastHeader(file, 0).value + 4 && size <= data.Length && data[..size] == file[..size]
  {
    hide BE24;
    if |file| < 4 {
      return null, 0;
    }
    var buf := new Byte[65536](_ => 0);
    var chunkSize := 4;
    size := 0;
    while true
      invariant fresh(buf) && chunkSize >= 4 && size + chunkSize <= buf.Length
      invariant size <= |file| && buf[..size] == file[..size]
      invariant LastHeader(file, 0) == LastHeader(file, size + chunkSize - 4)
      decreases |file| - size
    {
      var ok := ReadFile(file, buf, size, chunkSize);
      if !ok {
        return null, 0;
      }
      size := size + chunkSize;
      chunkSize := BE24(buf[..size], size - 4 + 1);
      SameBE24(file, buf[..size], size, size - 4 + 1);
      if |file| - size + 4 < chunkSize {
        break;
      }
      if buf.Length < size + chunkSize {
        buf := Grow(buf, size, 2 * size + chunkSize);
      }
      if chunkSize < 4 {
        break;
      }
    }
    return buf, size;
  }

  lemma EncodeLength(rs: seq<Record>)
    requires WellFormed(rs)
    ensures |Encode(rs)| == if rs == [] then 0 else 4 + |rs[0].body| + |Encode(rs[1..])|
  {
  }

  lemma {:induction false} LastOfHeld(file: seq<Byte>, pos: nat, rs: seq<Record>, pad: nat)
    requires Holds(file, pos, rs, pad)
    ensures LastHeader(file, pos) == if pad >= 4 then Some(pos + |Encode(rs)|) else None
    decreases |rs|
  {
    EncodeLength(rs);
    hide Encode, Holds, BE24;
    if rs == [] {
      OnlyPadding(file, pos, pad);
    } else {
      HeaderLength(file, pos, rs, pad);
      LastOfHeld(file, pos + 4 + |rs[0].body|, rs[1..], pad);
    }
  }

  lemma HeaderLength(file: seq<Byte>, pos: nat, rs: seq<Record>, pad: nat)
    requires Holds(file, pos, rs, pad) && rs != []
    ensures pos + 4 + |rs[0].body| <= |file| && BE24(file, pos + 1) == 4 + |rs[0].body|
    ensures Holds(file, pos + 4 + |rs[0].body|, rs[1..], pad)
  {
    Header(file, pos, rs, pad);
  }

  lemma OnlyPadding(file: seq<Byte>, pos: nat, pad: nat)
    requires pos <= |file| && file[pos..] == Zeros(pad)
    ensures LastHeader(file, pos) == if pad >= 4 then Some(pos) else None
  {
    assert |file| == pos + pad;
    assert forall j :: 0 <= j < pad ==> file[pos + j] == file[pos..][j] == 0;
  }

  /** A file of well-formed records is read, all of them and four bytes of its
      padding, exactly when it has as much padding; a file that ends with its last
      record is refused. */
  lemma ReadsAllRecords(rs: seq<Record>, pad: nat, file: seq<Byte>)
    requires WellFormed(rs) && file == Encode(rs) + Zeros(pad)
    ensures LastHeader(file, 0).Some? <==> pad >= 4
    ensures pad >= 4 ==> file[..LastHeader(file, 0).value + 4] == Encode(rs) + Zeros(4)
  {
    assert file[0..] == file;
    LastOfHeld(file, 0, rs, pad);
    if pad >= 4 {
      assert file[..|Encode(rs)| + 4] == Encode(rs) + Zeros(4);
    }
  }
}
