/** The two media the recorder serialises to: a file with one position for reading and
    writing, and a growing vector with an offset. */
module Archive {
  import opened Bytes
  import opened Codec

  /** A file as `Utils::FileSeek`, `FileTell`, `FileRead` and `FileWrite` see it. */
  class ByteFile {
    var data: bytes
    var pos: nat

    constructor (contents: bytes)
      ensures data == contents && pos == 0
    {
      data, pos := contents, 0;
    }

    method Seek(offset: nat)
      modifies this`pos
      ensures pos == offset
    {
      pos := offset;
    }

    method SeekEnd()
      modifies this`pos
      ensures pos == |data|
    {
      pos := |data|;
    }

    /** Empty writes are rejected without effect. */
    method Write(x: bytes)
      modifies this
      ensures data == Overwrite(old(data), old(pos), x)
      ensures pos == old(pos) + |x|
    {
      if |x| == 0 {
        return;
      }
      data := Overwrite(data, pos, x);
      pos := pos + |x|;
    }

    /** Reads up to `n` bytes; fewer are available at the end of the file. */
    method Read(n: nat) returns (r: bytes)
      modifies this`pos
      ensures Take(data, old(pos), n).Parsed? ==> r == Take(data, old(pos), n).value && pos == old(pos) + n
      ensures Take(data, old(pos), n).NoParse? && 0 < n ==> |r| < n
      ensures pos == old(pos) + |r| && |r| <= n
    {
      if pos >= |data| {
        r := [];
      } else if pos + n <= |data| {
        r := data[pos..pos + n];
      } else {
        r := data[pos..];
      }
      pos := pos + |r|;
    }

    /** A short read leaves the destination in an unspecified state. */
    method ReadU32() returns (v: u32)
      modifies this`pos
      ensures DecU32(data, old(pos)).Parsed? ==> Parsed(v, pos) == DecU32(data, old(pos))
    {
      var r := Read(4);
      if |r| == 4 {
        ghost var start := old(pos);
        assert r == data[start..start + 4];
        assert forall i :: 0 <= i < 4 ==> r[i] == data[start + i];
        v := DecU32(r, 0).value;
      } else {
        v := *;
      }
    }

    method ReadU64() returns (v: u64)
      modifies this`pos
      ensures DecU64(data, old(pos)).Parsed? ==> Parsed(v, pos) == DecU64(data, old(pos))
    {
      var low := ReadU32();
      var high := ReadU32();
      v := low + TWO_32 * high;
    }

    method ReadI32() returns (v: i32)
      modifies this`pos
      ensures DecI32(data, old(pos)).Parsed? ==> Parsed(v, pos) == DecI32(data, old(pos))
    {
      var u := ReadU32();
      v := if u < 0x8000_0000 then u else u - TWO_32;
    }

    /** A vector of bytes: its size as `size_t`, then the elements. */
    method ReadBlob() returns (s: blob)
      modifies this`pos
      ensures DecBlob(data, old(pos)).Parsed? ==> Parsed(s, pos) == DecBlob(data, old(pos))
    {
      var n := ReadU64();
      s := Read(n);
    }
  }

  /** `DataArchive`: writes grow the vector by their size and land at `offset`; a read that
      does not fit leaves its destination and the offset alone. */
  class DataArchive {
    var data: bytes
    var offset: nat

    constructor (contents: bytes)
      ensures data == contents && offset == 0
    {
      data, offset := contents, 0;
    }

    method Write(x: bytes)
      requires offset <= |data|
      modifies this
      ensures data == Overwrite(old(data) + seq(|x|, _ => 0), old(offset), x)
      ensures offset == old(offset) + |x| <= |data|
      ensures old(offset) == |old(data)| ==> data == old(data) + x && offset == |data|
    {
      data := Overwrite(data + seq(|x|, _ => 0), offset, x);
      offset := offset + |x|;
    }

    method Read(n: nat, destination: bytes) returns (r: bytes)
      requires |destination| == n
      modifies this`offset
      ensures r == if old(offset) + n <= |data| then data[old(offset)..old(offset) + n] else destination
      ensures offset == if old(offset) + n <= |data| then old(offset) + n else old(offset)
    {
      r := destination;
      if offset + n <= |data| {
        r := data[offset..offset + n];
        offset := offset + n;
      }
    }

    method ReadU32(destination: u32) returns (v: u32)
      modifies this`offset
      ensures DecU32(data, old(offset)).Parsed? ==> Parsed(v, offset) == DecU32(data, old(offset))
      ensures DecU32(data, old(offset)).NoParse? ==> v == destination && offset == old(offset)
    {
      var r := Read(4, EncU32(destination));
      assert |r| == 4;
      if offset != old(offset) {
        ghost var start := old(offset);
        assert forall i :: 0 <= i < 4 ==> r[i] == data[start + i];
      } else {
        U32RoundTrip(EncU32(destination), 0, destination);
      }
      v := DecU32(r, 0).value;
    }

    method ReadU64(destination: u64) returns (v: u64)
      modifies this`offset
      ensures DecU64(data, old(offset)).Parsed? ==> Parsed(v, offset) == DecU64(data, old(offset))
      ensures DecU64(data, old(offset)).NoParse? ==> v == destination && offset == old(offset)
    {
      var r := Read(8, EncU64(destination));
      assert |r| == 8;
      if offset != old(offset) {
        ghost var start := old(offset);
        assert forall i :: 0 <= i < 8 ==> r[i] == data[start + i];
      } else {
        U64RoundTrip(EncU64(destination), 0, destination);
      }
      v := DecU64(r, 0).value;
    }

    /** `Serialize(std::string&)` when reading: the size, a resize, the characters. */
    method ReadBlob(destination: blob) returns (s: blob)
      modifies this`offset
      ensures DecBlob(data, old(offset)).Parsed? ==> Parsed(s, offset) == DecBlob(data, old(offset))
    {
      var n := ReadU64(|destination|);
      s := if n <= |destination| then destination[..n] else destination + seq(n - |destination|, _ => 0);
      if n > 0 {
        s := Read(n, s);
      }
    }
  }
}
