/** Binary.cpp: a byte buffer with one cursor, written and then read back in chunks. */
module BinaryBuffer {
  import opened Bytes
  import opened ByteStore

  function Concat(chunks: seq<seq<byte>>): seq<byte> {
    if chunks == [] then [] else Concat(chunks[..|chunks| - 1]) + chunks[|chunks| - 1]
  }

  function Sum(sizes: seq<nat>): nat {
    if sizes == [] then 0 else Sum(sizes[..|sizes| - 1]) + sizes[|sizes| - 1]
  }

  class Binary {
    var data: array?<byte>
    var size: nat
    var pos: nat

    /** Memory is allocated exactly when the size is positive, and the cursor never passes the size. */
    ghost predicate Valid()
      reads this
    {
      (data == null <==> size == 0) && (data != null ==> data.Length == size) && pos <= size
    }

    ghost function Contents(): seq<byte>
      reads this, data
    {
      if data == null then [] else data[..]
    }

    constructor ()
      ensures Valid() && size == 0
    {
      data, size, pos := null, 0, 0;
    }

    /** A new buffer of `n` bytes, none for `n <= 0`. The old one is freed. */
    method Ensure(n: int)
      modifies this
      ensures Valid() && pos == 0 && size == (if n > 0 then n else 0)
      ensures data == null || fresh(data)
    {
      pos := 0;
      data := null;
      size := 0;
      if n > 0 {
        size := n;
        data := new byte[n];
      }
    }

    method Seek()
      requires Valid()
      modifies this`pos
      ensures Valid() && pos == 0
    {
      pos := 0;
    }

    /** The precondition is the source's own assertion on the cursor, before the copy instead of after it. */
    method Read(target: array<byte>, n: nat)
      requires Valid() && pos + n <= size && n <= target.Length && target != data
      modifies this`pos, target
      ensures Valid() && pos == old(pos) + n
      ensures target[..n] == Contents()[old(pos)..pos] && target[n..] == old(target[n..])
      ensures Contents() == old(Contents())
    {
      for i := 0 to n
        invariant Valid() && pos == old(pos) && Contents() == old(Contents())
        invariant target[..i] == Contents()[pos..pos + i] && target[n..] == old(target[n..])
      {
        target[i] := data[pos + i];
      }
      pos := pos + n;
    }

    method Write(source: array<byte>, n: nat)
      requires Valid() && pos + n <= size && n <= source.Length && source != data
      modifies this`pos, data
      ensures Valid() && pos == old(pos) + n
      ensures Contents() == Patched(old(Contents()), old(pos), old(source[..n]))
    {
      ghost var before := Contents();
      for i := 0 to n
        invariant Valid() && pos == old(pos)
        invariant forall k :: 0 <= k < i ==> data[pos + k] == source[k]
        invariant forall k :: 0 <= k < pos || pos + i <= k < size ==> data[k] == before[k]
      {
        data[pos + i] := source[i];
      }
      IsPatched(before, Contents(), pos, source[..n]);
      pos := pos + n;
    }
  }

  method NewChunk(bytes: seq<byte>) returns (chunk: array<byte>)
    ensures fresh(chunk) && chunk.Length == |bytes| && chunk[..|bytes|] == bytes
  {
    chunk := new byte[|bytes|];
    forall k | 0 <= k < chunk.Length { chunk[k] := bytes[k]; }
  }

  /** Writes `bytes` from an array of the caller's. */
  method WriteChunk(b: Binary, bytes: seq<byte>)
    requires b.Valid() && b.pos + |bytes| <= b.size
    modifies b`pos, b.data
    ensures b.Valid() && b.pos == old(b.pos) + |bytes|
    ensures b.Contents() == Patched(old(b.Contents()), old(b.pos), bytes)
  {
    var chunk := NewChunk(bytes);
    b.Write(chunk, |bytes|);
  }

  /** Writes the chunks one after the other. */
  method WriteAll(b: Binary, chunks: seq<seq<byte>>)
    requires b.Valid() && b.pos + |Concat(chunks)| <= b.size
    modifies b`pos, b.data
    ensures b.Valid() && b.pos == old(b.pos) + |Concat(chunks)|
    ensures b.Contents() == Patched(old(b.Contents()), old(b.pos), Concat(chunks))
    decreases |chunks|
  {
    if chunks == [] {
      assert b.Contents() == Patched(b.Contents(), b.pos, []);
    } else {
      var front, last := chunks[..|chunks| - 1], chunks[|chunks| - 1];
      WriteAll(b, front);
      WriteChunk(b, last);
      PatchTwice(old(b.Contents()), old(b.pos), Concat(front), last);
    }
  }

  /** Reads `n` bytes into an array of the caller's. */
  method ReadChunk(b: Binary, n: nat) returns (bytes: seq<byte>)
    requires b.Valid() && b.pos + n <= b.size
    modifies b`pos
    ensures b.Valid() && b.pos == old(b.pos) + n && b.Contents() == old(b.Contents())
    ensures bytes == b.Contents()[old(b.pos)..b.pos]
  {
    var chunk := new byte[n];
    b.Read(chunk, n);
    bytes := chunk[..n];
  }

  lemma ConcatSnoc(front: seq<seq<byte>>, last: seq<byte>)
    ensures Concat(front + [last]) == Concat(front) + last
  {
    assert (front + [last])[..|front|] == front;
  }

  lemma SliceJoin(s: seq<byte>, from: nat, mid: nat, to: nat)
    requires from <= mid <= to <= |s|
    ensures s[from..mid] + s[mid..to] == s[from..to]
  {
  }

  /** Reads chunks of the given sizes one after the other. */
  method ReadAll(b: Binary, sizes: seq<nat>) returns (chunks: seq<seq<byte>>)
    requires b.Valid() && b.pos + Sum(sizes) <= b.size
    modifies b`pos
    ensures b.Valid() && b.pos == old(b.pos) + Sum(sizes) && b.Contents() == old(b.Contents())
    ensures |chunks| == |sizes| && forall i :: 0 <= i < |sizes| ==> |chunks[i]| == sizes[i]
    ensures Concat(chunks) == b.Contents()[old(b.pos)..b.pos]
    decreases |sizes|
  {
    if sizes == [] {
      chunks := [];
    } else {
      var front := ReadAll(b, sizes[..|sizes| - 1]);
      var last := ReadChunk(b, sizes[|sizes| - 1]);
      chunks := front + [last];
      ConcatSnoc(front, last);
      SliceJoin(b.Contents(), old(b.pos), b.pos - |last|, b.pos);
    }
  }

  /**
    Chunking does not matter: whatever the chunks written into a new buffer, and whatever other split
    of the same total they are read back with, the bytes are the same.
   */
  method RoundTrip(b: Binary, n: nat, written: seq<seq<byte>>, sizes: seq<nat>) returns (chunks: seq<seq<byte>>)
    requires |Concat(written)| == Sum(sizes) <= n
    modifies b, b.data
    ensures Concat(chunks) == Concat(written)
    ensures |chunks| == |sizes| && forall i :: 0 <= i < |sizes| ==> |chunks[i]| == sizes[i]
    ensures b.Valid() && b.size == n && b.pos == Sum(sizes)
  {
    b.Ensure(n);
    WriteAll(b, written);
    b.Seek();
    chunks := ReadAll(b, sizes);
    assert b.Contents()[0..b.pos] == Concat(written);
  }
}
