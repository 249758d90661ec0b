/** A copy that turns chunks of zero bytes into holes (SP_HW1/cp.c). */
module SparseCopy {
  import opened Arithmetic

  type Bytes = seq<bv8>

  function Zeros(n: nat): Bytes {
    seq(n, _ => 0)
  }

  predicate AllZero(bytes: Bytes) {
    forall k | 0 <= k < |bytes| :: bytes[k] == 0
  }

  method AllZeros(buf: array<bv8>, numRead: nat) returns (zeros: bool)
    requires numRead <= buf.Length
    ensures zeros <==> AllZero(buf[..numRead])
  {
    var i := 0;
    while i < numRead
      invariant 0 <= i <= numRead
      invariant AllZero(buf[..i])
    {
      if buf[i] != 0 {
        assert buf[..numRead][i] != 0;
        return false;
      }
      i := i + 1;
    }
    return true;
  }

  /** An open file with its offset. Seeking past the end leaves the size alone; a write there reads back as zeros
      in between. */
  class OutputFile {
    var data: Bytes
    var offset: nat

    constructor ()
      ensures data == [] && offset == 0
    {
      data, offset := [], 0;
    }

    method SeekForward(n: nat)
      modifies this
      ensures data == old(data) && offset == old(offset) + n
    {
      offset := offset + n;
    }

    method Write(bytes: Bytes)
      requires |data| <= offset
      modifies this
      ensures data == old(data) + Zeros(old(offset) - |old(data)|) + bytes
      ensures offset == old(offset) + |bytes|
    {
      data := data + Zeros(offset - |data|) + bytes;
      offset := offset + |bytes|;
    }
  }

  // ---------- the specification ----------

  /** The chunk boundary before `pos`: a multiple of the chunk size, less than a chunk away or exactly one. */
  function Boundary(pos: nat, chunk: nat): (start: nat)
    requires 0 < pos && 0 < chunk
    ensures start < pos
  {
    assert (pos - 1) / chunk * chunk <= pos - 1;
    (pos - 1) / chunk * chunk
  }

  lemma BoundaryBefore(start: nat, n: nat, chunk: nat)
    requires 0 < n <= chunk && start % chunk == 0
    ensures Boundary(start + n, chunk) == start
    ensures n == chunk ==> (start + n) % chunk == 0
  {
    var q, i := (start + n - 1) / chunk, start / chunk;
    assert (q - i) * chunk == n - 1 - (start + n - 1) % chunk;
    if q != i {
      LargeMultiple(q - i, chunk);
    }
    OneLapCongruent(start, chunk);
  }

  /** Where the copy of the first `pos` bytes ends: behind the last chunk with a byte that is not zero. */
  function DataEnd(source: Bytes, pos: nat, chunk: nat): (end: nat)
    requires pos <= |source| && 0 < chunk
    ensures end <= pos
  {
    if pos == 0 then 0
    else if AllZero(source[Boundary(pos, chunk)..pos]) then DataEnd(source, Boundary(pos, chunk), chunk)
    else pos
  }

  /** What one chunk adds to the copy. */
  lemma ExtendCopy(source: Bytes, pos: nat, n: nat, data: Bytes)
    requires pos + n <= |source| && |data| <= pos
    requires source[..pos] == data + Zeros(pos - |data|)
    ensures AllZero(source[pos..pos + n]) ==> source[..pos + n] == data + Zeros(pos + n - |data|)
    ensures source[..pos + n] == data + Zeros(pos - |data|) + source[pos..pos + n]
  {
    assert source[..pos + n] == source[..pos] + source[pos..pos + n];
    if AllZero(source[pos..pos + n]) {
      assert source[pos..pos + n] == Zeros(n);
    }
  }

  method Read(source: Bytes, pos: nat, n: nat, buf: array<bv8>)
    requires pos + n <= |source| && n <= buf.Length
    modifies buf
    ensures buf[..n] == source[pos..pos + n]
  {
    forall k | 0 <= k < n {
      buf[k] := source[pos + k];
    }
  }

  /** The copy loop with full reads and writes: the source is the copy followed by zeros, and the copy ends where
      the specification says. */
  method Copy(source: Bytes, dest: OutputFile, chunk: nat)
    requires 0 < chunk && dest.data == [] && dest.offset == 0
    modifies dest
    ensures |dest.data| == DataEnd(source, |source|, chunk)
    ensures source == dest.data + Zeros(|source| - |dest.data|)
  {
    var buf := new bv8[chunk](_ => 0);
    var pos := 0;
    while pos < |source|
      invariant pos <= |source| && (pos < |source| ==> pos % chunk == 0)
      invariant dest.offset == pos && |dest.data| == DataEnd(source, pos, chunk)
      invariant source[..pos] == dest.data + Zeros(pos - |dest.data|)
      decreases |source| - pos
    {
      var numRead := if |source| - pos < chunk then |source| - pos else chunk;
      Read(source, pos, numRead, buf);
      BoundaryBefore(pos, numRead, chunk);
      ExtendCopy(source, pos, numRead, dest.data);
      var zeros := AllZeros(buf, numRead);
      if zeros {
        dest.SeekForward(numRead);
      } else {
        dest.Write(buf[..numRead]);
      }
      pos := pos + numRead;
    }
    assert source[..pos] == source;
  }

  /** The last chunk of a non-empty source. */
  function LastChunk(source: Bytes, chunk: nat): Bytes
    requires source != [] && 0 < chunk
  {
    source[Boundary(|source|, chunk)..]
  }

  /** The copy is the whole source if and only if that is empty or its last chunk has a byte that is not zero. */
  lemma CopyIsCompleteIff(source: Bytes, data: Bytes, chunk: nat)
    requires 0 < chunk && |data| == DataEnd(source, |source|, chunk)
    requires source == data + Zeros(|source| - |data|)
    ensures data == source <==> source == [] || !AllZero(LastChunk(source, chunk))
  {
    if source != [] {
      assert source[Boundary(|source|, chunk)..|source|] == LastChunk(source, chunk);
    }
  }

  /** The copy ends behind a chunk that is not all zero, and everything behind that chunk is zero. */
  lemma {:induction false} DataEndIsTight(source: Bytes, pos: nat, chunk: nat)
    requires pos <= |source| && 0 < chunk
    ensures var end := DataEnd(source, pos, chunk);
            && AllZero(source[end..pos])
            && (end > 0 ==> !AllZero(source[Boundary(end, chunk)..end]))
    ensures pos == |source| || pos % chunk == 0 ==>
              var end := DataEnd(source, pos, chunk); end == pos || end % chunk == 0
  {
    if pos > 0 {
      var start := Boundary(pos, chunk);
      if AllZero(source[start..pos]) {
        DataEndIsTight(source, start, chunk);
        var end := DataEnd(source, start, chunk);
        assert source[end..pos] == source[end..start] + source[start..pos];
        BoundaryIsMultiple(pos, chunk);
      }
    }
  }

  lemma BoundaryIsMultiple(pos: nat, chunk: nat)
    requires 0 < pos && 0 < chunk
    ensures Boundary(pos, chunk) % chunk == 0
  {
    var q := (pos - 1) / chunk;
    var r := (q * chunk) % chunk;
    assert r == (q - q * chunk / chunk) * chunk;
    if q != q * chunk / chunk {
      LargeMultiple(q - q * chunk / chunk, chunk);
    }
  }
}
