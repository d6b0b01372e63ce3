/** Fixed-size chunking of a buffer. */
module Chunker {
  import opened Common

  const DEFAULT_CHUNK_SIZE: nat := 4096

  type ChunkSize = n: nat | n > 0 witness 1

  /** A chunk size of zero means the default. */
  function EffectiveSize(size: nat): (n: ChunkSize)
    ensures size > 0 ==> n == size
  {
    if size == 0 then DEFAULT_CHUNK_SIZE else size
  }

  datatype Chunk = Chunk(hash: Hash, data: Bytes)

  function Flatten(pieces: seq<Bytes>): Bytes {
    if pieces == [] then [] else pieces[0] + Flatten(pieces[1..])
  }

  /** `pieces` cuts `buffer` into pieces of `n` bytes, the last one possibly shorter but never empty. */
  ghost predicate Cuts(pieces: seq<Bytes>, buffer: Bytes, n: nat) {
    && Flatten(pieces) == buffer
    && (forall i :: 0 <= i < |pieces| ==> 0 < |pieces[i]| <= n)
    && (forall i :: 0 <= i < |pieces| - 1 ==> |pieces[i]| == n)
  }

  /** The cut of a buffer. */
  function Split(buffer: Bytes, n: nat): (pieces: seq<Bytes>)
    requires n > 0
    decreases |buffer|
  {
    if buffer == [] then []
    else if |buffer| <= n then [buffer]
    else [buffer[..n]] + Split(buffer[n..], n)
  }

  /** The cut concatenates back to the buffer and has the right piece sizes. */
  lemma {:induction false} SplitCuts(buffer: Bytes, n: nat)
    requires n > 0
    ensures Cuts(Split(buffer, n), buffer, n)
    decreases |buffer|
  {
    if |buffer| > n {
      SplitCuts(buffer[n..], n);
      assert buffer == buffer[..n] + buffer[n..];
      assert Split(buffer, n)[1..] == Split(buffer[n..], n);
    } else if buffer != [] {
      assert Flatten([buffer]) == buffer + Flatten([]);
    }
  }

  lemma SplitStep(buffer: Bytes, n: nat, len: nat)
    requires n > 0 && buffer != [] && len == if n < |buffer| then n else |buffer|
    ensures Split(buffer, n) == [buffer[..len]] + Split(buffer[len..], n)
  {
    if |buffer| <= n {
      assert buffer[..len] == buffer && buffer[len..] == [];
    }
  }

  /** There is only one such cut, so the cut is determined by the content and the chunk size. */
  lemma {:induction false} CutUnique(pieces: seq<Bytes>, buffer: Bytes, n: nat)
    requires n > 0 && Cuts(pieces, buffer, n)
    ensures pieces == Split(buffer, n)
    decreases |pieces|
  {
    if pieces == [] {
    } else if |pieces| == 1 {
      assert pieces == [pieces[0]];
      assert Flatten(pieces) == pieces[0] + Flatten(pieces[1..]);
      assert buffer == pieces[0];
    } else {
      var rest := pieces[1..];
      assert |pieces[1]| > 0;
      assert Flatten(rest) == pieces[1] + Flatten(rest[1..]);
      assert buffer[..n] == pieces[0] && buffer[n..] == Flatten(rest);
      CutUnique(rest, buffer[n..], n);
      assert pieces == [pieces[0]] + rest;
    }
  }

  /** Chunks a buffer, hashing each piece. */
  method ChunkBuffer(digest: Bytes -> Hash, buffer: Bytes, chunkSize: nat) returns (chunks: seq<Chunk>)
    ensures |chunks| == |Split(buffer, EffectiveSize(chunkSize))|
    ensures forall i :: 0 <= i < |chunks| ==>
      chunks[i].data == Split(buffer, EffectiveSize(chunkSize))[i] && chunks[i].hash == digest(chunks[i].data)
  {
    var n := EffectiveSize(chunkSize);
    chunks := [];
    ghost var pieces: seq<Bytes> := [];
    var offset := 0;
    assert buffer[0..] == buffer;
    while offset < |buffer|
      invariant offset <= |buffer| && |pieces| == |chunks|
      invariant pieces + Split(buffer[offset..], n) == Split(buffer, n)
      invariant forall i :: 0 <= i < |chunks| ==> chunks[i] == Chunk(digest(pieces[i]), pieces[i])
    {
      var len := if n < |buffer| - offset then n else |buffer| - offset;
      var data := buffer[offset..offset + len];
      assert buffer[offset..][..len] == data;
      assert buffer[offset..][len..] == buffer[offset + len..];
      SplitStep(buffer[offset..], n, len);
      assert pieces + ([data] + Split(buffer[offset + len..], n))
          == (pieces + [data]) + Split(buffer[offset + len..], n);
      chunks := chunks + [Chunk(digest(data), data)];
      pieces := pieces + [data];
      offset := offset + len;
    }
    assert buffer[offset..] == [];
  }
}
