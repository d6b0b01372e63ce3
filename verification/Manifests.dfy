/** Snapshot manifests: which chunks rebuild which files. */
module Manifests {
  import opened Common
  import opened Ordering

  datatype FileEntry = FileEntry(path: string, size: nat, chunks: seq<Hash>)

  datatype Manifest = Manifest(name: string, chunkSize: nat, seqNo: nat, files: seq<FileEntry>)

  /** Every chunk some file of the list refers to. */
  ghost function ChunkSet(files: seq<FileEntry>): set<Hash> {
    set f, h | f in files && h in f.chunks :: h
  }

  lemma ChunkSetSnoc(files: seq<FileEntry>, k: nat)
    requires k < |files|
    ensures ChunkSet(files[..k + 1]) == ChunkSet(files[..k]) + Elems(files[k].chunks)
    ensures Elems(files[k].chunks) <= ChunkSet(files)
  {
    assert files[..k + 1] == files[..k] + [files[k]];
    assert files[k] in files;
  }

  /** The chunks a list of files refers to. */
  method ChunksOf(files: seq<FileEntry>) returns (hashes: set<Hash>)
    ensures hashes == ChunkSet(files)
  {
    hashes := {};
    for k := 0 to |files|
      invariant hashes == ChunkSet(files[..k])
    {
      ChunkSetSnoc(files, k);
      for j := 0 to |files[k].chunks|
        invariant hashes == ChunkSet(files[..k]) + Elems(files[k].chunks[..j])
      {
        assert files[k].chunks[..j + 1] == files[k].chunks[..j] + [files[k].chunks[j]];
        hashes := hashes + {files[k].chunks[j]};
      }
      assert files[k].chunks[..|files[k].chunks|] == files[k].chunks;
    }
    assert files[..|files|] == files;
  }

  /** The bytes a list of chunks stands for. */
  function Concat(chunks: seq<Hash>, bytes: map<Hash, Bytes>): Bytes
    requires forall h :: h in chunks ==> h in bytes
  {
    if chunks == [] then [] else bytes[chunks[0]] + Concat(chunks[1..], bytes)
  }

  lemma {:induction false} ConcatSnoc(chunks: seq<Hash>, h: Hash, bytes: map<Hash, Bytes>)
    requires forall g :: g in chunks + [h] ==> g in bytes
    ensures forall g :: g in chunks ==> g in bytes
    ensures Concat(chunks + [h], bytes) == Concat(chunks, bytes) + bytes[h]
  {
    assert h in chunks + [h];
    assert forall g :: g in chunks ==> g in chunks + [h];
    if chunks == [] {
      assert chunks + [h] == [h];
      assert Concat([h], bytes) == bytes[h] + Concat([], bytes);
    } else {
      assert (chunks + [h])[1..] == chunks[1..] + [h];
      ConcatSnoc(chunks[1..], h, bytes);
    }
  }

  /** Concatenation reads only the chunks it names. */
  lemma {:induction false} ConcatAgrees(chunks: seq<Hash>, a: map<Hash, Bytes>, b: map<Hash, Bytes>)
    requires forall h :: h in chunks ==> h in a && h in b && a[h] == b[h]
    ensures Concat(chunks, a) == Concat(chunks, b)
  {
    if chunks != [] { ConcatAgrees(chunks[1..], a, b); }
  }

  ghost predicate DistinctPaths(files: seq<FileEntry>) {
    forall i, j :: 0 <= i < j < |files| ==> files[i].path != files[j].path
  }

  /** Writing files in the given order; a repeated path keeps its last content. */
  function WriteFiles(files: seq<FileEntry>, bytes: map<Hash, Bytes>, dir: map<string, Bytes>): map<string, Bytes>
    requires forall f, h :: f in files && h in f.chunks ==> h in bytes
  {
    if files == [] then dir
    else WriteFiles(files[1..], bytes, dir[files[0].path := Concat(files[0].chunks, bytes)])
  }

  lemma {:induction false} WriteFilesSnoc(files: seq<FileEntry>, f: FileEntry, bytes: map<Hash, Bytes>,
                                          dir: map<string, Bytes>)
    requires forall g, h :: g in files + [f] && h in g.chunks ==> h in bytes
    ensures forall g, h :: g in files && h in g.chunks ==> h in bytes
    ensures f in files + [f]
    ensures WriteFiles(files + [f], bytes, dir) == WriteFiles(files, bytes, dir)[f.path := Concat(f.chunks, bytes)]
    decreases |files|
  {
    assert f in files + [f];
    assert forall g :: g in files ==> g in files + [f];
    if files == [] {
      assert files + [f] == [f];
      assert WriteFiles([f], bytes, dir) == WriteFiles([], bytes, dir[f.path := Concat(f.chunks, bytes)]);
    } else {
      assert (files + [f])[1..] == files[1..] + [f];
      WriteFilesSnoc(files[1..], f, bytes, dir[files[0].path := Concat(files[0].chunks, bytes)]);
    }
  }

  /** With distinct paths every file ends with its own content, in whatever order the files are written. */
  lemma {:induction false} WriteFilesContent(files: seq<FileEntry>, bytes: map<Hash, Bytes>, dir: map<string, Bytes>)
    requires DistinctPaths(files)
    requires forall f, h :: f in files && h in f.chunks ==> h in bytes
    ensures forall f :: f in files ==>
      f.path in WriteFiles(files, bytes, dir) && WriteFiles(files, bytes, dir)[f.path] == Concat(f.chunks, bytes)
    decreases |files|
  {
    if files != [] {
      var f, rest := files[0], files[1..];
      var dir' := dir[f.path := Concat(f.chunks, bytes)];
      WriteFilesContent(rest, bytes, dir');
      forall g | g in rest ensures g.path != f.path {
        var k :| 0 <= k < |rest| && rest[k] == g;
        assert files[k + 1] == g;
      }
      OtherPathKept(rest, bytes, dir', f.path);
      assert files == [f] + rest;
    }
  }

  /** Writing files touches no path but theirs. */
  lemma {:induction false} OtherPathKept(files: seq<FileEntry>, bytes: map<Hash, Bytes>, dir: map<string, Bytes>,
                                         p: string)
    requires forall f, h :: f in files && h in f.chunks ==> h in bytes
    requires forall f :: f in files ==> f.path != p
    ensures var out := WriteFiles(files, bytes, dir); (p in out <==> p in dir) && (p in out ==> out[p] == dir[p])
    decreases |files|
  {
    if files != [] {
      OtherPathKept(files[1..], bytes, dir[files[0].path := Concat(files[0].chunks, bytes)], p);
    }
  }
}
