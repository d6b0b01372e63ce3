/** Comparing two snapshots, and what the comparison says about file contents. */
module DiffModel {
  import opened Common
  import opened Ordering
  import opened Manifests
  import opened Chunker
  import opened StoreModel
  import opened SnapshotHistory

  datatype DiffResult = DiffResult(added: seq<string>, removed: seq<string>, changed: seq<string>, same: nat,
                                   chunksAdded: nat, chunksRemoved: nat, chunksShared: nat)

  /** The chunk list of each path; a repeated path keeps its last entry. */
  function FileMap(files: seq<FileEntry>): map<string, seq<Hash>> {
    if files == [] then map[]
    else
      var last := files[|files| - 1];
      FileMap(files[..|files| - 1])[last.path := last.chunks]
  }

  ghost function Changed(a: map<string, seq<Hash>>, b: map<string, seq<Hash>>): set<string> {
    set p | p in a && p in b && a[p] != b[p]
  }

  ghost function Unchanged(a: map<string, seq<Hash>>, b: map<string, seq<Hash>>): set<string> {
    set p | p in a && p in b && a[p] == b[p]
  }

  /** The comparison going from `a` to `b`. */
  ghost predicate IsDiff(a: seq<FileEntry>, b: seq<FileEntry>, d: DiffResult) {
    var ma, mb := FileMap(a), FileMap(b);
    var ca, cb := ChunkSet(a), ChunkSet(b);
    && Lists(StrLess, d.added, mb.Keys - ma.Keys)
    && Lists(StrLess, d.removed, ma.Keys - mb.Keys)
    && Lists(StrLess, d.changed, Changed(ma, mb))
    && d.same == |Unchanged(ma, mb)|
    && d.chunksAdded == |cb - ca| && d.chunksRemoved == |ca - cb| && d.chunksShared == |ca * cb|
  }

  /** The four kinds of path partition the two path sets, and the chunk counts add up to the unique chunks. */
  lemma DiffPartitions(a: seq<FileEntry>, b: seq<FileEntry>, d: DiffResult)
    requires IsDiff(a, b, d)
    ensures |d.added| + |d.changed| + d.same == |FileMap(b)|
    ensures |d.removed| + |d.changed| + d.same == |FileMap(a)|
    ensures d.chunksShared + d.chunksAdded == |ChunkSet(b)|
    ensures d.chunksShared + d.chunksRemoved == |ChunkSet(a)|
  {
    var ma, mb := FileMap(a), FileMap(b);
    StrLessStrictTotal();
    ListingCard(StrLess, d.added);
    ListingCard(StrLess, d.removed);
    ListingCard(StrLess, d.changed);
    SameKinds(ma, mb);
    PathCount(ma, mb);
    PathCount(mb, ma);
    SplitCount(ChunkSet(b), ChunkSet(a));
    SplitCount(ChunkSet(a), ChunkSet(b));
    assert ChunkSet(b) * ChunkSet(a) == ChunkSet(a) * ChunkSet(b);
  }

  lemma SameKinds(a: map<string, seq<Hash>>, b: map<string, seq<Hash>>)
    ensures Changed(a, b) == Changed(b, a) && Unchanged(a, b) == Unchanged(b, a)
  {
  }

  lemma SplitCount(x: set<Hash>, y: set<Hash>)
    ensures |x| == |x * y| + |x - y|
  {
    assert x == x * y + (x - y);
  }

  lemma PathCount(a: map<string, seq<Hash>>, b: map<string, seq<Hash>>)
    ensures |b| == |b.Keys - a.Keys| + |Changed(a, b)| + |Unchanged(a, b)|
  {
    hide *;
    PathKinds(a, b);
    assert |b| == |b.Keys|;
    assert b.Keys == (b.Keys - a.Keys) + b.Keys * a.Keys;
  }

  lemma PathKinds(a: map<string, seq<Hash>>, b: map<string, seq<Hash>>)
    ensures b.Keys * a.Keys == Changed(a, b) + Unchanged(a, b)
    ensures Changed(a, b) !! Unchanged(a, b)
  {
  }

  /** Swapping the two snapshots swaps the two sides of the comparison. */
  lemma DiffSwaps(a: seq<FileEntry>, b: seq<FileEntry>, d: DiffResult)
    requires IsDiff(a, b, d)
    ensures IsDiff(b, a, DiffResult(d.removed, d.added, d.changed, d.same,
                                    d.chunksRemoved, d.chunksAdded, d.chunksShared))
  {
    var ma, mb := FileMap(a), FileMap(b);
    SameKinds(ma, mb);
    assert ChunkSet(b) * ChunkSet(a) == ChunkSet(a) * ChunkSet(b);
  }

  lemma {:induction false} FileMapEntry(digest: Bytes -> Hash, tree: Tree, n: nat, i: nat)
    requires n > 0 && DistinctTree(tree) && i < |tree|
    ensures var m := FileMap(FilesOf(digest, tree, n));
            tree[i].0 in m && m[tree[i].0] == PieceHashes(digest, Split(tree[i].1, n))
    decreases |tree|
  {
    var k := |tree| - 1;
    var files := FilesOf(digest, tree, n);
    assert files[..k] == FilesOf(digest, tree[..k], n);
    if i < k { FileMapEntry(digest, tree[..k], n, i); }
  }

  /** Two sizes cut a buffer the same way exactly if they are the same, or neither cuts it at all. */
  lemma SameCutIff(content: Bytes, n: nat, m: nat)
    requires n > 0 && m > 0
    ensures Split(content, n) == Split(content, m) <==> n == m || (|content| <= n && |content| <= m)
  {
    if content != [] && n != m && Split(content, n) == Split(content, m) {
      assert |Split(content, n)[0]| == if |content| <= n then |content| else n;
      assert |Split(content, m)[0]| == if |content| <= m then |content| else m;
    }
  }

  /** Pieces that do not collide are determined by their hashes. */
  lemma SamePieces(digest: Bytes -> Hash, play: set<Bytes>, a: seq<Bytes>, b: seq<Bytes>)
    requires CollisionFree(digest, play) && Elems(a) <= play && Elems(b) <= play
    ensures PieceHashes(digest, a) == PieceHashes(digest, b) <==> a == b
  {
    var ha, hb := PieceHashes(digest, a), PieceHashes(digest, b);
    if ha == hb {
      assert |a| == |ha| == |hb| == |b|;
      forall i | 0 <= i < |a| ensures a[i] == b[i] {
        assert ha[i] == hb[i];
        assert a[i] in Elems(a) && b[i] in Elems(b);
      }
    }
  }

  /** Chunk lists are equal exactly if the contents are and the chunk sizes cut them alike. */
  lemma SameHashesIff(digest: Bytes -> Hash, play: set<Bytes>, a: Bytes, n: nat, b: Bytes, m: nat)
    requires n > 0 && m > 0 && CollisionFree(digest, play)
    requires Elems(Split(a, n)) <= play && Elems(Split(b, m)) <= play
    ensures PieceHashes(digest, Split(a, n)) == PieceHashes(digest, Split(b, m))
            <==> a == b && (n == m || (|a| <= n && |a| <= m))
  {
    SamePieces(digest, play, Split(a, n), Split(b, m));
    SplitCuts(a, n);
    SplitCuts(b, m);
    SameCutIff(a, n, m);
  }

  /**
   * A path common to two recorded snapshots is reported unchanged exactly if its contents are equal and the two
   * snapshots' chunk sizes cut them alike: they are the same size, or neither cuts the file.
   */
  lemma UnchangedMeansEqual(digest: Bytes -> Hash, s: Store, taken: map<string, Taken>, play: set<Bytes>,
                            a: string, b: string, i: nat, j: nat)
    requires Records(digest, s, taken, play) && CollisionFree(digest, play)
    requires a in s.snapshots && b in s.snapshots && DistinctTree(taken[a].tree) && DistinctTree(taken[b].tree)
    requires i < |taken[a].tree| && j < |taken[b].tree| && taken[a].tree[i].0 == taken[b].tree[j].0
    ensures var p, content := taken[a].tree[i].0, taken[a].tree[i].1;
            var n, m := taken[a].size, taken[b].size;
            var ma, mb := FileMap(s.snapshots[a].files), FileMap(s.snapshots[b].files);
            && p in ma && p in mb
            && (ma[p] == mb[p] <==>
                  content == taken[b].tree[j].1 && (n == m || (|content| <= n && |content| <= m)))
  {
    FileMapEntry(digest, taken[a].tree, taken[a].size, i);
    FileMapEntry(digest, taken[b].tree, taken[b].size, j);
    FileInPlay(digest, s, taken, play, a, i);
    FileInPlay(digest, s, taken, play, b, j);
    SameHashesIff(digest, play, taken[a].tree[i].1, taken[a].size, taken[b].tree[j].1, taken[b].size);
  }

  lemma FileInPlay(digest: Bytes -> Hash, s: Store, taken: map<string, Taken>, play: set<Bytes>, n: string, i: nat)
    requires Records(digest, s, taken, play) && n in s.snapshots && i < |taken[n].tree|
    ensures Elems(Split(taken[n].tree[i].1, taken[n].size)) <= play
  {
    forall p | p in Split(taken[n].tree[i].1, taken[n].size) ensures p in play {
      PiecesMember(taken[n].tree, taken[n].size, p);
      assert p in Elems(PiecesOf(taken[n].tree, taken[n].size));
    }
  }

  /** So the same content under two chunk sizes is reported as changed exactly if one of them cuts it. */
  lemma DifferentSizesDiffer(digest: Bytes -> Hash, play: set<Bytes>, content: Bytes, n: nat, m: nat)
    requires n > 0 && m > 0 && n != m && CollisionFree(digest, play)
    requires Elems(Split(content, n)) <= play && Elems(Split(content, m)) <= play
    ensures PieceHashes(digest, Split(content, n)) != PieceHashes(digest, Split(content, m))
            <==> n < |content| || m < |content|
  {
    SameHashesIff(digest, play, content, n, content, m);
  }
}
