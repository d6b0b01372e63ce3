/** What whole histories of the store keep. */
module SnapshotHistory {
  import opened Common
  import opened Ordering
  import opened Manifests
  import opened Chunker
  import opened StoreModel

  datatype Op =
    | Snapshot(name: string, size: nat, tree: Tree)
    | Drop(name: string)
    | Gc
    | Retain(keep: nat)

  /** A snapshot is kept when fewer than `keep` snapshots are newer than it. */
  ghost predicate IsKept(s: Store, keep: nat, n: string) {
    n in Listed(s) && |NewerThan(s, Key(s.snapshots[n].seqNo, n))| < keep
  }

  ghost function NewerThan(s: Store, k: Key): set<Key> {
    set j | j in KeysOf(s) && Newer(j, k)
  }

  ghost function KeptNames(s: Store, keep: nat): set<string> {
    set n | n in Listed(s) && IsKept(s, keep, n)
  }

  ghost function RetainStore(s: Store, keep: nat): Store {
    KeepStore(s, KeptNames(s, keep))
  }

  /** One operation; dropping a missing snapshot and keeping none are refused and change nothing. */
  ghost function Step(digest: Bytes -> Hash, s: Store, op: Op): Store {
    match op
    case Snapshot(name, size, tree) => SnapshotStore(digest, s, name, tree, EffectiveSize(size))
    case Drop(name) => DropStore(s, name)
    case Gc => GcStore(s)
    case Retain(keep) => if keep < 1 then s else RetainStore(s, keep)
  }

  ghost function Run(digest: Bytes -> Hash, s: Store, ops: seq<Op>): Store
    decreases |ops|
  {
    if ops == [] then s else Run(digest, Step(digest, s, ops[0]), ops[1..])
  }

  // ----- Storing pieces -----

  lemma {:induction false} StorePiecesFacts(digest: Bytes -> Hash, chunks: map<Hash, Bytes>, pieces: seq<Bytes>)
    ensures var c := StorePieces(digest, chunks, pieces);
            && c.Keys == chunks.Keys + Elems(PieceHashes(digest, pieces))
            && (forall h :: h in chunks ==> c[h] == chunks[h])
            && (forall h :: h in c && h !in chunks ==> c[h] in pieces && digest(c[h]) == h)
    decreases |pieces|
  {
    if pieces == [] {
      assert Elems(PieceHashes(digest, pieces)) == {};
    } else {
      var h := digest(pieces[0]);
      StorePiecesFacts(digest, if h in chunks then chunks else chunks[h := pieces[0]], pieces[1..]);
      assert PieceHashes(digest, pieces) == [h] + PieceHashes(digest, pieces[1..]);
      assert pieces == [pieces[0]] + pieces[1..];
    }
  }

  lemma PieceHashMember(digest: Bytes -> Hash, pieces: seq<Bytes>, h: Hash)
    ensures h in PieceHashes(digest, pieces) <==> exists p :: p in pieces && digest(p) == h
  {
    var hs := PieceHashes(digest, pieces);
    if h in hs {
      var i :| 0 <= i < |hs| && hs[i] == h;
      assert pieces[i] in pieces;
    }
    forall p | p in pieces && digest(p) == h ensures h in hs {
      var i :| 0 <= i < |pieces| && pieces[i] == p;
      assert hs[i] == h;
    }
  }

  /** The pieces of a tree are exactly the pieces of its files. */
  lemma {:induction false} PiecesMember(tree: Tree, n: nat, p: Bytes)
    requires n > 0
    ensures p in PiecesOf(tree, n) <==> exists i :: 0 <= i < |tree| && p in Split(tree[i].1, n)
    decreases |tree|
  {
    if tree != [] {
      PiecesMember(tree[1..], n, p);
      if p in PiecesOf(tree[1..], n) {
        var i :| 0 <= i < |tree[1..]| && p in Split(tree[1..][i].1, n);
        assert tree[i + 1] == tree[1..][i];
      }
      forall i | 0 <= i < |tree| && p in Split(tree[i].1, n) ensures p in PiecesOf(tree, n) {
        if i > 0 { assert tree[1..][i - 1] == tree[i]; }
      }
    }
  }

  lemma FilesChunks(digest: Bytes -> Hash, tree: Tree, n: nat, h: Hash)
    requires n > 0
    ensures h in ChunkSet(FilesOf(digest, tree, n)) <==> exists p :: p in PiecesOf(tree, n) && digest(p) == h
  {
    var files := FilesOf(digest, tree, n);
    if h in ChunkSet(files) {
      var f :| f in files && h in f.chunks;
      var i :| 0 <= i < |files| && files[i] == f;
      PieceHashMember(digest, Split(tree[i].1, n), h);
      var p :| p in Split(tree[i].1, n) && digest(p) == h;
      PiecesMember(tree, n, p);
    }
    forall p | p in PiecesOf(tree, n) && digest(p) == h ensures h in ChunkSet(files) {
      PiecesMember(tree, n, p);
      var i :| 0 <= i < |tree| && p in Split(tree[i].1, n);
      PieceHashMember(digest, Split(tree[i].1, n), h);
      assert files[i] in files;
    }
  }

  lemma SnapshotChunkKeys(digest: Bytes -> Hash, s: Store, name: string, tree: Tree, n: nat)
    requires n > 0
    ensures SnapshotStore(digest, s, name, tree, n).chunks.Keys == s.chunks.Keys + ChunkSet(FilesOf(digest, tree, n))
  {
    StorePiecesFacts(digest, s.chunks, PiecesOf(tree, n));
    forall h ensures h in ChunkSet(FilesOf(digest, tree, n)) <==> h in Elems(PieceHashes(digest, PiecesOf(tree, n))) {
      FilesChunks(digest, tree, n, h);
      PieceHashMember(digest, PiecesOf(tree, n), h);
    }
  }

  // ----- The history invariant -----

  datatype Taken = Taken(size: nat, tree: Tree)

  function TakenStep(taken: map<string, Taken>, op: Op): map<string, Taken> {
    if op.Snapshot? then taken[op.name := Taken(EffectiveSize(op.size), op.tree)] else taken
  }

  /** For each name, what was last snapshotted under it. */
  function TakenRun(taken: map<string, Taken>, ops: seq<Op>): map<string, Taken>
    decreases |ops|
  {
    if ops == [] then taken else TakenRun(TakenStep(taken, ops[0]), ops[1..])
  }

  /** The chunk contents a history brings into play. */
  ghost function PiecesInPlay(ops: seq<Op>): set<Bytes>
    decreases |ops|
  {
    if ops == [] then {}
    else
      (if ops[0].Snapshot? then Elems(PiecesOf(ops[0].tree, EffectiveSize(ops[0].size))) else {})
      + PiecesInPlay(ops[1..])
  }

  ghost predicate CollisionFree(digest: Bytes -> Hash, play: set<Bytes>) {
    forall x, y :: x in play && y in play && digest(x) == digest(y) ==> x == y
  }

  /** The store holds genuine chunks of the play, and each manifest describes what was last taken under its name. */
  ghost predicate Records(digest: Bytes -> Hash, s: Store, taken: map<string, Taken>, play: set<Bytes>) {
    && Integral(digest, s)
    && (forall n :: n in s.snapshots ==> s.snapshots[n].name == n)
    && (forall h :: h in s.chunks ==> s.chunks[h] in play)
    && (forall n :: n in s.snapshots ==> n in taken && taken[n].size > 0)
    && (forall n :: n in s.snapshots ==> s.snapshots[n].files == FilesOf(digest, taken[n].tree, taken[n].size))
    && (forall n :: n in s.snapshots ==> Elems(PiecesOf(taken[n].tree, taken[n].size)) <= play)
  }

  lemma ReferencedMember(s: Store, n: string, h: Hash)
    requires n in Listed(s) && h in ChunkSet(s.snapshots[n].files)
    ensures h in Referenced(s)
  {
  }

  lemma SnapshotIntegral(digest: Bytes -> Hash, s: Store, name: string, tree: Tree, n: nat)
    requires n > 0 && Integral(digest, s)
    ensures Integral(digest, SnapshotStore(digest, s, name, tree, n))
  {
    var t := SnapshotStore(digest, s, name, tree, n);
    StorePiecesFacts(digest, s.chunks, PiecesOf(tree, n));
    SnapshotChunkKeys(digest, s, name, tree, n);
    forall h | h in Referenced(t) ensures h in t.chunks {
      var m :| m in Listed(t) && h in ChunkSet(t.snapshots[m].files);
      if m != name { ReferencedMember(s, m, h); }
    }
  }

  lemma GcIntegral(digest: Bytes -> Hash, s: Store)
    requires Integral(digest, s)
    ensures Integral(digest, GcStore(s))
    ensures Referenced(GcStore(s)) == Referenced(s)
  {
  }

  /** Dropping manifests refers to fewer chunks. */
  lemma FewerReferenced(s: Store, t: Store)
    requires t.snapshots.Keys <= s.snapshots.Keys
    requires forall n :: n in t.snapshots ==> t.snapshots[n] == s.snapshots[n]
    ensures Referenced(t) <= Referenced(s)
  {
    forall h | h in Referenced(t) ensures h in Referenced(s) {
      var n :| n in Listed(t) && h in ChunkSet(t.snapshots[n].files);
      ReferencedMember(s, n, h);
    }
  }

  lemma SnapshotRecords(digest: Bytes -> Hash, s: Store, taken: map<string, Taken>, play: set<Bytes>, op: Op)
    requires Records(digest, s, taken, play) && op.Snapshot?
    requires Elems(PiecesOf(op.tree, EffectiveSize(op.size))) <= play
    ensures Records(digest, Step(digest, s, op), TakenStep(taken, op), play)
  {
    var n := EffectiveSize(op.size);
    SnapshotIntegral(digest, s, op.name, op.tree, n);
    StorePiecesFacts(digest, s.chunks, PiecesOf(op.tree, n));
    var t := Step(digest, s, op);
    forall h | h in t.chunks ensures t.chunks[h] in play {
      if h !in s.chunks { assert t.chunks[h] in Elems(PiecesOf(op.tree, n)); }
    }
  }

  lemma ShrinkRecords(digest: Bytes -> Hash, s: Store, t: Store, taken: map<string, Taken>, play: set<Bytes>)
    requires Records(digest, s, taken, play)
    requires t.snapshots.Keys <= s.snapshots.Keys && forall n :: n in t.snapshots ==> t.snapshots[n] == s.snapshots[n]
    requires t.chunks.Keys <= s.chunks.Keys && forall h :: h in t.chunks ==> t.chunks[h] == s.chunks[h]
    requires Referenced(t) <= t.chunks.Keys
    ensures Records(digest, t, taken, play)
  {
  }

  lemma StepRecords(digest: Bytes -> Hash, s: Store, taken: map<string, Taken>, play: set<Bytes>, op: Op)
    requires Records(digest, s, taken, play)
    requires op.Snapshot? ==> Elems(PiecesOf(op.tree, EffectiveSize(op.size))) <= play
    ensures Records(digest, Step(digest, s, op), TakenStep(taken, op), play)
  {
    match op
    case Snapshot(_, _, _) => SnapshotRecords(digest, s, taken, play, op);
    case Drop(name) =>
      FewerReferenced(s, DropStore(s, name));
      ShrinkRecords(digest, s, DropStore(s, name), taken, play);
    case Gc =>
      GcIntegral(digest, s);
      ShrinkRecords(digest, s, GcStore(s), taken, play);
    case Retain(keep) =>
      if keep >= 1 { RetainRecords(digest, s, taken, play, keep); }
  }

  lemma RetainRecords(digest: Bytes -> Hash, s: Store, taken: map<string, Taken>, play: set<Bytes>, keep: nat)
    requires Records(digest, s, taken, play)
    ensures Records(digest, RetainStore(s, keep), taken, play)
  {
    var k := KeptNames(s, keep);
    var u := s.(snapshots := map n | n in s.snapshots && (n in k || n == "") :: s.snapshots[n]);
    FewerReferenced(s, u);
    ShrinkRecords(digest, s, u, taken, play);
    GcIntegral(digest, u);
    ShrinkRecords(digest, u, GcStore(u), taken, play);
  }

  lemma {:induction false} RunRecords(digest: Bytes -> Hash, s: Store, taken: map<string, Taken>, play: set<Bytes>,
                                      ops: seq<Op>)
    requires Records(digest, s, taken, play) && PiecesInPlay(ops) <= play
    ensures Records(digest, Run(digest, s, ops), TakenRun(taken, ops), play)
    decreases |ops|
  {
    if ops != [] {
      StepRecords(digest, s, taken, play, ops[0]);
      RunRecords(digest, Step(digest, s, ops[0]), TakenStep(taken, ops[0]), play, ops[1..]);
    }
  }

  // ----- Point-in-time restore -----

  /** The chunk list of a file rebuilds its content when each piece is what its hash is stored as. */
  lemma {:induction false} ConcatPieces(digest: Bytes -> Hash, pieces: seq<Bytes>, chunks: map<Hash, Bytes>)
    requires forall p :: p in pieces ==> digest(p) in chunks && chunks[digest(p)] == p
    ensures forall h :: h in PieceHashes(digest, pieces) ==> h in chunks
    ensures Concat(PieceHashes(digest, pieces), chunks) == Flatten(pieces)
    decreases |pieces|
  {
    forall h | h in PieceHashes(digest, pieces) ensures h in chunks { PieceHashMember(digest, pieces, h); }
    if pieces != [] {
      assert pieces == [pieces[0]] + pieces[1..];
      ConcatPieces(digest, pieces[1..], chunks);
      assert PieceHashes(digest, pieces)[1..] == PieceHashes(digest, pieces[1..]);
    }
  }

  ghost predicate DistinctTree(tree: Tree) {
    forall i, j :: 0 <= i < j < |tree| ==> tree[i].0 != tree[j].0
  }

  /** Exactly the paths and bytes of the tree. */
  ghost predicate IsTree(out: map<string, Bytes>, tree: Tree) {
    && (forall i :: 0 <= i < |tree| ==> tree[i].0 in out && out[tree[i].0] == tree[i].1)
    && (forall p :: p in out ==> exists i :: 0 <= i < |tree| && tree[i].0 == p)
  }

  /** A stored chunk with a recorded piece's hash is that piece; a listed snapshot's pieces are all stored. */
  lemma RecordedPiece(digest: Bytes -> Hash, s: Store, taken: map<string, Taken>, play: set<Bytes>, n: string, p: Bytes)
    requires Records(digest, s, taken, play) && CollisionFree(digest, play) && n in s.snapshots
    requires p in PiecesOf(taken[n].tree, taken[n].size)
    ensures digest(p) in s.chunks ==> s.chunks[digest(p)] == p
    ensures n != "" ==> digest(p) in s.chunks
    ensures digest(p) in ChunkSet(s.snapshots[n].files)
  {
    FilesChunks(digest, taken[n].tree, taken[n].size, digest(p));
    if n != "" { ReferencedMember(s, n, digest(p)); }
    assert p in Elems(PiecesOf(taken[n].tree, taken[n].size));
  }

  /** Each file of a recorded snapshot is rebuilt from the store, byte for byte, if its chunks are there. */
  lemma RecordedFile(digest: Bytes -> Hash, s: Store, taken: map<string, Taken>, play: set<Bytes>, n: string, i: nat)
    requires Records(digest, s, taken, play) && CollisionFree(digest, play) && n in s.snapshots
    requires i < |taken[n].tree| && (n != "" || Restorable(s, n))
    ensures var f := FileOf(digest, taken[n].tree[i].0, taken[n].tree[i].1, taken[n].size);
            (forall h :: h in f.chunks ==> h in s.chunks) && Concat(f.chunks, s.chunks) == taken[n].tree[i].1
  {
    var size, content := taken[n].size, taken[n].tree[i].1;
    forall p | p in Split(content, size) ensures digest(p) in s.chunks && s.chunks[digest(p)] == p {
      PiecesMember(taken[n].tree, size, p);
      RecordedPiece(digest, s, taken, play, n, p);
    }
    ConcatPieces(digest, Split(content, size), s.chunks);
    SplitCuts(content, size);
  }

  /** A snapshot whose manifest and chunks are all there. */
  ghost predicate Restorable(s: Store, n: string) {
    n in s.snapshots && forall f, h :: f in s.snapshots[n].files && h in f.chunks ==> h in s.chunks
  }

  /** What restoring a recorded snapshot writes into an empty directory; a listed one can always be restored. */
  lemma RecordedSnapshotRestores(digest: Bytes -> Hash, s: Store, taken: map<string, Taken>, play: set<Bytes>,
                                 n: string)
    requires Records(digest, s, taken, play) && CollisionFree(digest, play) && n in s.snapshots
    requires DistinctTree(taken[n].tree)
    ensures n != "" ==> Restorable(s, n)
    ensures Restorable(s, n) ==> IsTree(WriteFiles(s.snapshots[n].files, s.chunks, map[]), taken[n].tree)
  {
    var tree, files := taken[n].tree, s.snapshots[n].files;
    assert files == FilesOf(digest, tree, taken[n].size);
    if n != "" {
      forall f, h | f in files && h in f.chunks ensures h in s.chunks {
        var i :| 0 <= i < |files| && files[i] == f;
        RecordedFile(digest, s, taken, play, n, i);
      }
    }
    if Restorable(s, n) {
      RestoresTree(digest, s, taken, play, n);
    }
  }

  lemma RestoresTree(digest: Bytes -> Hash, s: Store, taken: map<string, Taken>, play: set<Bytes>, n: string)
    requires Records(digest, s, taken, play) && CollisionFree(digest, play) && n in s.snapshots
    requires DistinctTree(taken[n].tree) && Restorable(s, n)
    ensures IsTree(WriteFiles(s.snapshots[n].files, s.chunks, map[]), taken[n].tree)
  {
    var tree, files := taken[n].tree, s.snapshots[n].files;
    assert files == FilesOf(digest, tree, taken[n].size);
    WriteFilesContent(files, s.chunks, map[]);
    var out := WriteFiles(files, s.chunks, map[]);
    forall i | 0 <= i < |tree| ensures tree[i].0 in out && out[tree[i].0] == tree[i].1 {
      assert files[i] in files;
      RecordedFile(digest, s, taken, play, n, i);
    }
    forall p | p in out ensures exists i :: 0 <= i < |tree| && tree[i].0 == p {
      if forall i :: 0 <= i < |tree| ==> tree[i].0 != p {
        NoFileAt(digest, tree, taken[n].size, p);
        OtherPathKept(files, s.chunks, map[], p);
        assert false;
      }
    }
  }

  lemma NoFileAt(digest: Bytes -> Hash, tree: Tree, n: nat, p: string)
    requires n > 0 && forall i :: 0 <= i < |tree| ==> tree[i].0 != p
    ensures forall f :: f in FilesOf(digest, tree, n) ==> f.path != p
  {
  }

  /**
   * Over any history of snapshots (with any chunk sizes), drops, garbage collections and retentions, restoring a
   * name that still exists yields exactly the paths and bytes present when that name was last taken. Only the empty
   * name can fail to restore.
   */
  lemma PointInTime(digest: Bytes -> Hash, ops: seq<Op>, n: string)
    requires CollisionFree(digest, PiecesInPlay(ops))
    requires n in Run(digest, Store(map[], map[]), ops).snapshots
    ensures var s, taken := Run(digest, Store(map[], map[]), ops), TakenRun(map[], ops);
            && n in taken
            && (n != "" ==> Restorable(s, n))
            && (DistinctTree(taken[n].tree) && Restorable(s, n) ==>
                  IsTree(WriteFiles(s.snapshots[n].files, s.chunks, map[]), taken[n].tree))
  {
    var empty := Store(map[], map[]);
    assert Referenced(empty) == {};
    var s := Run(digest, empty, ops);
    RunRecords(digest, empty, map[], PiecesInPlay(ops), ops);
    if DistinctTree(TakenRun(map[], ops)[n].tree) {
      RecordedSnapshotRestores(digest, s, TakenRun(map[], ops), PiecesInPlay(ops), n);
    }
    if n != "" {
      ListedRestorable(s, n);
    }
  }

  lemma ListedRestorable(s: Store, n: string)
    requires n in Listed(s) && Referenced(s) <= s.chunks.Keys
    ensures Restorable(s, n)
  {
    forall f, h | f in s.snapshots[n].files && h in f.chunks ensures h in s.chunks {
      ReferencedMember(s, n, h);
    }
  }

  // ----- The empty name -----

  /** A collection keeps the snapshot of the empty name restorable exactly when listed manifests name all its chunks. */
  lemma EmptyNameAfterGc(s: Store)
    requires "" in s.snapshots
    ensures Restorable(GcStore(s), "") <==>
      Restorable(s, "") && ChunkSet(s.snapshots[""].files) <= Referenced(s)
  {
    RestorableMeans(s, "");
    RestorableMeans(GcStore(s), "");
  }

  /** A retention does so exactly when kept manifests name all its chunks. */
  lemma EmptyNameAfterRetain(s: Store, keep: nat)
    requires "" in s.snapshots
    ensures Restorable(RetainStore(s, keep), "") <==>
      Restorable(s, "") && ChunkSet(s.snapshots[""].files) <= ReferencedBy(s, KeptNames(s, keep))
  {
    var u := s.(snapshots := map n | n in s.snapshots && (n in KeptNames(s, keep) || n == "") :: s.snapshots[n]);
    forall n, h ensures n in Listed(u) && h in ChunkSet(u.snapshots[n].files) <==>
      n in KeptNames(s, keep) && h in ChunkSet(s.snapshots[n].files)
    {
      assert n in Listed(u) <==> n in KeptNames(s, keep);
    }
    assert Referenced(u) == ReferencedBy(s, KeptNames(s, keep));
    EmptyNameAfterGc(u);
    RestorableMeans(s, "");
    RestorableMeans(u, "");
  }

  lemma RestorableMeans(s: Store, n: string)
    ensures Restorable(s, n) <==> n in s.snapshots && ChunkSet(s.snapshots[n].files) <= s.chunks.Keys
  {
    if n in s.snapshots && ChunkSet(s.snapshots[n].files) <= s.chunks.Keys {
      forall f, h | f in s.snapshots[n].files && h in f.chunks ensures h in s.chunks {
        assert h in ChunkSet(s.snapshots[n].files);
      }
    }
  }

  /** So a snapshot taken under the empty name does not survive a collection. */
  lemma EmptyNameIsLost(digest: Bytes -> Hash)
    ensures var s := Run(digest, Store(map[], map[]), [Snapshot("", 1, [("f", [0])]), Gc]);
            "" in s.snapshots && !Restorable(s, "")
  {
    var tree: Tree, empty := [("f", [0])], Store(map[], map[]);
    var ops := [Snapshot("", 1, tree), Gc];
    var t := SnapshotStore(digest, empty, "", tree, 1);
    assert ops[1..] == [Gc] && [Gc][1..] == [];
    assert Run(digest, empty, ops) == Run(digest, t, [Gc]) == GcStore(t);
    assert Referenced(t) == {};
    FilesChunks(digest, tree, 1, digest([0]));
    assert Split([0], 1) == [[0]] && PiecesOf(tree, 1) == [[0]] + PiecesOf(tree[1..], 1);
    assert [0] in PiecesOf(tree, 1);
    EmptyNameAfterGc(t);
  }

  /** At the end of any history every named chunk is stored and every stored chunk hashes to its name. */
  lemma HistoryIntegral(digest: Bytes -> Hash, ops: seq<Op>)
    ensures Integral(digest, Run(digest, Store(map[], map[]), ops))
  {
    var empty := Store(map[], map[]);
    assert Referenced(empty) == {};
    RunRecords(digest, empty, map[], PiecesInPlay(ops), ops);
  }

  // ----- Garbage collection -----

  /** A completed pass leaves exactly the stored chunks some manifest names; a second pass removes nothing. */
  lemma GcExact(s: Store)
    ensures GcStore(s).chunks.Keys == s.chunks.Keys * Referenced(s)
    ensures GcStore(GcStore(s)) == GcStore(s)
  {
    assert Referenced(GcStore(s)) == Referenced(s);
  }

  // ----- Retention -----

  lemma KeyCount(s: Store)
    ensures |KeysOf(s)| == |Listed(s)|
  {
    KeyCountOver(s, Listed(s));
  }

  lemma {:induction false} KeyCountOver(s: Store, names: set<string>)
    requires names <= s.snapshots.Keys
    ensures |(set n | n in names :: Key(s.snapshots[n].seqNo, n))| == |names|
    decreases |names|
  {
    var keys := set n | n in names :: Key(s.snapshots[n].seqNo, n);
    if names == {} {
      assert keys == {};
    } else {
      var m :| m in names;
      KeyCountOver(s, names - {m});
      assert keys == (set n | n in names - {m} :: Key(s.snapshots[n].seqNo, n)) + {Key(s.snapshots[m].seqNo, m)};
    }
  }

  /** In a newest-first listing, position is the number of newer snapshots. */
  lemma RankIsPosition(s: Store, all: seq<Key>, i: nat)
    requires Lists(Newer, all, KeysOf(s)) && i < |all|
    ensures |NewerThan(s, all[i])| == i
  {
    NewerStrictTotal();
    assert NewerThan(s, all[i]) == Elems(all[..i]) by {
      forall k | k in NewerThan(s, all[i]) ensures k in Elems(all[..i]) {
        assert k in Elems(all);
        var j :| 0 <= j < |all| && all[j] == k;
        assert j < i;
        assert all[..i][j] == k;
      }
      forall k | k in Elems(all[..i]) ensures k in NewerThan(s, all[i]) {
        var j :| 0 <= j < i && all[..i][j] == k;
        assert all[j] in Elems(all);
      }
    }
    ListingCard(Newer, all[..i]);
  }

  /** Cutting the newest-first listing after `keep` snapshots keeps exactly those with fewer than `keep` newer ones. */
  lemma RetainedAreNewest(s: Store, keep: nat, kept: seq<Key>, dropped: seq<Key>)
    requires Retains(s, keep, kept, dropped)
    ensures NamesIn(kept) == KeptNames(s, keep)
    ensures NamesIn(dropped) == Listed(s) - KeptNames(s, keep)
  {
    var all := kept + dropped;
    KeyCount(s);
    NewerStrictTotal();
    ListingCard(Newer, all);
    forall n | n in Listed(s)
      ensures n in NamesIn(kept) <==> IsKept(s, keep, n)
      ensures n in NamesIn(dropped) <==> !IsKept(s, keep, n)
    {
      RankedName(s, keep, kept, dropped, n);
    }
    forall k | k in all ensures k.name in Listed(s) { assert k in Elems(all); }
  }

  lemma RankedName(s: Store, keep: nat, kept: seq<Key>, dropped: seq<Key>, n: string)
    requires Retains(s, keep, kept, dropped) && n in Listed(s)
    requires |kept| == keep || dropped == []
    ensures n in NamesIn(kept) <==> IsKept(s, keep, n)
    ensures n in NamesIn(dropped) <==> !IsKept(s, keep, n)
  {
    var all, k := kept + dropped, Key(s.snapshots[n].seqNo, n);
    assert k in KeysOf(s);
    assert k in Elems(all);
    var i :| 0 <= i < |all| && all[i] == k;
    RankIsPosition(s, all, i);
    forall j: Key | j in all && j.name == n ensures j == k { assert j in Elems(all); }
    if i < |kept| {
      assert kept[i] == k;
      OnlyOnce(all, |kept|, i);
    } else {
      assert dropped[i - |kept|] == k;
      OnlyOnce(all, |kept|, i);
    }
  }

  lemma OnlyOnce(all: seq<Key>, cut: nat, i: nat)
    requires Ascending(Newer, all) && cut <= |all| && i < |all|
    ensures i < cut ==> all[i] !in all[cut..]
    ensures i >= cut ==> all[i] !in all[..cut]
  {
    NewerStrictTotal();
  }

  // ----- Sequence numbers -----

  /** A new snapshot's sequence number exceeds every listed one unless the 64-bit counter is exhausted. */
  lemma NewSeqGreatestIff(digest: Bytes -> Hash, s: Store, name: string, tree: Tree, n: nat)
    requires n > 0 && forall m :: m in Listed(s) ==> s.snapshots[m].seqNo < TWO_64
    ensures (forall m :: m in Listed(s) ==> s.snapshots[m].seqNo < ManifestFor(digest, s, name, tree, n).seqNo)
            <==> MaxSeq(s) < TWO_64 - 1
  {
    var next := ManifestFor(digest, s, name, tree, n).seqNo;
    if MaxSeq(s) >= TWO_64 - 1 {
      var m :| m in Listed(s) && s.snapshots[m].seqNo == MaxSeq(s);
      assert MaxSeq(s) == TWO_64 - 1;
      assert next == 0;
    } else {
      assert next == MaxSeq(s) + 1;
    }
  }

  ghost predicate DistinctSeqs(s: Store) {
    forall m, n :: m in Listed(s) && n in Listed(s) && m != n ==> s.snapshots[m].seqNo != s.snapshots[n].seqNo
  }

  /**
   * A snapshot keeps the listed sequence numbers pairwise distinct exactly when it is itself not listed, the 64-bit
   * counter is not exhausted, or no other listed snapshot has the number 0 it wraps to.
   */
  lemma DistinctSeqsIff(digest: Bytes -> Hash, s: Store, name: string, tree: Tree, n: nat)
    requires n > 0 && DistinctSeqs(s) && forall m :: m in Listed(s) ==> s.snapshots[m].seqNo < TWO_64
    ensures DistinctSeqs(SnapshotStore(digest, s, name, tree, n)) <==>
      || name == "" || MaxSeq(s) < TWO_64 - 1
      || forall m :: m in Listed(s) && m != name ==> s.snapshots[m].seqNo != 0
  {
    hide SnapshotStore;
    SeqWritten(digest, s, name, tree, n);
    var t := SnapshotStore(digest, s, name, tree, n);
    if name != "" && MaxSeq(s) >= TWO_64 - 1 {
      if m :| m in Listed(s) && m != name && s.snapshots[m].seqNo == 0 {
        assert m in Listed(t) && name in Listed(t);
      }
    }
  }

  lemma SeqWritten(digest: Bytes -> Hash, s: Store, name: string, tree: Tree, n: nat)
    requires n > 0 && forall m :: m in Listed(s) ==> s.snapshots[m].seqNo < TWO_64
    ensures var t := SnapshotStore(digest, s, name, tree, n);
            && t.snapshots.Keys == s.snapshots.Keys + {name}
            && t.snapshots[name].seqNo == (if MaxSeq(s) < TWO_64 - 1 then MaxSeq(s) + 1 else 0)
            && forall m :: m in s.snapshots && m != name ==> t.snapshots[m] == s.snapshots[m]
  {
    if MaxSeq(s) >= TWO_64 - 1 { assert MaxSeq(s) == TWO_64 - 1; }
  }

  // ----- Sequence numbers over a history -----

  /** The greatest number handed out so far, `given` before the run; 0 if none was. */
  ghost function GivenRun(digest: Bytes -> Hash, s: Store, given: nat, ops: seq<Op>): nat
    decreases |ops|
  {
    if ops == [] then given
    else GivenRun(digest, Step(digest, s, ops[0]), GivenStep(digest, s, given, ops[0]), ops[1..])
  }

  ghost function GivenStep(digest: Bytes -> Hash, s: Store, given: nat, op: Op): nat {
    if op.Snapshot? && NextNumber(s) > given then NextNumber(s) else given
  }

  /** The number the next snapshot gets. */
  ghost function NextNumber(s: Store): nat {
    Wrap64(MaxSeq(s) + 1)
  }

  ghost predicate GivenBounds(s: Store, given: nat) {
    given < TWO_64 && forall n :: n in s.snapshots ==> s.snapshots[n].seqNo <= given
  }

  lemma StepGiven(digest: Bytes -> Hash, s: Store, given: nat, op: Op)
    requires GivenBounds(s, given)
    ensures GivenBounds(Step(digest, s, op), GivenStep(digest, s, given, op))
  {
  }

  lemma {:induction false} RunGiven(digest: Bytes -> Hash, s: Store, given: nat, ops: seq<Op>)
    requires GivenBounds(s, given)
    ensures GivenBounds(Run(digest, s, ops), GivenRun(digest, s, given, ops))
    decreases |ops|
  {
    if ops != [] {
      StepGiven(digest, s, given, ops[0]);
      RunGiven(digest, Step(digest, s, ops[0]), GivenStep(digest, s, given, ops[0]), ops[1..]);
    }
  }

  /**
   * After any history the next number is greater than every number ever handed out exactly when none was yet, or a
   * listed snapshot still carries the greatest one, and that one is not the last of the 64-bit counter.
   */
  lemma NumbersIncreaseIff(digest: Bytes -> Hash, ops: seq<Op>)
    ensures var s := Run(digest, Store(map[], map[]), ops);
            var given := GivenRun(digest, Store(map[], map[]), 0, ops);
            NextNumber(s) > given <==>
              && (given == 0 || exists n :: n in Listed(s) && s.snapshots[n].seqNo == given)
              && given < TWO_64 - 1
  {
    hide *;
    EmptyGiven();
    RunGiven(digest, Store(map[], map[]), 0, ops);
    NextExceedsIff(Run(digest, Store(map[], map[]), ops), GivenRun(digest, Store(map[], map[]), 0, ops));
  }

  lemma EmptyGiven()
    ensures GivenBounds(Store(map[], map[]), 0) && TWO_64 - 1 > 0
  {
  }

  lemma NextExceedsIff(s: Store, given: nat)
    requires GivenBounds(s, given)
    ensures NextNumber(s) > given <==>
      && (given == 0 || exists n :: n in Listed(s) && s.snapshots[n].seqNo == given)
      && given < TWO_64 - 1
  {
    assert MaxSeq(s) <= given;
    if MaxSeq(s) < TWO_64 - 1 {
      assert NextNumber(s) == MaxSeq(s) + 1;
    } else {
      assert NextNumber(s) == 0;
    }
  }

  /** For one, dropping the newest snapshot and taking another gives its number out again. */
  lemma DroppedSeqIsReused(digest: Bytes -> Hash, s: Store, name: string, tree: Tree, n: nat, again: string,
                           tree': Tree)
    requires n > 0 && name !in s.snapshots
    ensures var t := SnapshotStore(digest, s, name, tree, n);
            var u := SnapshotStore(digest, DropStore(t, name), again, tree', n);
            again in u.snapshots && u.snapshots[again].seqNo == t.snapshots[name].seqNo
  {
    var t := SnapshotStore(digest, s, name, tree, n);
    assert DropStore(t, name).snapshots == s.snapshots;
  }
}
