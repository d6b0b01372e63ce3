/** The storage engine, updating its store in place. */
module Engine {
  import opened Common
  import opened Ordering
  import opened Manifests
  import opened Chunker
  import opened StoreModel
  import opened SnapshotHistory
  import opened EngineLoops
  import opened DiffModel
  import opened VerifyModel

  datatype SnapshotStats = SnapshotStats(files: nat, chunks: nat, newChunks: nat, dedupedChunks: nat, bytes: nat)

  datatype GcStats = GcStats(scanned: nat, referenced: nat, removed: nat, bytesReclaimed: nat, candidates: seq<Hash>)

  datatype RetainStats = RetainStats(kept: seq<string>, dropped: seq<string>, gc: GcStats)

  /** A retention can be refused, or stop at a recorded name under which nothing is filed. */
  datatype RetainOutcome = Refused | Stopped(name: string) | Retained(stats: RetainStats)

  class Engine {
    var chunks: map<Hash, Bytes>
    var snapshots: map<string, Manifest>
    const chunkSize: ChunkSize
    const digest: Bytes -> Hash

    function S(): Store
      reads this
    {
      Store(chunks, snapshots)
    }

    /** Opens the store `s`. */
    constructor (digest: Bytes -> Hash, size: nat, s: Store)
      ensures chunkSize == EffectiveSize(size) && this.digest == digest && S() == s
    {
      chunkSize := EffectiveSize(size);
      this.digest := digest;
      chunks, snapshots := s.chunks, s.snapshots;
    }

    /** Stores a chunk unless its content-address is already present. */
    method Put(hash: Hash, data: Bytes) returns (isNew: bool)
      modifies this`chunks
      ensures isNew == (hash !in old(chunks))
      ensures chunks == if isNew then old(chunks)[hash := data] else old(chunks)
    {
      if hash in chunks {
        return false;
      }
      chunks := chunks[hash := data];
      return true;
    }

    /** Stores the chunks of one file. */
    method StoreFile(list: seq<Chunk>, ghost cut: seq<Bytes>, ghost s0: Store, ghost pieces: seq<Bytes>,
                     ghost acts0: seq<FsAction>, fresh0: nat)
      returns (hashes: seq<Hash>, newChunks: nat, ghost acts: seq<FsAction>)
      requires HashedPieces(digest, list, cut) && Stored(digest, s0, S(), pieces, acts0, fresh0)
      modifies this`chunks
      ensures hashes == PieceHashes(digest, cut)
      ensures Stored(digest, s0, S(), pieces + cut, acts, newChunks)
    {
      hide Stored;
      hashes, newChunks, acts := [], fresh0, acts0;
      assert pieces + cut[..0] == pieces;
      for k := 0 to |list|
        invariant hashes == PieceHashes(digest, cut[..k])
        invariant Stored(digest, s0, S(), pieces + cut[..k], acts, newChunks)
      {
        assert pieces + cut[..k + 1] == (pieces + cut[..k]) + [cut[k]];
        assert cut[..k + 1] == cut[..k] + [cut[k]];
        ghost var s := S();
        hashes := hashes + [list[k].hash];
        var isNew := Put(list[k].hash, list[k].data);
        if isNew {
          StoredNew(digest, s0, s, pieces + cut[..k], acts, newChunks, cut[k]);
          acts := acts + [WriteChunk(list[k].hash, list[k].data)];
          newChunks := newChunks + 1;
        } else {
          StoredOld(digest, s0, s, pieces + cut[..k], acts, newChunks, cut[k]);
        }
      }
      assert cut[..|list|] == cut;
    }

    /** The names of the snapshot files, less the extension; a file that is nothing but the extension is passed over. */
    method SnapshotNames() returns (names: seq<string>)
      ensures Lists(StrLess, names, Listed(S()))
    {
      var files := SortedSet(snapshots.Keys);
      names := [];
      assert Elems(files[..0]) == {};
      for k := 0 to |files|
        invariant Lists(StrLess, names, Elems(files[..k]) - {""})
      {
        PassOver(files, k, names);
        if |files[k]| > 0 {
          names := names + [files[k]];
        }
      }
      assert files[..|files|] == files;
    }

    /** The next sequence number: one more than the greatest listed one, in 64 bits. */
    method NextSeq() returns (seqNo: nat)
      ensures seqNo == Wrap64(MaxSeq(S()) + 1)
    {
      hide *;
      StoreIs();
      var names := SnapshotNames();
      var maxSeq: nat := 0;
      NoneYet(S(), names);
      for k := 0 to |names|
        invariant GreatestOf(S(), names, k, maxSeq)
      {
        GreatestStep(S(), names, k, maxSeq);
        var prev := snapshots[names[k]];
        if prev.seqNo > maxSeq {
          maxSeq := prev.seqNo;
        }
      }
      GreatestDone(S(), names, maxSeq);
      seqNo := Wrap64(maxSeq + 1);
    }

    /** Chunks every file of the tree, stores the new chunks, then writes the manifest. */
    method Snapshot(name: string, tree: Tree) returns (stats: SnapshotStats, ghost acts: seq<FsAction>)
      modifies this
      ensures S() == SnapshotStore(digest, old(S()), name, tree, chunkSize)
      ensures SafeTrace(digest, old(S()), acts) && ApplyAll(old(S()), acts) == S()
      ensures stats.files == |tree| && stats.chunks == |PiecesOf(tree, chunkSize)|
      ensures stats.newChunks == |S().chunks| - |old(S()).chunks| == |acts| - 1
      ensures stats.newChunks + stats.dedupedChunks == stats.chunks
      ensures stats.bytes == |Flatten(PiecesOf(tree, chunkSize))|
    {
      hide *;
      ghost var s0 := S();
      StoreIs();
      var seqNo := NextSeq();
      var files: seq<FileEntry> := [];
      var refs: nat, added: nat, bytes: nat := 0, 0, 0;
      acts := [];
      TakingStart(digest, s0, tree, chunkSize);
      for k := 0 to |tree|
        invariant Taking(digest, s0, S(), tree, chunkSize, k, acts, files, refs, added, bytes)
        invariant snapshots == old(snapshots)
      {
        var content := tree[k].1;
        var list := ChunkBuffer(digest, content, chunkSize);
        ListIsCut(digest, list, content, chunkSize);
        TakingStored(digest, s0, S(), tree, chunkSize, k, acts, files, refs, added, bytes);
        ghost var u, acts0, added0 := S(), acts, added;
        var hashes;
        hashes, added, acts := StoreFile(list, Split(content, chunkSize), s0, PiecesOf(tree[..k], chunkSize),
                                         acts, added);
        TakingStep(digest, s0, u, S(), tree, chunkSize, k, acts0, files, refs, added0, bytes, acts, added);
        files := files + [FileEntry(tree[k].0, |content|, hashes)];
        refs := refs + |list|;
        bytes := bytes + |content|;
      }
      var m := Manifest(name, Cut32(chunkSize), seqNo, files);
      TakingDone(digest, s0, S(), name, tree, chunkSize, acts, files, refs, added, bytes, m);
      StoreIs();
      snapshots := snapshots[name := m];
      StoreIs();
      acts := acts + [WriteManifest(name, m)];
      stats := SnapshotStats(|tree|, refs, added, refs - added, bytes);
    }

    method LoadManifest(name: string) returns (m: Option<Manifest>)
      ensures m == if name in snapshots then Some(snapshots[name]) else None
    {
      m := if name in snapshots then Some(snapshots[name]) else None;
    }

    /** Rebuilds every file in manifest order; fails on a missing snapshot or chunk. */
    method Restore(name: string, dir: map<string, Bytes>) returns (out: Option<map<string, Bytes>>)
      ensures out.Some? <==> Restorable(S(), name)
      ensures out.Some? ==> out.value == WriteFiles(snapshots[name].files, chunks, dir)
    {
      var m := LoadManifest(name);
      if m.None? {
        return None;
      }
      var files, d := m.value.files, dir;
      for k := 0 to |files|
        invariant forall f, h :: f in files[..k] && h in f.chunks ==> h in chunks
        invariant d == WriteFiles(files[..k], chunks, dir)
      {
        var f := files[k];
        var content: Bytes := [];
        for j := 0 to |f.chunks|
          invariant forall h :: h in f.chunks[..j] ==> h in chunks
          invariant content == Concat(f.chunks[..j], chunks)
        {
          var h := f.chunks[j];
          if h !in chunks {
            assert f in files && h in f.chunks;
            return None;
          }
          assert f.chunks[..j + 1] == f.chunks[..j] + [h];
          ConcatSnoc(f.chunks[..j], h, chunks);
          content := content + chunks[h];
        }
        assert f.chunks[..|f.chunks|] == f.chunks;
        assert files[..k + 1] == files[..k] + [f];
        WriteFilesSnoc(files[..k], f, chunks, dir);
        d := d[f.path := content];
      }
      assert files[..|files|] == files;
      return Some(d);
    }

    /** The chunks a verification covers: those of one snapshot, or of all of them for an empty name. */
    ghost function Covered(name: string): set<Hash>
      reads this
    {
      if name == "" then ReferencedBy(S(), snapshots.Keys)
      else if name in snapshots then ChunkSet(snapshots[name].files)
      else {}
    }

    /** Re-hashes every covered chunk; fails on a missing snapshot or chunk. */
    method Verify(name: string) returns (r: Option<VerifyResult>)
      ensures r.Some? <==> (name == "" || name in snapshots) && Covered(name) <= chunks.Keys
      ensures r.Some? ==> Verified(digest, S(), Covered(name), r.value)
    {
      hide *;
      StoreIs();
      var hashes: set<Hash>;
      if name == "" {
        var files := SortedSet(snapshots.Keys);
        hashes := ChunksNamed(files, snapshots.Keys);
      } else {
        var m := LoadManifest(name);
        if m.None? {
          return None;
        }
        hashes := ChunksOf(m.value.files);
      }
      CoveredIs(name);
      var all := SortedSet(hashes);
      var checked, bad, firstBad := 0, 0, "";
      VerifyStart(digest, S(), all);
      for k := 0 to |all|
        invariant Verifying(digest, S(), all, k, VerifyResult(checked, bad, firstBad))
      {
        VerifyMember(hashes, S(), all, k);
        if all[k] !in chunks {
          return None;
        }
        VerifyStep(digest, S(), all, k, VerifyResult(checked, bad, firstBad));
        var actual := digest(chunks[all[k]]);
        checked := checked + 1;
        if actual != all[k] {
          bad := bad + 1;
          if firstBad == "" {
            firstBad := all[k];
          }
        }
      }
      r := Some(VerifyResult(checked, bad, firstBad));
      VerifyDone(digest, S(), all, hashes, r.value);
    }

    lemma CoveredIs(name: string)
      ensures name == "" ==> Covered(name) == ReferencedBy(S(), snapshots.Keys)
      ensures name != "" && name in snapshots ==> Covered(name) == ChunkSet(snapshots[name].files)
    {
    }

    /** Deletes a manifest; fails if there is none. */
    method Drop(name: string) returns (ok: bool)
      modifies this`snapshots
      ensures ok == (name in old(snapshots)) && S() == DropStore(old(S()), name)
    {
      if name !in snapshots {
        assert snapshots - {name} == snapshots;
        return false;
      }
      snapshots := snapshots - {name};
      return true;
    }

    /** The chunks the manifests of these names refer to. */
    method ChunksNamed(names: seq<string>, ghost all: set<string>) returns (hashes: set<Hash>)
      requires Lists(StrLess, names, all) && all <= snapshots.Keys
      ensures hashes == ReferencedBy(S(), all)
    {
      hashes := {};
      for k := 0 to |names|
        invariant hashes == ReferencedBy(S(), Elems(names[..k]))
      {
        assert names[k] in Elems(names);
        ReferencedSnoc(S(), names, k);
        var more := ChunksOf(snapshots[names[k]].files);
        hashes := hashes + more;
      }
      assert names[..|names|] == names;
    }

    /** The chunks that count as live: those some listed manifest refers to. */
    method Live() returns (live: set<Hash>)
      ensures live == Referenced(S())
    {
      var names := SnapshotNames();
      live := ChunksNamed(names, Listed(S()));
    }

    /** Removes the chunks no listed manifest refers to, or with `dryRun` only reports them. */
    method Gc(dryRun: bool) returns (stats: GcStats, ghost acts: seq<FsAction>)
      modifies this`chunks
      ensures S() == if dryRun then old(S()) else GcStore(old(S()))
      ensures SafeTrace(digest, old(S()), acts) && ApplyAll(old(S()), acts) == S()
      ensures Lists(StrLess, stats.candidates, old(chunks).Keys - Referenced(old(S())))
      ensures stats.scanned == |old(chunks)| && stats.referenced == |Referenced(old(S()))|
      ensures stats.removed == if dryRun then 0 else |stats.candidates|
      ensures stats.bytesReclaimed == TotalSize(old(S()), old(chunks).Keys - Referenced(old(S())))
    {
      hide *;
      ghost var s0 := S();
      var live := Live();
      var all := SortedSet(chunks.Keys);
      var bytes: nat, candidates := 0, [];
      acts := [];
      StoreIs();
      GcStart(digest, s0, all, dryRun);
      for k := 0 to |all|
        invariant GcProgress(digest, s0, S(), all, k, candidates, bytes, dryRun, acts)
      {
        var hash := all[k];
        ghost var s := S();
        StoreIs();
        if hash in live {
          GcKeep(digest, s0, s, all, k, candidates, bytes, dryRun, acts);
        } else {
          GcTake(digest, s0, s, all, k, candidates, bytes, dryRun, acts);
          var size := TakeCandidate(hash, dryRun);
          bytes := bytes + size;
          candidates := candidates + [hash];
          acts := if dryRun then acts else acts + [FsAction.RemoveChunk(hash)];
        }
      }
      GcDone(digest, s0, S(), all, candidates, bytes, dryRun, acts);
      GcTrace(digest, s0, S(), all, candidates, bytes, dryRun, acts);
      stats := GcStats(|all|, |live|, if dryRun then 0 else |candidates|, bytes, candidates);
    }

    /** Measures one chunk file, and unlinks it unless the run is dry. */
    method TakeCandidate(hash: Hash, dryRun: bool) returns (size: nat)
      requires hash in S().chunks
      modifies this`chunks
      ensures size == |old(S()).chunks[hash]|
      ensures S() == if dryRun then old(S()) else Apply(old(S()), FsAction.RemoveChunk(hash))
    {
      size := |chunks[hash]|;
      if !dryRun {
        chunks := chunks - {hash};
      }
    }

    lemma StoreIs()
      ensures S() == Store(chunks, snapshots)
    {
    }

    /**
     * Keeps the newest `keep` snapshots, drops the others oldest first by the names their manifests record, then
     * collects garbage; stops where a name to drop is not there.
     */
    method Retain(keep: nat) returns (r: RetainOutcome, ghost keys: seq<Key>, ghost acts: seq<FsAction>)
      modifies this
      ensures r.Refused? <==> keep < 1
      ensures r.Refused? ==> S() == old(S()) && acts == []
      ensures SafeTrace(digest, old(S()), acts) && ApplyAll(old(S()), acts) == S()
      ensures keep >= 1 ==> NewestFirst(old(S()), keys)
      ensures keep >= 1 ==> (r.Retained? <==> Droppable(old(S()), ToDrop(keys, keep)))
      ensures r.Retained? ==>
        && r.stats.kept + Reverse(r.stats.dropped) == Names(keys) && r.stats.dropped == ToDrop(keys, keep)
        && S() == GcStore(Without(old(S()), Elems(ToDrop(keys, keep))))
      ensures r.Stopped? ==> StoppedAt(old(S()), S(), ToDrop(keys, keep), r.name)
      ensures keep >= 1 && NamesMatch(old(S())) ==>
        r.Retained? && Lists(Newer, keys, KeysOf(old(S()))) && S() == RetainStore(old(S()), keep)
    {
      if keep < 1 {
        return Refused, [], [];
      }
      hide *;
      ghost var s0 := S();
      StoreIs();
      var all := LoadAllNewestFirst();
      keys := Keys(all);
      WhenMatched(s0, keep, keys);
      var kept, dropped := CutNewest(all, keep);
      dropped := Reverse(dropped);
      var stop;
      stop, acts := DropAll(dropped);
      StoreIs();
      if stop.Some? {
        return Stopped(stop.value), keys, acts;
      }
      ghost var gcActs;
      var gc;
      gc, gcActs := Gc(false);
      SafeTraceConcat(digest, s0, acts, gcActs);
      ApplyAllConcat(s0, acts, gcActs);
      acts := acts + gcActs;
      r := Retained(RetainStats(kept, dropped, gc));
    }

    /** Loads every listed manifest and sorts them newest first. */
    method LoadAllNewestFirst() returns (all: seq<Manifest>)
      ensures NewestFirst(S(), Keys(all))
    {
      hide *;
      StoreIs();
      var names := SnapshotNames();
      all := [];
      LoadedNone(S());
      for k := 0 to |names|
        invariant LoadedAs(S(), names[..k], all)
      {
        NameListed(S(), names, k);
        LoadedMore(S(), names, k, all);
        all := all + [snapshots[names[k]]];
      }
      assert names[..|names|] == names;
      SortedIsNewestFirst(S(), names, all);
      all := Sort(NewerManifest, all);
    }

    /** Drops the named snapshots in order, up to the first that is not there. */
    method DropAll(names: seq<string>) returns (stop: Option<string>, ghost acts: seq<FsAction>)
      modifies this`snapshots
      ensures chunks == old(chunks)
      ensures SafeTrace(digest, old(S()), acts) && ApplyAll(old(S()), acts) == S()
      ensures stop.None? <==> Droppable(old(S()), names)
      ensures stop.None? ==> S() == Without(old(S()), Elems(names))
      ensures stop.Some? ==> StoppedAt(old(S()), S(), names, stop.value)
    {
      hide *;
      ghost var s0 := S();
      acts := [];
      DropStart(digest, s0, names);
      for k := 0 to |names|
        invariant DropProgress(digest, s0, S(), names, k, acts)
      {
        ghost var s := S();
        StoreIs();
        var ok := Drop(names[k]);
        if !ok {
          DropNothing(s, names[k]);
          DropStop(digest, s0, s, names, k, acts);
          return Some(names[k]), acts;
        }
        DropStep(digest, s0, s, names, k, acts);
        acts := acts + [RemoveManifest(names[k])];
      }
      DropEnd(digest, s0, S(), names, acts);
      return None, acts;
    }

    /** Compares two snapshots; fails if either is missing. */
    method Diff(a: string, b: string) returns (d: Option<DiffResult>)
      ensures d.Some? <==> a in snapshots && b in snapshots
      ensures d.Some? ==> IsDiff(snapshots[a].files, snapshots[b].files, d.value)
    {
      var fa := LoadManifest(a);
      var fb := LoadManifest(b);
      if fa.None? || fb.None? {
        return None;
      }
      var inA := PathMap(fa.value.files);
      var inB := PathMap(fb.value.files);
      var paths := SortedSet(inB.Keys);
      var added, changed, same := [], [], 0;
      DiffStart(inA, inB, paths);
      for k := 0 to |paths|
        invariant Compared(inA, inB, paths, k, added, changed, same)
      {
        var path := paths[k];
        ComparedStep(inA, inB, paths, k, added, changed, same);
        if path !in inA {
          added := added + [path];
        } else if inA[path] != inB[path] {
          changed := changed + [path];
        } else {
          same := same + 1;
        }
      }
      ComparedDone(inA, inB, paths, added, changed, same);
      var removed := MissingFrom(inA, inB);
      var ca := ChunksOf(fa.value.files);
      var cb := ChunksOf(fb.value.files);
      var onlyB, shared := Tally(cb, ca);
      var onlyA, _ := Tally(ca, cb);
      assert cb * ca == ca * cb;
      return Some(DiffResult(added, removed, changed, same, onlyB, onlyA, shared));
    }
  }

  /** `m` is the greatest sequence number among the first `k` listed snapshots, or 0. */
  ghost predicate GreatestOf(s: Store, names: seq<string>, k: nat, m: nat) {
    && k <= |names| && Lists(StrLess, names, Listed(s))
    && (forall j :: 0 <= j < k ==> names[j] in s.snapshots && s.snapshots[names[j]].seqNo <= m)
    && (m == 0 || exists n :: n in Listed(s) && s.snapshots[n].seqNo == m)
  }

  lemma NoneYet(s: Store, names: seq<string>)
    requires Lists(StrLess, names, Listed(s))
    ensures GreatestOf(s, names, 0, 0)
  {
  }

  lemma GreatestStep(s: Store, names: seq<string>, k: nat, m: nat)
    requires GreatestOf(s, names, k, m) && k < |names|
    ensures names[k] in s.snapshots
    ensures GreatestOf(s, names, k + 1, if s.snapshots[names[k]].seqNo > m then s.snapshots[names[k]].seqNo else m)
  {
    hide Lists;
    NameListed(s, names, k);
  }

  lemma NameListed(s: Store, names: seq<string>, k: nat)
    requires Lists(StrLess, names, Listed(s)) && k < |names|
    ensures names[k] in Listed(s) && names[k] in s.snapshots
  {
    assert names[k] in Elems(names);
  }

  lemma GreatestDone(s: Store, names: seq<string>, m: nat)
    requires GreatestOf(s, names, |names|, m)
    ensures m == MaxSeq(s)
  {
    forall n | n in Listed(s) ensures s.snapshots[n].seqNo <= m { assert n in Elems(names); }
    MaxSeqIs(s, m);
  }

  /** Splits the names of the sorted manifests after the first `keep`. */
  method CutNewest(all: seq<Manifest>, keep: nat) returns (kept: seq<string>, dropped: seq<string>)
    ensures kept == Names(Keys(all))[..Cut(|all|, keep)]
    ensures Reverse(dropped) == ToDrop(Keys(all), keep)
    ensures kept + Reverse(Reverse(dropped)) == Names(Keys(all))
  {
    kept, dropped := [], [];
    for i := 0 to |all|
      invariant |kept| + |dropped| == i
      invariant |kept| == if i < keep then i else keep
      invariant forall j :: 0 <= j < |kept| ==> kept[j] == all[j].name
      invariant forall j :: 0 <= j < |dropped| ==> dropped[j] == all[|kept| + j].name
    {
      if i < keep {
        kept := kept + [all[i].name];
      } else {
        dropped := dropped + [all[i].name];
      }
    }
  }

  lemma WhenMatched(s: Store, keep: nat, keys: seq<Key>)
    requires NewestFirst(s, keys)
    ensures NamesMatch(s) ==> Lists(Newer, keys, KeysOf(s)) && Droppable(s, ToDrop(keys, keep))
    ensures NamesMatch(s) ==> GcStore(Without(s, Elems(ToDrop(keys, keep)))) == RetainStore(s, keep)
  {
    hide *;
    if NamesMatch(s) { RetainMatched(s, keep, keys); }
  }

  lemma DropNothing(s: Store, name: string)
    requires name !in s.snapshots
    ensures DropStore(s, name) == s
  {
    assert s.snapshots - {name} == s.snapshots;
  }

  lemma PassOver(files: seq<string>, k: nat, names: seq<string>)
    requires k < |files| && Ascending(StrLess, files) && Lists(StrLess, names, Elems(files[..k]) - {""})
    ensures files[k] == "" ==> Lists(StrLess, names, Elems(files[..k + 1]) - {""})
    ensures files[k] != "" ==> Lists(StrLess, names + [files[k]], Elems(files[..k + 1]) - {""})
  {
    assert files[..k + 1] == files[..k] + [files[k]];
    var before := Elems(files[..k]) - {""};
    if files[k] == "" {
      assert Elems(files[..k + 1]) - {""} == before;
    } else {
      assert Elems(files[..k + 1]) - {""} == before + {files[k]};
      AppendListed(names, before, files[k]);
    }
  }

  lemma FreshBound(digest: Bytes -> Hash, s0: Store, s: Store, pieces: seq<Bytes>, acts: seq<FsAction>, added: nat)
    requires Stored(digest, s0, s, pieces, acts, added)
    ensures added <= |pieces|
  {
    NewKeysBound(digest, s0.chunks, pieces);
  }

  lemma {:induction false} NewKeysBound(digest: Bytes -> Hash, chunks: map<Hash, Bytes>, pieces: seq<Bytes>)
    ensures |StorePieces(digest, chunks, pieces)| <= |chunks| + |pieces|
    decreases |pieces|
  {
    if pieces != [] {
      var h := digest(pieces[0]);
      NewKeysBound(digest, if h in chunks then chunks else chunks[h := pieces[0]], pieces[1..]);
    }
  }

  /** After the first `k` files: the store, the trace, the manifest entries and the running totals. */
  ghost predicate Taking(digest: Bytes -> Hash, s0: Store, s: Store, tree: Tree, n: nat, k: nat,
                         acts: seq<FsAction>, files: seq<FileEntry>, refs: nat, added: nat, bytes: nat) {
    && n > 0 && k <= |tree|
    && Stored(digest, s0, s, PiecesOf(tree[..k], n), acts, added)
    && files == FilesOf(digest, tree[..k], n)
    && refs == |PiecesOf(tree[..k], n)| && added <= refs
    && bytes == |Flatten(PiecesOf(tree[..k], n))|
  }

  lemma TakingStart(digest: Bytes -> Hash, s: Store, tree: Tree, n: nat)
    requires n > 0
    ensures Taking(digest, s, s, tree, n, 0, [], [], 0, 0, 0)
  {
    assert tree[..0] == [];
    StoredNothing(digest, s);
  }

  lemma ListIsCut(digest: Bytes -> Hash, list: seq<Chunk>, content: Bytes, n: nat)
    requires n > 0 && |list| == |Split(content, EffectiveSize(n))|
    requires forall i :: 0 <= i < |list| ==>
      list[i].data == Split(content, EffectiveSize(n))[i] && list[i].hash == digest(list[i].data)
    ensures HashedPieces(digest, list, Split(content, n)) && |list| == |Split(content, n)|
  {
  }

  lemma TakingStored(digest: Bytes -> Hash, s0: Store, s: Store, tree: Tree, n: nat, k: nat,
                     acts: seq<FsAction>, files: seq<FileEntry>, refs: nat, added: nat, bytes: nat)
    requires Taking(digest, s0, s, tree, n, k, acts, files, refs, added, bytes)
    ensures Stored(digest, s0, s, PiecesOf(tree[..k], n), acts, added)
  {
  }

  lemma TakingStep(digest: Bytes -> Hash, s0: Store, u: Store, s: Store, tree: Tree, n: nat, k: nat,
                   acts0: seq<FsAction>, files: seq<FileEntry>, refs: nat, added0: nat, bytes: nat,
                   acts: seq<FsAction>, added: nat)
    requires n > 0 && k < |tree|
    requires Taking(digest, s0, u, tree, n, k, acts0, files, refs, added0, bytes)
    requires Stored(digest, s0, s, PiecesOf(tree[..k], n) + Split(tree[k].1, n), acts, added)
    ensures Taking(digest, s0, s, tree, n, k + 1, acts,
                   files + [FileEntry(tree[k].0, |tree[k].1|, PieceHashes(digest, Split(tree[k].1, n)))],
                   refs + |Split(tree[k].1, n)|, added, bytes + |tree[k].1|)
  {
    PiecesSnoc(tree, k, n);
    FilesSnoc(digest, tree, k, n);
    FlattenConcat(PiecesOf(tree[..k], n), Split(tree[k].1, n));
    SplitCuts(tree[k].1, n);
    FreshBound(digest, s0, s, PiecesOf(tree[..k + 1], n), acts, added);
  }

  lemma TakingDone(digest: Bytes -> Hash, s0: Store, s: Store, name: string, tree: Tree, n: nat,
                   acts: seq<FsAction>, files: seq<FileEntry>, refs: nat, added: nat, bytes: nat, m: Manifest)
    requires Taking(digest, s0, s, tree, n, |tree|, acts, files, refs, added, bytes)
    requires m == Manifest(name, Cut32(n), Wrap64(MaxSeq(s0) + 1), files)
    ensures SafeTrace(digest, s0, acts + [WriteManifest(name, m)])
    ensures ApplyAll(s0, acts + [WriteManifest(name, m)]) == s.(snapshots := s.snapshots[name := m])
            == SnapshotStore(digest, s0, name, tree, n)
    ensures refs == |PiecesOf(tree, n)| && added <= refs && bytes == |Flatten(PiecesOf(tree, n))|
    ensures |acts| == added && |s.chunks| == |s0.chunks| + added && s.snapshots == s0.snapshots
  {
    hide *;
    TakenAll(digest, s0, s, tree, n, acts, files, refs, added, bytes);
    WrittenManifest(digest, s0, s, name, tree, n, m);
    SnapshotDone(digest, s0, s, name, tree, n, acts, added);
  }

  lemma TakenAll(digest: Bytes -> Hash, s0: Store, s: Store, tree: Tree, n: nat,
                 acts: seq<FsAction>, files: seq<FileEntry>, refs: nat, added: nat, bytes: nat)
    requires Taking(digest, s0, s, tree, n, |tree|, acts, files, refs, added, bytes)
    ensures n > 0 && Stored(digest, s0, s, PiecesOf(tree, n), acts, added) && files == FilesOf(digest, tree, n)
    ensures refs == |PiecesOf(tree, n)| && added <= refs && bytes == |Flatten(PiecesOf(tree, n))|
    ensures |acts| == added && |s.chunks| == |s0.chunks| + added && s.snapshots == s0.snapshots
  {
    hide FilesOf, PiecesOf, SafeTrace, ApplyAll, StorePieces, Flatten;
    assert tree[..|tree|] == tree;
  }

  lemma WrittenManifest(digest: Bytes -> Hash, s0: Store, s: Store, name: string, tree: Tree, n: nat, m: Manifest)
    requires n > 0 && m == Manifest(name, Cut32(n), Wrap64(MaxSeq(s0) + 1), FilesOf(digest, tree, n))
    ensures m == ManifestFor(digest, s0, name, tree, n)
    ensures Apply(s, WriteManifest(name, m)) == s.(snapshots := s.snapshots[name := m])
  {
  }

  lemma {:induction false} FlattenConcat(a: seq<Bytes>, b: seq<Bytes>)
    ensures Flatten(a + b) == Flatten(a) + Flatten(b)
    decreases |a|
  {
    if a == [] {
      assert a + b == b;
    } else {
      assert (a + b)[1..] == a[1..] + b;
      FlattenConcat(a[1..], b);
    }
  }

  lemma GcTrace(digest: Bytes -> Hash, s0: Store, s: Store, all: seq<Hash>,
                candidates: seq<Hash>, bytes: nat, dryRun: bool, acts: seq<FsAction>)
    requires GcProgress(digest, s0, s, all, |all|, candidates, bytes, dryRun, acts)
    ensures SafeTrace(digest, s0, acts) && ApplyAll(s0, acts) == s
  {
  }

  method PathMap(files: seq<FileEntry>) returns (m: map<string, seq<Hash>>)
    ensures m == FileMap(files)
  {
    m := map[];
    for k := 0 to |files|
      invariant m == FileMap(files[..k])
    {
      assert files[..k + 1][..k] == files[..k];
      m := m[files[k].path := files[k].chunks];
    }
    assert files[..|files|] == files;
  }

  /** After comparing the first `k` paths of `b`. */
  ghost predicate Compared(a: map<string, seq<Hash>>, b: map<string, seq<Hash>>, paths: seq<string>, k: nat,
                           added: seq<string>, changed: seq<string>, same: nat) {
    && k <= |paths| && Lists(StrLess, paths, b.Keys)
    && Lists(StrLess, added, Seen(paths, k, b.Keys - a.Keys))
    && Lists(StrLess, changed, Seen(paths, k, Changed(a, b)))
    && same == |Seen(paths, k, Unchanged(a, b))|
  }

  lemma DiffStart(a: map<string, seq<Hash>>, b: map<string, seq<Hash>>, paths: seq<string>)
    requires Lists(StrLess, paths, b.Keys)
    ensures Compared(a, b, paths, 0, [], [], 0)
  {
    assert forall want :: Seen(paths, 0, want) == {};
  }

  lemma ComparedStep(a: map<string, seq<Hash>>, b: map<string, seq<Hash>>, paths: seq<string>, k: nat,
                     added: seq<string>, changed: seq<string>, same: nat)
    requires Compared(a, b, paths, k, added, changed, same) && k < |paths|
    ensures paths[k] in b
    ensures paths[k] !in a ==> Compared(a, b, paths, k + 1, added + [paths[k]], changed, same)
    ensures paths[k] in a && a[paths[k]] != b[paths[k]] ==>
      Compared(a, b, paths, k + 1, added, changed + [paths[k]], same)
    ensures paths[k] in a && a[paths[k]] == b[paths[k]] ==> Compared(a, b, paths, k + 1, added, changed, same + 1)
  {
    hide Changed, Unchanged, Seen;
    var p := paths[k];
    assert p in Elems(paths);
    KindOf(a, b, p);
    OneMorePath(paths, k, b.Keys - a.Keys);
    OneMorePath(paths, k, Changed(a, b));
    OneMorePath(paths, k, Unchanged(a, b));
    AppendListed(added, Seen(paths, k, b.Keys - a.Keys), p);
    AppendListed(changed, Seen(paths, k, Changed(a, b)), p);
  }

  lemma KindOf(a: map<string, seq<Hash>>, b: map<string, seq<Hash>>, p: string)
    requires p in b
    ensures p !in a ==> p !in Changed(a, b) && p !in Unchanged(a, b)
    ensures p in a ==> (p in Changed(a, b) <==> a[p] != b[p]) && (p in Unchanged(a, b) <==> a[p] == b[p])
  {
  }

  ghost function Seen(paths: seq<string>, k: nat, want: set<string>): set<string>
    requires k <= |paths|
  {
    set p | p in paths[..k] && p in want
  }

  lemma OneMorePath(paths: seq<string>, k: nat, want: set<string>)
    requires k < |paths| && Ascending(StrLess, paths)
    ensures paths[k] !in Seen(paths, k, want)
    ensures paths[k] in want ==> Seen(paths, k + 1, want) == Seen(paths, k, want) + {paths[k]}
    ensures paths[k] !in want ==> Seen(paths, k + 1, want) == Seen(paths, k, want)
    ensures forall p :: p in Seen(paths, k, want) ==> StrLess(p, paths[k])
  {
    assert paths[..k + 1] == paths[..k] + [paths[k]];
    StrLessStrictTotal();
  }

  lemma AppendListed(xs: seq<string>, s: set<string>, p: string)
    requires Lists(StrLess, xs, s) && forall q :: q in s ==> StrLess(q, p)
    ensures Lists(StrLess, xs + [p], s + {p})
  {
    forall i | 0 <= i < |xs| ensures StrLess(xs[i], p) { assert xs[i] in Elems(xs); }
  }

  lemma ComparedDone(a: map<string, seq<Hash>>, b: map<string, seq<Hash>>, paths: seq<string>,
                     added: seq<string>, changed: seq<string>, same: nat)
    requires Compared(a, b, paths, |paths|, added, changed, same)
    ensures Lists(StrLess, added, b.Keys - a.Keys) && Lists(StrLess, changed, Changed(a, b))
    ensures same == |Unchanged(a, b)|
  {
    assert paths[..|paths|] == paths;
    forall p ensures p in paths <==> p in b { assert p in paths <==> p in Elems(paths); }
    assert Seen(paths, |paths|, b.Keys - a.Keys) == b.Keys - a.Keys;
    assert Seen(paths, |paths|, Changed(a, b)) == Changed(a, b);
    assert Seen(paths, |paths|, Unchanged(a, b)) == Unchanged(a, b);
  }

  /** The paths of `a` that `b` lacks, sorted. */
  method MissingFrom(a: map<string, seq<Hash>>, b: map<string, seq<Hash>>) returns (removed: seq<string>)
    ensures Lists(StrLess, removed, a.Keys - b.Keys)
  {
    var paths := SortedSet(a.Keys);
    removed := [];
    assert Seen(paths, 0, a.Keys - b.Keys) == {};
    for k := 0 to |paths|
      invariant Lists(StrLess, removed, Seen(paths, k, a.Keys - b.Keys))
    {
      assert paths[k] in Elems(paths);
      OneMorePath(paths, k, a.Keys - b.Keys);
      AppendListed(removed, Seen(paths, k, a.Keys - b.Keys), paths[k]);
      if paths[k] !in b {
        removed := removed + [paths[k]];
      }
    }
    assert paths[..|paths|] == paths;
    forall p ensures p in paths <==> p in a { assert p in paths <==> p in Elems(paths); }
    assert Seen(paths, |paths|, a.Keys - b.Keys) == a.Keys - b.Keys;
  }

  lemma TallyOne(hashes: set<Hash>, rest: set<Hash>, other: set<Hash>, h: Hash)
    requires rest <= hashes && h in rest
    ensures |(hashes - (rest - {h})) * other| == |(hashes - rest) * other| + if h in other then 1 else 0
    ensures |hashes - (rest - {h}) - other| == |hashes - rest - other| + if h in other then 0 else 1
  {
    if h in other {
      assert (hashes - (rest - {h})) * other == (hashes - rest) * other + {h};
      assert hashes - (rest - {h}) - other == hashes - rest - other;
    } else {
      assert (hashes - (rest - {h})) * other == (hashes - rest) * other;
      assert hashes - (rest - {h}) - other == (hashes - rest - other) + {h};
    }
  }

  /** How many of the hashes the other set lacks, and how many it shares. */
  method Tally(hashes: set<Hash>, other: set<Hash>) returns (only: nat, shared: nat)
    ensures only == |hashes - other| && shared == |hashes * other|
  {
    var rest := hashes;
    only, shared := 0, 0;
    assert hashes - rest == {};
    while rest != {}
      invariant rest <= hashes
      invariant only == |hashes - rest - other| && shared == |(hashes - rest) * other|
      decreases |rest|
    {
      var h :| h in rest;
      TallyOne(hashes, rest, other, h);
      if h in other {
        shared := shared + 1;
      } else {
        only := only + 1;
      }
      rest := rest - {h};
    }
    assert hashes - {} - other == hashes - other && (hashes - {}) * other == hashes * other;
  }
}
