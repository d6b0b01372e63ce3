/** From a directory tree to its restoration. */
module EndToEnd {
  import opened Common
  import opened Ordering
  import opened Manifests
  import opened Chunker
  import opened StoreModel
  import opened SnapshotHistory
  import opened ClusterModel
  import opened RebalanceLemmas
  import opened RestoreProtocol
  import R = ClusterRuns
  import D = Distribute
  import opened ManifestText
  import opened ManifestRoundTrip
  import J = StandardJson
  import opened StandardStrings
  import Sha = Sha256Spec

  // ----- Upload, then failures -----

  /** Every placement node of every uploaded chunk holds the store's bytes for it. */
  ghost predicate Uploaded(e: Env, v: View, hashes: set<Hash>, store: map<Hash, Bytes>)
    requires Wf(v)
  {
    hashes <= store.Keys &&
    forall h, i :: h in hashes && i in Placement(e, v, h) ==> Cell(v, i, h) == Some(store[h])
  }

  lemma PutUploads(e: Env, v: View, hashes: set<Hash>, store: map<Hash, Bytes>, h: Hash)
    requires Wf(v) && Uploaded(e, v, hashes, store) && h in store
    ensures Wf(PutView(e, v, h, store[h]))
    ensures SameShape(v, PutView(e, v, h, store[h]))
    ensures Uploaded(e, PutView(e, v, h, store[h]), hashes + {h}, store)
  {
    R.PutCells(e, v, h, store[h]);
  }

  /** Whatever the cluster held before, uploading puts the store's bytes on every placement node. */
  lemma {:induction false} UploadPlaces(e: Env, v: View, hashes: seq<Hash>, store: map<Hash, Bytes>, already: set<Hash>)
    requires Wf(v) && Uploaded(e, v, already, store)
    requires forall h :: h in hashes ==> h in store
    ensures SameShape(v, R.PutAll(e, v, D.Items(hashes, store)))
    ensures Uploaded(e, R.PutAll(e, v, D.Items(hashes, store)), already + Elems(hashes), store)
    decreases |hashes|
  {
    hide *;
    if hashes == [] {
      UploadNone(e, v, store, already);
    } else {
      PutUploads(e, v, already, store, hashes[0]);
      UploadFirst(e, v, hashes, store, already);
      UploadPlaces(e, PutView(e, v, hashes[0], store[hashes[0]]), hashes[1..], store, already + {hashes[0]});
      ShapeChain(v, PutView(e, v, hashes[0], store[hashes[0]]), R.PutAll(e, v, D.Items(hashes, store)));
    }
  }

  lemma UploadNone(e: Env, v: View, store: map<Hash, Bytes>, already: set<Hash>)
    requires Wf(v)
    ensures R.PutAll(e, v, D.Items([], store)) == v && SameShape(v, v)
    ensures already + Elems<Hash>([]) == already
  {
  }

  lemma UploadFirst(e: Env, v: View, hashes: seq<Hash>, store: map<Hash, Bytes>, already: set<Hash>)
    requires Wf(v) && hashes != [] && forall h :: h in hashes ==> h in store
    ensures Wf(PutView(e, v, hashes[0], store[hashes[0]]))
    ensures R.PutAll(e, v, D.Items(hashes, store))
         == R.PutAll(e, PutView(e, v, hashes[0], store[hashes[0]]), D.Items(hashes[1..], store))
    ensures already + {hashes[0]} + Elems(hashes[1..]) == already + Elems(hashes)
  {
    hide PutView, Wf;
    D.PutWf(e, v, hashes[0], store[hashes[0]]);
    assert D.Items(hashes, store)[1..] == D.Items(hashes[1..], store);
    assert hashes == [hashes[0]] + hashes[1..];
  }

  lemma ShapeChain(u: View, v: View, w: View)
    requires SameShape(u, v) && SameShape(v, w)
    ensures SameShape(u, w)
  {
  }

  /** The same replicas, with nodes gone down or come back. */
  ghost predicate OnlyStatusChanged(v: View, w: View) {
    && |w.nodes| == |v.nodes| && w.replic == v.replic
    && forall i :: 0 <= i < |v.nodes| ==> w.nodes[i].data == v.nodes[i].data
  }

  /** With fewer than R nodes down, fetching an uploaded chunk gives the store's bytes. */
  lemma FetchGivesStored(e: Env, v: View, w: View, hashes: set<Hash>, store: map<Hash, Bytes>, h: Hash)
    requires Wf(v) && Uploaded(e, v, hashes, store) && h in hashes && e.digest(store[h]) == h
    requires OnlyStatusChanged(v, w) && |DownNodes(w)| < w.replic
    ensures D.FetchView(e, w, h) == Ok(store[h])
  {
    PlacementReachable(e, w, h);
    var i := Min(Placement(e, w, h) * UpNodes(w));
    assert Cell(v, i, h) == Some(store[h]);
    assert i in UpHolders(w, h) * Placement(e, w, h);
    var id := Min(UpHolders(w, h) * Placement(e, w, h));
    assert Cell(v, id, h) == Some(store[h]);
  }

  // ----- Restore -----

  /** A finished restore succeeds exactly when the cluster serves every chunk it needs, and then has genuine bytes. */
  lemma RestoreServesIff(e: Env, v: View, c: Config, acts: seq<Action>, t: Sys)
    requires ValidConfig(c) && |v.nodes| > 0 && forall h :: h in c.unique ==> c.fetch(h) == D.FetchView(e, v, h)
    requires Runs(c, Init(c), acts, t) && t.collector.Finished?
    ensures t.firstErr.None? <==> forall h :: h in c.unique ==> R.Serves(e, v, h)
    ensures t.firstErr.None? ==> t.fetched.Keys == Elems(c.unique)
    ensures t.firstErr.None? ==> forall h :: h in t.fetched ==> e.digest(t.fetched[h]) == h
  {
    hide *;
    RestoreRun(c, acts, t);
    forall h | h in c.unique
      ensures c.fetch(h).Ok? <==> R.Serves(e, v, h)
      ensures c.fetch(h).Ok? ==> e.digest(c.fetch(h).value) == h
    {
      D.FetchServes(e, v, h);
    }
    SucceedsMeans(c, t);
  }

  lemma SucceedsMeans(c: Config, t: Sys)
    requires t.firstErr.None? <==> Succeeds(c)
    requires t.firstErr.None? ==> HoldsAll(c, t.fetched)
    ensures t.firstErr.None? <==> forall h :: h in c.unique ==> c.fetch(h).Ok?
    ensures t.firstErr.None? ==> t.fetched.Keys == Elems(c.unique)
    ensures t.firstErr.None? ==> forall h :: h in t.fetched ==> h in c.unique && c.fetch(h) == Ok(t.fetched[h])
  {
  }

  /** While small batches strike and repairs follow, every restore of stored chunks succeeds, repaired or not. */
  lemma RestoreWhileFailing(e: Env, v: View, batches: seq<set<int>>, stored: set<Hash>, k: nat, down: bool,
                            c: Config, acts: seq<Action>, t: Sys)
    requires R.Healthy(e, v, stored) && R.SmallBatches(e, v, batches) && k <= |batches| && (down ==> k < |batches|)
    requires ValidConfig(c) && forall h :: h in c.unique ==> h in stored
    requires var w := R.RollView(e, v, batches[..k]);
             var x := if down then R.FailView(w, batches[k]) else w;
             |x.nodes| > 0 && forall h :: h in c.unique ==> c.fetch(h) == D.FetchView(e, x, h)
    requires Runs(c, Init(c), acts, t) && t.collector.Finished?
    ensures t.firstErr.None?
  {
    hide *;
    R.RollingFailures(e, v, batches, stored, k);
    var w := R.RollView(e, v, batches[..k]);
    RestoreServesIff(e, if down then R.FailView(w, batches[k]) else w, c, acts, t);
  }

  /** Every chunk the files name was fetched, and is what the store has. */
  ghost predicate Agree(files: seq<FileEntry>, fetched: map<Hash, Bytes>, store: map<Hash, Bytes>) {
    forall f, h :: f in files && h in f.chunks ==> h in fetched && h in store && fetched[h] == store[h]
  }

  /** Restoring files whose fetched chunks agree with the store writes what the store alone would. */
  lemma FetchedRebuilds(files: seq<FileEntry>, fetched: map<Hash, Bytes>, store: map<Hash, Bytes>, p: string)
    requires DistinctPaths(files) && Agree(files, fetched, store)
    ensures forall f, h :: f in Sort(D.PathLess, files) && h in f.chunks ==> h in fetched
    ensures forall f, h :: f in files && h in f.chunks ==> h in store
    ensures var out := WriteFiles(Sort(D.PathLess, files), fetched, map[]);
            var want := WriteFiles(files, store, map[]);
            (p in out <==> p in want) && (p in out && p in want ==> out[p] == want[p])
  {
    hide *;
    D.SortedPaths(files);
    AgreeMeans(files, Sort(D.PathLess, files), fetched, store);
    if f :| f in files && f.path == p {
      D.RestoredContent(files, fetched, map[], f);
      WriteFilesContent(files, store, map[]);
      AgreeOn(files, fetched, store, f);
      ConcatAgrees(f.chunks, fetched, store);
    } else {
      OtherPathKept(Sort(D.PathLess, files), fetched, map[], p);
      OtherPathKept(files, store, map[], p);
    }
  }

  lemma AgreeMeans(files: seq<FileEntry>, sorted: seq<FileEntry>, fetched: map<Hash, Bytes>, store: map<Hash, Bytes>)
    requires Agree(files, fetched, store) && forall f :: f in sorted <==> f in files
    ensures forall f, h :: f in sorted && h in f.chunks ==> h in fetched
    ensures forall f, h :: f in files && h in f.chunks ==> h in store
  {
  }

  lemma AgreeOn(files: seq<FileEntry>, fetched: map<Hash, Bytes>, store: map<Hash, Bytes>, f: FileEntry)
    requires Agree(files, fetched, store) && f in files
    ensures forall h :: h in f.chunks ==> h in fetched && h in store && fetched[h] == store[h]
  {
  }

  /**
   * Upload a recorded snapshot to any cluster, take down any fewer than R nodes: every finished interleaving of
   * every parallel restore succeeds, and writes exactly the paths and bytes of the tree.
   */
  lemma DistributeThenRestore(e: Env, s: Store, taken: map<string, Taken>, play: set<Bytes>, name: string,
                              v: View, w: View, unique: seq<Hash>, c: Config, acts: seq<Action>, t: Sys)
    requires Records(e.digest, s, taken, play) && CollisionFree(e.digest, play)
    requires name in s.snapshots && DistinctTree(taken[name].tree)
    requires Lists(StrLess, unique, ChunkSet(s.snapshots[name].files))
    requires Wf(v) && (forall h :: h in unique ==> h in s.chunks)
    requires OnlyStatusChanged(R.PutAll(e, v, D.Items(unique, s.chunks)), w) && |DownNodes(w)| < w.replic
    requires ValidConfig(c) && c.unique == unique && forall h :: h in unique ==> c.fetch(h) == D.FetchView(e, w, h)
    requires Runs(c, Init(c), acts, t) && t.collector.Finished?
    ensures t.firstErr.None? && t.fetched.Keys == ChunkSet(s.snapshots[name].files) && t.verified == |unique|
    ensures var sorted := Sort(D.PathLess, s.snapshots[name].files);
            && (forall f, h :: f in sorted && h in f.chunks ==> h in t.fetched)
            && IsTree(WriteFiles(sorted, t.fetched, map[]), taken[name].tree)
  {
    hide *;
    var files := s.snapshots[name].files;
    var u := R.PutAll(e, v, D.Items(unique, s.chunks));
    NothingUploaded(e, v, s.chunks);
    UploadPlaces(e, v, unique, s.chunks, {});
    ListedHashes(unique, ChunkSet(files));
    SameWf(v, u);
    forall h | h in unique ensures c.fetch(h) == Ok(s.chunks[h]) {
      GenuineChunk(e.digest, s, taken, play, h);
      FetchGivesStored(e, u, w, {} + Elems(unique), s.chunks, h);
    }
    RestoreRun(c, acts, t);
    FetchedAll(c, t, s.chunks);
    ChunksListed(unique, files, s.chunks);
    RestorableMeans(s, name);
    RecordedSnapshotRestores(e.digest, s, taken, play, name);
    RebuildsTree(e.digest, s, taken, play, name, t.fetched);
  }

  lemma NothingUploaded(e: Env, v: View, store: map<Hash, Bytes>)
    requires Wf(v)
    ensures Uploaded(e, v, {}, store)
  {
  }

  lemma SameWf(v: View, u: View)
    requires Wf(v) && SameShape(v, u)
    ensures Wf(u)
  {
  }

  lemma ListedHashes(xs: seq<Hash>, hs: set<Hash>)
    requires Lists(StrLess, xs, hs)
    ensures Elems(xs) == hs && forall h :: h in xs <==> h in {} + Elems(xs)
  {
  }

  lemma ChunksListed(unique: seq<Hash>, files: seq<FileEntry>, chunks: map<Hash, Bytes>)
    requires Lists(StrLess, unique, ChunkSet(files)) && forall h :: h in unique ==> h in chunks
    ensures ChunkSet(files) <= chunks.Keys
  {
    forall h | h in ChunkSet(files) ensures h in chunks { assert h in Elems(unique); }
  }

  lemma GenuineChunk(digest: Bytes -> Hash, s: Store, taken: map<string, Taken>, play: set<Bytes>, h: Hash)
    requires Records(digest, s, taken, play) && h in s.chunks
    ensures digest(s.chunks[h]) == h
  {
  }

  lemma FetchedAll(c: Config, t: Sys, store: map<Hash, Bytes>)
    requires forall h :: h in c.unique ==> h in store && c.fetch(h) == Ok(store[h])
    requires t.firstErr.None? <==> Succeeds(c)
    requires t.firstErr.None? ==> HoldsAll(c, t.fetched)
    ensures t.firstErr.None? && t.fetched.Keys == Elems(c.unique)
    ensures forall h :: h in t.fetched ==> h in store && t.fetched[h] == store[h]
  {
  }

  lemma RebuildsTree(digest: Bytes -> Hash, s: Store, taken: map<string, Taken>, play: set<Bytes>, name: string,
                     fetched: map<Hash, Bytes>)
    requires Records(digest, s, taken, play) && name in s.snapshots && DistinctTree(taken[name].tree)
    requires Restorable(s, name)
    requires IsTree(WriteFiles(s.snapshots[name].files, s.chunks, map[]), taken[name].tree)
    requires fetched.Keys == ChunkSet(s.snapshots[name].files)
    requires forall h :: h in fetched ==> h in s.chunks && fetched[h] == s.chunks[h]
    ensures var sorted := Sort(D.PathLess, s.snapshots[name].files);
            && (forall f, h :: f in sorted && h in f.chunks ==> h in fetched)
            && IsTree(WriteFiles(sorted, fetched, map[]), taken[name].tree)
  {
    hide Records, ChunkSet, Sort;
    var files := s.snapshots[name].files;
    TreeFiles(digest, s, taken, play, name);
    ChunkMembers(files);
    FetchedRebuilds(files, fetched, s.chunks, "");
    var out := WriteFiles(Sort(D.PathLess, files), fetched, map[]);
    var want := WriteFiles(files, s.chunks, map[]);
    forall p ensures (p in out <==> p in want) && (p in out && p in want ==> out[p] == want[p]) {
      FetchedRebuilds(files, fetched, s.chunks, p);
    }
  }

  lemma TreeFiles(digest: Bytes -> Hash, s: Store, taken: map<string, Taken>, play: set<Bytes>, name: string)
    requires Records(digest, s, taken, play) && name in s.snapshots && DistinctTree(taken[name].tree)
    ensures DistinctPaths(s.snapshots[name].files)
  {
  }

  lemma ChunkMembers(files: seq<FileEntry>)
    ensures forall f, h :: f in files && h in f.chunks ==> h in ChunkSet(files)
  {
  }

  // ----- The manifest's text -----

  /** The content-address used throughout: the 64-digit SHA-256 text. */
  function Address(data: Bytes): Hash {
    Sha.HexOf(data, Wrap64(8 * |data|))
  }

  lemma AddressesArePlain()
    ensures forall d :: Plain(Address(d)) && Simple(Address(d)) && |Address(d)| == 64
  {
    forall d ensures Plain(Address(d)) && Simple(Address(d)) && |Address(d)| == 64 {
      PlainAddress(d);
    }
  }

  lemma PlainAddress(d: Bytes)
    ensures Plain(Address(d)) && Simple(Address(d)) && |Address(d)| == 64
  {
    hide Sha.Fold, Sha.Padded, Sha.HexText;
    Sha.HexTextFaithful(Sha.Fold(Sha.Padded(d, Wrap64(8 * |d|))), Sha.H0());
  }

  /** A history whose files are shorter than 2^64 bytes. */
  ghost predicate SmallFiles(taken: map<string, Taken>) {
    forall n :: n in taken ==> forall i :: 0 <= i < |taken[n].tree| ==> |taken[n].tree[i].1| < TWO_64
  }

  /** Manifests the engine writes keep their numbers in 64 and 32 bits. */
  ghost predicate FieldsFit(s: Store) {
    forall n :: n in s.snapshots ==> s.snapshots[n].chunkSize < TWO_32 && s.snapshots[n].seqNo < TWO_64
  }

  lemma {:induction false} RunFieldsFit(digest: Bytes -> Hash, s: Store, ops: seq<Op>)
    requires FieldsFit(s)
    ensures FieldsFit(Run(digest, s, ops))
    decreases |ops|
  {
    if ops != [] {
      StepFieldsFit(digest, s, ops[0]);
      RunFieldsFit(digest, Step(digest, s, ops[0]), ops[1..]);
    }
  }

  lemma StepFieldsFit(digest: Bytes -> Hash, s: Store, op: Op)
    requires FieldsFit(s)
    ensures FieldsFit(Step(digest, s, op))
  {
  }

  /** Every manifest a history leaves behind is read back from its printed text exactly. */
  lemma SnapshotsSurviveText(ops: seq<Op>, n: string)
    requires SmallFiles(TakenRun(map[], ops)) && n in Run(Address, Store(map[], map[]), ops).snapshots
    ensures var m := Run(Address, Store(map[], map[]), ops).snapshots[n]; FromJson(ToJson(m)) == Some(m)
  {
    hide *;
    var s, taken := Run(Address, Store(map[], map[]), ops), TakenRun(map[], ops);
    EmptyRecords(Address, PiecesInPlay(ops));
    RunRecords(Address, Store(map[], map[]), map[], PiecesInPlay(ops), ops);
    RunFieldsFit(Address, Store(map[], map[]), ops);
    AddressesArePlain();
    RecordedStorable(s, taken, PiecesInPlay(ops), n);
    RoundTrip(s.snapshots[n]);
  }

  lemma EmptyRecords(digest: Bytes -> Hash, play: set<Bytes>)
    ensures Records(digest, Store(map[], map[]), map[], play) && FieldsFit(Store(map[], map[]))
  {
    assert Referenced(Store(map[], map[])) == {};
  }

  lemma RecordedStorable(s: Store, taken: map<string, Taken>, play: set<Bytes>, n: string)
    requires Records(Address, s, taken, play) && FieldsFit(s) && SmallFiles(taken) && n in s.snapshots
    requires forall d :: Plain(Address(d)) && Simple(Address(d)) && |Address(d)| == 64
    ensures StorableManifest(s.snapshots[n])
  {
    hide Address, Plain, Simple;
    var m := s.snapshots[n];
    assert m.files == FilesOf(Address, taken[n].tree, taken[n].size);
    forall f | f in m.files ensures Storable(f) {
      var i :| 0 <= i < |m.files| && m.files[i] == f;
      assert f == FileOf(Address, taken[n].tree[i].0, taken[n].tree[i].1, taken[n].size);
      forall h | h in f.chunks ensures Plain(h) {
        PieceHashMember(Address, Split(taken[n].tree[i].1, taken[n].size), h);
      }
    }
  }

  // ----- The manifest's text, as the other layer reads it -----

  /** A snapshot whose name and paths hold no control character but newline, return and tab, and are UTF-8. */
  ghost predicate PortableTree(name: string, tree: Tree) {
    Portable(name) && forall i :: 0 <= i < |tree| ==> Portable(tree[i].0)
  }

  /** A standard decoder reads a surviving manifest back from its text exactly if its name and paths are portable. */
  lemma SnapshotReadIff(ops: seq<Op>, n: string)
    requires SmallFiles(TakenRun(map[], ops))
    requires n in Run(Address, Store(map[], map[]), ops).snapshots && n in TakenRun(map[], ops)
    ensures var m := Run(Address, Store(map[], map[]), ops).snapshots[n];
            J.StandardManifest(ToJson(m)) == Some(m) <==> PortableTree(n, TakenRun(map[], ops)[n].tree)
  {
    hide *;
    var s, taken := Run(Address, Store(map[], map[]), ops), TakenRun(map[], ops);
    EmptyRecords(Address, PiecesInPlay(ops));
    RunRecords(Address, Store(map[], map[]), map[], PiecesInPlay(ops), ops);
    RunFieldsFit(Address, Store(map[], map[]), ops);
    AddressesArePlain();
    RecordedStorable(s, taken, PiecesInPlay(ops), n);
    StorableFits(s.snapshots[n]);
    RecordedSimple(s, taken, PiecesInPlay(ops), n);
    J.StandardManifestIff(s.snapshots[n]);
  }

  lemma StorableFits(m: Manifest)
    requires StorableManifest(m)
    ensures NumbersFit(m)
  {
  }

  lemma RecordedSimple(s: Store, taken: map<string, Taken>, play: set<Bytes>, n: string)
    requires Records(Address, s, taken, play) && n in s.snapshots && n in taken
    requires forall d :: Plain(Address(d)) && Simple(Address(d)) && |Address(d)| == 64
    ensures J.SimpleHashes(s.snapshots[n].files)
    ensures Portable(s.snapshots[n].name) && (forall f :: f in s.snapshots[n].files ==> Portable(f.path))
            <==> PortableTree(n, taken[n].tree)
  {
    hide Address, Plain, Simple, Portable;
    var m, tree := s.snapshots[n], taken[n].tree;
    assert m.files == FilesOf(Address, tree, taken[n].size);
    forall f, h | f in m.files && h in f.chunks ensures Simple(h) {
      var i :| 0 <= i < |m.files| && m.files[i] == f;
      PieceHashMember(Address, Split(tree[i].1, taken[n].size), h);
    }
    assert forall i :: 0 <= i < |tree| ==> m.files[i].path == tree[i].0 && m.files[i] in m.files;
  }

  /** A legal file name the other layer cannot read: the snapshot of a tree with such a file cannot be put. */
  lemma ControlPathUnreadable()
    ensures var ops := [Snapshot("s", 1, [([1 as char], [])])];
            var s := Run(Address, Store(map[], map[]), ops);
            "s" in s.snapshots && J.StandardManifest(ToJson(s.snapshots["s"])).None?
  {
    hide Address;
    var tree: Tree := [([1 as char], [])];
    var ops := [Snapshot("s", 1, tree)];
    var t := SnapshotStore(Address, Store(map[], map[]), "s", tree, 1);
    assert ops[1..] == [];
    assert Run(Address, Store(map[], map[]), ops) == t;
    assert t.snapshots["s"].files[0].path == [1 as char];
    assert t.snapshots["s"].files[0].chunks == [];
    J.StandardReads(t.snapshots["s"]);
    assert ([1 as char])[0] < ' ';
  }

  // ----- All together -----

  /**
   * Uploading a surviving snapshot finds every chunk in the store exactly when the snapshot is restorable, as it always
   * is unless its name is empty.
   */
  lemma UploadFindsAll(digest: Bytes -> Hash, ops: seq<Op>, name: string)
    requires name in Run(digest, Store(map[], map[]), ops).snapshots
    ensures var s := Run(digest, Store(map[], map[]), ops);
            && (ChunkSet(s.snapshots[name].files) <= s.chunks.Keys <==> Restorable(s, name))
            && (name != "" ==> Restorable(s, name))
  {
    hide *;
    var s := Run(digest, Store(map[], map[]), ops);
    HistoryIntegral(digest, ops);
    RestorableMeans(s, name);
    if name != "" {
      IntegralMeans(digest, s, name);
      ListedRestorable(s, name);
    }
  }

  lemma IntegralMeans(digest: Bytes -> Hash, s: Store, name: string)
    requires Integral(digest, s) && name in s.snapshots && name != ""
    ensures Referenced(s) <= s.chunks.Keys && name in Listed(s)
  {
  }

  /**
   * Take any history of the store under SHA-256 addresses that does not collide on its own chunks, and a surviving
   * snapshot of portable names. Let a standard decoder read its manifest `m` from the text the engine printed, upload
   * its chunks to any cluster, and let the nodes' status change so that fewer than R are down: every finished parallel
   * restore rebuilds the tree as it was when taken.
   */
  lemma SnapshotToRestore(e: Env, ops: seq<Op>, name: string, s: Store, taken: map<string, Taken>, m: Manifest,
                          v: View, w: View, unique: seq<Hash>, c: Config, acts: seq<Action>, t: Sys)
    requires e.digest == Address && s == Run(Address, Store(map[], map[]), ops) && taken == TakenRun(map[], ops)
    requires CollisionFree(Address, PiecesInPlay(ops)) && SmallFiles(taken)
    requires name in s.snapshots && name in taken && DistinctTree(taken[name].tree)
    requires PortableTree(name, taken[name].tree) && J.StandardManifest(ToJson(s.snapshots[name])) == Some(m)
    requires Lists(StrLess, unique, ChunkSet(m.files)) && forall h :: h in unique ==> h in s.chunks
    requires Wf(v) && OnlyStatusChanged(R.PutAll(e, v, D.Items(unique, s.chunks)), w) && |DownNodes(w)| < w.replic
    requires ValidConfig(c) && c.unique == unique && forall h :: h in unique ==> c.fetch(h) == D.FetchView(e, w, h)
    requires Runs(c, Init(c), acts, t) && t.collector.Finished?
    ensures t.firstErr.None?
    ensures forall f, h :: f in Sort(D.PathLess, m.files) && h in f.chunks ==> h in t.fetched
    ensures IsTree(WriteFiles(Sort(D.PathLess, m.files), t.fetched, map[]), taken[name].tree)
  {
    hide *;
    SnapshotReadIff(ops, name);
    EmptyRecords(Address, PiecesInPlay(ops));
    RunRecords(Address, Store(map[], map[]), map[], PiecesInPlay(ops), ops);
    DistributeThenRestore(e, s, taken, PiecesInPlay(ops), name, v, w, unique, c, acts, t);
  }
}
