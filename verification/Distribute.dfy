/** Putting a snapshot on the cluster and restoring it, sequentially and in parallel. */
module Distribute {
  import opened Common
  import opened Ordering
  import opened ClusterModel
  import opened ClusterRuns
  import opened Manifests
  import opened RestoreProtocol
  import C = Cluster

  /** Fetching a chunk from a cluster and re-hashing what arrives. */
  ghost function FetchView(e: Env, v: View, h: Hash): Fetched
    requires |v.nodes| > 0
  {
    match GetView(e, v, h)
    case None => Err(Unavailable(h))
    case Some(got) => if e.digest(got.0) == h then Ok(got.0) else Err(Corrupted(h, e.digest(got.0)))
  }

  lemma FetchServes(e: Env, v: View, h: Hash)
    requires |v.nodes| > 0
    ensures FetchView(e, v, h).Ok? <==> Serves(e, v, h)
    ensures FetchView(e, v, h).Ok? ==> e.digest(FetchView(e, v, h).value) == h
  {
  }

  method Fetch(c: C.Cluster, h: Hash) returns (r: Fetched)
    requires c.Valid()
    ensures |c.V().nodes| > 0 && r == FetchView(c.env, c.V(), h)
  {
    hide *;
    c.WfView();
    var got := c.Get(h);
    FetchIs(c.env, c.V(), h);
    if got.None? {
      return Err(Unavailable(h));
    }
    var sum := c.env.digest(got.value.0);
    if sum != h {
      return Err(Corrupted(h, sum));
    }
    return Ok(got.value.0);
  }

  lemma FetchIs(e: Env, v: View, h: Hash)
    requires |v.nodes| > 0
    ensures GetView(e, v, h).None? ==> FetchView(e, v, h) == Err(Unavailable(h))
    ensures GetView(e, v, h).Some? ==>
      var d := GetView(e, v, h).value.0;
      FetchView(e, v, h) == if e.digest(d) == h then Ok(d) else Err(Corrupted(h, e.digest(d)))
  {
  }

  /** The sorted, de-duplicated chunks of a manifest. */
  method UniqueChunks(files: seq<FileEntry>) returns (out: seq<Hash>)
    ensures Lists(StrLess, out, ChunkSet(files))
  {
    var seen := ChunksOf(files);
    out := SortedSet(seen);
  }

  function Items(hashes: seq<Hash>, store: map<Hash, Bytes>): (items: seq<(Hash, Bytes)>)
    requires forall h :: h in hashes ==> h in store
  {
    seq(|hashes|, k requires 0 <= k < |hashes| => (hashes[k], store[hashes[k]]))
  }

  lemma {:induction false} PutAllSnoc(e: Env, v: View, items: seq<(Hash, Bytes)>, it: (Hash, Bytes))
    requires Wf(v)
    ensures PutAll(e, v, items + [it]) == PutView(e, PutAll(e, v, items), it.0, it.1)
    decreases |items|
  {
    hide PutView;
    if items == [] {
      assert items + [it] == [it];
      PutWf(e, v, it.0, it.1);
      assert PutAll(e, v, [it]) == PutAll(e, PutView(e, v, it.0, it.1), []);
    } else {
      assert (items + [it])[1..] == items[1..] + [it];
      PutWf(e, v, items[0].0, items[0].1);
      PutAllSnoc(e, PutView(e, v, items[0].0, items[0].1), items[1..], it);
    }
  }

  lemma PutWf(e: Env, v: View, h: Hash, d: Bytes)
    requires Wf(v)
    ensures Wf(PutView(e, v, h, d))
  {
  }

  /** Uploads every unique chunk; stops, with the earlier chunks uploaded, at the first the store lacks. */
  method Upload(c: C.Cluster, files: seq<FileEntry>, store: map<Hash, Bytes>)
    returns (count: Option<nat>, ghost unique: seq<Hash>, ghost n: nat)
    requires c.Valid()
    modifies c.nodes`data
    ensures c.Valid() && Wf(old(c.V())) && Lists(StrLess, unique, ChunkSet(files)) && n <= |unique|
    ensures forall h :: h in unique[..n] ==> h in store
    ensures c.V() == PutAll(c.env, old(c.V()), Items(unique[..n], store))
    ensures if count.Some? then n == |unique| == count.value else n < |unique| && unique[n] !in store
  {
    hide *;
    c.WfView();
    ghost var v := c.V();
    var chunks := UniqueChunks(files);
    unique, n := chunks, 0;
    PutNothing(c.env, v, store);
    for k := 0 to |chunks|
      invariant c.Valid() && n == k
      invariant forall h :: h in chunks[..k] ==> h in store
      invariant c.V() == PutAll(c.env, v, Items(chunks[..k], store))
    {
      if chunks[k] !in store {
        return None, chunks, k;
      }
      assert chunks[..k + 1] == chunks[..k] + [chunks[k]];
      ItemsSnoc(chunks, k, store);
      PutAllSnoc(c.env, v, Items(chunks[..k], store), (chunks[k], store[chunks[k]]));
      c.Put(chunks[k], store[chunks[k]]);
      n := n + 1;
    }
    return Some(|chunks|), chunks, |chunks|;
  }

  lemma PutNothing(e: Env, v: View, store: map<Hash, Bytes>)
    requires Wf(v)
    ensures PutAll(e, v, Items([], store)) == v
  {
  }

  lemma ItemsSnoc(hashes: seq<Hash>, k: nat, store: map<Hash, Bytes>)
    requires k < |hashes| && forall h :: h in hashes[..k + 1] ==> h in store
    ensures forall h :: h in hashes[..k] ==> h in store
    ensures hashes[k] in store
    ensures Items(hashes[..k + 1], store) == Items(hashes[..k], store) + [(hashes[k], store[hashes[k]])]
  {
    assert hashes[..k + 1] == hashes[..k] + [hashes[k]];
  }

  // ----- Restore -----

  /** The actions any scheduler could be asked to take next. */
  function Actions(s: Sys): set<Action> {
    {FeederStop, FeederEnd, CloseResults, Collect, CollectorEnd}
    + (set w | 0 <= w < |s.workers| :: Feed(w)) + (set w | 0 <= w < |s.workers| :: Quit(w))
    + (set w | 0 <= w < |s.workers| :: Drained(w)) + (set w | 0 <= w < |s.workers| :: Get(w))
    + (set w | 0 <= w < |s.workers| :: Deliver(w)) + (set w | 0 <= w < |s.workers| :: Abandon(w))
  }

  lemma EnabledListed(c: Config, s: Sys, a: Action)
    requires Enabled(c, s, a)
    ensures a in Actions(s)
  {
  }

  /** The concurrent fetch phase, under an arbitrary scheduler. */
  method FetchAll(c: Config) returns (s: Sys)
    requires ValidConfig(c)
    ensures s.firstErr.None? <==> Succeeds(c)
    ensures s.firstErr.None? ==> HoldsAll(c, s.fetched) && s.verified == |c.unique|
    ensures s.firstErr.Some? ==> exists h :: h in c.unique && c.fetch(h) == Err(s.firstErr.value)
  {
    hide *;
    s := Init(c);
    InitInv(c);
    while !s.collector.Finished?
      invariant Inv(c, s)
      decreases Measure(c, s)
    {
      ghost var able := NoDeadlock(c, s);
      EnabledListed(c, s, able);
      var a :| a in Actions(s) && Enabled(c, s, a);
      StepInv(c, s, a);
      StepMeasure(c, s, a);
      FedBound(c, s);
      FedBound(c, Next(c, s, a));
      s := Next(c, s, a);
    }
    FinishedOutcome(c, s);
  }

  lemma FedBound(c: Config, s: Sys)
    requires Inv(c, s)
    ensures Measure(c, s) >= 0
  {
  }

  /** The sequential restore loop: fetch each chunk in order, give up at the first failure. */
  method FetchSequentially(c: Config) returns (verified: nat, error: Option<FetchError>)
    ensures error.None? <==> Succeeds(c)
    ensures verified <= |c.unique| && forall k :: 0 <= k < verified ==> c.fetch(c.unique[k]).Ok?
    ensures error.None? ==> verified == |c.unique|
    ensures error.Some? ==> verified < |c.unique| && c.fetch(c.unique[verified]) == Err(error.value)
  {
    verified := 0;
    for k := 0 to |c.unique|
      invariant verified == k
      invariant forall j :: 0 <= j < k ==> c.fetch(c.unique[j]).Ok?
    {
      match c.fetch(c.unique[k]) {
        case Err(e) => return verified, Some(e);
        case Ok(_) => verified := verified + 1;
      }
    }
    return verified, None;
  }

  predicate PathLess(a: FileEntry, b: FileEntry) {
    StrLess(a.path, b.path)
  }

  lemma SortedPaths(files: seq<FileEntry>)
    ensures forall f :: f in Sort(PathLess, files) <==> f in files
    ensures DistinctPaths(files) ==> DistinctPaths(Sort(PathLess, files))
  {
    var r := Sort(PathLess, files);
    SameElems(r, files);
    forall f ensures f in r <==> f in files {
      assert f in r <==> f in Elems(r);
      assert f in files <==> f in Elems(files);
    }
    if DistinctPaths(files) {
      forall i, j | 0 <= i < j < |r| ensures r[i].path != r[j].path {
        PathsStayDistinct(files, r, i, j);
      }
    }
  }

  lemma PathsStayDistinct(files: seq<FileEntry>, r: seq<FileEntry>, i: nat, j: nat)
    requires DistinctPaths(files) && multiset(r) == multiset(files) && i < j < |r|
    ensures r[i].path != r[j].path
  {
    assert Distinct(files);
    DistinctCount(files, r[i]);
    if r[i] == r[j] {
      DistinctMultiset(r, i, j);
      assert false;
    }
    assert r[i] in multiset(files) && r[j] in multiset(files);
    var a :| 0 <= a < |files| && files[a] == r[i];
    var b :| 0 <= b < |files| && files[b] == r[j];
  }

  datatype RestoreError = FetchFailed(error: FetchError) | MissingChunk(hash: Hash, path: string)

  datatype RestoreStats = RestoreStats(files: nat, chunks: nat, verified: nat)

  /** Concatenates one file's chunks, or names the first that was not fetched. */
  method Content(chunks: seq<Hash>, fetched: map<Hash, Bytes>) returns (content: Bytes, missing: Option<Hash>)
    ensures missing.None? <==> Elems(chunks) <= fetched.Keys
    ensures missing.None? ==> (forall h :: h in chunks ==> h in fetched) && content == Concat(chunks, fetched)
    ensures missing.Some? ==> missing.value in chunks && missing.value !in fetched
  {
    content := [];
    for j := 0 to |chunks|
      invariant forall h :: h in chunks[..j] ==> h in fetched
      invariant content == Concat(chunks[..j], fetched)
    {
      if chunks[j] !in fetched {
        assert chunks[j] in Elems(chunks);
        return content, Some(chunks[j]);
      }
      assert chunks[..j + 1] == chunks[..j] + [chunks[j]];
      ConcatSnoc(chunks[..j], chunks[j], fetched);
      content := content + fetched[chunks[j]];
    }
    assert chunks[..|chunks|] == chunks;
    return content, None;
  }

  /** Reassembles the files in path order into `dir`. */
  method Reassemble(files: seq<FileEntry>, fetched: map<Hash, Bytes>, dir: map<string, Bytes>)
    returns (out: map<string, Bytes>, count: nat, error: Option<RestoreError>)
    ensures error.None? <==> ChunkSet(files) <= fetched.Keys
    ensures error.None? ==> (forall f, h :: f in Sort(PathLess, files) && h in f.chunks ==> h in fetched)
    ensures error.None? ==> out == WriteFiles(Sort(PathLess, files), fetched, dir) && count == |files|
    ensures error.Some? ==> StoppedAtFile(Sort(PathLess, files), fetched, dir, out, count, error.value)
  {
    hide *;
    var sorted := Sort(PathLess, files);
    SameChunkSet(files, sorted);
    out, count := dir, 0;
    RebuildStart(sorted, fetched, dir);
    for k := 0 to |sorted|
      invariant count == k && Rebuilt(sorted, k, fetched, dir, out)
    {
      var f := sorted[k];
      ChunkSetSnoc(sorted, k);
      var content, missing := Content(f.chunks, fetched);
      if missing.Some? {
        StillMissing(sorted, fetched, f);
        RebuildStops(sorted, k, fetched, dir, out, missing.value);
        return out, count, Some(MissingChunk(missing.value, f.path));
      }
      RebuildStep(sorted, k, fetched, dir, out, content);
      out := out[f.path := content];
      count := count + 1;
    }
    RebuildDone(sorted, fetched, dir, out);
    return out, count, None;
  }

  /** The first `k` files are written. */
  ghost predicate Rebuilt(files: seq<FileEntry>, k: nat, fetched: map<Hash, Bytes>, dir: map<string, Bytes>,
                          out: map<string, Bytes>) {
    && k <= |files|
    && (forall f, h :: f in files[..k] && h in f.chunks ==> h in fetched)
    && out == WriteFiles(files[..k], fetched, dir)
  }

  /** The files before the first with a missing chunk are written, that one and the later ones are not. */
  ghost predicate StoppedAtFile(files: seq<FileEntry>, fetched: map<Hash, Bytes>, dir: map<string, Bytes>,
                                out: map<string, Bytes>, count: nat, error: RestoreError) {
    && count < |files| && Rebuilt(files, count, fetched, dir, out)
    && error.MissingChunk? && error.path == files[count].path
    && error.hash in files[count].chunks && error.hash !in fetched
  }

  lemma RebuildStops(files: seq<FileEntry>, k: nat, fetched: map<Hash, Bytes>, dir: map<string, Bytes>,
                     out: map<string, Bytes>, h: Hash)
    requires k < |files| && Rebuilt(files, k, fetched, dir, out) && h in files[k].chunks && h !in fetched
    ensures StoppedAtFile(files, fetched, dir, out, k, MissingChunk(h, files[k].path))
  {
  }

  lemma RebuildStart(files: seq<FileEntry>, fetched: map<Hash, Bytes>, dir: map<string, Bytes>)
    ensures Rebuilt(files, 0, fetched, dir, dir)
  {
    assert files[..0] == [];
  }

  lemma RebuildStep(files: seq<FileEntry>, k: nat, fetched: map<Hash, Bytes>, dir: map<string, Bytes>,
                    out: map<string, Bytes>, content: Bytes)
    requires Rebuilt(files, k, fetched, dir, out) && k < |files|
    requires (forall h :: h in files[k].chunks ==> h in fetched) && content == Concat(files[k].chunks, fetched)
    ensures Rebuilt(files, k + 1, fetched, dir, out[files[k].path := content])
  {
    hide WriteFiles, Concat;
    assert files[..k + 1] == files[..k] + [files[k]];
    WriteFilesSnoc(files[..k], files[k], fetched, dir);
  }

  lemma RebuildDone(files: seq<FileEntry>, fetched: map<Hash, Bytes>, dir: map<string, Bytes>, out: map<string, Bytes>)
    requires Rebuilt(files, |files|, fetched, dir, out)
    ensures ChunkSet(files) <= fetched.Keys && (forall f, h :: f in files && h in f.chunks ==> h in fetched)
    ensures out == WriteFiles(files, fetched, dir)
  {
    hide WriteFiles;
    assert files[..|files|] == files;
  }

  lemma StillMissing(files: seq<FileEntry>, fetched: map<Hash, Bytes>, f: FileEntry)
    requires f in files && !(Elems(f.chunks) <= fetched.Keys)
    ensures !(ChunkSet(files) <= fetched.Keys)
  {
  }

  lemma SameChunkSet(files: seq<FileEntry>, sorted: seq<FileEntry>)
    requires sorted == Sort(PathLess, files)
    ensures ChunkSet(files) == ChunkSet(sorted)
  {
    SortedPaths(files);
  }

  /** With distinct paths a successful restore gives every file the concatenation of its verified chunks. */
  lemma RestoredContent(files: seq<FileEntry>, bytes: map<Hash, Bytes>, dir: map<string, Bytes>, f: FileEntry)
    requires DistinctPaths(files) && f in files
    requires forall g, h :: g in Sort(PathLess, files) && h in g.chunks ==> h in bytes
    ensures forall h :: h in f.chunks ==> h in bytes
    ensures var out := WriteFiles(Sort(PathLess, files), bytes, dir);
            f.path in out && out[f.path] == Concat(f.chunks, bytes)
  {
    SortedPaths(files);
    WriteFilesContent(Sort(PathLess, files), bytes, dir);
  }

  /**
   * The parallel restore: fetch and verify every unique chunk, then rebuild the files. It succeeds iff every
   * chunk can be fetched and verified; otherwise it reports an error and `dir` is untouched.
   */
  method Restore(files: seq<FileEntry>, fetch: Hash -> Fetched, parallel: int, dir: map<string, Bytes>)
    returns (out: map<string, Bytes>, stats: RestoreStats, error: Option<RestoreError>)
    ensures error.None? <==> forall h :: h in ChunkSet(files) ==> fetch(h).Ok?
    ensures error.Some? ==> out == dir && stats.files == 0
    ensures error.Some? ==>
      error.value.FetchFailed? && exists h :: h in ChunkSet(files) && fetch(h) == Err(error.value.error)
    ensures stats.chunks == |ChunkSet(files)|
    ensures error.None? ==> stats.files == |files| && stats.verified == stats.chunks
    ensures error.None? ==> exists bytes: map<Hash, Bytes> ::
      && bytes.Keys == ChunkSet(files) && (forall h :: h in bytes ==> fetch(h) == Ok(bytes[h]))
      && (forall f, h :: f in Sort(PathLess, files) && h in f.chunks ==> h in bytes)
      && out == WriteFiles(Sort(PathLess, files), bytes, dir)
  {
    var lanes := if parallel < 1 then 1 else parallel;
    var unique := UniqueChunks(files);
    ListedUnique(unique, ChunkSet(files));
    var c := Config(unique, fetch, lanes);
    var s := FetchAll(c);
    assert forall h :: h in unique <==> h in Elems(unique);
    stats := RestoreStats(0, |unique|, s.verified);
    if s.firstErr.Some? {
      return dir, stats, Some(FetchFailed(s.firstErr.value));
    }
    var n;
    out, n, error := Reassemble(files, s.fetched, dir);
    stats := stats.(files := n);
  }

  lemma ListedUnique(xs: seq<Hash>, s: set<Hash>)
    requires Lists(StrLess, xs, s)
    ensures Distinct(xs) && |xs| == |s|
  {
    StrLessStrictTotal();
    ListingCard(StrLess, xs);
  }
}
