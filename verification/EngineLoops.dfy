/**
 * What one turn of each engine loop does to the store as a value.
 *
 * Each loop comes as a predicate saying how far it is and which writes and unlinks it has made, with lemmas for its
 * start, its step and its end.
 */
module EngineLoops {
  import opened Common
  import opened Ordering
  import opened Manifests
  import opened Chunker
  import opened StoreModel
  import opened SnapshotHistory

  // ----- Snapshot -----

  /** Storing `pieces` led from `s0` to `s` by the chunk writes `acts`, `added` of them new chunks. */
  ghost predicate Stored(digest: Bytes -> Hash, s0: Store, s: Store, pieces: seq<Bytes>, acts: seq<FsAction>,
                         added: nat) {
    && s.snapshots == s0.snapshots && s.chunks == StorePieces(digest, s0.chunks, pieces)
    && SafeTrace(digest, s0, acts) && ApplyAll(s0, acts) == s
    && |acts| == added && |s.chunks| == |s0.chunks| + added
  }

  lemma StoredNothing(digest: Bytes -> Hash, s: Store)
    ensures Stored(digest, s, s, [], [], 0)
  {
  }

  lemma {:induction false} StorePiecesSnoc(digest: Bytes -> Hash, chunks: map<Hash, Bytes>, pieces: seq<Bytes>,
                                           p: Bytes)
    ensures var c := StorePieces(digest, chunks, pieces);
            StorePieces(digest, chunks, pieces + [p]) == if digest(p) in c then c else c[digest(p) := p]
    decreases |pieces|
  {
    if pieces == [] {
      assert pieces + [p] == [p];
      assert StorePieces(digest, chunks, [p])
        == StorePieces(digest, if digest(p) in chunks then chunks else chunks[digest(p) := p], []);
    } else {
      var h := digest(pieces[0]);
      assert (pieces + [p])[1..] == pieces[1..] + [p];
      StorePiecesSnoc(digest, if h in chunks then chunks else chunks[h := pieces[0]], pieces[1..], p);
    }
  }

  lemma StoredOld(digest: Bytes -> Hash, s0: Store, s: Store, pieces: seq<Bytes>, acts: seq<FsAction>, added: nat,
                  p: Bytes)
    requires Stored(digest, s0, s, pieces, acts, added) && digest(p) in s.chunks
    ensures Stored(digest, s0, s, pieces + [p], acts, added)
  {
    StorePiecesSnoc(digest, s0.chunks, pieces, p);
  }

  lemma StoredNew(digest: Bytes -> Hash, s0: Store, s: Store, pieces: seq<Bytes>, acts: seq<FsAction>, added: nat,
                  p: Bytes)
    requires Stored(digest, s0, s, pieces, acts, added) && digest(p) !in s.chunks
    ensures Stored(digest, s0, s.(chunks := s.chunks[digest(p) := p]), pieces + [p],
                   acts + [WriteChunk(digest(p), p)], added + 1)
  {
    var a := WriteChunk(digest(p), p);
    StorePiecesSnoc(digest, s0.chunks, pieces, p);
    SingleStep(digest, s, a);
    SafeTraceConcat(digest, s0, acts, [a]);
    ApplyAllConcat(s0, acts, [a]);
  }

  lemma SingleStep(digest: Bytes -> Hash, s: Store, a: FsAction)
    requires SafeStep(digest, s, a)
    ensures SafeTrace(digest, s, [a]) && ApplyAll(s, [a]) == Apply(s, a)
  {
    assert [a][1..] == [];
  }

  /** `chunks` are the hashed pieces of a buffer. */
  ghost predicate HashedPieces(digest: Bytes -> Hash, chunks: seq<Chunk>, pieces: seq<Bytes>) {
    && |chunks| == |pieces|
    && forall i :: 0 <= i < |chunks| ==> chunks[i] == Chunk(digest(pieces[i]), pieces[i])
  }

  lemma {:induction false} PiecesSnoc(tree: Tree, k: nat, n: nat)
    requires n > 0 && k < |tree|
    ensures PiecesOf(tree[..k + 1], n) == PiecesOf(tree[..k], n) + Split(tree[k].1, n)
    decreases k
  {
    if k == 0 {
      assert tree[..1][1..] == [];
      assert PiecesOf(tree[..1], n) == Split(tree[0].1, n) + [];
    } else {
      assert tree[..k + 1][1..] == tree[1..][..k] && tree[..k][1..] == tree[1..][..k - 1];
      PiecesSnoc(tree[1..], k - 1, n);
      assert tree[..k + 1][0] == tree[0] == tree[..k][0];
    }
  }

  lemma FilesSnoc(digest: Bytes -> Hash, tree: Tree, k: nat, n: nat)
    requires n > 0 && k < |tree|
    ensures FilesOf(digest, tree[..k + 1], n)
        == FilesOf(digest, tree[..k], n) + [FileOf(digest, tree[k].0, tree[k].1, n)]
  {
    assert tree[..k + 1] == tree[..k] + [tree[k]];
  }

  /** The last step of a snapshot: the manifest is written once all its chunks are stored. */
  lemma SnapshotDone(digest: Bytes -> Hash, s0: Store, s: Store, name: string, tree: Tree, n: nat,
                     acts: seq<FsAction>, added: nat)
    requires n > 0 && Stored(digest, s0, s, PiecesOf(tree, n), acts, added)
    ensures var a := WriteManifest(name, ManifestFor(digest, s0, name, tree, n));
            && SafeTrace(digest, s0, acts + [a])
            && ApplyAll(s0, acts + [a]) == Apply(s, a) == SnapshotStore(digest, s0, name, tree, n)
  {
    var a := WriteManifest(name, ManifestFor(digest, s0, name, tree, n));
    SnapshotChunkKeys(digest, s0, name, tree, n);
    SingleStep(digest, s, a);
    SafeTraceConcat(digest, s0, acts, [a]);
    ApplyAllConcat(s0, acts, [a]);
  }

  lemma MaxSeqIs(s: Store, m: nat)
    requires forall n :: n in Listed(s) ==> s.snapshots[n].seqNo <= m
    requires m == 0 || exists n :: n in Listed(s) && s.snapshots[n].seqNo == m
    ensures m == MaxSeq(s)
  {
  }

  // ----- Garbage collection -----

  lemma ReferencedSnoc(s: Store, names: seq<string>, k: nat)
    requires k < |names| && names[k] in s.snapshots
    ensures ReferencedBy(s, Elems(names[..k + 1]))
         == ReferencedBy(s, Elems(names[..k])) + ChunkSet(s.snapshots[names[k]].files)
  {
    assert names[..k + 1] == names[..k] + [names[k]];
  }

  ghost predicate GcProgress(digest: Bytes -> Hash, s0: Store, s: Store, all: seq<Hash>, k: nat,
                             candidates: seq<Hash>, bytes: nat, dryRun: bool, acts: seq<FsAction>) {
    && k <= |all| && Lists(StrLess, all, s0.chunks.Keys)
    && s.snapshots == s0.snapshots
    && Lists(StrLess, candidates, Garbage(s0, all[..k]))
    && s.chunks == (if dryRun then s0.chunks else s0.chunks - Garbage(s0, all[..k]))
    && bytes == TotalSize(s0, Garbage(s0, all[..k]))
    && SafeTrace(digest, s0, acts) && ApplyAll(s0, acts) == s
    && |acts| == (if dryRun then 0 else |candidates|)
  }

  /** The unreferenced chunks among those listed. */
  ghost function Garbage(s: Store, hashes: seq<Hash>): set<Hash> {
    set h | h in hashes && h in s.chunks && h !in Referenced(s)
  }

  /** The total size of the given chunks. */
  ghost function TotalSize(s: Store, hashes: set<Hash>): nat
    requires hashes <= s.chunks.Keys
    decreases |hashes|
  {
    if hashes == {} then 0
    else
      var h :| h in hashes;
      |s.chunks[h]| + TotalSize(s, hashes - {h})
  }

  lemma {:induction false} BytesOneMore(s: Store, hashes: set<Hash>, h: Hash)
    requires hashes <= s.chunks.Keys && h in hashes
    ensures TotalSize(s, hashes) == |s.chunks[h]| + TotalSize(s, hashes - {h})
    decreases |hashes|
  {
    var g :| g in hashes && TotalSize(s, hashes) == |s.chunks[g]| + TotalSize(s, hashes - {g});
    if g != h {
      BytesOneMore(s, hashes - {g}, h);
      BytesOneMore(s, hashes - {h}, g);
      assert hashes - {g} - {h} == hashes - {h} - {g};
    }
  }

  lemma GcStart(digest: Bytes -> Hash, s: Store, all: seq<Hash>, dryRun: bool)
    requires Lists(StrLess, all, s.chunks.Keys)
    ensures GcProgress(digest, s, s, all, 0, [], 0, dryRun, [])
  {
    assert Garbage(s, all[..0]) == {};
    assert s.chunks - {} == s.chunks;
  }

  lemma GarbageStep(s: Store, all: seq<Hash>, k: nat)
    requires k < |all| && Lists(StrLess, all, s.chunks.Keys)
    ensures all[k] in s.chunks && all[k] !in Garbage(s, all[..k])
    ensures Garbage(s, all[..k + 1]) == Garbage(s, all[..k]) + if all[k] in Referenced(s) then {} else {all[k]}
    ensures forall h :: h in Garbage(s, all[..k]) ==> StrLess(h, all[k])
  {
    assert all[..k + 1] == all[..k] + [all[k]];
    assert all[k] in Elems(all);
    forall h | h in all[..k] ensures StrLess(h, all[k]) && h != all[k] {
      var j :| 0 <= j < k && all[..k][j] == h;
      StrLessIrreflexive(all[k]);
    }
  }

  lemma GcKeep(digest: Bytes -> Hash, s0: Store, s: Store, all: seq<Hash>, k: nat,
               candidates: seq<Hash>, bytes: nat, dryRun: bool, acts: seq<FsAction>)
    requires GcProgress(digest, s0, s, all, k, candidates, bytes, dryRun, acts) && k < |all| && all[k] in Referenced(s0)
    ensures GcProgress(digest, s0, s, all, k + 1, candidates, bytes, dryRun, acts)
  {
    GarbageStep(s0, all, k);
    assert Garbage(s0, all[..k + 1]) == Garbage(s0, all[..k]);
  }

  lemma GcTake(digest: Bytes -> Hash, s0: Store, s: Store, all: seq<Hash>, k: nat,
               candidates: seq<Hash>, bytes: nat, dryRun: bool, acts: seq<FsAction>)
    requires GcProgress(digest, s0, s, all, k, candidates, bytes, dryRun, acts)
    requires k < |all| && all[k] !in Referenced(s0)
    ensures all[k] in s.chunks && s.chunks[all[k]] == s0.chunks[all[k]]
    ensures var h := all[k];
            GcProgress(digest, s0, if dryRun then s else Apply(s, RemoveChunk(h)), all, k + 1,
                       candidates + [h], bytes + |s0.chunks[h]|, dryRun,
                       if dryRun then acts else acts + [RemoveChunk(h)])
  {
    var h, g := all[k], Garbage(s0, all[..k]);
    GarbageStep(s0, all, k);
    assert Garbage(s0, all[..k + 1]) == g + {h} && g + {h} - {h} == g;
    BytesOneMore(s0, g + {h}, h);
    ListingAppend(candidates, g, h);
    if !dryRun {
      assert s0.chunks - g - {h} == s0.chunks - (g + {h});
      assert Referenced(s) == Referenced(s0);
      SingleStep(digest, s, RemoveChunk(h));
      SafeTraceConcat(digest, s0, acts, [RemoveChunk(h)]);
      ApplyAllConcat(s0, acts, [RemoveChunk(h)]);
    }
  }

  lemma ListingAppend(xs: seq<Hash>, s: set<Hash>, h: Hash)
    requires Lists(StrLess, xs, s) && forall g :: g in s ==> StrLess(g, h)
    ensures Lists(StrLess, xs + [h], s + {h})
  {
    forall i | 0 <= i < |xs| ensures StrLess(xs[i], h) { assert xs[i] in Elems(xs); }
  }

  lemma GcDone(digest: Bytes -> Hash, s0: Store, s: Store, all: seq<Hash>,
               candidates: seq<Hash>, bytes: nat, dryRun: bool, acts: seq<FsAction>)
    requires GcProgress(digest, s0, s, all, |all|, candidates, bytes, dryRun, acts)
    ensures Garbage(s0, all) == s0.chunks.Keys - Referenced(s0)
    ensures Lists(StrLess, candidates, s0.chunks.Keys - Referenced(s0))
    ensures s == if dryRun then s0 else GcStore(s0)
    ensures bytes == TotalSize(s0, s0.chunks.Keys - Referenced(s0))
    ensures |all| == |s0.chunks| && |acts| == (if dryRun then 0 else |candidates|)
  {
    hide Lists, Garbage, Referenced, SafeTrace, ApplyAll, TotalSize, GcStore;
    assert all[..|all|] == all;
    GarbageAll(s0, all);
  }

  lemma GarbageAll(s: Store, all: seq<Hash>)
    requires Lists(StrLess, all, s.chunks.Keys)
    ensures Garbage(s, all) == s.chunks.Keys - Referenced(s)
    ensures GcStore(s) == s.(chunks := s.chunks - Garbage(s, all))
    ensures |all| == |s.chunks|
  {
    hide Referenced;
    StrLessStrictTotal();
    ListingCard(StrLess, all);
    forall h ensures h in all <==> h in s.chunks { assert h in all <==> h in Elems(all); }
  }

  // ----- Retain -----

  function KeyOf(m: Manifest): Key {
    Key(m.seqNo, m.name)
  }

  /** The comparison std::sort is given: newest sequence number first, name as a tie-break. */
  predicate NewerManifest(x: Manifest, y: Manifest) {
    Newer(KeyOf(x), KeyOf(y))
  }

  function Keys(ms: seq<Manifest>): (keys: seq<Key>)
    ensures |keys| == |ms| && forall i :: 0 <= i < |ms| ==> keys[i] == KeyOf(ms[i])
  {
    seq(|ms|, i requires 0 <= i < |ms| => KeyOf(ms[i]))
  }

  /** `ms` holds the manifests of the listed names, in that order. */
  ghost predicate LoadedAs(s: Store, names: seq<string>, ms: seq<Manifest>) {
    |ms| == |names| && forall i :: 0 <= i < |ms| ==> names[i] in s.snapshots && ms[i] == s.snapshots[names[i]]
  }

  lemma LoadedNone(s: Store)
    ensures LoadedAs(s, [], [])
  {
  }

  lemma LoadedMore(s: Store, names: seq<string>, k: nat, ms: seq<Manifest>)
    requires k < |names| && names[k] in s.snapshots && LoadedAs(s, names[..k], ms)
    ensures LoadedAs(s, names[..k + 1], ms + [s.snapshots[names[k]]])
  {
    assert names[..k + 1] == names[..k] + [names[k]];
  }

  /** `keys` are the sequence numbers and recorded names of the listed manifests, newest first. */
  ghost predicate NewestFirst(s: Store, keys: seq<Key>) {
    exists names, ms :: Lists(StrLess, names, Listed(s)) && LoadedAs(s, names, ms) && keys == Sort(Newer, Keys(ms))
  }

  lemma SortedIsNewestFirst(s: Store, names: seq<string>, ms: seq<Manifest>)
    requires Lists(StrLess, names, Listed(s)) && LoadedAs(s, names, ms)
    ensures NewestFirst(s, Keys(Sort(NewerManifest, ms)))
  {
    SortedKeys(ms);
  }

  /** Sorting manifests sorts their keys. */
  lemma {:induction false} SortedKeys(ms: seq<Manifest>)
    ensures Keys(Sort(NewerManifest, ms)) == Sort(Newer, Keys(ms))
    decreases |ms|
  {
    if ms != [] {
      SortedKeys(ms[1..]);
      InsertedKeys(ms[0], Sort(NewerManifest, ms[1..]));
      assert Keys(ms)[0] == KeyOf(ms[0]) && Keys(ms)[1..] == Keys(ms[1..]);
    }
  }

  lemma {:induction false} InsertedKeys(m: Manifest, ms: seq<Manifest>)
    ensures Keys(Insert(NewerManifest, m, ms)) == Insert(Newer, KeyOf(m), Keys(ms))
    decreases |ms|
  {
    hide KeyOf;
    if ms == [] {
      KeysCons(m, []);
    } else {
      InsertedKeys(m, ms[1..]);
      KeysCons(ms[0], ms[1..]);
      KeysCons(m, ms);
      KeysCons(ms[0], Insert(NewerManifest, m, ms[1..]));
      assert ms == [ms[0]] + ms[1..];
    }
  }

  lemma KeysCons(m: Manifest, ms: seq<Manifest>)
    ensures Keys([m] + ms) == [KeyOf(m)] + Keys(ms)
  {
  }

  function Reverse<T>(xs: seq<T>): (r: seq<T>)
    ensures |r| == |xs| && forall i :: 0 <= i < |xs| ==> r[i] == xs[|xs| - 1 - i]
  {
    seq(|xs|, i requires 0 <= i < |xs| => xs[|xs| - 1 - i])
  }

  function Names(keys: seq<Key>): (names: seq<string>)
    ensures |names| == |keys| && forall i :: 0 <= i < |keys| ==> names[i] == keys[i].name
  {
    seq(|keys|, i requires 0 <= i < |keys| => keys[i].name)
  }

  // ----- Dropping what is not kept -----

  function Cut(n: nat, keep: nat): nat {
    if keep < n then keep else n
  }

  /** The recorded names past the first `keep`, oldest first. */
  function ToDrop(keys: seq<Key>, keep: nat): seq<string> {
    Reverse(Names(keys)[Cut(|keys|, keep)..])
  }

  ghost function Without(s: Store, names: set<string>): Store {
    s.(snapshots := s.snapshots - names)
  }

  /** Each of these manifests is there when its turn to be dropped comes. */
  ghost predicate Droppable(s: Store, names: seq<string>) {
    Distinct(names) && Elems(names) <= s.snapshots.Keys
  }

  /** Some name was no longer there to be dropped; the ones before it are gone. */
  ghost predicate StoppedAt(s0: Store, s: Store, names: seq<string>, name: string) {
    exists k :: 0 <= k < |names| && names[k] == name
      && Droppable(s0, names[..k]) && s == Without(s0, Elems(names[..k])) && name !in s.snapshots
  }

  /** The store after the first `k` of these snapshots were dropped. */
  ghost predicate DropProgress(digest: Bytes -> Hash, s0: Store, s: Store, names: seq<string>, k: nat,
                               acts: seq<FsAction>) {
    && k <= |names| && s == Without(s0, Elems(names[..k])) && Droppable(s0, names[..k])
    && SafeTrace(digest, s0, acts) && ApplyAll(s0, acts) == s
  }

  lemma DropStep(digest: Bytes -> Hash, s0: Store, s: Store, names: seq<string>, k: nat, acts: seq<FsAction>)
    requires DropProgress(digest, s0, s, names, k, acts) && k < |names| && names[k] in s.snapshots
    ensures DropProgress(digest, s0, DropStore(s, names[k]), names, k + 1, acts + [RemoveManifest(names[k])])
  {
    var n := names[k];
    assert names[..k + 1] == names[..k] + [n];
    assert n !in Elems(names[..k]);
    assert Elems(names[..k + 1]) == Elems(names[..k]) + {n};
    assert s0.snapshots - Elems(names[..k]) - {n} == s0.snapshots - Elems(names[..k + 1]);
    SingleStep(digest, s, RemoveManifest(n));
    SafeTraceConcat(digest, s0, acts, [RemoveManifest(n)]);
    ApplyAllConcat(s0, acts, [RemoveManifest(n)]);
  }

  lemma DropStart(digest: Bytes -> Hash, s: Store, names: seq<string>)
    ensures DropProgress(digest, s, s, names, 0, [])
  {
    assert Elems(names[..0]) == {};
    assert s.snapshots - {} == s.snapshots;
  }

  lemma DropStop(digest: Bytes -> Hash, s0: Store, s: Store, names: seq<string>, k: nat, acts: seq<FsAction>)
    requires DropProgress(digest, s0, s, names, k, acts) && k < |names| && names[k] !in s.snapshots
    ensures StoppedAt(s0, s, names, names[k]) && !Droppable(s0, names)
    ensures SafeTrace(digest, s0, acts) && ApplyAll(s0, acts) == s
  {
    assert names[k] in Elems(names);
    if names[k] in names[..k] {
      var j :| 0 <= j < k && names[..k][j] == names[k];
      assert names[j] == names[k];
    } else {
      assert names[k] !in s0.snapshots;
    }
  }

  lemma DropEnd(digest: Bytes -> Hash, s0: Store, s: Store, names: seq<string>, acts: seq<FsAction>)
    requires DropProgress(digest, s0, s, names, |names|, acts)
    ensures Droppable(s0, names) && s == Without(s0, Elems(names))
    ensures SafeTrace(digest, s0, acts) && ApplyAll(s0, acts) == s
  {
    assert names[..|names|] == names;
  }

  /** When every manifest carries its own name, nothing stops a retention, and it keeps exactly the newest. */
  lemma RetainMatched(s: Store, keep: nat, keys: seq<Key>)
    requires NewestFirst(s, keys) && NamesMatch(s)
    ensures Lists(Newer, keys, KeysOf(s)) && |keys| == |Listed(s)|
    ensures Droppable(s, ToDrop(keys, keep))
    ensures GcStore(Without(s, Elems(ToDrop(keys, keep)))) == RetainStore(s, keep)
  {
    hide *;
    NewestFirstLists(s, keys);
    KeptAndDropped(s, keep, keys);
    RetainDone(s, keep, ToDrop(keys, keep));
  }

  lemma NewestFirstLists(s: Store, keys: seq<Key>)
    requires NewestFirst(s, keys) && NamesMatch(s)
    ensures Lists(Newer, keys, KeysOf(s)) && |keys| == |Listed(s)|
  {
    var names, ms :| Lists(StrLess, names, Listed(s)) && LoadedAs(s, names, ms) && keys == Sort(Newer, Keys(ms));
    hide *;
    LoadedKeys(s, names, ms);
    NewerStrictTotal();
    SortListing(Newer, Keys(ms));
    ListsMeans(keys, KeysOf(s));
    ListingCard(Newer, keys);
    KeyCount(s);
  }

  lemma ListsMeans(keys: seq<Key>, s: set<Key>)
    requires Lists(Newer, keys, s)
    ensures Ascending(Newer, keys) && Elems(keys) == s
  {
  }

  lemma LoadedKeys(s: Store, names: seq<string>, ms: seq<Manifest>)
    requires NamesMatch(s) && Lists(StrLess, names, Listed(s)) && LoadedAs(s, names, ms)
    ensures Distinct(Keys(ms)) && Elems(Keys(ms)) == KeysOf(s)
  {
    StrLessStrictTotal();
    var keys := Keys(ms);
    forall i | 0 <= i < |keys| ensures keys[i] == Key(s.snapshots[names[i]].seqNo, names[i]) && keys[i] in KeysOf(s) {
      assert names[i] in Elems(names);
    }
    forall k | k in KeysOf(s) ensures k in Elems(keys) {
      assert k.name in Elems(names);
      var i :| 0 <= i < |names| && names[i] == k.name;
      assert keys[i] == k;
    }
  }

  lemma KeptAndDropped(s: Store, keep: nat, keys: seq<Key>)
    requires Lists(Newer, keys, KeysOf(s)) && |keys| == |Listed(s)|
    ensures Retains(s, keep, keys[..Cut(|keys|, keep)], keys[Cut(|keys|, keep)..])
    ensures Droppable(s, ToDrop(keys, keep))
    ensures Elems(ToDrop(keys, keep)) == Listed(s) - KeptNames(s, keep)
  {
    var cut := Cut(|keys|, keep);
    assert keys[..cut] + keys[cut..] == keys;
    RetainedAreNewest(s, keep, keys[..cut], keys[cut..]);
    assert Names(keys)[cut..] == Names(keys[cut..]);
    ReverseNames(keys[cut..]);
    ReversedNames(keys[cut..]);
    NamesDistinct(s, keys, cut);
  }

  lemma ReverseNames(keys: seq<Key>)
    ensures Reverse(Names(keys)) == Names(Reverse(keys))
  {
  }

  lemma ReversedNames(keys: seq<Key>)
    ensures Elems(Names(Reverse(keys))) == NamesIn(keys)
  {
    var r := Names(Reverse(keys));
    forall i | 0 <= i < |keys| ensures keys[i].name in r { assert r[|keys| - 1 - i] == keys[i].name; }
    forall n | n in r ensures n in NamesIn(keys) {
      var i :| 0 <= i < |r| && r[i] == n;
      assert keys[|keys| - 1 - i] in keys;
    }
  }

  lemma NamesDistinct(s: Store, keys: seq<Key>, cut: nat)
    requires Lists(Newer, keys, KeysOf(s)) && cut <= |keys|
    ensures Distinct(Names(Reverse(keys[cut..])))
  {
    NewerStrictTotal();
    var d := keys[cut..];
    forall i, j | 0 <= i < j < |d| ensures d[i].name != d[j].name {
      assert keys[cut + i] in Elems(keys) && keys[cut + j] in Elems(keys);
      assert Newer(keys[cut + i], keys[cut + j]);
    }
  }

  lemma RetainDone(s: Store, keep: nat, names: seq<string>)
    requires Elems(names) == Listed(s) - KeptNames(s, keep)
    ensures GcStore(Without(s, Elems(names))) == RetainStore(s, keep)
  {
    assert Without(s, Elems(names)).snapshots
      == map n | n in s.snapshots && (n in KeptNames(s, keep) || n == "") :: s.snapshots[n];
  }
}
