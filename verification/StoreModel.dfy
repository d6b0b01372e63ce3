/** The on-disk store as two maps, and the snapshot operations as functions on it. */
module StoreModel {
  import opened Common
  import opened Ordering
  import opened Manifests
  import opened Chunker

  /** `chunks/<hash>` and `snapshots/<name>.json`. */
  datatype Store = Store(chunks: map<Hash, Bytes>, snapshots: map<string, Manifest>)

  /** One file write or unlink: the atomic steps of every operation. */
  datatype FsAction =
    | WriteChunk(h: Hash, d: Bytes)
    | WriteManifest(name: string, m: Manifest)
    | RemoveManifest(name: string)
    | RemoveChunk(h: Hash)

  function Apply(s: Store, a: FsAction): Store {
    match a
    case WriteChunk(h, d) => s.(chunks := s.chunks[h := d])
    case WriteManifest(name, m) => s.(snapshots := s.snapshots[name := m])
    case RemoveManifest(name) => s.(snapshots := s.snapshots - {name})
    case RemoveChunk(h) => s.(chunks := s.chunks - {h})
  }

  function ApplyAll(s: Store, acts: seq<FsAction>): Store
    decreases |acts|
  {
    if acts == [] then s else ApplyAll(Apply(s, acts[0]), acts[1..])
  }

  lemma {:induction false} ApplyAllConcat(s: Store, a: seq<FsAction>, b: seq<FsAction>)
    ensures ApplyAll(s, a + b) == ApplyAll(ApplyAll(s, a), b)
    decreases |a|
  {
    if a == [] {
      assert a + b == b;
    } else {
      assert (a + b)[1..] == a[1..] + b;
      ApplyAllConcat(Apply(s, a[0]), a[1..], b);
    }
  }

  /** The names a listing of the snapshots yields: the file `.json`, of the empty name, is never among them. */
  function Listed(s: Store): set<string> {
    s.snapshots.Keys - {""}
  }

  /** Every chunk the manifests of these names refer to. */
  ghost function ReferencedBy(s: Store, names: set<string>): set<Hash> {
    set n, h | n in names && n in s.snapshots && h in ChunkSet(s.snapshots[n].files) :: h
  }

  /** The chunks that count as live: those some listed manifest refers to. */
  ghost function Referenced(s: Store): set<Hash> {
    ReferencedBy(s, Listed(s))
  }

  /** Referential integrity: what listed manifests name is stored, and what is stored hashes to its name. */
  ghost predicate Integral(digest: Bytes -> Hash, s: Store) {
    && Referenced(s) <= s.chunks.Keys
    && forall h :: h in s.chunks ==> digest(s.chunks[h]) == h
  }

  /** A file step that cannot break referential integrity. */
  ghost predicate SafeStep(digest: Bytes -> Hash, s: Store, a: FsAction) {
    match a
    case WriteChunk(h, d) => digest(d) == h && h !in s.chunks
    case WriteManifest(name, m) => ChunkSet(m.files) <= s.chunks.Keys
    case RemoveManifest(name) => true
    case RemoveChunk(h) => h !in Referenced(s)
  }

  ghost predicate SafeTrace(digest: Bytes -> Hash, s: Store, acts: seq<FsAction>)
    decreases |acts|
  {
    acts == [] || (SafeStep(digest, s, acts[0]) && SafeTrace(digest, Apply(s, acts[0]), acts[1..]))
  }

  lemma {:induction false} SafeTraceConcat(digest: Bytes -> Hash, s: Store, a: seq<FsAction>, b: seq<FsAction>)
    requires SafeTrace(digest, s, a) && SafeTrace(digest, ApplyAll(s, a), b)
    ensures SafeTrace(digest, s, a + b)
    decreases |a|
  {
    if a == [] {
      assert a + b == b;
    } else {
      assert (a + b)[1..] == a[1..] + b;
      SafeTraceConcat(digest, Apply(s, a[0]), a[1..], b);
    }
  }

  lemma SafeStepKeeps(digest: Bytes -> Hash, s: Store, a: FsAction)
    requires Integral(digest, s) && SafeStep(digest, s, a)
    ensures Integral(digest, Apply(s, a))
  {
    var t := Apply(s, a);
    forall h | h in Referenced(t) ensures h in t.chunks {
      var n :| n in Listed(t) && h in ChunkSet(t.snapshots[n].files);
      assert (a.WriteManifest? && a.name == n) || (n in s.snapshots && h in Referenced(s));
    }
  }

  /** Whatever prefix of a safe trace has reached the disk, the store is sound. */
  lemma {:induction false} EveryPrefixIntegral(digest: Bytes -> Hash, s: Store, acts: seq<FsAction>, k: nat)
    requires Integral(digest, s) && SafeTrace(digest, s, acts) && k <= |acts|
    ensures Integral(digest, ApplyAll(s, acts[..k]))
    decreases |acts|
  {
    if k > 0 {
      SafeStepKeeps(digest, s, acts[0]);
      EveryPrefixIntegral(digest, Apply(s, acts[0]), acts[1..], k - 1);
      assert acts[..k][1..] == acts[1..][..k - 1];
    }
  }

  // ----- Snapshot -----

  /** A directory listing: distinct relative paths, sorted, with their contents. */
  type Tree = seq<(string, Bytes)>

  function PieceHashes(digest: Bytes -> Hash, pieces: seq<Bytes>): seq<Hash> {
    seq(|pieces|, i requires 0 <= i < |pieces| => digest(pieces[i]))
  }

  function FileOf(digest: Bytes -> Hash, path: string, content: Bytes, n: nat): FileEntry
    requires n > 0
  {
    FileEntry(path, |content|, PieceHashes(digest, Split(content, n)))
  }

  function FilesOf(digest: Bytes -> Hash, tree: Tree, n: nat): seq<FileEntry>
    requires n > 0
  {
    seq(|tree|, i requires 0 <= i < |tree| => FileOf(digest, tree[i].0, tree[i].1, n))
  }

  /** All pieces of all files, in the order they are written. */
  function PiecesOf(tree: Tree, n: nat): seq<Bytes>
    requires n > 0
  {
    if tree == [] then [] else Split(tree[0].1, n) + PiecesOf(tree[1..], n)
  }

  /** Storing pieces in order; a piece whose hash is already present is not written again. */
  function StorePieces(digest: Bytes -> Hash, chunks: map<Hash, Bytes>, pieces: seq<Bytes>): map<Hash, Bytes>
    decreases |pieces|
  {
    if pieces == [] then chunks
    else
      var h := digest(pieces[0]);
      StorePieces(digest, if h in chunks then chunks else chunks[h := pieces[0]], pieces[1..])
  }

  /** The greatest sequence number of listed manifests, or 0. */
  ghost function MaxSeq(s: Store): (m: nat)
    ensures forall n :: n in Listed(s) ==> s.snapshots[n].seqNo <= m
    ensures m == 0 || exists n :: n in Listed(s) && s.snapshots[n].seqNo == m
  {
    MaxOf(s.snapshots, Listed(s))
  }

  ghost function MaxOf(snapshots: map<string, Manifest>, names: set<string>): (m: nat)
    requires names <= snapshots.Keys
    ensures forall n :: n in names ==> snapshots[n].seqNo <= m
    ensures m == 0 || exists n :: n in names && snapshots[n].seqNo == m
    decreases |names|
  {
    if names == {} then 0
    else
      var n :| n in names;
      var m := MaxOf(snapshots, names - {n});
      if snapshots[n].seqNo > m then snapshots[n].seqNo else m
  }

  /** The manifest a snapshot writes: the chunk size is cut to 32 bits and the sequence number to 64. */
  ghost function ManifestFor(digest: Bytes -> Hash, s: Store, name: string, tree: Tree, n: nat): Manifest
    requires n > 0
  {
    Manifest(name, Cut32(n), Wrap64(MaxSeq(s) + 1), FilesOf(digest, tree, n))
  }

  ghost function SnapshotStore(digest: Bytes -> Hash, s: Store, name: string, tree: Tree, n: nat): Store
    requires n > 0
  {
    Store(StorePieces(digest, s.chunks, PiecesOf(tree, n)),
          s.snapshots[name := ManifestFor(digest, s, name, tree, n)])
  }

  // ----- Garbage collection, drop, retain -----

  ghost function GcStore(s: Store): Store {
    s.(chunks := map h | h in s.chunks && h in Referenced(s) :: s.chunks[h])
  }

  ghost function DropStore(s: Store, name: string): Store {
    s.(snapshots := s.snapshots - {name})
  }

  /** Sequence number and name: what retention sorts by. */
  datatype Key = Key(seqNo: nat, name: string)

  predicate Newer(a: Key, b: Key) {
    if a.seqNo != b.seqNo then a.seqNo > b.seqNo else StrLess(b.name, a.name)
  }

  lemma NewerStrictTotal()
    ensures StrictTotal(Newer)
  {
    StrLessStrictTotal();
    forall a, b, c | Newer(a, b) && Newer(b, c) ensures Newer(a, c) {
      if a.seqNo == b.seqNo == c.seqNo { StrLessTransitive(c.name, b.name, a.name); }
    }
  }

  ghost function KeysOf(s: Store): set<Key> {
    set n | n in Listed(s) :: Key(s.snapshots[n].seqNo, n)
  }

  /** Every listed manifest carries the name it is filed under, as those the engine writes do. */
  ghost predicate NamesMatch(s: Store) {
    forall n :: n in Listed(s) ==> s.snapshots[n].name == n
  }

  /** The listed snapshots not kept go, then the chunks no listed manifest names. */
  ghost function KeepStore(s: Store, keep: set<string>): Store {
    GcStore(s.(snapshots := map n | n in s.snapshots && (n in keep || n == "") :: s.snapshots[n]))
  }

  /** `kept` and `dropped` split the snapshots, newest first, after the first `keep`. */
  ghost predicate Retains(s: Store, keep: nat, kept: seq<Key>, dropped: seq<Key>) {
    && Lists(Newer, kept + dropped, KeysOf(s))
    && |kept| == if keep < |Listed(s)| then keep else |Listed(s)|
  }

  function NamesIn(keys: seq<Key>): set<string> {
    set k | k in keys :: k.name
  }
}
