/** What a saved cluster state means, and what saving, loading and re-materializing give back. */
module StateModel {
  import opened Common
  import opened Ordering
  import opened ClusterModel
  import opened RebalanceLemmas

  datatype State = State(nodes: int, replication: int, down: seq<int>, extra: map<Hash, seq<int>>)

  /** The replicas of a chunk that live outside its placement. */
  ghost function OffPlacement(e: Env, v: View, h: Hash): set<int>
    requires |v.nodes| > 0
  {
    Holders(v, h) - Placement(e, v, h)
  }

  /** `m` lists, for each chunk that has some, its off-placement replicas in ascending order. */
  ghost predicate ListsExtras(e: Env, v: View, m: map<Hash, seq<int>>)
    requires |v.nodes| > 0
  {
    && (forall h :: h in m <==> OffPlacement(e, v, h) != {})
    && (forall h :: h in m ==> Lists(IntLess, m[h], OffPlacement(e, v, h)))
  }

  function SortLists(m: map<Hash, seq<int>>): map<Hash, seq<int>> {
    map h | h in m :: Sort(IntLess, m[h])
  }

  /** What SaveState records of a cluster with data `v` and remembered extra locations `extra`. */
  ghost predicate IsStateOf(e: Env, v: View, extra: map<Hash, seq<int>>, st: State)
    requires |v.nodes| > 0
  {
    && st.nodes == |v.nodes| && st.replication == v.replic
    && Lists(IntLess, st.down, DownNodes(v))
    && (if AllHashes(v) == {} then st.extra == SortLists(extra) else ListsExtras(e, v, st.extra))
  }

  /** Saving is deterministic: a cluster has one saved state, whatever order its maps are walked in. */
  lemma StateUnique(e: Env, v: View, extra: map<Hash, seq<int>>, a: State, b: State)
    requires |v.nodes| > 0 && IsStateOf(e, v, extra, a) && IsStateOf(e, v, extra, b)
    ensures a == b
  {
    ListingUnique(IntLess, a.down, b.down, DownNodes(v));
    if AllHashes(v) != {} { ExtrasUnique(e, v, a.extra, b.extra); }
  }

  lemma ExtrasUnique(e: Env, v: View, a: map<Hash, seq<int>>, b: map<Hash, seq<int>>)
    requires |v.nodes| > 0 && ListsExtras(e, v, a) && ListsExtras(e, v, b)
    ensures a == b
  {
    forall h | h in a ensures h in b && a[h] == b[h] {
      ListingUnique(IntLess, a[h], b[h], OffPlacement(e, v, h));
    }
    forall h | h in b ensures h in a {}
  }

  /** The states LoadState accepts. */
  ghost predicate Loadable(st: State) {
    1 <= st.replication <= st.nodes && forall k :: 0 <= k < |st.down| ==> 0 <= st.down[k] < st.nodes
  }

  /** The empty cluster a state describes. */
  ghost function LoadedView(st: State): View
    requires Loadable(st)
  {
    View(seq(st.nodes, i => NodeView(i !in st.down, map[])), st.replication)
  }

  /** The nodes Rematerialize writes a chunk to. */
  ghost function RematSet(e: Env, v: View, extra: map<Hash, seq<int>>, h: Hash): set<int>
    requires |v.nodes| > 0
  {
    Placement(e, v, h) + set i | 0 <= i < |v.nodes| && h in extra && i in extra[h]
  }

  ghost function RematCell(e: Env, v: View, extra: map<Hash, seq<int>>, store: map<Hash, Bytes>, i: int,
                           h: Hash): Option<Bytes>
    requires |v.nodes| > 0
  {
    if i in RematSet(e, v, extra, h) && h in store then Some(store[h]) else Cell(v, i, h)
  }

  /** The cluster after re-materializing the chunks in `d` from the store. */
  ghost function RematView(e: Env, v: View, extra: map<Hash, seq<int>>, store: map<Hash, Bytes>, d: set<Hash>): View
    requires |v.nodes| > 0
  {
    Rewrite(v, d, (i, h) => RematCell(e, v, extra, store, i, h))
  }

  /** Loading a state and re-materializing every chunk of the store's manifests. */
  ghost function RehydratedView(e: Env, st: State, store: map<Hash, Bytes>, chunks: set<Hash>): View
    requires Loadable(st)
  {
    RematView(e, LoadedView(st), st.extra, store, chunks)
  }

  lemma RehydratedCell(e: Env, st: State, store: map<Hash, Bytes>, chunks: set<Hash>, i: int, h: Hash)
    requires Loadable(st) && chunks <= store.Keys && 0 <= i < st.nodes
    ensures var w := RehydratedView(e, st, store, chunks);
            && |w.nodes| == st.nodes && w.replic == st.replication
            && w.nodes[i].up == (i !in st.down)
            && Cell(w, i, h) ==
                 if h in chunks && i in RematSet(e, LoadedView(st), st.extra, h) then Some(store[h]) else None
  {
    RewriteCells(LoadedView(st), chunks, (i, h) => RematCell(e, LoadedView(st), st.extra, store, i, h));
  }

  /** A data-holding cluster whose chunks the store's manifests all name. */
  ghost predicate Saved(e: Env, v: View, extra: map<Hash, seq<int>>, st: State, store: map<Hash, Bytes>,
                        chunks: set<Hash>) {
    && Wf(v) && AllHashes(v) != {} && AllHashes(v) <= chunks <= store.Keys
    && IsStateOf(e, v, extra, st)
  }

  lemma SavedIsLoadable(e: Env, v: View, extra: map<Hash, seq<int>>, st: State, store: map<Hash, Bytes>,
                        chunks: set<Hash>)
    requires Saved(e, v, extra, st, store, chunks)
    ensures Loadable(st)
    ensures forall i :: 0 <= i < |v.nodes| ==> (i in st.down <==> !v.nodes[i].up)
  {
    forall k | 0 <= k < |st.down| ensures 0 <= st.down[k] < st.nodes {
      assert st.down[k] in Elems(st.down);
    }
    forall i | 0 <= i < |v.nodes| ensures i in st.down <==> i in DownNodes(v) {
      assert i in st.down <==> i in Elems(st.down);
    }
  }

  lemma SavedRematSet(e: Env, v: View, extra: map<Hash, seq<int>>, st: State, store: map<Hash, Bytes>,
                      chunks: set<Hash>, h: Hash)
    requires Saved(e, v, extra, st, store, chunks) && Loadable(st)
    ensures RematSet(e, LoadedView(st), st.extra, h) == Placement(e, v, h) + Holders(v, h)
  {
    var w := LoadedView(st);
    assert Placement(e, w, h) == Placement(e, v, h);
    forall i ensures i in RematSet(e, w, st.extra, h) <==> i in Placement(e, v, h) + Holders(v, h) {
      ExtraMember(e, v, st.extra, h, i);
    }
  }

  lemma ExtraMember(e: Env, v: View, m: map<Hash, seq<int>>, h: Hash, i: int)
    requires |v.nodes| > 0 && ListsExtras(e, v, m)
    ensures h in m && i in m[h] <==> i in OffPlacement(e, v, h)
  {
    assert h in m ==> (i in m[h] <==> i in Elems(m[h]));
  }

  /** Reloading restores the sizes and the down set, and puts each chunk on its placement and its old holders. */
  lemma ReloadHolders(e: Env, v: View, extra: map<Hash, seq<int>>, st: State, store: map<Hash, Bytes>,
                      chunks: set<Hash>, h: Hash)
    requires Saved(e, v, extra, st, store, chunks)
    ensures Loadable(st)
    ensures var w := RehydratedView(e, st, store, chunks);
            && SameShape(w, v)
            && Holders(w, h) == if h in chunks then Placement(e, v, h) + Holders(v, h) else {}
  {
    SavedIsLoadable(e, v, extra, st, store, chunks);
    SavedRematSet(e, v, extra, st, store, chunks, h);
    forall i | 0 <= i < |v.nodes| { RehydratedCell(e, st, store, chunks, i, h); }
    RehydratedCell(e, st, store, chunks, 0, h);
    var w := RehydratedView(e, st, store, chunks);
    forall i | 0 <= i < |v.nodes|
      ensures h in w.nodes[i].data <==> h in chunks && i in Placement(e, v, h) + Holders(v, h)
    {
      assert Cell(w, i, h).Some? <==> h in w.nodes[i].data;
    }
    assert forall i :: i in Placement(e, v, h) + Holders(v, h) ==> 0 <= i < |v.nodes|;
  }

  /** When every chunk was on its placement with the store's bytes, reloading restores the cluster exactly. */
  lemma ReloadExact(e: Env, v: View, extra: map<Hash, seq<int>>, st: State, store: map<Hash, Bytes>, chunks: set<Hash>)
    requires Saved(e, v, extra, st, store, chunks)
    requires forall h :: h in chunks ==> Placement(e, v, h) <= Holders(v, h)
    requires forall i, h :: 0 <= i < |v.nodes| && Cell(v, i, h).Some? ==> h in store && Cell(v, i, h) == Some(store[h])
    ensures Loadable(st) && RehydratedView(e, st, store, chunks) == v
  {
    SavedIsLoadable(e, v, extra, st, store, chunks);
    var w := RehydratedView(e, st, store, chunks);
    ReloadHolders(e, v, extra, st, store, chunks, "");
    forall i, h | 0 <= i < |v.nodes| ensures Cell(w, i, h) == Cell(v, i, h) {
      SavedRematSet(e, v, extra, st, store, chunks, h);
      RehydratedCell(e, st, store, chunks, i, h);
      HeldCell(v, i, h);
    }
    ViewExtensional(w, v);
  }

  lemma HeldCell(v: View, i: int, h: Hash)
    requires 0 <= i < |v.nodes|
    ensures Cell(v, i, h).Some? <==> i in Holders(v, h)
    ensures Cell(v, i, h).Some? ==> h in AllHashes(v)
  {
  }

  /** Saving the reloaded cluster writes the same state again. */
  lemma SaveIsFixedPoint(e: Env, v: View, extra: map<Hash, seq<int>>, st: State, store: map<Hash, Bytes>,
                         chunks: set<Hash>, again: State)
    requires Saved(e, v, extra, st, store, chunks)
    requires Loadable(st) && IsStateOf(e, RehydratedView(e, st, store, chunks), st.extra, again)
    ensures again == st
  {
    hide *;
    var w := RehydratedView(e, st, store, chunks);
    forall h { ReloadHolders(e, v, extra, st, store, chunks, h); }
    SavedFacts(e, v, extra, st, store, chunks);
    SameShapeFacts(e, w, v, chunks);
    StillHolding(e, v, w, chunks);
    StateCarriesOver(e, v, w, st.extra, again, extra);
    StateUnique(e, v, extra, st, again);
  }

  lemma SavedFacts(e: Env, v: View, extra: map<Hash, seq<int>>, st: State, store: map<Hash, Bytes>, chunks: set<Hash>)
    requires Saved(e, v, extra, st, store, chunks)
    ensures Wf(v) && |v.nodes| > 0 && AllHashes(v) != {} && AllHashes(v) <= chunks && IsStateOf(e, v, extra, st)
  {
  }

  lemma SameShapeFacts(e: Env, w: View, v: View, chunks: set<Hash>)
    requires SameShape(w, v) && Wf(v) && AllHashes(v) <= chunks
    requires forall h :: Holders(w, h) == if h in chunks then Placement(e, v, h) + Holders(v, h) else {}
    ensures |w.nodes| == |v.nodes| > 0 && w.replic == v.replic && DownNodes(w) == DownNodes(v)
    ensures forall h :: OffPlacement(e, w, h) == OffPlacement(e, v, h)
  {
    forall h ensures OffPlacement(e, w, h) == OffPlacement(e, v, h) {
      assert Placement(e, w, h) == Placement(e, v, h);
      HeldIff(v, h);
    }
  }

  /** A state depends on the sizes, the down set and the off-placement replicas only. */
  lemma StateCarriesOver(e: Env, v: View, w: View, wExtra: map<Hash, seq<int>>, st: State, vExtra: map<Hash, seq<int>>)
    requires |w.nodes| == |v.nodes| > 0 && w.replic == v.replic && DownNodes(w) == DownNodes(v)
    requires forall h :: OffPlacement(e, w, h) == OffPlacement(e, v, h)
    requires AllHashes(v) != {} && AllHashes(w) != {}
    requires IsStateOf(e, w, wExtra, st)
    ensures IsStateOf(e, v, vExtra, st)
  {
  }

  lemma StillHolding(e: Env, v: View, w: View, chunks: set<Hash>)
    requires Wf(v) && AllHashes(v) != {} && AllHashes(v) <= chunks
    requires forall h :: Holders(w, h) == if h in chunks then Placement(e, v, h) + Holders(v, h) else {}
    ensures AllHashes(w) != {}
  {
    var h :| h in AllHashes(v);
    HeldIff(v, h);
    HeldIff(w, h);
  }

  /** Sorting a sorted list changes nothing. */
  lemma {:induction false} SortFixed(xs: seq<int>)
    requires Sorted(IntLess, xs)
    ensures Sort(IntLess, xs) == xs
  {
    if xs != [] {
      SortFixed(xs[1..]);
      InsertFront(xs[0], xs[1..]);
      assert xs == [xs[0]] + xs[1..];
    }
  }

  lemma {:induction false} InsertFront(x: int, xs: seq<int>)
    requires forall k :: 0 <= k < |xs| ==> x <= xs[k]
    requires Sorted(IntLess, xs)
    ensures Insert(IntLess, x, xs) == [x] + xs
  {
    if xs != [] && x == xs[0] {
      InsertFront(x, xs[1..]);
      assert xs == [xs[0]] + xs[1..];
    }
  }

  ghost predicate SortedExtras(m: map<Hash, seq<int>>) {
    forall h :: h in m ==> Sorted(IntLess, m[h])
  }

  lemma SortListsFixed(m: map<Hash, seq<int>>)
    requires SortedExtras(m)
    ensures SortLists(m) == m
  {
    forall h | h in m ensures SortLists(m)[h] == m[h] { SortFixed(m[h]); }
  }

  /** Saving always writes sorted extra lists, whether computed or carried over. */
  lemma SavedExtrasSorted(e: Env, v: View, extra: map<Hash, seq<int>>, st: State)
    requires |v.nodes| > 0 && IsStateOf(e, v, extra, st)
    ensures SortedExtras(st.extra)
  {
    forall h | h in st.extra ensures Sorted(IntLess, st.extra[h]) {
      if AllHashes(v) == {} {
        TotalIsWeak(IntLess);
        SortSorted(IntLess, extra[h]);
      }
    }
  }

  /** Loading, failing or recovering nodes and saving, without re-materialized data, keeps the extra locations. */
  lemma DatalessSaveKeepsExtra(e: Env, v: View, st: State, again: State)
    requires |v.nodes| > 0 && AllHashes(v) == {} && SortedExtras(st.extra)
    requires IsStateOf(e, v, st.extra, again)
    ensures again.extra == st.extra
  {
    SortListsFixed(st.extra);
  }
}
