/**
 * Saving, loading and re-materializing a cluster, loop by loop.
 *
 * The lemmas say how far each loop is; what the methods achieve is said of the state as a value.
 */
module ClusterState {
  import opened Common
  import opened Ordering
  import opened ClusterModel
  import opened ClusterLoops
  import opened StateModel
  import C = Cluster

  /** Rejects sizes that are out of range. */
  method New(env: Env, n: int, r: int) returns (c: Option<C.Cluster>)
    ensures c.Some? <==> 1 <= r <= n
    ensures c.Some? ==> fresh(c.value) && fresh(c.value.nodes) && c.value.Valid()
    ensures c.Some? ==> c.value.V() == NewView(n, r) && c.value.extra == map[] && c.value.env == env
  {
    if n < 1 {
      return None;
    }
    if r < 1 || r > n {
      return None;
    }
    var made := new C.Cluster(env, n, r);
    return Some(made);
  }

  /** The off-placement holders met before node `k`, and on node `k` among the hashes in `done`. */
  ghost function OffMet(e: Env, v: View, h: Hash, k: int, done: set<Hash>): set<int>
    requires |v.nodes| > 0
  {
    set i | i in OffPlacement(e, v, h) && (i < k || (i == k && h in done))
  }

  ghost predicate ExtrasMet(e: Env, v: View, m: map<Hash, seq<int>>, k: int, done: set<Hash>)
    requires |v.nodes| > 0
  {
    && (forall h :: h in m <==> OffMet(e, v, h, k, done) != {})
    && (forall h :: h in m ==> Lists(IntLess, m[h], OffMet(e, v, h, k, done)))
  }

  lemma ExtrasMetStart(e: Env, v: View)
    requires |v.nodes| > 0
    ensures ExtrasMet(e, v, map[], 0, {})
  {
    forall h ensures OffMet(e, v, h, 0, {}) == {} {}
  }

  lemma ExtrasMetStep(e: Env, v: View, m: map<Hash, seq<int>>, k: int, done: set<Hash>, h: Hash,
                      m': map<Hash, seq<int>>)
    requires 0 <= k < |v.nodes| && ExtrasMet(e, v, m, k, done) && h !in done && h in v.nodes[k].data
    requires m' == if k in Placement(e, v, h) then m else m[h := (if h in m then m[h] else []) + [k]]
    ensures ExtrasMet(e, v, m', k, done + {h})
  {
    forall g
      ensures g in m' <==> OffMet(e, v, g, k, done + {h}) != {}
      ensures g in m' ==> Lists(IntLess, m'[g], OffMet(e, v, g, k, done + {h}))
    {
      OffMetStep(e, v, g, k, done, h);
      if g == h && k !in Placement(e, v, h) {
        OffMetAppend(e, v, m, k, done, h);
      }
    }
  }

  lemma OffMetStep(e: Env, v: View, g: Hash, k: int, done: set<Hash>, h: Hash)
    requires 0 <= k < |v.nodes| && h in v.nodes[k].data
    ensures OffMet(e, v, g, k, done + {h}) ==
      OffMet(e, v, g, k, done) + (if g == h && k !in Placement(e, v, h) then {k} else {})
  {
  }

  lemma OffMetAppend(e: Env, v: View, m: map<Hash, seq<int>>, k: int, done: set<Hash>, h: Hash)
    requires |v.nodes| > 0 && ExtrasMet(e, v, m, k, done) && h !in done
    ensures Lists(IntLess, (if h in m then m[h] else []) + [k], OffMet(e, v, h, k, done) + {k})
  {
    if h in m {
      forall j | 0 <= j < |m[h]| ensures m[h][j] < k { assert m[h][j] in Elems(m[h]); }
    }
  }

  lemma ExtrasMetNode(e: Env, v: View, m: map<Hash, seq<int>>, k: int)
    requires 0 <= k < |v.nodes| && ExtrasMet(e, v, m, k, v.nodes[k].data.Keys)
    ensures ExtrasMet(e, v, m, k + 1, {})
  {
    forall h ensures OffMet(e, v, h, k + 1, {}) == OffMet(e, v, h, k, v.nodes[k].data.Keys) {}
  }

  lemma ExtrasMetEnd(e: Env, v: View, m: map<Hash, seq<int>>)
    requires |v.nodes| > 0 && ExtrasMet(e, v, m, |v.nodes|, {})
    ensures ListsExtras(e, v, m)
  {
    forall h ensures OffMet(e, v, h, |v.nodes|, {}) == OffPlacement(e, v, h) {}
  }

  lemma ListedSorted(e: Env, v: View, m: map<Hash, seq<int>>)
    requires |v.nodes| > 0 && ListsExtras(e, v, m)
    ensures SortLists(m) == m
  {
    SortListsFixed(m);
  }

  /** The ids of the down nodes, sorted. */
  method DownIds(c: C.Cluster) returns (down: seq<int>)
    requires c.Valid()
    ensures Lists(IntLess, down, DownNodes(c.V()))
  {
    hide *;
    c.WfView();
    ghost var off := DownNodes(c.V());
    down := [];
    DownFacts(c.V());
    BelowZero(off);
    for k := 0 to |c.nodes|
      invariant ListedBelow(down, off, k)
    {
      c.NodeSeen(k);
      c.IdIs(k);
      ListedStep(down, off, k);
      if !c.nodes[k].up {
        down := down + [c.nodes[k].ID];
      }
    }
    ListedAll(down, off, |c.nodes|);
    IntLessStrictTotal();
    SortListing(IntLess, down);
    down := Sort(IntLess, down);
  }

  lemma DownFacts(v: View)
    ensures forall k :: 0 <= k < |v.nodes| ==> (k in DownNodes(v) <==> !v.nodes[k].up)
    ensures forall k :: k in DownNodes(v) ==> 0 <= k < |v.nodes|
  {
  }

  /** Adds one node's off-placement replicas, its map walked in no particular order. */
  method NodeExtras(c: C.Cluster, k: nat, m0: map<Hash, seq<int>>) returns (m: map<Hash, seq<int>>)
    requires c.Valid() && k < |c.nodes| && ExtrasMet(c.env, c.V(), m0, k, {})
    ensures ExtrasMet(c.env, c.V(), m, k + 1, {})
  {
    hide *;
    c.WfView();
    c.NodeSeen(k);
    c.IdIs(k);
    ghost var v, done: set<Hash> := c.V(), {};
    var rest := c.nodes[k].data.Keys;
    m := m0;
    while rest != {}
      invariant done !! rest && done + rest == v.nodes[k].data.Keys
      invariant ExtrasMet(c.env, v, m, k, done)
      decreases |rest|
    {
      var h :| h in rest;
      var ids := c.Placement(h);
      ListedMembers(c.env, v, h, ids);
      var m' := if c.nodes[k].ID in ids then m else m[h := (if h in m then m[h] else []) + [c.nodes[k].ID]];
      ExtrasMetStep(c.env, v, m, k, done, h, m');
      m := m';
      done, rest := done + {h}, rest - {h};
    }
    assert done == v.nodes[k].data.Keys;
    ExtrasMetNode(c.env, v, m, k);
  }

  lemma HeldMore(v: View, k: nat, held: nat)
    requires k < |v.nodes| && (held == 0 <==> HashesBelow(v, k) == {})
    ensures held + |v.nodes[k].data.Keys| == 0 <==> HashesBelow(v, k + 1) == {}
  {
    hide HashesBelow;
    MoreHashes(v, k);
  }

  /** Counts the replicas held and lists those off their placement. */
  method CollectExtras(c: C.Cluster) returns (held: nat, extra: map<Hash, seq<int>>)
    requires c.Valid()
    ensures held == 0 <==> AllHashes(c.V()) == {}
    ensures |c.V().nodes| > 0 && ListsExtras(c.env, c.V(), extra)
  {
    hide *;
    c.WfView();
    ghost var v := c.V();
    extra, held := map[], 0;
    ExtrasMetStart(c.env, v);
    NoHashesYet(v);
    for k := 0 to |c.nodes|
      invariant held == 0 <==> HashesBelow(v, k) == {}
      invariant ExtrasMet(c.env, v, extra, k, {})
    {
      c.NodeSeen(k);
      HeldMore(v, k, held);
      held := held + |c.nodes[k].data.Keys|;
      extra := NodeExtras(c, k, extra);
    }
    ExtrasMetEnd(c.env, v, extra);
  }

  /**
   * Records the sizes, the down nodes and the off-placement replicas; a cluster without data keeps
   * the extra locations it was loaded with, and sorts those lists in place.
   */
  method SaveState(c: C.Cluster) returns (st: State)
    requires c.Valid()
    modifies c`extra
    ensures c.Valid() && c.V() == old(c.V())
    ensures IsStateOf(c.env, c.V(), old(c.extra), st)
    ensures c.extra == if AllHashes(c.V()) == {} then SortLists(old(c.extra)) else old(c.extra)
  {
    var down := DownIds(c);
    var held, extra := CollectExtras(c);
    assert c.Valid() ==> |c.V().nodes| > 0;
    if held == 0 {
      c.extra := SortLists(c.extra);
      extra := c.extra;
    } else {
      ListedSorted(c.env, c.V(), extra);
      extra := SortLists(extra);
    }
    st := State(|c.nodes|, c.replic, down, extra);
    assert c.V().nodes == old(c.V()).nodes;
  }

  ghost predicate DownSoFar(v: View, w: View, down: seq<int>) {
    && |v.nodes| == |w.nodes| && v.replic == w.replic
    && forall i :: 0 <= i < |v.nodes| ==>
         w.nodes[i] == if i in down then v.nodes[i].(up := false) else v.nodes[i]
  }

  lemma DownMore(v: View, u: View, down: seq<int>, k: nat)
    requires k < |down| && DownSoFar(v, u, down[..k])
    ensures DownSoFar(v, SetUpView(u, down[k], false), down[..k + 1])
  {
    assert down[..k + 1] == down[..k] + [down[k]];
  }

  lemma DownAll(n: nat, r: nat, st: State, w: View)
    requires Loadable(st) && st.nodes == n && st.replication == r
    requires DownSoFar(NewView(n, r), w, st.down)
    ensures w == LoadedView(st)
  {
    assert w.nodes == LoadedView(st).nodes;
  }

  /** Rebuilds an empty cluster from a state; rejects bad sizes and unknown down nodes. */
  method LoadState(env: Env, st: State) returns (c: Option<C.Cluster>)
    ensures c.Some? <==> Loadable(st)
    ensures c.Some? ==> fresh(c.value) && fresh(c.value.nodes) && c.value.Valid()
    ensures c.Some? ==> c.value.V() == LoadedView(st) && c.value.extra == st.extra && c.value.env == env
  {
    c := New(env, st.nodes, st.replication);
    if c.None? {
      return;
    }
    var made := c.value;
    ghost var v := made.V();
    for k := 0 to |st.down|
      invariant made.Valid() && made.env == env && DownSoFar(v, made.V(), st.down[..k])
      invariant fresh(made) && fresh(made.nodes)
      invariant forall j :: 0 <= j < k ==> 0 <= st.down[j] < st.nodes
    {
      DownMore(v, made.V(), st.down, k);
      var ok := made.SetUp(st.down[k], false);
      if !ok {
        return None;
      }
    }
    assert st.down[..|st.down|] == st.down;
    DownAll(st.nodes, st.replication, st, made.V());
    made.extra := st.extra;
    assert made.V().nodes == LoadedView(st).nodes;
    return Some(made);
  }

  /** The in-range ids among the first `k`. */
  ghost function Within(ids: seq<int>, k: nat, n: nat): set<int>
    requires k <= |ids|
  {
    set i | 0 <= i < n && i in ids[..k]
  }

  lemma WithinStep(ids: seq<int>, k: nat, n: nat)
    requires k < |ids|
    ensures Within(ids, k + 1, n) == Within(ids, k, n) + if 0 <= ids[k] < n then {ids[k]} else {}
    ensures 0 <= ids[k] < n ==> Within(ids, k + 1, n) == Within(ids, k, n) + {ids[k]}
    ensures !(0 <= ids[k] < n) ==> Within(ids, k + 1, n) == Within(ids, k, n)
  {
    assert ids[..k + 1] == ids[..k] + [ids[k]];
  }

  lemma WithinAll(e: Env, v: View, extra: map<Hash, seq<int>>, h: Hash, placed: seq<int>, ids: seq<int>)
    requires Wf(v) && Lists(IntLess, placed, Placement(e, v, h))
    requires ids == placed + if h in extra then extra[h] else []
    ensures Within(ids, 0, |v.nodes|) == {}
    ensures Within(ids, |ids|, |v.nodes|) == RematSet(e, v, extra, h)
  {
    assert ids[..|ids|] == ids;
    forall i | 0 <= i < |v.nodes| ensures i in ids <==> i in RematSet(e, v, extra, h) {
      assert i in placed <==> i in Elems(placed);
    }
  }

  lemma WrittenIsRemat(e: Env, v: View, w: View, extra: map<Hash, seq<int>>, store: map<Hash, Bytes>, h: Hash)
    requires Wf(v) && h in store && WrittenOn(v, w, RematSet(e, v, extra, h), h, store[h])
    ensures w == RematView(e, v, extra, store, {h})
  {
    RewriteCells(v, {h}, (i, g) => RematCell(e, v, extra, store, i, g));
    forall i, g | 0 <= i < |v.nodes| ensures Cell(w, i, g) == Cell(RematView(e, v, extra, store, {h}), i, g) {
      RematWritten(e, v, w, extra, store, h, i, g);
    }
    ViewExtensional(w, RematView(e, v, extra, store, {h}));
  }

  lemma RematWritten(e: Env, v: View, w: View, extra: map<Hash, seq<int>>, store: map<Hash, Bytes>, h: Hash, i: int,
                     g: Hash)
    requires Wf(v) && h in store && WrittenOn(v, w, RematSet(e, v, extra, h), h, store[h]) && 0 <= i < |v.nodes|
    ensures Cell(w, i, g) == if g == h then RematCell(e, v, extra, store, i, h) else Cell(v, i, g)
  {
  }

  /** Writes a chunk to its placement and to the extra locations on record, ignoring ids out of range. */
  method Rematerialize(c: C.Cluster, hash: Hash, ghost store: map<Hash, Bytes>, data: Bytes)
    requires c.Valid() && hash in store && store[hash] == data
    modifies c.nodes`data
    ensures c.Valid() && |c.V().nodes| == |old(c.V()).nodes| > 0
    ensures c.V() == RematView(c.env, old(c.V()), c.extra, store, {hash})
  {
    hide *;
    c.WfView();
    ghost var v := c.V();
    var placed := c.Placement(hash);
    var ids := placed + if hash in c.extra then c.extra[hash] else [];
    WithinAll(c.env, v, c.extra, hash, placed, ids);
    WrittenNowhere(v, ids, hash, data);
    for k := 0 to |ids|
      invariant c.Valid() && WrittenOn(v, c.V(), Within(ids, k, |v.nodes|), hash, data)
    {
      WithinStep(ids, k, |v.nodes|);
      WrittenSize(v, c.V(), Within(ids, k, |v.nodes|), hash, data);
      if ids[k] < 0 || ids[k] >= |c.nodes| {
        continue;
      }
      ghost var u := c.V();
      c.WriteReplica(ids[k], hash, data);
      WrittenMore(v, u, c.V(), Within(ids, k, |v.nodes|), ids[k], hash, data);
    }
    WrittenSize(v, c.V(), Within(ids, |ids|, |v.nodes|), hash, data);
    WrittenIsRemat(c.env, v, c.V(), c.extra, store, hash);
  }

  /** Re-materializing a chunk again, or another one, just extends the set of re-materialized chunks. */
  lemma RematOneMore(e: Env, v: View, extra: map<Hash, seq<int>>, store: map<Hash, Bytes>, d: set<Hash>, h: Hash)
    requires Wf(v) && h in store
    ensures Wf(RematView(e, v, extra, store, d))
    ensures RematView(e, RematView(e, v, extra, store, d), extra, store, {h}) == RematView(e, v, extra, store, d + {h})
  {
    var u := RematView(e, v, extra, store, d);
    RewriteCells(v, d, (i, g) => RematCell(e, v, extra, store, i, g));
    RewriteCells(u, {h}, (i, g) => RematCell(e, u, extra, store, i, g));
    RewriteCells(v, d + {h}, (i, g) => RematCell(e, v, extra, store, i, g));
    assert RematSet(e, u, extra, h) == RematSet(e, v, extra, h);
    ViewExtensional(RematView(e, u, extra, store, {h}), RematView(e, v, extra, store, d + {h}));
  }

  lemma RematNothing(e: Env, v: View, extra: map<Hash, seq<int>>, store: map<Hash, Bytes>)
    requires Wf(v)
    ensures RematView(e, v, extra, store, {}) == v
  {
    RewriteCells(v, {}, (i, g) => RematCell(e, v, extra, store, i, g));
    ViewExtensional(RematView(e, v, extra, store, {}), v);
  }

  /** The chunks named by the manifests; a manifest that cannot be read is `None`. */
  ghost function NamedBy(lists: seq<Option<seq<Hash>>>): set<Hash> {
    set l, h | l in lists && l.Some? && h in l.value :: h
  }

  ghost predicate Readable(lists: seq<Option<seq<Hash>>>, store: map<Hash, Bytes>) {
    None !in lists && NamedBy(lists) <= store.Keys
  }

  lemma NamedStep(lists: seq<Option<seq<Hash>>>, store: map<Hash, Bytes>, k: nat)
    requires k < |lists| && Readable(lists[..k], store) && lists[k].Some?
    ensures NamedBy(lists[..k + 1]) == NamedBy(lists[..k]) + Elems(lists[k].value)
    ensures Elems(lists[k].value) <= store.Keys ==> Readable(lists[..k + 1], store)
    ensures !(Elems(lists[k].value) <= store.Keys) ==> !Readable(lists, store)
  {
    assert lists[..k + 1] == lists[..k] + [lists[k]];
    assert Elems(lists[k].value) <= NamedBy(lists) by {
      assert lists[k] in lists;
    }
  }

  lemma NamedStop(lists: seq<Option<seq<Hash>>>, store: map<Hash, Bytes>, k: nat)
    requires k < |lists| && lists[k].None?
    ensures !Readable(lists, store)
  {
    assert None in lists;
  }

  lemma NamedStart(env: Env, v: View, st: State, lists: seq<Option<seq<Hash>>>, store: map<Hash, Bytes>)
    requires Wf(v)
    ensures Readable(lists[..0], store)
    ensures v == RematView(env, v, st.extra, store, NamedBy(lists[..0]))
  {
    assert NamedBy(lists[..0]) == {};
    RematNothing(env, v, st.extra, store);
  }

  lemma NamedEnd(env: Env, st: State, lists: seq<Option<seq<Hash>>>, store: map<Hash, Bytes>)
    requires Loadable(st)
    ensures lists[..|lists|] == lists
    ensures RehydratedView(env, st, store, NamedBy(lists))
        == RematView(env, LoadedView(st), st.extra, store, NamedBy(lists))
  {
    assert lists[..|lists|] == lists;
  }

  /** Re-materializes one manifest's chunks, stopping at the first the store lacks. */
  method RematerializeAll(c: C.Cluster, ghost v: View, ghost d: set<Hash>, hashes: seq<Hash>, store: map<Hash, Bytes>)
    returns (ok: bool)
    requires c.Valid() && Wf(v) && c.V() == RematView(c.env, v, c.extra, store, d)
    modifies c.nodes`data
    ensures c.Valid() && ok == (Elems(hashes) <= store.Keys)
    ensures ok ==> c.V() == RematView(c.env, v, c.extra, store, d + Elems(hashes))
  {
    assert Elems(hashes[..0]) == {} && d + {} == d;
    for k := 0 to |hashes|
      invariant c.Valid() && Elems(hashes[..k]) <= store.Keys
      invariant c.V() == RematView(c.env, v, c.extra, store, d + Elems(hashes[..k]))
    {
      TakeHash(hashes, k);
      if hashes[k] !in store {
        return false;
      }
      RematOneMore(c.env, v, c.extra, store, d + Elems(hashes[..k]), hashes[k]);
      Rematerialize(c, hashes[k], store, store[hashes[k]]);
      assert d + Elems(hashes[..k]) + {hashes[k]} == d + Elems(hashes[..k + 1]);
    }
    assert hashes[..|hashes|] == hashes;
    return true;
  }

  lemma TakeHash(xs: seq<Hash>, k: nat)
    requires k < |xs|
    ensures Elems(xs[..k + 1]) == Elems(xs[..k]) + {xs[k]} && xs[k] in Elems(xs)
  {
    assert xs[..k + 1] == xs[..k] + [xs[k]];
  }

  /** Loads the saved cluster and re-materializes the chunks of every manifest; any failure yields no cluster. */
  method Rehydrate(env: Env, st: State, lists: seq<Option<seq<Hash>>>, store: map<Hash, Bytes>)
    returns (c: Option<C.Cluster>)
    ensures c.Some? <==> Loadable(st) && Readable(lists, store)
    ensures c.Some? ==> c.value.Valid() && c.value.extra == st.extra && c.value.env == env
    ensures c.Some? ==> c.value.V() == RehydratedView(env, st, store, NamedBy(lists))
  {
    hide *;
    c := LoadState(env, st);
    if c.None? {
      return;
    }
    var made := c.value;
    made.WfView();
    ghost var v := made.V();
    NamedStart(env, v, st, lists, store);
    for k := 0 to |lists|
      invariant made.Valid() && made.env == env && made.extra == st.extra && fresh(made.nodes)
      invariant Readable(lists[..k], store)
      invariant made.V() == RematView(env, v, st.extra, store, NamedBy(lists[..k]))
    {
      if lists[k].None? {
        NamedStop(lists, store, k);
        return None;
      }
      NamedStep(lists, store, k);
      var ok := RematerializeAll(made, v, NamedBy(lists[..k]), lists[k].value, store);
      if !ok {
        return None;
      }
    }
    NamedEnd(env, st, lists, store);
    return Some(made);
  }
}
