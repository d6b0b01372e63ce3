/**
 * What one turn of each cluster loop does to the cluster as a value, apart from the heap.
 *
 * Most loops come as a predicate saying how far the loop is, with lemmas for its start, its step and its end, so that
 * the methods only update nodes and cite them. A set of node ids being listed is handled by `ListedBelow` and its
 * kin, a set of hashes being filtered by `Filtered`, and replicas being written or erased by `WrittenOn`.
 */
module ClusterLoops {
  import opened Common
  import opened Ordering
  import opened ClusterModel
  import opened RepairLemmas
  import opened RebalanceLemmas

  datatype RepairStats = RepairStats(scanned: nat, underReplicated: nat, copied: nat, corruptFixed: nat,
                                     unrepairable: seq<Hash>)

  datatype RebalanceStats = RebalanceStats(chunksMoved: nat, copiesAdded: nat, copiesRemoved: nat,
                                           skipped: seq<Hash>)

  lemma PlacementIds(e: Env, v: View, h: Hash, ids: seq<int>)
    requires Wf(v) && |ids| == v.replic
    requires forall k :: 0 <= k < |ids| ==> ids[k] == RingStep(Start(e, h, |v.nodes|), |v.nodes|, k)
    ensures Lists(IntLess, Sort(IntLess, ids), ClusterModel.Placement(e, v, h))
  {
    var n := |v.nodes|;
    var s := Start(e, h, n);
    forall k | 0 <= k < |ids| ensures ids[k] in ClusterModel.Placement(e, v, h) && RingDistance(s, n, ids[k]) == k {
      RingStepDistance(s, n, k);
    }
    forall i | i in ClusterModel.Placement(e, v, h) ensures i in ids {
      RingDistanceStep(s, n, i);
      assert ids[RingDistance(s, n, i)] == i;
    }
    assert Elems(ids) == ClusterModel.Placement(e, v, h);
    assert Distinct(ids);
    SortListing(IntLess, ids);
  }

  lemma WrittenIsPut(e: Env, v: View, w: View, hash: Hash, data: Bytes)
    requires Wf(v) && WrittenOn(v, w, ClusterModel.Placement(e, v, hash), hash, data)
    ensures w == PutView(e, v, hash, data)
  {
    RewriteCells(v, {hash}, (i, g) => if i in ClusterModel.Placement(e, v, hash) then Some(data) else Cell(v, i, hash));
    forall i, h | 0 <= i < |v.nodes| ensures Cell(w, i, h) == Cell(PutView(e, v, hash, data), i, h) {
    }
    ViewExtensional(w, PutView(e, v, hash, data));
  }

  lemma ServedFromPlacement(e: Env, v: View, h: Hash, ids: seq<int>, k: nat)
    requires Wf(v) && Lists(IntLess, ids, ClusterModel.Placement(e, v, h))
    requires k < |ids| && ids[k] in UpHolders(v, h)
    requires forall j :: 0 <= j < k ==> ids[j] !in UpHolders(v, h)
    ensures GetView(e, v, h) == Some((v.nodes[ids[k]].data[h], ids[k]))
  {
    var placed := UpHolders(v, h) * ClusterModel.Placement(e, v, h);
    assert ids[k] in Elems(ids);
    assert ids[k] in placed;
    LeastListed(ids, k, placed);
  }

  lemma ServedFromAnywhere(e: Env, v: View, h: Hash, ids: seq<int>, k: nat)
    requires Wf(v) && Lists(IntLess, ids, ClusterModel.Placement(e, v, h))
    requires forall j :: 0 <= j < |ids| ==> ids[j] !in UpHolders(v, h)
    requires k in UpHolders(v, h) && forall j :: 0 <= j < k ==> j !in UpHolders(v, h)
    ensures GetView(e, v, h) == Some((v.nodes[k].data[h], k))
  {
    var placed := UpHolders(v, h) * ClusterModel.Placement(e, v, h);
    assert forall x :: x in placed ==> x in Elems(ids);
    assert placed == {};
    assert Min(UpHolders(v, h)) >= k;
  }

  ghost function HoldersBelow(s: set<int>, k: int): set<int> {
    set i | i in s && i < k
  }

  lemma BelowStep(s: set<int>, k: int)
    ensures HoldersBelow(s, k + 1) == HoldersBelow(s, k) + if k in s then {k} else {}
    ensures |HoldersBelow(s, k + 1)| == |HoldersBelow(s, k)| + if k in s then 1 else 0
  {
    assert HoldersBelow(s, k + 1) == HoldersBelow(s, k) + if k in s then {k} else {};
  }

  /** The first listed member of an ascending listing is the least one. */
  lemma LeastListed(ids: seq<int>, k: nat, s: set<int>)
    requires Ascending(IntLess, ids) && k < |ids| && ids[k] in s
    requires forall j :: 0 <= j < k ==> ids[j] !in s
    requires forall x :: x in s ==> x in Elems(ids)
    ensures ids[k] == Min(s)
  {
    var m := Min(s);
    assert m in Elems(ids);
    var j :| 0 <= j < |ids| && ids[j] == m;
    assert j >= k;
    assert j > k ==> IntLess(ids[k], ids[j]);
  }

  lemma StrAscendingDistinct(all: seq<Hash>)
    requires Ascending(StrLess, all)
    ensures Distinct(all)
  {
    forall i, j | 0 <= i < j < |all| ensures all[i] != all[j] { StrLessIrreflexive(all[i]); }
  }

  lemma AscendingDistinct(ids: seq<int>)
    requires Ascending(IntLess, ids)
    ensures Distinct(ids)
  {
    forall i, j | 0 <= i < j < |ids| ensures ids[i] != ids[j] { assert IntLess(ids[i], ids[j]); }
  }

  /** `out` lists the members of `want` met among the first `k` of `all`. */
  ghost predicate Filtered(all: seq<Hash>, k: nat, out: seq<Hash>, want: set<Hash>)
    requires k <= |all|
  {
    && Ascending(StrLess, all)
    && Ascending(StrLess, out)
    && forall h :: h in out <==> h in all[..k] && h in want
  }

  lemma FilterTake(all: seq<Hash>, k: nat, out: seq<Hash>, want: set<Hash>)
    requires k < |all| && Filtered(all, k, out, want)
    ensures all[k] in want ==> Filtered(all, k + 1, out + [all[k]], want)
    ensures all[k] !in want ==> Filtered(all, k + 1, out, want)
  {
    assert all[..k + 1] == all[..k] + [all[k]];
    forall i | 0 <= i < |out| ensures StrLess(out[i], all[k]) {
      assert out[i] in out;
      var j :| 0 <= j < k && all[..k][j] == out[i];
      assert StrLess(all[j], all[k]);
    }
  }

  lemma FilterDone(all: seq<Hash>, out: seq<Hash>, want: set<Hash>)
    requires Filtered(all, |all|, out, want) && want <= Elems(all)
    ensures Lists(StrLess, out, want)
  {
    assert all[..|all|] == all;
    assert Elems(out) == want;
  }

  lemma BelowAll(s: set<int>, n: int)
    requires forall i :: i in s ==> i < n
    ensures HoldersBelow(s, n) == s
  {
  }

  lemma BelowZero(s: set<int>)
    requires forall i :: i in s ==> 0 <= i
    ensures HoldersBelow(s, 0) == {} && ListedBelow([], s, 0)
  {
  }

  /** `ids` lists, in ascending order, the members of `s` below `k`. */
  ghost predicate ListedBelow(ids: seq<int>, s: set<int>, k: int) {
    Lists(IntLess, ids, HoldersBelow(s, k))
  }

  lemma ListedStep(ids: seq<int>, s: set<int>, k: int)
    requires ListedBelow(ids, s, k)
    ensures ListedBelow(if k in s then ids + [k] else ids, s, k + 1)
  {
    BelowStep(s, k);
    forall j | 0 <= j < |ids| ensures ids[j] < k { assert ids[j] in Elems(ids); }
  }

  lemma ListedAll(ids: seq<int>, s: set<int>, n: int)
    requires ListedBelow(ids, s, n) && forall i :: i in s ==> i < n
    ensures Distinct(ids) && Elems(ids) == s && |ids| == |s|
  {
    BelowAll(s, n);
    AscendingDistinct(ids);
    DistinctCard(ids);
  }

  lemma FirstMember(s: set<int>, k: int)
    requires k in s && HoldersBelow(s, k) == {}
    ensures Min(s) == k
  {
    assert Min(s) !in HoldersBelow(s, k);
  }

  lemma UpHoldersSplit(e: Env, v: View, h: Hash)
    ensures |UpHolders(v, h)| == |IntactHolders(e, v, h)| + |CorruptNodes(e, v, h)|
  {
    assert UpHolders(v, h) == IntactHolders(e, v, h) + CorruptNodes(e, v, h);
    assert IntactHolders(e, v, h) !! CorruptNodes(e, v, h);
  }

  ghost function ThinOn(e: Env, v: View, d: set<Hash>): set<Hash> {
    set h | h in d && |IntactHolders(e, v, h)| < v.replic
  }

  lemma ThinOneMore(e: Env, v: View, d: set<Hash>, h: Hash)
    requires h !in d
    ensures |ThinOn(e, v, d + {h})| == |ThinOn(e, v, d)| + if |IntactHolders(e, v, h)| < v.replic then 1 else 0
  {
    assert ThinOn(e, v, d + {h}) == ThinOn(e, v, d) + if |IntactHolders(e, v, h)| < v.replic then {h} else {};
  }

  ghost function LostHashes(e: Env, v: View): set<Hash> {
    set h | h in AllHashes(v) && IntactHolders(e, v, h) == {}
  }

  /** After the first `k` chunks of `all`, the cluster is `w` and the statistics are `st`. */
  ghost predicate RepairProgress(e: Env, v: View, w: View, all: seq<Hash>, k: nat, st: RepairStats) {
    && k <= |all| && Lists(StrLess, all, AllHashes(v))
    && w == RepairOn(e, v, Elems(all[..k]))
    && st.scanned == k && st.underReplicated == |ThinOn(e, v, Elems(all[..k]))|
    && st.copied == |CopiedOn(e, v, Elems(all[..k]))|
    && st.corruptFixed == |FixedOn(e, v, Elems(all[..k]))|
    && Filtered(all, k, st.unrepairable, LostHashes(e, v))
  }

  lemma RepairProgressStart(e: Env, v: View, all: seq<Hash>, st: RepairStats)
    requires Lists(StrLess, all, AllHashes(v)) && st == RepairStats(0, 0, 0, 0, [])
    ensures RepairProgress(e, v, v, all, 0, st)
  {
    assert Elems(all[..0]) == {};
    RepairOnNothing(e, v);
    assert ThinOn(e, v, {}) == {} && CopiedOn(e, v, {}) == {} && FixedOn(e, v, {}) == {};
  }

  lemma RepairProgressStep(e: Env, v: View, u: View, all: seq<Hash>, k: nat, st: RepairStats, more: RepairStats)
    requires k < |all| && RepairProgress(e, v, u, all, k, st)
    requires more.scanned == st.scanned + 1
    requires more.underReplicated == st.underReplicated + if |IntactHolders(e, u, all[k])| < u.replic then 1 else 0
    requires var lost := IntactHolders(e, u, all[k]) == {};
             && more.copied == st.copied + (if lost then 0 else |Targets(e, u, all[k])|)
             && more.corruptFixed == st.corruptFixed + (if lost then 0 else |CorruptNodes(e, u, all[k])|)
             && more.unrepairable == st.unrepairable + if lost then [all[k]] else []
    ensures RepairProgress(e, v, RepairOn(e, u, {all[k]}), all, k + 1, more)
  {
    var hash, d := all[k], Elems(all[..k]);
    NextElem(all, k);
    assert hash in Elems(all);
    ColumnProgress(e, v, u, d, hash, st, more);
    FilterTake(all, k, st.unrepairable, LostHashes(e, v));
    assert st.unrepairable + [] == st.unrepairable;
  }

  lemma ColumnProgress(e: Env, v: View, u: View, d: set<Hash>, h: Hash, st: RepairStats, more: RepairStats)
    requires h !in d && u == RepairOn(e, v, d)
    requires st.underReplicated == |ThinOn(e, v, d)| && st.copied == |CopiedOn(e, v, d)|
    requires st.corruptFixed == |FixedOn(e, v, d)|
    requires more.underReplicated == st.underReplicated + if |IntactHolders(e, u, h)| < u.replic then 1 else 0
    requires var lost := IntactHolders(e, u, h) == {};
             && more.copied == st.copied + (if lost then 0 else |Targets(e, u, h)|)
             && more.corruptFixed == st.corruptFixed + (if lost then 0 else |CorruptNodes(e, u, h)|)
    ensures RepairOn(e, u, {h}) == RepairOn(e, v, d + {h}) && IntactHolders(e, u, h) == IntactHolders(e, v, h)
    ensures more.underReplicated == |ThinOn(e, v, d + {h})| && more.copied == |CopiedOn(e, v, d + {h})|
    ensures more.corruptFixed == |FixedOn(e, v, d + {h})|
  {
    hide *;
    RepairOneMore(e, v, d, h);
    CopiedOneMore(e, v, d, h);
    FixedOneMore(e, v, d, h);
    ThinOneMore(e, v, d, h);
  }

  lemma RepairProgressEnd(e: Env, v: View, w: View, all: seq<Hash>, st: RepairStats)
    requires RepairProgress(e, v, w, all, |all|, st)
    ensures w == RepairView(e, v) && st.scanned == |AllHashes(v)|
    ensures st.underReplicated == |(set h | h in AllHashes(v) && |IntactHolders(e, v, h)| < v.replic)|
    ensures st.copied == |CopiedOn(e, v, AllHashes(v))| && st.corruptFixed == |FixedOn(e, v, AllHashes(v))|
    ensures Lists(StrLess, st.unrepairable, LostHashes(e, v))
  {
    assert all[..|all|] == all;
    FilterDone(all, st.unrepairable, LostHashes(e, v));
    StrAscendingDistinct(all);
    DistinctCard(all);
    assert ThinOn(e, v, AllHashes(v)) == set h | h in AllHashes(v) && |IntactHolders(e, v, h)| < v.replic;
  }

  lemma RepairOnNothing(e: Env, v: View)
    ensures RepairOn(e, v, {}) == v
  {
    RewriteCells(v, {}, (i, h) => RepairCell(e, v, i, h));
    ViewExtensional(RepairOn(e, v, {}), v);
  }

  lemma NextElem(all: seq<Hash>, k: nat)
    requires k < |all| && Ascending(StrLess, all)
    ensures Elems(all[..k + 1]) == Elems(all[..k]) + {all[k]} && all[k] !in Elems(all[..k])
  {
    assert all[..k + 1] == all[..k] + [all[k]];
    forall j | 0 <= j < k ensures all[j] != all[k] {
      assert StrLess(all[j], all[k]);
      StrLessIrreflexive(all[k]);
    }
  }

  ghost predicate SameKeys(v: View, w: View, h: Hash) {
    |v.nodes| == |w.nodes| && forall i :: 0 <= i < |v.nodes| ==> (h in v.nodes[i].data <==> h in w.nodes[i].data)
  }

  /** `w` is `v` with the chunk written to the nodes in `s`. */
  ghost predicate WrittenOn(v: View, w: View, s: set<int>, hash: Hash, data: Bytes) {
    && |v.nodes| == |w.nodes| && v.replic == w.replic
    && forall i :: 0 <= i < |v.nodes| ==>
         w.nodes[i] == if i in s then v.nodes[i].(data := v.nodes[i].data[hash := data]) else v.nodes[i]
  }

  lemma WrittenNowhere(v: View, ids: seq<int>, hash: Hash, data: Bytes)
    ensures WrittenOn(v, v, {}, hash, data) && Elems(ids[..0]) == {}
  {
  }

  lemma WrittenSize(v: View, w: View, s: set<int>, hash: Hash, data: Bytes)
    requires WrittenOn(v, w, s, hash, data)
    ensures |w.nodes| == |v.nodes| && w.replic == v.replic
  {
  }

  lemma WrittenMore(v: View, u: View, w: View, s: set<int>, i: int, hash: Hash, data: Bytes)
    requires WrittenOn(v, u, s, hash, data) && WrittenOn(u, w, {i}, hash, data)
    ensures WrittenOn(v, w, s + {i}, hash, data)
  {
  }

  lemma WrittenReads(v: View, w: View, s: set<int>, hash: Hash, data: Bytes, i: int)
    requires WrittenOn(v, w, s, hash, data) && 0 <= i < |v.nodes|
    ensures |w.nodes| == |v.nodes| && w.nodes[i].up == v.nodes[i].up
    ensures i !in s ==> w.nodes[i] == v.nodes[i]
  {
  }

  lemma TakeOne(xs: seq<int>, k: nat)
    requires k < |xs|
    ensures Elems(xs[..k + 1]) == Elems(xs[..k]) + {xs[k]} && xs[k] in Elems(xs)
  {
    assert xs[..k + 1] == xs[..k] + [xs[k]];
  }

  lemma ListedNode(e: Env, v: View, h: Hash, ids: seq<int>, k: nat)
    requires Wf(v) && k < |ids| && Lists(IntLess, ids, ClusterModel.Placement(e, v, h))
    ensures 0 <= ids[k] < |v.nodes| && Elems(ids[..k + 1]) == Elems(ids[..k]) + {ids[k]}
  {
    TakeOne(ids, k);
  }

  lemma AllListed(e: Env, v: View, h: Hash, ids: seq<int>)
    requires Wf(v) && Lists(IntLess, ids, ClusterModel.Placement(e, v, h))
    ensures Elems(ids[..|ids|]) == ClusterModel.Placement(e, v, h)
  {
    assert ids[..|ids|] == ids;
  }

  lemma WrittenShape(v: View, w: View, s: set<int>, hash: Hash, data: Bytes)
    requires WrittenOn(v, w, s, hash, data)
    requires s <= Holders(v, hash)
    ensures SameShape(v, w)
    ensures SameKeys(v, w, hash)
  {
  }

  /** Overwriting the corrupt replicas and then filling the targets is what the specification asks. */
  lemma WrittenTwice(e: Env, v: View, u: View, w: View, hash: Hash, src: Bytes)
    requires IntactHolders(e, v, hash) != {} && src == IntactSource(e, v, hash)
    requires WrittenOn(v, u, CorruptNodes(e, v, hash), hash, src)
    requires WrittenOn(u, w, Targets(e, v, hash), hash, src)
    ensures w == RepairOn(e, v, {hash})
  {
    CorruptMember(e, v, hash);
    TargetsMember(e, v, hash);
    RepairedToIsRepairOn(e, v, w, hash);
  }

  /** What the scan reads off node `k`, for every node. */
  lemma ScanFacts(e: Env, v: View, h: Hash)
    ensures forall k :: 0 <= k < |v.nodes| ==>
      && (k in IntactHolders(e, v, h) <==>
            v.nodes[k].up && h in v.nodes[k].data && e.digest(v.nodes[k].data[h]) == h)
      && (k in CorruptNodes(e, v, h) <==>
            v.nodes[k].up && h in v.nodes[k].data && e.digest(v.nodes[k].data[h]) != h)
    ensures forall k :: k in IntactHolders(e, v, h) || k in CorruptNodes(e, v, h) ==> 0 <= k < |v.nodes|
    ensures var intact := IntactHolders(e, v, h); intact != {} ==>
      && 0 <= Min(intact) < |v.nodes| && h in v.nodes[Min(intact)].data
      && IntactSource(e, v, h) == v.nodes[Min(intact)].data[h]
  {
  }

  /** Who holds a chunk, read off node by node. */
  lemma HolderFacts(v: View, h: Hash)
    ensures forall k :: 0 <= k < |v.nodes| ==> (k in Holders(v, h) <==> h in v.nodes[k].data)
    ensures forall k :: 0 <= k < |v.nodes| ==> (k in UpHolders(v, h) <==> v.nodes[k].up && h in v.nodes[k].data)
    ensures forall k :: k in Holders(v, h) || k in UpHolders(v, h) ==> 0 <= k < |v.nodes|
  {
  }

  lemma ServedNowhere(e: Env, v: View, h: Hash)
    requires Wf(v) && forall k :: 0 <= k < |v.nodes| ==> k !in UpHolders(v, h)
    ensures GetView(e, v, h) == None
  {
    assert UpHolders(v, h) == {};
  }

  ghost function HashesBelow(v: View, k: int): set<Hash> {
    set i, h | 0 <= i < k && i < |v.nodes| && h in v.nodes[i].data :: h
  }

  lemma NoHashesYet(v: View)
    ensures HashesBelow(v, 0) == {} && HashesBelow(v, |v.nodes|) == AllHashes(v)
  {
  }

  lemma MoreHashes(v: View, k: nat)
    requires k < |v.nodes|
    ensures HashesBelow(v, k + 1) == HashesBelow(v, k) + v.nodes[k].data.Keys
  {
  }

  /** The chunks with fewer than R copies on up nodes. */
  ghost function UnderReplicated(v: View): set<Hash> {
    set h | h in AllHashes(v) && |UpHolders(v, h)| < v.replic
  }

  lemma UnderReplicatedMember(v: View, all: seq<Hash>, k: nat)
    requires k < |all| && Lists(StrLess, all, AllHashes(v))
    ensures all[k] in UnderReplicated(v) <==> |UpHolders(v, all[k])| < v.replic
  {
    assert all[k] in Elems(all);
  }

  lemma UnderReplicatedHeld(v: View)
    ensures UnderReplicated(v) <= AllHashes(v)
  {
  }

  lemma FilterStart(all: seq<Hash>, v: View, want: set<Hash>)
    requires Lists(StrLess, all, AllHashes(v))
    ensures Filtered(all, 0, [], want) && Elems(all) == AllHashes(v)
  {
  }

  /** What the walk reads off node `k`, for every node. */
  lemma FillFacts(e: Env, v: View, w: View, h: Hash)
    requires SameShape(v, w) && |w.nodes| > 0
    requires SameKeys(v, w, h)
    ensures |v.nodes| == |w.nodes| && v.replic == w.replic
    ensures forall k :: 0 <= k < |v.nodes| ==>
      v.nodes[k].up == w.nodes[k].up && (h in v.nodes[k].data <==> h in w.nodes[k].data)
    ensures EmptyBefore(e, v, h, 0) == {}
    ensures 0 <= Start(e, h, |v.nodes|) < |v.nodes|
  {
    EmptyBeforeZero(e, v, h);
  }

  lemma TargetsMember(e: Env, v: View, h: Hash)
    ensures forall i :: 0 <= i < |v.nodes| ==> (i in Targets(e, v, h) <==> Target(e, v, h, i))
  {
  }

  lemma CorruptHold(e: Env, v: View, h: Hash)
    ensures CorruptNodes(e, v, h) <= Holders(v, h)
    ensures forall i :: i in CorruptNodes(e, v, h) ==> 0 <= i < |v.nodes|
  {
  }

  lemma CorruptMember(e: Env, v: View, h: Hash)
    ensures forall i :: 0 <= i < |v.nodes| ==> (i in CorruptNodes(e, v, h) <==> Corrupt(e, v, h, i))
  {
  }

  /** A chunk with enough replicas, all intact, is left alone. */
  lemma NothingToRepair(e: Env, v: View, h: Hash)
    requires Wf(v) && |IntactHolders(e, v, h)| >= v.replic && |CorruptNodes(e, v, h)| == 0
    ensures RepairOn(e, v, {h}) == v && |Targets(e, v, h)| == 0 && IntactHolders(e, v, h) != {}
  {
    UpHoldersSplit(e, v, h);
    WalkDone(e, v, h, 0);
    EmptyBeforeZero(e, v, h);
    CorruptMember(e, v, h);
    TargetsMember(e, v, h);
    assert CorruptNodes(e, v, h) == {};
    RepairedToIsRepairOn(e, v, v, h);
  }

  lemma NothingRepairable(e: Env, v: View, h: Hash)
    requires IntactHolders(e, v, h) == {}
    ensures RepairOn(e, v, {h}) == v
  {
    RepairedToIsRepairOn(e, v, v, h);
  }

  // ----- Rebalance -----

  /** `w` is `v` with the chunk deleted from the nodes in `s`. */
  ghost predicate ErasedOn(v: View, w: View, s: set<int>, hash: Hash) {
    && |v.nodes| == |w.nodes| && v.replic == w.replic
    && forall i :: 0 <= i < |v.nodes| ==>
         w.nodes[i] == if i in s then v.nodes[i].(data := v.nodes[i].data - {hash}) else v.nodes[i]
  }

  lemma ErasedNowhere(v: View, hash: Hash)
    ensures ErasedOn(v, v, {}, hash)
  {
  }

  lemma ErasedMore(v: View, u: View, w: View, s: set<int>, i: int, hash: Hash)
    requires ErasedOn(v, u, s, hash) && ErasedOn(u, w, {i}, hash)
    ensures ErasedOn(v, w, s + {i}, hash)
  {
  }

  lemma ErasedReads(v: View, w: View, s: set<int>, hash: Hash, i: int)
    requires ErasedOn(v, w, s, hash) && 0 <= i < |v.nodes|
    ensures |w.nodes| == |v.nodes| && w.nodes[i].up == v.nodes[i].up
    ensures i !in s ==> w.nodes[i] == v.nodes[i]
  {
  }

  /** Who gains and who loses the chunk, read off node by node. */
  lemma MoveFacts(e: Env, v: View, h: Hash)
    requires |v.nodes| > 0
    ensures forall k :: 0 <= k < |v.nodes| && UpHolders(v, h) != {} ==>
      && (k in Gains(e, v, h) <==> k in ClusterModel.Placement(e, v, h) && v.nodes[k].up && h !in v.nodes[k].data)
      && (k in Losses(e, v, h) <==> k !in ClusterModel.Placement(e, v, h) && v.nodes[k].up && h in v.nodes[k].data)
    ensures forall k :: k in Gains(e, v, h) || k in Losses(e, v, h) ==> 0 <= k < |v.nodes|
    ensures Gains(e, v, h) <= ClusterModel.Placement(e, v, h)
    ensures Gains(e, v, h) !! Losses(e, v, h)
  {
  }

  lemma ListedAscending(e: Env, v: View, h: Hash, ids: seq<int>)
    requires Wf(v) && Lists(IntLess, ids, ClusterModel.Placement(e, v, h))
    ensures Ascending(IntLess, ids)
  {
  }

  lemma ListedMembers(e: Env, v: View, h: Hash, ids: seq<int>)
    requires Wf(v) && Lists(IntLess, ids, ClusterModel.Placement(e, v, h))
    ensures forall i :: i in ids <==> i in ClusterModel.Placement(e, v, h)
  {
    assert forall i :: i in ids <==> i in Elems(ids);
  }

  lemma SamePlacement(e: Env, v: View, u: View, h: Hash)
    requires |v.nodes| == |u.nodes| > 0 && v.replic == u.replic
    ensures ClusterModel.Placement(e, v, h) == ClusterModel.Placement(e, u, h)
  {
  }

  lemma WfFacts(v: View)
    requires Wf(v)
    ensures |v.nodes| > 0
  {
  }

  lemma NotYetBelow(s: set<int>, k: int)
    ensures k !in HoldersBelow(s, k)
  {
  }

  lemma HasSource(v: View, h: Hash, src: Option<Bytes>)
    requires FirstUpHolder(v, h, src)
    ensures src.None? <==> UpHolders(v, h) == {}
  {
  }

  lemma StillHeld(v: View, u: View, id: int, h: Hash)
    requires 0 <= id < |v.nodes| && |u.nodes| == |v.nodes| && h in v.nodes[id].data
    requires Cell(u, id, h) == Cell(v, id, h)
    ensures h in u.nodes[id].data
  {
  }

  lemma DrainedIs(v: View, id: int)
    requires 0 <= id < |v.nodes|
    ensures Drained(v, id) == DrainOn(v, id, v.nodes[id].data.Keys)
  {
  }

  ghost predicate FirstUpHolder(v: View, h: Hash, src: Option<Bytes>) {
    src == if UpHolders(v, h) == {} then None else Some(v.nodes[Min(UpHolders(v, h))].data[h])
  }

  lemma FirstUpHolderAt(v: View, h: Hash, k: nat)
    requires k in UpHolders(v, h) && forall j :: 0 <= j < k ==> j !in UpHolders(v, h)
    ensures FirstUpHolder(v, h, Some(v.nodes[k].data[h]))
  {
    assert Min(UpHolders(v, h)) >= k;
  }

  lemma NoUpHolderAt(v: View, h: Hash)
    requires forall j :: 0 <= j < |v.nodes| ==> j !in UpHolders(v, h)
    ensures FirstUpHolder(v, h, None) && UpHolders(v, h) == {}
  {
    assert UpHolders(v, h) == {};
  }

  /** The listed ids met so far that gain the chunk. */
  lemma GainStep(ids: seq<int>, k: nat, gains: set<int>)
    requires k < |ids| && Ascending(IntLess, ids)
    ensures ids[k] in gains ==> Elems(ids[..k + 1]) * gains == Elems(ids[..k]) * gains + {ids[k]}
    ensures ids[k] !in gains ==> Elems(ids[..k + 1]) * gains == Elems(ids[..k]) * gains
    ensures ids[k] !in Elems(ids[..k])
  {
    TakeOne(ids, k);
    forall j | 0 <= j < k ensures ids[j] != ids[k] { assert IntLess(ids[j], ids[k]); }
  }

  lemma GainStart(ids: seq<int>, gains: set<int>)
    ensures Elems(ids[..0]) * gains == {}
  {
  }

  lemma GainDone(e: Env, v: View, h: Hash, ids: seq<int>)
    requires Wf(v) && Lists(IntLess, ids, ClusterModel.Placement(e, v, h))
    ensures Elems(ids[..|ids|]) * Gains(e, v, h) == Gains(e, v, h)
  {
    AllListed(e, v, h, ids);
    MoveFacts(e, v, h);
  }

  /** Adding the gains and then deleting the losses is what the specification asks. */
  lemma MovedIsRebalance(e: Env, v: View, u: View, w: View, h: Hash, src: Option<Bytes>)
    requires Wf(v) && FirstUpHolder(v, h, src) && src.Some?
    requires WrittenOn(v, u, Gains(e, v, h), h, src.value)
    requires ErasedOn(u, w, Losses(e, v, h), h)
    ensures w == RebalanceOn(e, v, {h})
  {
    MoveFacts(e, v, h);
    RewriteCells(v, {h}, (i, g) => RebalanceCell(e, v, i, g));
    forall i, g | 0 <= i < |v.nodes| ensures Cell(w, i, g) == Cell(RebalanceOn(e, v, {h}), i, g) {
      MovedCell(e, v, u, w, h, src, i, g);
    }
    ViewExtensional(w, RebalanceOn(e, v, {h}));
  }

  lemma MovedCell(e: Env, v: View, u: View, w: View, h: Hash, src: Option<Bytes>, i: int, g: Hash)
    requires Wf(v) && FirstUpHolder(v, h, src) && src.Some? && 0 <= i < |v.nodes|
    requires WrittenOn(v, u, Gains(e, v, h), h, src.value)
    requires ErasedOn(u, w, Losses(e, v, h), h)
    ensures Cell(w, i, g) == if g == h then RebalanceCell(e, v, i, h) else Cell(v, i, g)
  {
    MoveFacts(e, v, h);
  }

  lemma SkippedStays(e: Env, v: View, h: Hash)
    requires UpHolders(v, h) == {}
    ensures RebalanceOn(e, v, {h}) == v && |Gains(e, v, h)| == 0 && |Losses(e, v, h)| == 0
    ensures Gains(e, v, h) + Losses(e, v, h) == {}
  {
    RewriteCells(v, {h}, (i, g) => RebalanceCell(e, v, i, g));
    ViewExtensional(RebalanceOn(e, v, {h}), v);
  }

  ghost function SkippedHashes(v: View): set<Hash> {
    set h | h in AllHashes(v) && UpHolders(v, h) == {}
  }

  /** After the first `k` chunks of `all` the cluster is `w` and the statistics are `st`. */
  ghost predicate RebalanceProgress(e: Env, v: View, w: View, all: seq<Hash>, k: nat, st: RebalanceStats) {
    && k <= |all| && Lists(StrLess, all, AllHashes(v))
    && w == RebalanceOn(e, v, Elems(all[..k]))
    && st.chunksMoved == |MovedOn(e, v, Elems(all[..k]))|
    && st.copiesAdded == |GainsOn(e, v, Elems(all[..k]))|
    && st.copiesRemoved == |LossesOn(e, v, Elems(all[..k]))|
    && Filtered(all, k, st.skipped, SkippedHashes(v))
  }

  lemma RebalanceProgressStart(e: Env, v: View, all: seq<Hash>, st: RebalanceStats)
    requires Lists(StrLess, all, AllHashes(v)) && st == RebalanceStats(0, 0, 0, [])
    ensures RebalanceProgress(e, v, v, all, 0, st)
  {
    assert Elems(all[..0]) == {};
    RewriteCells(v, {}, (i, h) => RebalanceCell(e, v, i, h));
    ViewExtensional(RebalanceOn(e, v, {}), v);
    assert MovedOn(e, v, {}) == {} && GainsOn(e, v, {}) == {} && LossesOn(e, v, {}) == {};
  }

  lemma SameMoves(e: Env, u: View, v: View, h: Hash)
    requires SameShape(u, v) && UpHolders(u, h) == UpHolders(v, h) && Holders(u, h) == Holders(v, h)
    ensures Gains(e, u, h) == Gains(e, v, h) && Losses(e, u, h) == Losses(e, v, h)
  {
    assert UpNodes(u) == UpNodes(v);
  }

  lemma RebalanceProgressStep(e: Env, v: View, u: View, all: seq<Hash>, k: nat, st: RebalanceStats,
                              more: RebalanceStats)
    requires k < |all| && RebalanceProgress(e, v, u, all, k, st)
    requires more.copiesAdded == st.copiesAdded + |Gains(e, u, all[k])|
    requires more.copiesRemoved == st.copiesRemoved + |Losses(e, u, all[k])|
    requires more.chunksMoved == st.chunksMoved + if Gains(e, u, all[k]) + Losses(e, u, all[k]) != {} then 1 else 0
    requires more.skipped == st.skipped + if UpHolders(u, all[k]) == {} then [all[k]] else []
    ensures RebalanceProgress(e, v, RebalanceOn(e, u, {all[k]}), all, k + 1, more)
  {
    var hash, d := all[k], Elems(all[..k]);
    NextElem(all, k);
    assert hash in Elems(all);
    RebalanceColumnProgress(e, v, u, d, hash, st, more);
    FilterTake(all, k, st.skipped, SkippedHashes(v));
    assert st.skipped + [] == st.skipped;
  }

  lemma RebalanceColumnProgress(e: Env, v: View, u: View, d: set<Hash>, h: Hash, st: RebalanceStats,
                                more: RebalanceStats)
    requires h !in d && u == RebalanceOn(e, v, d)
    requires st.chunksMoved == |MovedOn(e, v, d)| && st.copiesAdded == |GainsOn(e, v, d)|
    requires st.copiesRemoved == |LossesOn(e, v, d)|
    requires more.copiesAdded == st.copiesAdded + |Gains(e, u, h)|
    requires more.copiesRemoved == st.copiesRemoved + |Losses(e, u, h)|
    requires more.chunksMoved == st.chunksMoved + if Gains(e, u, h) + Losses(e, u, h) != {} then 1 else 0
    ensures RebalanceOn(e, u, {h}) == RebalanceOn(e, v, d + {h}) && UpHolders(u, h) == UpHolders(v, h)
    ensures more.chunksMoved == |MovedOn(e, v, d + {h})| && more.copiesAdded == |GainsOn(e, v, d + {h})|
    ensures more.copiesRemoved == |LossesOn(e, v, d + {h})|
  {
    hide *;
    RebalanceOneMore(e, v, d, h);
    SameMoves(e, u, v, h);
    MovesOneMore(e, v, d, h);
  }

  /** The statistics describe how the clusters before and after differ. */
  ghost predicate Describes(st: RebalanceStats, v: View, w: View) {
    && st.chunksMoved == |HolderChanges(v, w)|
    && st.copiesAdded == |Replicas(w) - Replicas(v)|
    && st.copiesRemoved == |Replicas(v) - Replicas(w)|
    && Lists(StrLess, st.skipped, SkippedHashes(v))
  }

  lemma RebalanceProgressEnd(e: Env, v: View, w: View, all: seq<Hash>, st: RebalanceStats)
    requires RebalanceProgress(e, v, w, all, |all|, st)
    ensures w == RebalanceView(e, v) && Describes(st, v, w)
  {
    assert all[..|all|] == all;
    FilterDone(all, st.skipped, SkippedHashes(v));
    MovesAreDifferences(e, v);
  }

  // ----- Drain -----

  /** The chunks that only the victim holds and another node can take over. */
  ghost function Orphans(v: View, id: int, d: set<Hash>): set<Hash> {
    set h | h in d && Holders(v, h) == {id} && UpNodes(v) - {id} != {}
  }

  lemma OtherHolder(v: View, id: int, h: Hash, k: int)
    requires id in Holders(v, h) && k in Holders(v, h) && k != id
    ensures DrainOn(v, id, {h}) == v && Orphans(v, id, {h}) == {}
  {
    NotAdopted(v, id, h);
  }

  lemma NotAdopted(v: View, id: int, h: Hash)
    requires Orphans(v, id, {h}) == {}
    ensures DrainOn(v, id, {h}) == v
  {
    assert h !in Orphans(v, id, {h});
    RewriteCells(v, {h}, (i, g) => DrainCell(v, id, i, g));
    ViewExtensional(DrainOn(v, id, {h}), v);
  }

  lemma OnlyHolder(v: View, id: int, h: Hash)
    requires id in Holders(v, h) && forall k :: 0 <= k < |v.nodes| && k != id ==> k !in Holders(v, h)
    ensures Holders(v, h) == {id}
  {
  }

  lemma NobodyAdopts(v: View, id: int, h: Hash)
    requires forall k :: 0 <= k < |v.nodes| && k != id ==> !v.nodes[k].up
    ensures DrainOn(v, id, {h}) == v && Orphans(v, id, {h}) == {}
  {
    assert UpNodes(v) - {id} == {};
    NotAdopted(v, id, h);
  }

  lemma AdoptedBy(v: View, w: View, id: int, h: Hash, k: nat)
    requires Holders(v, h) == {id} && k < |v.nodes| && k != id && v.nodes[k].up
    requires forall j :: 0 <= j < k && j != id ==> !v.nodes[j].up
    requires 0 <= id < |v.nodes| && h in v.nodes[id].data
    requires WrittenOn(v, w, {k}, h, v.nodes[id].data[h])
    ensures w == DrainOn(v, id, {h}) && Orphans(v, id, {h}) == {h}
  {
    AdopterIs(v, id, k);
    RewriteCells(v, {h}, (i, g) => DrainCell(v, id, i, g));
    forall i, g | 0 <= i < |v.nodes| ensures Cell(w, i, g) == Cell(DrainOn(v, id, {h}), i, g) {
      AdoptedCell(v, w, id, h, k, i, g);
    }
    ViewExtensional(w, DrainOn(v, id, {h}));
  }

  lemma AdopterIs(v: View, id: int, k: nat)
    requires k < |v.nodes| && k != id && v.nodes[k].up
    requires forall j :: 0 <= j < k && j != id ==> !v.nodes[j].up
    ensures UpNodes(v) - {id} != {} && Min(UpNodes(v) - {id}) == k
  {
    assert k in UpNodes(v) - {id};
    assert Min(UpNodes(v) - {id}) >= k;
  }

  lemma AdoptedCell(v: View, w: View, id: int, h: Hash, k: nat, i: int, g: Hash)
    requires Holders(v, h) == {id} && k < |v.nodes| && 0 <= i < |v.nodes|
    requires UpNodes(v) - {id} != {} && Min(UpNodes(v) - {id}) == k
    requires 0 <= id < |v.nodes| && h in v.nodes[id].data
    requires WrittenOn(v, w, {k}, h, v.nodes[id].data[h])
    ensures Cell(w, i, g) == if g == h then DrainCell(v, id, i, h) else Cell(v, i, g)
  {
  }

  lemma OrphansOneMore(v: View, id: int, d: set<Hash>, h: Hash)
    requires h !in d && 0 <= id < |v.nodes|
    ensures var u := DrainOn(v, id, d);
            |Orphans(v, id, d + {h})| == |Orphans(v, id, d)| + |Orphans(u, id, {h})|
  {
    var u := DrainOn(v, id, d);
    DrainOneMore(v, id, d, h);
    assert UpNodes(u) == UpNodes(v);
    assert Orphans(v, id, d + {h}) == Orphans(v, id, d) + Orphans(u, id, {h});
  }

  lemma DrainedNothing(v: View, id: int)
    ensures DrainOn(v, id, {}) == v && Orphans(v, id, {}) == {}
  {
    RewriteCells(v, {}, (i, h) => DrainCell(v, id, i, h));
    ViewExtensional(DrainOn(v, id, {}), v);
  }

  /** Draining adds exactly one replica for each orphan. */
  lemma DrainTotal(v: View, id: int)
    requires 0 <= id < |v.nodes|
    ensures Total(Drained(v, id).nodes) == Total(v.nodes) + |Orphans(v, id, v.nodes[id].data.Keys)|
  {
    var d := Drained(v, id);
    ReplicaDelta(v, d);
    var orphans := Orphans(v, id, v.nodes[id].data.Keys);
    DrainedCell(v, id, id, "");
    forall p: (int, Hash) | p in Replicas(v) ensures p in Replicas(d) {
      DrainedCell(v, id, p.0, p.1);
      assert Cell(d, p.0, p.1).Some?;
      assert p == (p.0, p.1);
    }
    assert Replicas(v) - Replicas(d) == {};
    DrainAdds(v, id);
  }

  lemma DrainAdds(v: View, id: int)
    requires 0 <= id < |v.nodes|
    ensures |Replicas(Drained(v, id)) - Replicas(v)| == |Orphans(v, id, v.nodes[id].data.Keys)|
  {
    var orphans := Orphans(v, id, v.nodes[id].data.Keys);
    var more := Replicas(Drained(v, id)) - Replicas(v);
    if orphans == {} {
      forall p: (int, Hash) ensures p !in more {
        assert p == (p.0, p.1);
        if p in more { DrainedPair(v, id, p.0, p.1); }
      }
      assert more == {};
    } else {
      var m := Min(UpNodes(v) - {id});
      FlipTagCard(orphans, m);
      var tagged := set h | h in orphans :: (m, h);
      forall p: (int, Hash) ensures p in more <==> p in tagged {
        DrainedPairIff(v, id, m, p.0, p.1);
        assert p == (p.0, p.1);
      }
      assert more == tagged;
    }
  }

  lemma DrainedPair(v: View, id: int, i: int, h: Hash)
    requires 0 <= id < |v.nodes| && (i, h) in Replicas(Drained(v, id))
    ensures (i, h) in Replicas(v) || (h in Orphans(v, id, v.nodes[id].data.Keys) && i == Min(UpNodes(v) - {id}))
  {
    DrainedCell(v, id, id, "");
    DrainedCell(v, id, i, h);
    assert Cell(Drained(v, id), i, h).Some?;
    if Adopts(v, id, i, h) { assert id in Holders(v, h); }
  }

  lemma DrainedPairIff(v: View, id: int, m: int, i: int, h: Hash)
    requires 0 <= id < |v.nodes| && UpNodes(v) - {id} != {} && m == Min(UpNodes(v) - {id})
    ensures (i, h) in Replicas(Drained(v, id)) - Replicas(v) <==> h in Orphans(v, id, v.nodes[id].data.Keys) && i == m
  {
    if (i, h) in Replicas(Drained(v, id)) - Replicas(v) {
      DrainedPair(v, id, i, h);
    }
    if h in Orphans(v, id, v.nodes[id].data.Keys) && i == m {
      DrainedCell(v, id, m, h);
      assert Cell(Drained(v, id), m, h).Some?;
      assert m !in Holders(v, h);
    }
  }

  /** Replicas after = before - the victim's + those added - those removed. */
  lemma RemoveTotal(e: Env, v: View, id: int)
    requires Removable(v, id)
    ensures var s := Shrink(Drained(v, id), id);
            var w := RemoveNodeView(e, v, id);
            Total(w.nodes) == Total(v.nodes) - |v.nodes[id].data| + |Orphans(v, id, v.nodes[id].data.Keys)|
                              + |Replicas(w) - Replicas(s)| - |Replicas(s) - Replicas(w)|
  {
    var d := Drained(v, id);
    DrainTotal(v, id);
    DrainedCell(v, id, id, "");
    ShrinkTotal(d, id);
    VictimKeeps(v, id);
    ReplicaDelta(Shrink(d, id), RemoveNodeView(e, v, id));
  }

  lemma VictimKeeps(v: View, id: int)
    requires 0 <= id < |v.nodes|
    ensures Drained(v, id).nodes[id] == v.nodes[id]
  {
    DrainedCell(v, id, id, "");
    forall h ensures Cell(Drained(v, id), id, h) == Cell(v, id, h) { DrainedCell(v, id, id, h); }
    NodeExtensional(Drained(v, id), v, id);
  }

  lemma RemovableIs(v: View, id: int)
    ensures Removable(v, id) <==> 0 <= id < |v.nodes| && v.replic <= |v.nodes| - 1
  {
  }

  lemma RemoveIs(e: Env, v: View, id: int)
    requires Removable(v, id)
    ensures 0 <= id < |v.nodes| && RemoveNodeView(e, v, id) == RebalanceView(e, Shrink(Drained(v, id), id))
  {
  }

  lemma StatsAre(st: RebalanceStats, v: View, w: View)
    requires Describes(st, v, w)
    ensures st.copiesAdded == |Replicas(w) - Replicas(v)| && st.copiesRemoved == |Replicas(v) - Replicas(w)|
  {
  }

  /** The counters of a removal, none of which depends on the order the victim's map was walked in. */
  ghost predicate DescribesRemoval(st: RebalanceStats, v: View, id: int, w: View)
    requires 0 <= id < |v.nodes|
  {
    var s := Shrink(Drained(v, id), id);
    var copied := |Orphans(v, id, v.nodes[id].data.Keys)|;
    st.copiesAdded >= copied && Describes(st.(copiesAdded := st.copiesAdded - copied), s, w)
  }

  lemma RemovalIs(st: RebalanceStats, copied: nat, v: View, id: int, w: View)
    requires 0 <= id < |v.nodes| == |Drained(v, id).nodes| && Describes(st, Shrink(Drained(v, id), id), w)
    requires copied == |Orphans(v, id, v.nodes[id].data.Keys)|
    ensures DescribesRemoval(st.(copiesAdded := copied + st.copiesAdded), v, id, w)
  {
    hide Describes;
    assert st.(copiesAdded := copied + st.copiesAdded).(copiesAdded := copied + st.copiesAdded - copied) == st;
  }
}
