/** The cluster as the program keeps it: node objects whose maps and flags change in place. */
module Cluster {
  import opened Common
  import opened Ordering
  import opened ClusterModel
  import opened RepairLemmas
  import opened RebalanceLemmas
  import opened ClusterLaws
  import opened ClusterLoops
  import opened DeepVerify

  class Node {
    var ID: int
    var up: bool
    var data: map<Hash, Bytes>

    constructor (id: int)
      ensures ID == id && up && data == map[]
    {
      ID := id;
      up := true;
      data := map[];
    }
  }

  class Cluster {
    var nodes: seq<Node>
    var replic: nat
    var extra: map<Hash, seq<int>>
    const env: Env

    ghost predicate Valid()
      reads this, nodes
    {
      && 1 <= replic <= |nodes|
      && (forall i, j :: 0 <= i < j < |nodes| ==> nodes[i] != nodes[j])
      && (forall i :: 0 <= i < |nodes| ==> nodes[i].ID == i)
    }

    ghost function V(): (v: View)
      reads this, nodes
      ensures |v.nodes| == |nodes| && v.replic == replic
    {
      View(seq(|nodes|, i requires 0 <= i < |nodes| reads this, nodes => NodeView(nodes[i].up, nodes[i].data)), replic)
    }

    lemma WfView()
      requires Valid()
      ensures Wf(V()) && |V().nodes| == |nodes| > 0 && V().replic == replic
    {
    }

    lemma IdIs(i: int)
      requires Valid() && 0 <= i < |nodes|
      ensures nodes[i].ID == i
    {
    }

    lemma NodeSeen(i: int)
      requires 0 <= i < |nodes|
      ensures V().nodes[i] == NodeView(nodes[i].up, nodes[i].data)
    {
    }

    /** Builds a cluster of `n` up, empty nodes; the factory below rejects bad sizes. */
    constructor (env: Env, n: nat, r: nat)
      requires 1 <= r <= n
      ensures Valid() && fresh(nodes) && V() == NewView(n, r) && extra == map[] && this.env == env
      ensures |nodes| == n && replic == r && forall i :: 0 <= i < n ==> nodes[i].up && nodes[i].data == map[]
    {
      this.env := env;
      replic := r;
      extra := map[];
      nodes := [];
      new;
      for i := 0 to n
        invariant |nodes| == i && replic == r && extra == map[] && this.env == env
        invariant fresh(this) && fresh(nodes)
        invariant forall j, k :: 0 <= j < k < i ==> nodes[j] != nodes[k]
        invariant forall j :: 0 <= j < i ==> nodes[j].ID == j && nodes[j].up && nodes[j].data == map[]
        invariant this !in set o: object | o in nodes
      {
        var node := new Node(i);
        nodes := nodes + [node];
      }
    }

    /** The sorted ids of the nodes that should hold the chunk. */
    method Placement(hash: Hash) returns (ids: seq<int>)
      requires Valid()
      ensures Lists(IntLess, ids, ClusterModel.Placement(env, V(), hash))
      ensures |ids| == replic
      ensures Elems(ids) == set k | 0 <= k < replic :: At(env, hash, |nodes|, k)
    {
      var n := |nodes|;
      var start := Start(env, hash, n);
      ids := [];
      for i := 0 to replic
        invariant |ids| == i
        invariant forall k :: 0 <= k < i ==> ids[k] == RingStep(start, n, k)
      {
        ids := ids + [RingStep(start, n, i)];
      }
      PlacementIds(env, V(), hash, ids);
      ids := Sort(IntLess, ids);
      MetAreListed(env, V(), hash, ids);
    }

    /** Stores one replica. */
    method WriteReplica(i: int, hash: Hash, data: Bytes)
      requires Valid() && 0 <= i < |nodes|
      modifies nodes`data
      ensures Valid() && WrittenOn(old(V()), V(), {i}, hash, data)
    {
      var node := nodes[i];
      node.data := node.data[hash := data];
    }

    /** Writes the chunk to every placement node, up or down. */
    method Put(hash: Hash, data: Bytes)
      requires Valid()
      modifies nodes`data
      ensures Valid() && V() == PutView(env, old(V()), hash, data)
    {
      hide *;
      WfView();
      ghost var v := V();
      var ids := Placement(hash);
      WrittenNowhere(v, ids, hash, data);
      for k := 0 to |ids|
        invariant Valid() && WrittenOn(v, V(), Elems(ids[..k]), hash, data)
      {
        ListedNode(env, v, hash, ids, k);
        WrittenSize(v, V(), Elems(ids[..k]), hash, data);
        ghost var u := V();
        WriteReplica(ids[k], hash, data);
        WrittenMore(v, u, V(), Elems(ids[..k]), ids[k], hash, data);
      }
      AllListed(env, v, hash, ids);
      WrittenIsPut(env, v, V(), hash, data);
    }

    /** First available replica, placement nodes first. */
    method Get(hash: Hash) returns (r: Option<(Bytes, int)>)
      requires Valid()
      ensures r == GetView(env, V(), hash)
    {
      hide *;
      WfView();
      ghost var v := V();
      var ids := Placement(hash);
      HolderFacts(v, hash);
      for k := 0 to |ids|
        invariant forall j :: 0 <= j < k ==> ids[j] !in UpHolders(v, hash)
      {
        ListedNode(env, v, hash, ids, k);
        NodeSeen(ids[k]);
        var node := nodes[ids[k]];
        if node.up && hash in node.data {
          ServedFromPlacement(env, v, hash, ids, k);
          return Some((node.data[hash], ids[k]));
        }
      }
      for k := 0 to |nodes|
        invariant forall j :: 0 <= j < k ==> j !in UpHolders(v, hash)
      {
        NodeSeen(k);
        IdIs(k);
        var node := nodes[k];
        if node.up && hash in node.data {
          ServedFromAnywhere(env, v, hash, ids, k);
          return Some((node.data[hash], node.ID));
        }
      }
      ServedNowhere(env, v, hash);
      return None;
    }

    method SetUp(id: int, up: bool) returns (ok: bool)
      requires Valid()
      modifies nodes`up
      ensures Valid() && ok == (0 <= id < |nodes|) && V() == SetUpView(old(V()), id, up)
      ensures forall i :: 0 <= i < |nodes| ==> nodes[i].up == if i == id then up else old(nodes[i].up)
    {
      if id < 0 || id >= |nodes| {
        return false;
      }
      ghost var v0 := V();
      nodes[id].up := up;
      assert V().nodes == SetUpView(v0, id, up).nodes;
      return true;
    }

    method RecoverAll()
      requires Valid()
      modifies nodes`up
      ensures Valid() && V() == RecoverAllView(old(V()))
    {
      ghost var v0 := V();
      for k := 0 to |nodes|
        invariant Valid()
        invariant forall i :: 0 <= i < |nodes| ==>
          V().nodes[i] == if i < k then v0.nodes[i].(up := true) else v0.nodes[i]
      {
        nodes[k].up := true;
      }
      assert V().nodes == RecoverAllView(v0).nodes;
    }

    /** The sorted ids of the nodes holding the chunk, up or down. */
    method HolderIds(hash: Hash) returns (ids: seq<int>)
      requires Valid()
      ensures Lists(IntLess, ids, Holders(V(), hash))
    {
      hide *;
      WfView();
      ghost var held := Holders(V(), hash);
      ids := [];
      HolderFacts(V(), hash);
      BelowZero(held);
      for k := 0 to |nodes|
        invariant ListedBelow(ids, held, k)
      {
        NodeSeen(k);
        IdIs(k);
        ListedStep(ids, held, k);
        if hash in nodes[k].data {
          ids := ids + [nodes[k].ID];
        }
      }
      ListedAll(ids, held, |nodes|);
      IntLessStrictTotal();
      SortListing(IntLess, ids);
      ids := Sort(IntLess, ids);
    }

    /** The sorted union of the chunk hashes held anywhere. */
    method AllChunks() returns (out: seq<Hash>)
      requires Valid()
      ensures Lists(StrLess, out, AllHashes(V()))
    {
      hide *;
      WfView();
      ghost var v := V();
      var seen: set<Hash> := {};
      NoHashesYet(v);
      for k := 0 to |nodes|
        invariant seen == HashesBelow(v, k)
      {
        NodeSeen(k);
        MoreHashes(v, k);
        seen := seen + nodes[k].data.Keys;
      }
      out := SortedSet(seen);
    }

    method LiveReplicas(hash: Hash) returns (live: nat)
      requires Valid()
      ensures live == |UpHolders(V(), hash)|
    {
      hide *;
      WfView();
      ghost var held := UpHolders(V(), hash);
      live := 0;
      HolderFacts(V(), hash);
      BelowZero(held);
      for k := 0 to |nodes|
        invariant live == |HoldersBelow(held, k)|
      {
        NodeSeen(k);
        BelowStep(held, k);
        if nodes[k].up && hash in nodes[k].data {
          live := live + 1;
        }
      }
      BelowAll(held, |nodes|);
    }

    method UnderReplicatedChunks() returns (out: seq<Hash>)
      requires Valid()
      ensures Lists(StrLess, out, UnderReplicated(V()))
    {
      hide *;
      WfView();
      ghost var want := UnderReplicated(V());
      var all := AllChunks();
      out := [];
      FilterStart(all, V(), want);
      for k := 0 to |all|
        invariant Filtered(all, k, out, want)
      {
        var live := LiveReplicas(all[k]);
        UnderReplicatedMember(V(), all, k);
        FilterTake(all, k, out, want);
        if live < replic {
          out := out + [all[k]];
        }
      }
      UnderReplicatedHeld(V());
      FilterDone(all, out, want);
    }

    /** Re-hashes the replicas of one up node, its map walked in no particular order. */
    method VerifyNode(i: nat) returns (checked: nat, bad: seq<Hash>)
      requires Valid() && i < |nodes|
      ensures |V().nodes| == |nodes| && checked == |V().nodes[i].data.Keys|
      ensures Lists(StrLess, bad, BadOn(env, V(), i))
    {
      hide *;
      WfView();
      NodeSeen(i);
      ghost var done: set<Hash> := {};
      var rest := nodes[i].data.Keys;
      checked, bad := 0, [];
      BadStart(env, V(), i);
      while rest != {}
        invariant done !! rest && done + rest == V().nodes[i].data.Keys && checked == |done|
        invariant BadSoFar(env, V(), i, done, bad)
        decreases |rest|
      {
        var h :| h in rest;
        BadStep(env, V(), i, done, bad, h);
        checked := checked + 1;
        if env.digest(nodes[i].data[h]) != h {
          bad := bad + [h];
        }
        done, rest := done + {h}, rest - {h};
      }
      assert done == V().nodes[i].data.Keys;
      BadDone(env, V(), i, bad);
      bad := Sort(StrLess, bad);
    }

    /** Re-hashes every replica on every up node; down nodes are reported but not checked. */
    method VerifyDeep() returns (out: seq<NodeVerify>)
      requires Valid()
      ensures |out| == |V().nodes| && forall i :: 0 <= i < |out| ==> Reports(env, V(), i, out[i])
    {
      hide *;
      WfView();
      out := [];
      for i := 0 to |nodes|
        invariant |out| == i && forall j :: 0 <= j < i ==> Reports(env, V(), j, out[j])
      {
        IdIs(i);
        NodeSeen(i);
        var nv := NodeVerify(nodes[i].ID, nodes[i].up, 0, []);
        if nodes[i].up {
          var checked, bad := VerifyNode(i);
          nv := nv.(checked := checked, bad := bad);
        }
        ReportIs(env, V(), i, nv);
        out := out + [nv];
      }
    }

    /** Re-hashes the up replicas of a chunk: how many are intact, the first intact bytes, the corrupt nodes. */
    method ScanReplicas(hash: Hash) returns (live: nat, src: Option<Bytes>, corrupt: seq<int>)
      requires Valid()
      ensures live == |IntactHolders(env, V(), hash)|
      ensures src == if IntactHolders(env, V(), hash) == {} then None else Some(IntactSource(env, V(), hash))
      ensures Distinct(corrupt) && Elems(corrupt) == CorruptNodes(env, V(), hash)
      ensures |corrupt| == |CorruptNodes(env, V(), hash)|
    {
      hide *;
      ghost var intact, bad := IntactHolders(env, V(), hash), CorruptNodes(env, V(), hash);
      src, corrupt, live := None, [], 0;
      ScanFacts(env, V(), hash);
      BelowZero(intact);
      BelowZero(bad);
      for k := 0 to |nodes|
        invariant live == |HoldersBelow(intact, k)|
        invariant src.None? ==> HoldersBelow(intact, k) == {}
        invariant src.Some? ==> intact != {} && 0 <= Min(intact) < |nodes| && src.value == IntactSource(env, V(), hash)
        invariant ListedBelow(corrupt, bad, k)
      {
        BelowStep(intact, k);
        ListedStep(corrupt, bad, k);
        var node := nodes[k];
        NodeSeen(k);
        if node.up && hash in node.data {
          var buf := node.data[hash];
          if env.digest(buf) == hash {
            live := live + 1;
            if src.None? {
              FirstMember(intact, k);
              src := Some(buf);
            }
          } else {
            corrupt := corrupt + [k];
          }
        }
      }
      BelowAll(intact, |nodes|);
      ListedAll(corrupt, bad, |nodes|);
    }

    /** Overwrites the corrupt replicas with the source bytes. */
    method OverwriteCorrupt(hash: Hash, src: Bytes, corrupt: seq<int>) returns (fixed: nat)
      requires Valid() && forall i :: i in Elems(corrupt) ==> 0 <= i < |nodes|
      modifies nodes`data
      ensures Valid() && fixed == |corrupt|
      ensures WrittenOn(old(V()), V(), Elems(corrupt), hash, src)
    {
      hide *;
      ghost var v := V();
      fixed := 0;
      WrittenNowhere(v, corrupt, hash, src);
      for j := 0 to |corrupt|
        invariant Valid() && fixed == j && WrittenOn(v, V(), Elems(corrupt[..j]), hash, src)
      {
        TakeOne(corrupt, j);
        WrittenSize(v, V(), Elems(corrupt[..j]), hash, src);
        ghost var u := V();
        WriteReplica(corrupt[j], hash, src);
        WrittenMore(v, u, V(), Elems(corrupt[..j]), corrupt[j], hash, src);
        fixed := fixed + 1;
      }
      assert corrupt[..|corrupt|] == corrupt;
    }

    /**
     * The ring walk: copies the chunk to empty up nodes until R replicas are live. `v` is the cluster
     * before the chunk's corrupt replicas were overwritten.
     */
    method FillTargets(hash: Hash, src: Bytes, liveBefore: nat, ghost v: View) returns (copied: nat)
      requires Valid() && SameShape(v, V()) && liveBefore == |UpHolders(v, hash)|
      requires SameKeys(v, V(), hash)
      modifies nodes`data
      ensures Valid() && copied == |Targets(env, v, hash)|
      ensures WrittenOn(old(V()), V(), Targets(env, v, hash), hash, src)
    {
      hide *;
      WfView();
      ghost var v1 := V();
      var n := |nodes|;
      var start := Start(env, hash, n);
      var i, live := 0, liveBefore;
      copied := 0;
      FillFacts(env, v, v1, hash);
      WrittenNowhere(v1, [], hash, src);
      while i < n && live < replic
        invariant 0 <= i <= n && Valid()
        invariant copied == |EmptyBefore(env, v, hash, i)| && live == liveBefore + copied
        invariant i == 0 || live <= replic
        invariant WrittenOn(v1, V(), EmptyBefore(env, v, hash, i), hash, src)
      {
        EmptyBeforeStep(env, v, hash, i);
        ghost var s, u := EmptyBefore(env, v, hash, i), V();
        var at := RingStep(start, n, i);
        WrittenReads(v1, u, s, hash, src, at);
        var node := nodes[at];
        NodeSeen(at);
        if node.up && hash !in node.data {
          WriteReplica(at, hash, src);
          WrittenMore(v1, u, V(), s, at, hash, src);
          copied := copied + 1;
          live := live + 1;
        }
        i := i + 1;
      }
      WalkDone(env, v, hash, i);
    }

    /** One chunk's turn in a repair pass. */
    method RepairChunk(hash: Hash) returns (under: bool, copied: nat, fixed: nat, lost: bool)
      requires Valid()
      modifies nodes`data
      ensures Valid() && V() == RepairOn(env, old(V()), {hash})
      ensures lost == (IntactHolders(env, old(V()), hash) == {})
      ensures under == (|IntactHolders(env, old(V()), hash)| < replic)
      ensures copied == if lost then 0 else |Targets(env, old(V()), hash)|
      ensures fixed == if lost then 0 else |CorruptNodes(env, old(V()), hash)|
    {
      hide *;
      WfView();
      ghost var v := V();
      var live, src, corrupt := ScanReplicas(hash);
      UpHoldersSplit(env, v, hash);
      under, copied, fixed, lost := live < replic, 0, 0, src.None?;
      if live >= replic && |corrupt| == 0 {
        NothingToRepair(env, v, hash);
        return;
      }
      if src.None? {
        NothingRepairable(env, v, hash);
        return;
      }
      CorruptHold(env, v, hash);
      fixed := OverwriteCorrupt(hash, src.value, corrupt);
      ghost var u := V();
      WrittenShape(v, u, Elems(corrupt), hash, src.value);
      copied := FillTargets(hash, src.value, live + |corrupt|, v);
      WrittenTwice(env, v, u, V(), hash, src.value);
    }

    /** Brings every chunk back to full health. */
    method Repair() returns (st: RepairStats)
      requires Valid()
      modifies nodes`data
      ensures Valid() && V() == RepairView(env, old(V()))
      ensures var v := old(V());
              && st.scanned == |AllHashes(v)|
              && st.underReplicated == |(set h | h in AllHashes(v) && |IntactHolders(env, v, h)| < replic)|
              && st.copied == |CopiedOn(env, v, AllHashes(v))|
              && st.corruptFixed == |FixedOn(env, v, AllHashes(v))|
              && Lists(StrLess, st.unrepairable, LostHashes(env, v))
    {
      hide *;
      ghost var v := V();
      var all := AllChunks();
      st := RepairStats(0, 0, 0, 0, []);
      RepairProgressStart(env, v, all, st);
      for k := 0 to |all|
        invariant Valid() && RepairProgress(env, v, V(), all, k, st)
      {
        var hash := all[k];
        ghost var u := V();
        var under, copied, fixed, lost := RepairChunk(hash);
        var more := RepairStats(st.scanned + 1, st.underReplicated + (if under then 1 else 0), st.copied + copied,
                                st.corruptFixed + fixed, st.unrepairable + if lost then [hash] else []);
        RepairProgressStep(env, v, u, all, k, st, more);
        st := more;
      }
      RepairProgressEnd(env, v, V(), all, st);
    }

    method DeleteReplica(i: int, hash: Hash)
      requires Valid() && 0 <= i < |nodes|
      modifies nodes`data
      ensures Valid() && ErasedOn(old(V()), V(), {i}, hash)
    {
      var node := nodes[i];
      node.data := node.data - {hash};
    }

    /** The bytes of the first up holder of a chunk. */
    method FirstHolder(hash: Hash) returns (src: Option<Bytes>)
      requires Valid()
      ensures FirstUpHolder(V(), hash, src)
    {
      hide *;
      WfView();
      HolderFacts(V(), hash);
      for k := 0 to |nodes|
        invariant forall j :: 0 <= j < k ==> j !in UpHolders(V(), hash)
      {
        NodeSeen(k);
        var node := nodes[k];
        if node.up && hash in node.data {
          FirstUpHolderAt(V(), hash, k);
          return Some(node.data[hash]);
        }
      }
      NoUpHolderAt(V(), hash);
      return None;
    }

    /** Copies the chunk to the up placement nodes that lack it. */
    method AddMissing(hash: Hash, src: Bytes) returns (added: nat)
      requires Valid() && UpHolders(V(), hash) != {}
      modifies nodes`data
      ensures Valid() && WrittenOn(old(V()), V(), Gains(env, old(V()), hash), hash, src)
      ensures added == |Gains(env, old(V()), hash)|
    {
      hide *;
      WfView();
      ghost var v, gains := V(), Gains(env, V(), hash);
      var ids := Placement(hash);
      added := 0;
      MoveFacts(env, v, hash);
      GainStart(ids, gains);
      WrittenNowhere(v, ids, hash, src);
      ListedAscending(env, v, hash, ids);
      ListedMembers(env, v, hash, ids);
      for k := 0 to |ids|
        invariant Valid() && WrittenOn(v, V(), Elems(ids[..k]) * gains, hash, src)
        invariant added == |Elems(ids[..k]) * gains|
      {
        ListedNode(env, v, hash, ids, k);
        GainStep(ids, k, gains);
        ghost var s, u := Elems(ids[..k]) * gains, V();
        WrittenReads(v, u, s, hash, src, ids[k]);
        WfView();
        NodeSeen(ids[k]);
        var node := nodes[ids[k]];
        if node.up && hash !in node.data {
          WriteReplica(ids[k], hash, src);
          WrittenMore(v, u, V(), s, ids[k], hash, src);
          added := added + 1;
        }
      }
      GainDone(env, v, hash, ids);
    }

    /** Deletes the chunk from the up nodes outside its placement; `v` is the cluster before the copies were added. */
    method DropMisplaced(hash: Hash, src: Bytes, ghost v: View) returns (removed: nat)
      requires Valid() && Wf(v) && UpHolders(v, hash) != {}
      requires WrittenOn(v, V(), Gains(env, v, hash), hash, src)
      modifies nodes`data
      ensures Valid() && ErasedOn(old(V()), V(), Losses(env, v, hash), hash)
      ensures removed == |Losses(env, v, hash)|
    {
      hide *;
      WfView();
      ghost var u, losses := V(), Losses(env, v, hash);
      WrittenSize(v, u, Gains(env, v, hash), hash, src);
      SamePlacement(env, v, u, hash);
      WfFacts(v);
      MoveFacts(env, v, hash);
      var ids := Placement(hash);
      ListedMembers(env, u, hash, ids);
      var desired := set id | id in ids;
      removed := 0;
      ErasedNowhere(u, hash);
      BelowZero(losses);
      for k := 0 to |nodes|
        invariant Valid() && ErasedOn(u, V(), HoldersBelow(losses, k), hash)
        invariant removed == |HoldersBelow(losses, k)|
      {
        ghost var w := V();
        BelowStep(losses, k);
        ErasedReads(u, w, HoldersBelow(losses, k), hash, k);
        WrittenReads(v, u, Gains(env, v, hash), hash, src, k);
        WfView();
        NodeSeen(k);
        IdIs(k);
        NotYetBelow(losses, k);
        var node := nodes[k];
        if node.up && node.ID !in desired && hash in node.data {
          DeleteReplica(k, hash);
          ErasedMore(u, w, V(), HoldersBelow(losses, k), k, hash);
          removed := removed + 1;
        }
      }
      BelowAll(losses, |nodes|);
    }

    /** One chunk's turn in a rebalance. */
    method RebalanceChunk(hash: Hash) returns (added: nat, removed: nat, moved: bool, skipped: bool)
      requires Valid()
      modifies nodes`data
      ensures Valid() && V() == RebalanceOn(env, old(V()), {hash})
      ensures skipped == (UpHolders(old(V()), hash) == {})
      ensures added == |Gains(env, old(V()), hash)| && removed == |Losses(env, old(V()), hash)|
      ensures moved == (Gains(env, old(V()), hash) + Losses(env, old(V()), hash) != {})
    {
      hide *;
      WfView();
      ghost var v := V();
      var src := FirstHolder(hash);
      HasSource(v, hash, src);
      added, removed, moved, skipped := 0, 0, false, src.None?;
      if src.None? {
        SkippedStays(env, v, hash);
        return;
      }
      added := AddMissing(hash, src.value);
      ghost var u := V();
      removed := DropMisplaced(hash, src.value, v);
      moved := added > 0 || removed > 0;
      MovedIsRebalance(env, v, u, V(), hash, src);
    }

    /** Puts every chunk on its placement nodes, as far as up nodes allow. */
    method Rebalance() returns (st: RebalanceStats)
      requires Valid()
      modifies nodes`data
      ensures Valid() && V() == RebalanceView(env, old(V()))
      ensures Describes(st, old(V()), V())
    {
      hide *;
      ghost var v := V();
      var all := AllChunks();
      st := RebalanceStats(0, 0, 0, []);
      RebalanceProgressStart(env, v, all, st);
      for k := 0 to |all|
        invariant Valid() && RebalanceProgress(env, v, V(), all, k, st)
      {
        ghost var u := V();
        var added, removed, moved, skipped := RebalanceChunk(all[k]);
        var more := RebalanceStats(st.chunksMoved + (if moved then 1 else 0), st.copiesAdded + added,
                                   st.copiesRemoved + removed, st.skipped + if skipped then [all[k]] else []);
        RebalanceProgressStep(env, v, u, all, k, st, more);
        st := more;
      }
      RebalanceProgressEnd(env, v, V(), all, st);
    }

    /** Appends an up, empty node and rebalances. */
    method AddNode() returns (id: int, st: RebalanceStats)
      requires Valid()
      modifies this`nodes, nodes`data
      ensures Valid() && |nodes| == |old(nodes)| + 1 && nodes[..|old(nodes)|] == old(nodes)
      ensures fresh(nodes[|old(nodes)|])
      ensures id == |old(nodes)| && V() == AddNodeView(env, old(V()))
      ensures Describes(st, Grow(old(V())), V())
    {
      ghost var v := V();
      id := |nodes|;
      var node := new Node(id);
      nodes := nodes + [node];
      assert V().nodes == Grow(v).nodes;
      st := Rebalance();
    }

    /** Drains one chunk of the victim: if nobody else holds it, the first other up node takes it. */
    method DrainChunk(id: int, hash: Hash) returns (copied: nat)
      requires Valid() && 0 <= id < |nodes| && hash in V().nodes[id].data
      modifies nodes`data
      ensures Valid() && V() == DrainOn(old(V()), id, {hash})
      ensures copied == |Orphans(old(V()), id, {hash})|
    {
      hide *;
      WfView();
      ghost var v := V();
      HolderFacts(v, hash);
      NodeSeen(id);
      for k := 0 to |nodes|
        invariant V() == v && Valid()
        invariant forall j :: 0 <= j < k && j != id ==> j !in Holders(v, hash)
      {
        NodeSeen(k);
        IdIs(k);
        if nodes[k].ID != id && hash in nodes[k].data {
          OtherHolder(v, id, hash, k);
          return 0;
        }
      }
      OnlyHolder(v, id, hash);
      for k := 0 to |nodes|
        invariant V() == v && Valid()
        invariant forall j :: 0 <= j < k && j != id ==> !v.nodes[j].up
      {
        NodeSeen(k);
        IdIs(k);
        if nodes[k].ID != id && nodes[k].up {
          NodeSeen(id);
          WriteReplica(k, hash, nodes[id].data[hash]);
          AdoptedBy(v, V(), id, hash, k);
          return 1;
        }
      }
      NobodyAdopts(v, id, hash);
      return 0;
    }

    /** Drains the victim's chunks, met in no particular order. */
    method Drain(id: int) returns (copied: nat)
      requires Valid() && 0 <= id < |nodes|
      modifies nodes`data
      ensures Valid() && V() == Drained(old(V()), id)
      ensures copied == |Orphans(old(V()), id, old(V()).nodes[id].data.Keys)|
    {
      hide *;
      WfView();
      ghost var v := V();
      ghost var done: set<Hash> := {};
      NodeSeen(id);
      var all := nodes[id].data.Keys;
      var rest := all;
      copied := 0;
      DrainedNothing(v, id);
      while rest != {}
        invariant Valid() && done !! rest && done + rest == all
        invariant V() == DrainOn(v, id, done) && copied == |Orphans(v, id, done)|
        decreases |rest|
      {
        var h :| h in rest;
        DrainOneMore(v, id, done, h);
        OrphansOneMore(v, id, done, h);
        StillHeld(v, V(), id, h);
        WfView();
        var more := DrainChunk(id, h);
        copied := copied + more;
        done, rest := done + {h}, rest - {h};
      }
      assert done == all;
      DrainedIs(v, id);
    }

    /** Splices a node out and renumbers the rest. */
    method Splice(id: int)
      requires Valid() && 0 <= id < |nodes| && replic <= |nodes| - 1
      modifies this`nodes, nodes`ID
      ensures Valid() && V() == Shrink(old(V()), id)
      ensures nodes == old(nodes)[..id] + old(nodes)[id + 1..]
    {
      ghost var v := V();
      nodes := nodes[..id] + nodes[id + 1..];
      ghost var kept := nodes;
      for k := 0 to |nodes|
        invariant nodes == kept
        invariant forall i :: 0 <= i < k ==> nodes[i].ID == i
      {
        nodes[k].ID := k;
      }
      assert V().nodes == Shrink(v, id).nodes;
    }

    /** Drains a node, removes it, renumbers the rest and rebalances; refuses when too few nodes would remain. */
    method RemoveNode(id: int) returns (r: Option<RebalanceStats>)
      requires Valid()
      modifies this`nodes, nodes`data, nodes`ID
      ensures Valid() && r.Some? == Removable(old(V()), id)
      ensures r.None? ==> V() == old(V()) && nodes == old(nodes)
      ensures r.Some? ==> nodes == old(nodes)[..id] + old(nodes)[id + 1..] && V() == RemoveNodeView(env, old(V()), id)
      ensures r.Some? ==>
        Total(V().nodes) ==
        Total(old(V()).nodes) - |old(V()).nodes[id].data| + r.value.copiesAdded - r.value.copiesRemoved
      ensures r.Some? ==> DescribesRemoval(r.value, old(V()), id, V())
    {
      hide *;
      WfView();
      RemovableIs(V(), id);
      if id < 0 || id >= |nodes| {
        return None;
      }
      if |nodes| - 1 < replic {
        return None;
      }
      ghost var v := V();
      var drained := Drain(id);
      WfView();
      Splice(id);
      ghost var s := V();
      var st := Rebalance();
      RemoveTotal(env, v, id);
      RemoveIs(env, v, id);
      StatsAre(st, s, V());
      RemovalIs(st, drained, v, id, V());
      return Some(st.(copiesAdded := drained + st.copiesAdded));
    }
  }
}
