/** What the cluster's operations do to single nodes, told from the seed and the flags alone. */
module ClusterLaws {
  import opened Common
  import opened Ordering
  import opened ClusterModel
  import opened ClusterLoops
  import opened RepairLemmas
  import opened RebalanceLemmas

  /** The node met `k` steps clockwise from where the chunk's seed points. */
  function At(e: Env, h: Hash, n: nat, k: nat): int
    requires n > 0
  {
    (e.seed(h) % n + k) % n
  }

  /** A chunk's placement is the first `r` nodes met. */
  lemma PlacementIsFirstMet(e: Env, h: Hash, n: nat, r: nat)
    requires r <= n && n > 0
    ensures PlacementSet(e, h, n, r) == set k | 0 <= k < r :: At(e, h, n, k)
  {
    var s, met := e.seed(h) % n, set k | 0 <= k < r :: At(e, h, n, k);
    forall i | i in PlacementSet(e, h, n, r) ensures i in met {
      RingDistanceStep(s, n, i);
      assert i == At(e, h, n, RingDistance(s, n, i));
    }
    forall k | 0 <= k < r ensures At(e, h, n, k) in PlacementSet(e, h, n, r) {
      RingStepDistance(s, n, k);
    }
  }

  /** The chunk belongs on node `i`. */
  ghost predicate Belongs(e: Env, v: View, h: Hash, i: int)
    requires |v.nodes| > 0
  {
    exists k :: 0 <= k < v.replic && i == At(e, h, |v.nodes|, k)
  }

  lemma BelongsIff(e: Env, v: View, h: Hash)
    requires Wf(v)
    ensures forall i :: Belongs(e, v, h, i) <==> i in Placement(e, v, h)
  {
    PlacementIsFirstMet(e, h, |v.nodes|, v.replic);
  }

  lemma MetAreListed(e: Env, v: View, h: Hash, ids: seq<int>)
    requires Wf(v) && Lists(IntLess, ids, Placement(e, v, h))
    ensures Elems(ids) == set k | 0 <= k < v.replic :: At(e, h, |v.nodes|, k)
  {
    PlacementIsFirstMet(e, h, |v.nodes|, v.replic);
  }

  // ----- Put and Get -----

  /** A put writes the bytes where the chunk belongs, up or down, and nothing else. */
  lemma PutWrites(e: Env, v: View, h: Hash, d: Bytes)
    requires Wf(v)
    ensures SameShape(v, PutView(e, v, h, d))
    ensures forall i, g :: 0 <= i < |v.nodes| ==>
      Cell(PutView(e, v, h, d), i, g) == if g == h && Belongs(e, v, h, i) then Some(d) else Cell(v, i, g)
  {
    hide Belongs;
    BelongsIff(e, v, h);
    RewriteCells(v, {h}, (i, g) => if i in Placement(e, v, h) then Some(d) else Cell(v, i, g));
  }

  /** A get prefers nodes the chunk belongs on, then low numbers; it fails only if no up node holds the chunk. */
  lemma GetPrefers(e: Env, v: View, h: Hash)
    requires Wf(v)
    ensures match GetView(e, v, h)
            case None => forall i :: 0 <= i < |v.nodes| && v.nodes[i].up ==> h !in v.nodes[i].data
            case Some((d, id)) =>
              && 0 <= id < |v.nodes| && v.nodes[id].up && h in v.nodes[id].data && d == v.nodes[id].data[h]
              && forall i :: 0 <= i < |v.nodes| && v.nodes[i].up && h in v.nodes[i].data ==>
                   && (Belongs(e, v, h, i) ==> Belongs(e, v, h, id))
                   && (Belongs(e, v, h, i) == Belongs(e, v, h, id) ==> id <= i)
  {
    hide Belongs;
    BelongsIff(e, v, h);
    var up := UpHolders(v, h);
    var placed := up * Placement(e, v, h);
    forall i | 0 <= i < |v.nodes| && v.nodes[i].up && h in v.nodes[i].data
      ensures i in up && (Belongs(e, v, h, i) ==> i in placed)
    {
    }
  }

  // ----- Node status -----

  /** Setting a node's status changes that and nothing else; an unknown node changes nothing. */
  lemma SetUpSets(v: View, id: int, up: bool)
    ensures var w := SetUpView(v, id, up);
      && |w.nodes| == |v.nodes| && w.replic == v.replic
      && (forall i :: 0 <= i < |v.nodes| ==> w.nodes[i].data == v.nodes[i].data)
      && (0 <= id < |v.nodes| ==> UpNodes(w) == if up then UpNodes(v) + {id} else UpNodes(v) - {id})
      && (!(0 <= id < |v.nodes|) ==> w == v)
  {
  }

  /** Bringing a holder up makes its chunk served; taking a node down leaves served what another up node holds. */
  lemma SetUpServes(e: Env, v: View, id: int, h: Hash)
    requires Wf(v) && 0 <= id < |v.nodes|
    ensures h in v.nodes[id].data ==> GetView(e, SetUpView(v, id, true), h).Some?
    ensures GetView(e, SetUpView(v, id, false), h).Some? <==> UpHolders(v, h) - {id} != {}
  {
    assert h in v.nodes[id].data ==> id in UpHolders(SetUpView(v, id, true), h);
    assert UpHolders(SetUpView(v, id, false), h) == UpHolders(v, h) - {id};
  }

  lemma RecoverAllSets(v: View)
    ensures var w := RecoverAllView(v);
      && |w.nodes| == |v.nodes| && w.replic == v.replic
      && forall i :: 0 <= i < |v.nodes| ==> w.nodes[i].up && w.nodes[i].data == v.nodes[i].data
  {
  }

  // ----- Repair, rebalance and drain -----

  /** Of two up nodes that lack a chunk, repair fills the one met first on the walk from the chunk's seed. */
  lemma RepairFillsInOrder(e: Env, v: View, h: Hash, j: nat, k: nat)
    requires Wf(v) && k < j < |v.nodes|
    ensures var w, a, b := RepairView(e, v), At(e, h, |v.nodes|, j), At(e, h, |v.nodes|, k);
      && 0 <= a < |v.nodes| && 0 <= b < |v.nodes|
      && (v.nodes[b].up && Cell(v, a, h).None? && Cell(w, a, h).Some? ==> Cell(w, b, h).Some?)
  {
    hide *;
    AtStep(e, h, |v.nodes|, j);
    AtStep(e, h, |v.nodes|, k);
    RepairedCell(e, v, At(e, h, |v.nodes|, j), h);
    RepairedCell(e, v, At(e, h, |v.nodes|, k), h);
    EarlierTarget(e, v, h, At(e, h, |v.nodes|, j), At(e, h, |v.nodes|, k));
  }

  lemma AtStep(e: Env, h: Hash, n: nat, k: nat)
    requires k < n
    ensures 0 <= At(e, h, n, k) < n && RingDistance(Start(e, h, n), n, At(e, h, n, k)) == k
  {
    RingStepDistance(Start(e, h, n), n, k);
  }

  lemma EarlierTarget(e: Env, v: View, h: Hash, a: int, b: int)
    requires Wf(v) && 0 <= a < |v.nodes| && 0 <= b < |v.nodes|
    requires var n := |v.nodes|; RingDistance(Start(e, h, n), n, b) <= RingDistance(Start(e, h, n), n, a)
    ensures v.nodes[b].up && Cell(v, a, h).None? && RepairCell(e, v, a, h).Some? ==> RepairCell(e, v, b, h).Some?
  {
    hide EmptyBefore, IntactHolders, UpHolders, RingDistance, Start;
    var n := |v.nodes|;
    EmptyBeforeMono(e, v, h, RingDistance(Start(e, h, n), n, b), RingDistance(Start(e, h, n), n, a));
  }

  /** After a repair a chunk that some up node held intact is under-replicated only for want of up nodes. */
  lemma RepairClearsUnder(e: Env, v: View, h: Hash)
    requires Wf(v) && IntactHolders(e, v, h) != {}
    ensures h in UnderReplicated(RepairView(e, v)) <==> |UpNodes(v)| < v.replic
  {
    RepairCount(e, v, h);
    UpSplit(v, h);
    UnderMeans(v, RepairView(e, v), h);
    RepairKeepsReplicas(e, v);
    HeldSomewhere(e, v, h);
  }

  lemma HeldSomewhere(e: Env, v: View, h: Hash)
    requires IntactHolders(e, v, h) != {}
    ensures h in AllHashes(v)
  {
    var i := Min(IntactHolders(e, v, h));
  }

  lemma UnderMeans(v: View, w: View, h: Hash)
    requires w.replic == v.replic
    ensures h in UnderReplicated(w) <==> h in AllHashes(w) && |UpHolders(w, h)| < v.replic
  {
  }

  /** A rebalance keeps a copy where the chunk belongs, and fills an up node that lacks it from the least up holder. */
  lemma RebalanceCopies(e: Env, v: View, h: Hash, i: int, id: int)
    requires Wf(v) && 0 <= i < |v.nodes| && v.nodes[i].up && Belongs(e, v, h, i)
    requires 0 <= id < |v.nodes| && v.nodes[id].up && h in v.nodes[id].data
    requires forall j :: 0 <= j < id && v.nodes[j].up ==> h !in v.nodes[j].data
    ensures Cell(RebalanceView(e, v), i, h) == if h in v.nodes[i].data then Cell(v, i, h) else Cell(v, id, h)
  {
    hide Belongs;
    BelongsIff(e, v, h);
    RebalancedCell(e, v, i, h);
    assert id in UpHolders(v, h);
    assert Min(UpHolders(v, h)) == id;
  }

  /** Before a node leaves, a chunk it alone holds goes to the least other up node; nothing else moves. */
  lemma DrainMoves(v: View, id: int, to: int, i: int, h: Hash)
    requires 0 <= id < |v.nodes| && h in v.nodes[id].data
    requires 0 <= to < |v.nodes| && to != id && v.nodes[to].up
    requires forall j :: 0 <= j < to && j != id ==> !v.nodes[j].up
    requires 0 <= i < |v.nodes|
    ensures var w := Drained(v, id);
      && SameShape(v, w)
      && Cell(w, i, h) == if i == to && OnlyOn(v, id, h) then Cell(v, id, h) else Cell(v, i, h)
  {
    hide *;
    DrainedCell(v, id, i, h);
    DrainCellIs(v, id, to, i, h);
  }

  /** No other node holds the chunk. */
  ghost predicate OnlyOn(v: View, id: int, h: Hash) {
    forall j :: 0 <= j < |v.nodes| && j != id ==> h !in v.nodes[j].data
  }

  lemma DrainCellIs(v: View, id: int, to: int, i: int, h: Hash)
    requires 0 <= id < |v.nodes| && h in v.nodes[id].data
    requires 0 <= to < |v.nodes| && to != id && v.nodes[to].up
    requires forall j :: 0 <= j < to && j != id ==> !v.nodes[j].up
    ensures DrainCell(v, id, i, h) == if i == to && OnlyOn(v, id, h) then Cell(v, id, h) else Cell(v, i, h)
  {
    assert to in UpNodes(v) - {id};
    assert Min(UpNodes(v) - {id}) == to;
    assert OnlyOn(v, id, h) ==> Holders(v, h) == {id};
    if Holders(v, h) == {id} {
      forall j | 0 <= j < |v.nodes| && j != id ensures h !in v.nodes[j].data { assert j !in Holders(v, h); }
    }
  }
}
