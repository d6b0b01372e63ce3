/** Durability and availability over whole runs of the cluster. */
module ClusterRuns {
  import opened Common
  import opened ClusterModel
  import opened RepairLemmas
  import opened RebalanceLemmas

  datatype Op =
    | Put(h: Hash, d: Bytes)
    | SetUp(id: int, up: bool)
    | RecoverAll
    | Repair
    | AddNode
    | RemoveNode(id: int)

  /** One locked operation; a rejected SetUp or RemoveNode changes nothing. */
  ghost function Step(e: Env, v: View, op: Op): (w: View)
    requires Wf(v)
    ensures Wf(w)
  {
    match op
    case Put(h, d) => PutView(e, v, h, d)
    case SetUp(id, up) => SetUpView(v, id, up)
    case RecoverAll => RecoverAllView(v)
    case Repair => RepairView(e, v)
    case AddNode => AddNodeView(e, v)
    case RemoveNode(id) => if Removable(v, id) then RemoveNodeView(e, v, id) else v
  }

  ghost function Run(e: Env, v: View, ops: seq<Op>): (w: View)
    requires Wf(v)
    ensures Wf(w)
    decreases |ops|
  {
    if ops == [] then v else Run(e, Step(e, v, ops[0]), ops[1..])
  }

  /** Uploads are content-addressed, and fewer than R remaining nodes are down at a topology change. */
  ghost predicate Safe(e: Env, v: View, op: Op)
    requires Wf(v)
  {
    match op
    case Put(h, d) => e.digest(d) == h
    case AddNode => |DownNodes(v)| < v.replic
    case RemoveNode(id) => Removable(v, id) ==> |DownNodes(Shrink(v, id))| < v.replic
    case _ => true
  }

  ghost predicate SafeRun(e: Env, v: View, ops: seq<Op>)
    requires Wf(v)
    decreases |ops|
  {
    ops == [] || (Safe(e, v, ops[0]) && SafeRun(e, Step(e, v, ops[0]), ops[1..]))
  }

  function PutHashes(ops: seq<Op>): set<Hash> {
    set op | op in ops && op.Put? :: op.h
  }

  lemma PutHashesCons(ops: seq<Op>, stored: set<Hash>)
    requires ops != []
    ensures stored + PutHashes(ops) == stored + (if ops[0].Put? then {ops[0].h} else {}) + PutHashes(ops[1..])
  {
    assert ops == [ops[0]] + ops[1..];
  }

  lemma PutKeeps(e: Env, v: View, h: Hash, d: Bytes)
    requires Wf(v)
    ensures AllHashes(PutView(e, v, h, d)) == AllHashes(v) + {h}
    ensures AllIntact(e, v) && e.digest(d) == h ==> AllIntact(e, PutView(e, v, h, d))
  {
    var w := PutView(e, v, h, d);
    PutCells(e, v, h, d);
    forall g ensures g in AllHashes(w) <==> g in AllHashes(v) + {h} {
      PutHeld(e, v, h, d, g);
    }
    IntactCells(e, v);
    IntactCells(e, w);
  }

  lemma PutHeld(e: Env, v: View, h: Hash, d: Bytes, g: Hash)
    requires Wf(v)
    ensures g in AllHashes(PutView(e, v, h, d)) <==> g in AllHashes(v) + {h}
  {
    var w := PutView(e, v, h, d);
    PutCells(e, v, h, d);
    PlacementCard(e, h, |v.nodes|, v.replic);
    HeldIff(v, g);
    HeldIff(w, g);
    if g == h {
      assert Cell(w, Min(Placement(e, v, h)), h) == Some(d);
      assert Min(Placement(e, v, h)) in Holders(w, h);
    } else {
      forall i | 0 <= i < |v.nodes| ensures i in Holders(v, g) <==> i in Holders(w, g) {
        assert Cell(w, i, g) == Cell(v, i, g);
      }
      assert Holders(v, g) == Holders(w, g);
    }
  }

  lemma PutCells(e: Env, v: View, h: Hash, d: Bytes)
    requires Wf(v)
    ensures SameShape(v, PutView(e, v, h, d))
    ensures forall i, g :: 0 <= i < |v.nodes| ==>
      Cell(PutView(e, v, h, d), i, g) == if g == h && i in Placement(e, v, h) then Some(d) else Cell(v, i, g)
  {
    RewriteCells(v, {h}, (i, g) => if i in Placement(e, v, h) then Some(d) else Cell(v, i, h));
  }

  /** Views with the same data hold the same chunks, equally intact, whatever their nodes' status. */
  lemma SameData(e: Env, v: View, w: View)
    requires |v.nodes| == |w.nodes| && forall i :: 0 <= i < |v.nodes| ==> v.nodes[i].data == w.nodes[i].data
    ensures AllHashes(v) == AllHashes(w) && (AllIntact(e, v) ==> AllIntact(e, w))
  {
  }

  ghost predicate Durable(e: Env, v: View, stored: set<Hash>) {
    Wf(v) && AllIntact(e, v) && AllHashes(v) == stored
  }

  lemma StepDurable(e: Env, v: View, op: Op, stored: set<Hash>)
    requires Durable(e, v, stored) && Safe(e, v, op)
    ensures Durable(e, Step(e, v, op), stored + if op.Put? then {op.h} else {})
  {
    match op
    case Put(h, d) => PutKeeps(e, v, h, d);
    case SetUp(id, up) => SameData(e, v, SetUpView(v, id, up));
    case RecoverAll => SameData(e, v, RecoverAllView(v));
    case Repair => RepairKeepsReplicas(e, v); RepairKeepsIntact(e, v);
    case AddNode => AddNodeKeepsAll(e, v); GrowIntact(e, v); RebalanceKeepsIntact(e, Grow(v));
    case RemoveNode(id) =>
      if Removable(v, id) {
        RemoveNodeKeepsAll(e, v, id);
        DrainKeepsIntact(e, v, id);
        RebalanceKeepsIntact(e, Shrink(Drained(v, id), id));
      }
  }

  lemma GrowIntact(e: Env, v: View)
    requires AllIntact(e, v)
    ensures AllIntact(e, Grow(v))
  {
  }

  /** Over any safe run the held chunks are exactly the old ones plus those put, and all stay intact. */
  lemma {:induction false} RunDurable(e: Env, v: View, ops: seq<Op>, stored: set<Hash>)
    requires Durable(e, v, stored) && SafeRun(e, v, ops)
    ensures Durable(e, Run(e, v, ops), stored + PutHashes(ops))
    decreases |ops|
  {
    if ops == [] {
      assert stored + PutHashes(ops) == stored;
    } else {
      var stored' := stored + if ops[0].Put? then {ops[0].h} else {};
      StepDurable(e, v, ops[0], stored);
      RunDurable(e, Step(e, v, ops[0]), ops[1..], stored');
      PutHashesCons(ops, stored);
    }
  }

  lemma NewIsDurable(e: Env, n: nat, r: nat)
    requires 1 <= r <= n
    ensures Durable(e, NewView(n, r), {})
    ensures DownNodes(NewView(n, r)) == {}
  {
    var v := NewView(n, r);
    assert forall i :: 0 <= i < n ==> v.nodes[i] == NodeView(true, map[]);
  }

  /** Get serves an intact chunk whenever some up node holds it and nothing is corrupt. */
  lemma GetServes(e: Env, v: View, h: Hash)
    requires |v.nodes| > 0
    ensures GetView(e, v, h).Some? <==> UpHolders(v, h) != {}
    ensures GetView(e, v, h).Some? && AllIntact(e, v) ==> e.digest(GetView(e, v, h).value.0) == h
  {
    var up := UpHolders(v, h);
    if up != {} {
      var id := GetView(e, v, h).value.1;
      assert id in up;
    }
  }

  lemma RecoverHolders(v: View, h: Hash)
    ensures UpHolders(RecoverAllView(v), h) == Holders(v, h)
  {
  }

  /** Every chunk ever put into a new cluster can be fetched, intact, after any safe run and a recovery. */
  lemma PutChunksAreRecoverable(e: Env, n: nat, r: nat, ops: seq<Op>, h: Hash)
    requires 1 <= r <= n && SafeRun(e, NewView(n, r), ops)
    requires h in PutHashes(ops)
    ensures var v := Run(e, NewView(n, r), ops);
            && Durable(e, v, PutHashes(ops))
            && var got := GetView(e, RecoverAllView(v), h);
               got.Some? && e.digest(got.value.0) == h
  {
    NewIsDurable(e, n, r);
    RunDurable(e, NewView(n, r), ops, {});
    var v := Run(e, NewView(n, r), ops);
    assert {} + PutHashes(ops) == PutHashes(ops);
    HeldIff(v, h);
    RecoverHolders(v, h);
    SameData(e, v, RecoverAllView(v));
    GetServes(e, RecoverAllView(v), h);
  }

  /** Every chunk is placed on node 0, whatever the number of nodes. */
  function FirstNodeEnv(): Env { Env((h: Hash) => 0, (d: Bytes) => "") }

  /**
   * The premise is needed for removal too: a chunk put on node 0 of two, with R = 1 and node 1 down, is gone once node
   * 0 is removed, though the run was safe up to there.
   */
  lemma RemoveNodeCanLose()
    ensures var e, ops := FirstNodeEnv(), [Put("", []), SetUp(1, false)];
            && SafeRun(e, NewView(2, 1), ops)
            && "" in AllHashes(Run(e, NewView(2, 1), ops))
            && |DownNodes(Shrink(Run(e, NewView(2, 1), ops), 0))| == 1
            && "" !in AllHashes(Step(e, Run(e, NewView(2, 1), ops), RemoveNode(0)))
  {
    hide *;
    var e, n := FirstNodeEnv(), NewView(2, 1);
    TwoEmptyNodes(e);
    LossyRun(e, n);
    PutThenDown(e, n);
    LostOnRemoval(e, SetUpView(PutView(e, n, "", []), 1, false));
  }

  lemma TwoEmptyNodes(e: Env)
    ensures Wf(NewView(2, 1)) && |NewView(2, 1).nodes| == 2 && AllHashes(NewView(2, 1)) == {}
  {
    NewIsDurable(e, 2, 1);
  }

  lemma LossyRun(e: Env, n: View)
    requires Wf(n) && e == FirstNodeEnv()
    ensures var ops := [Put("", []), SetUp(1, false)]; var v := SetUpView(PutView(e, n, "", []), 1, false);
            SafeRun(e, n, ops) && Run(e, n, ops) == v && Wf(v)
            && (Removable(v, 0) ==> Step(e, v, RemoveNode(0)) == RemoveNodeView(e, v, 0))
  {
    hide PutView, SetUpView, RemoveNodeView, Removable;
    var ops := [Put("", []), SetUp(1, false)];
    assert ops[1..] == [SetUp(1, false)] && ops[1..][1..] == [];
  }

  /** Node 0 is up with the chunk, node 1 is down and empty. */
  ghost predicate OneDown(v: View) {
    && |v.nodes| == 2 && v.replic == 1 && v.nodes[0].up && !v.nodes[1].up
    && "" in v.nodes[0].data && v.nodes[1].data == map[] && AllHashes(v) == {""}
  }

  lemma PutThenDown(e: Env, n: View)
    requires e == FirstNodeEnv() && n == NewView(2, 1) && Wf(n) && AllHashes(n) == {}
    ensures OneDown(SetUpView(PutView(e, n, "", []), 1, false))
  {
    var p := PutView(e, n, "", []);
    var v := SetUpView(p, 1, false);
    PutCells(e, n, "", []);
    PutKeeps(e, n, "", []);
    SameData(e, p, v);
    assert Start(e, "", 2) == 0;
    assert Cell(p, 0, "") == Some([]);
    forall g ensures g !in p.nodes[1].data { assert Cell(p, 1, g) == Cell(n, 1, g) == None; }
  }

  lemma LostOnRemoval(e: Env, v: View)
    requires e == FirstNodeEnv() && OneDown(v)
    ensures Removable(v, 0) && |DownNodes(Shrink(v, 0))| == 1
    ensures "" in AllHashes(v) && "" !in AllHashes(RemoveNodeView(e, v, 0))
  {
    hide RemoveNodeView, AllHashes;
    assert Start(e, "", 1) == 0;
    assert Holders(v, "") == {0};
    assert Shrink(v, 0).nodes == [v.nodes[1]];
    assert DownNodes(Shrink(v, 0)) == {0};
    assert ShrunkPlacement(e, v, 0, "") <= {1};
    assert UpNodes(v) == {0};
    assert !OutlivesNode(e, v, 0, "");
    RemoveNodeLosesNothingIff(e, v, 0);
  }

  // ----- Rolling failures -----

  /** The nodes of a batch go down together. */
  ghost function FailView(v: View, batch: set<int>): View {
    v.(nodes := seq(|v.nodes|, i requires 0 <= i < |v.nodes| =>
      if i in batch then v.nodes[i].(up := false) else v.nodes[i]))
  }

  ghost function RollView(e: Env, v: View, batches: seq<set<int>>): View
    decreases |batches|
  {
    if batches == [] then v else RollView(e, RepairView(e, FailView(v, batches[0])), batches[1..])
  }

  /** Every batch takes down fewer than min(R, up nodes) of the nodes that are up when it strikes. */
  ghost predicate SmallBatches(e: Env, v: View, batches: seq<set<int>>)
    decreases |batches|
  {
    batches != [] ==>
      && |batches[0] * UpNodes(v)| < Smaller(v.replic, |UpNodes(v)|)
      && SmallBatches(e, RepairView(e, FailView(v, batches[0])), batches[1..])
  }

  /** Every chunk has as many intact up replicas as R and the up nodes allow. */
  ghost predicate Healthy(e: Env, v: View, stored: set<Hash>) {
    && Wf(v) && AllIntact(e, v) && AllHashes(v) == stored && UpNodes(v) != {}
    && forall h :: h in stored ==> |UpHolders(v, h)| >= Smaller(v.replic, |UpNodes(v)|)
  }

  ghost predicate Serves(e: Env, v: View, h: Hash) {
    |v.nodes| > 0 && GetView(e, v, h).Some? && e.digest(GetView(e, v, h).value.0) == h
  }

  lemma FailedSets(v: View, batch: set<int>, h: Hash)
    ensures UpNodes(FailView(v, batch)) == UpNodes(v) - batch
    ensures UpHolders(FailView(v, batch), h) == UpHolders(v, h) - batch
  {
  }

  /** After a small batch fails every chunk is still served, and repair makes the cluster healthy again. */
  lemma BatchSurvived(e: Env, v: View, batch: set<int>, stored: set<Hash>)
    requires Healthy(e, v, stored)
    requires |batch * UpNodes(v)| < Smaller(v.replic, |UpNodes(v)|)
    ensures forall h :: h in stored ==> Serves(e, FailView(v, batch), h)
    ensures Healthy(e, RepairView(e, FailView(v, batch)), stored)
  {
    var f := FailView(v, batch);
    SameData(e, v, f);
    RepairKeepsReplicas(e, f);
    RepairKeepsIntact(e, f);
    forall h | h in stored
      ensures Serves(e, f, h)
      ensures |UpHolders(RepairView(e, f), h)| >= Smaller(v.replic, |UpNodes(f)|)
    {
      SomeHolderSurvives(v, batch, h);
      ServedAndRepaired(e, f, h);
    }
    RepairedUp(e, f);
    SomeNodeSurvives(v, batch);
  }

  lemma RepairedUp(e: Env, v: View)
    requires Wf(v)
    ensures UpNodes(RepairView(e, v)) == UpNodes(v)
  {
    RepairedCell(e, v, 0, "");
  }

  lemma SomeNodeSurvives(v: View, batch: set<int>)
    requires |batch * UpNodes(v)| < |UpNodes(v)|
    ensures UpNodes(FailView(v, batch)) != {}
  {
    FailedSets(v, batch, "");
    var i := PickOutside(UpNodes(v), batch * UpNodes(v));
    assert i in UpNodes(v) - batch;
  }

  /** An intact up replica is enough to be served, and for repair to restore the replica count. */
  lemma ServedAndRepaired(e: Env, v: View, h: Hash)
    requires Wf(v) && AllIntact(e, v) && UpHolders(v, h) != {}
    ensures Serves(e, v, h)
    ensures |UpHolders(RepairView(e, v), h)| >= Smaller(v.replic, |UpNodes(v)|)
  {
    IntactUp(e, v, h);
    RepairCount(e, v, h);
    GetServes(e, v, h);
  }

  lemma IntactUp(e: Env, v: View, h: Hash)
    requires AllIntact(e, v)
    ensures IntactHolders(e, v, h) == UpHolders(v, h)
  {
  }

  lemma SomeHolderSurvives(v: View, batch: set<int>, h: Hash)
    requires |batch * UpNodes(v)| < |UpHolders(v, h)|
    ensures UpHolders(FailView(v, batch), h) != {}
  {
    FailedSets(v, batch, h);
    var i := PickOutside(UpHolders(v, h), batch * UpNodes(v));
    assert i in UpHolders(v, h) - batch;
  }

  /** Repairing after each small batch keeps every chunk served, before and after every repair. */
  lemma {:induction false} RollingFailures(e: Env, v: View, batches: seq<set<int>>, stored: set<Hash>, k: nat)
    requires Healthy(e, v, stored) && SmallBatches(e, v, batches)
    requires k <= |batches|
    ensures Healthy(e, RollView(e, v, batches[..k]), stored)
    ensures forall h :: h in stored ==> Serves(e, RollView(e, v, batches[..k]), h)
    ensures k < |batches| ==>
      forall h :: h in stored ==> Serves(e, FailView(RollView(e, v, batches[..k]), batches[k]), h)
    decreases k
  {
    if k > 0 {
      BatchSurvived(e, v, batches[0], stored);
      RollUnfold(e, v, batches, k);
      RollingFailures(e, RepairView(e, FailView(v, batches[0])), batches[1..], stored, k - 1);
    } else {
      assert RollView(e, v, batches[..0]) == v;
      forall h | h in stored ensures Serves(e, v, h) { HealthyServes(e, v, stored, h); }
      if batches != [] {
        BatchSurvived(e, v, batches[0], stored);
      }
    }
  }

  lemma RollUnfold(e: Env, v: View, batches: seq<set<int>>, k: nat)
    requires 0 < k <= |batches|
    ensures RollView(e, v, batches[..k]) == RollView(e, RepairView(e, FailView(v, batches[0])), batches[1..][..k - 1])
  {
    assert batches[..k][1..] == batches[1..][..k - 1];
  }

  /** Healthy clusters serve every chunk they store. */
  lemma HealthyServes(e: Env, v: View, stored: set<Hash>, h: Hash)
    requires Healthy(e, v, stored) && h in stored
    ensures Serves(e, v, h)
  {
    GetServes(e, v, h);
  }

  // ----- Uploads -----

  ghost function PutAll(e: Env, v: View, items: seq<(Hash, Bytes)>): (w: View)
    requires Wf(v)
    ensures Wf(w)
    decreases |items|
  {
    if items == [] then v else PutAll(e, PutView(e, v, items[0].0, items[0].1), items[1..])
  }

  /** Every chunk has a replica on each of its placement nodes. */
  ghost predicate Placed(e: Env, v: View, stored: set<Hash>)
    requires Wf(v)
  {
    forall h :: h in stored ==> Placement(e, v, h) <= Holders(v, h)
  }

  ghost predicate ContentAddressed(e: Env, items: seq<(Hash, Bytes)>) {
    forall k :: 0 <= k < |items| ==> e.digest(items[k].1) == items[k].0
  }

  function ItemHashes(items: seq<(Hash, Bytes)>): set<Hash> {
    set it | it in items :: it.0
  }

  lemma {:induction false} PutAllPlaces(e: Env, v: View, items: seq<(Hash, Bytes)>, stored: set<Hash>)
    requires Durable(e, v, stored) && Placed(e, v, stored) && ContentAddressed(e, items)
    ensures var w := PutAll(e, v, items);
            SameShape(v, w) && Durable(e, w, stored + ItemHashes(items)) && Placed(e, w, stored + ItemHashes(items))
    decreases |items|
  {
    if items == [] {
      assert stored + ItemHashes(items) == stored;
    } else {
      var h, d := items[0].0, items[0].1;
      PutOnePlaces(e, v, h, d, stored);
      PutAllPlaces(e, PutView(e, v, h, d), items[1..], stored + {h});
      ItemHashesCons(items, stored);
    }
  }

  lemma ItemHashesCons(items: seq<(Hash, Bytes)>, stored: set<Hash>)
    requires items != []
    ensures stored + ItemHashes(items) == stored + {items[0].0} + ItemHashes(items[1..])
  {
    assert items == [items[0]] + items[1..];
  }

  lemma PutOnePlaces(e: Env, v: View, h: Hash, d: Bytes, stored: set<Hash>)
    requires Durable(e, v, stored) && Placed(e, v, stored) && e.digest(d) == h
    ensures var w := PutView(e, v, h, d);
            SameShape(v, w) && Durable(e, w, stored + {h}) && Placed(e, w, stored + {h})
  {
    PutKeeps(e, v, h, d);
    PutCells(e, v, h, d);
    forall g | g in stored + {h} ensures Placement(e, PutView(e, v, h, d), g) <= Holders(PutView(e, v, h, d), g) {
      PutPlaces(e, v, h, d, g);
    }
  }

  lemma PutPlaces(e: Env, v: View, h: Hash, d: Bytes, g: Hash)
    requires Wf(v) && (g == h || Placement(e, v, g) <= Holders(v, g))
    ensures Placement(e, PutView(e, v, h, d), g) <= Holders(PutView(e, v, h, d), g)
  {
    var w := PutView(e, v, h, d);
    PutCells(e, v, h, d);
    forall i | i in Placement(e, w, g) ensures i in Holders(w, g) {
      assert g != h ==> i in Holders(v, g);
      assert Cell(w, i, g).Some?;
    }
  }

  lemma PlacedUpCount(e: Env, v: View, h: Hash)
    requires Wf(v) && AllUp(v) && Placement(e, v, h) <= Holders(v, h)
    ensures |UpHolders(v, h)| >= v.replic
  {
    assert UpHolders(v, h) == Holders(v, h);
    PlacementCard(e, h, |v.nodes|, v.replic);
    SubsetCard(Placement(e, v, h), Holders(v, h));
  }

  /** Uploading to a new cluster makes it healthy, so the rolling-failure guarantee starts to hold. */
  lemma UploadIsHealthy(e: Env, n: nat, r: nat, items: seq<(Hash, Bytes)>)
    requires 1 <= r <= n && ContentAddressed(e, items)
    ensures Healthy(e, PutAll(e, NewView(n, r), items), ItemHashes(items))
  {
    var v := NewView(n, r);
    NewIsDurable(e, n, r);
    PutAllPlaces(e, v, items, {});
    var w := PutAll(e, v, items);
    assert {} + ItemHashes(items) == ItemHashes(items);
    assert AllUp(w) && 0 in UpNodes(w);
    forall h | h in ItemHashes(items) ensures |UpHolders(w, h)| >= Smaller(w.replic, |UpNodes(w)|) {
      PlacedUpCount(e, w, h);
    }
  }

  /** With every chunk on its placement, any fewer than R failures leave every chunk served. */
  lemma FewerThanRDown(e: Env, v: View, stored: set<Hash>, h: Hash)
    requires Durable(e, v, stored) && Placed(e, v, stored) && h in stored
    requires |DownNodes(v)| < v.replic
    ensures Serves(e, v, h)
  {
    PlacementReachable(e, v, h);
    var i := Min(Placement(e, v, h) * UpNodes(v));
    assert i in UpHolders(v, h);
    GetServes(e, v, h);
  }
}
