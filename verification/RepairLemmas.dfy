/** What one repair pass achieves, for every cluster. */
module RepairLemmas {
  import opened Common
  import opened ClusterModel

  /** The nodes repair copies a chunk to. */
  ghost function Targets(e: Env, v: View, h: Hash): set<int> {
    set i | 0 <= i < |v.nodes| && Target(e, v, h, i)
  }

  ghost function EmptyNodes(v: View, h: Hash): set<int> {
    set i | 0 <= i < |v.nodes| && v.nodes[i].up && h !in v.nodes[i].data
  }

  ghost function TargetsBefore(e: Env, v: View, h: Hash, k: int): set<int>
    requires |v.nodes| > 0
  {
    set i | i in EmptyBefore(e, v, h, k) && Target(e, v, h, i)
  }

  /** One more step of the walk meets at most one more node. */
  lemma EmptyBeforeStep(e: Env, v: View, h: Hash, k: nat)
    requires k < |v.nodes|
    ensures var i := RingStep(Start(e, h, |v.nodes|), |v.nodes|, k);
            && 0 <= i < |v.nodes| && i !in EmptyBefore(e, v, h, k)
            && EmptyBefore(e, v, h, k + 1) ==
               EmptyBefore(e, v, h, k) + (if v.nodes[i].up && h !in v.nodes[i].data then {i} else {})
  {
    var n := |v.nodes|;
    var s := Start(e, h, n);
    RingStepDistance(s, n, k);
    forall j | 0 <= j < n && RingDistance(s, n, j) == k ensures j == RingStep(s, n, k) {
      RingDistanceStep(s, n, j);
    }
  }

  lemma EmptyBeforeZero(e: Env, v: View, h: Hash)
    requires |v.nodes| > 0
    ensures EmptyBefore(e, v, h, 0) == {} && TargetsBefore(e, v, h, 0) == {}
  {
    forall i | 0 <= i < |v.nodes| ensures RingDistance(Start(e, h, |v.nodes|), |v.nodes|, i) >= 0 {
      RingDistanceStep(Start(e, h, |v.nodes|), |v.nodes|, i);
    }
  }

  ghost predicate EmptyAtStep(e: Env, v: View, h: Hash, k: nat)
    requires k < |v.nodes|
  {
    var i := RingStep(Start(e, h, |v.nodes|), |v.nodes|, k);
    v.nodes[i].up && h !in v.nodes[i].data
  }

  lemma EmptyBeforeCount(e: Env, v: View, h: Hash, k: nat)
    requires k < |v.nodes|
    ensures |EmptyBefore(e, v, h, k + 1)| == |EmptyBefore(e, v, h, k)| + if EmptyAtStep(e, v, h, k) then 1 else 0
  {
    EmptyBeforeStep(e, v, h, k);
  }

  lemma TargetsBeforeStep(e: Env, v: View, h: Hash, k: nat)
    requires k < |v.nodes|
    ensures var i := RingStep(Start(e, h, |v.nodes|), |v.nodes|, k);
            && 0 <= i < |v.nodes| && i !in TargetsBefore(e, v, h, k)
            && TargetsBefore(e, v, h, k + 1) == TargetsBefore(e, v, h, k) +
                 (if EmptyAtStep(e, v, h, k)
                     && |UpHolders(v, h)| + |EmptyBefore(e, v, h, k)| < v.replic then {i} else {})
    ensures |TargetsBefore(e, v, h, k + 1)| == |TargetsBefore(e, v, h, k)| +
              if EmptyAtStep(e, v, h, k) && |UpHolders(v, h)| + |EmptyBefore(e, v, h, k)| < v.replic then 1 else 0
  {
    EmptyBeforeStep(e, v, h, k);
    RingStepDistance(Start(e, h, |v.nodes|), |v.nodes|, k);
  }

  /** The walk fills the nodes it meets until the chunk has R replicas, and no further. */
  lemma {:induction false} TargetsBeforeCount(e: Env, v: View, h: Hash, k: nat)
    requires 0 < |v.nodes| && k <= |v.nodes|
    ensures var u, m := |UpHolders(v, h)|, |EmptyBefore(e, v, h, k)|;
            |TargetsBefore(e, v, h, k)| == if u + m <= v.replic then m else if u < v.replic then v.replic - u else 0
  {
    if k == 0 {
      EmptyBeforeZero(e, v, h);
    } else {
      TargetsBeforeCount(e, v, h, k - 1);
      EmptyBeforeCount(e, v, h, k - 1);
      TargetsBeforeStep(e, v, h, k - 1);
    }
  }

  lemma EmptyBeforeAll(e: Env, v: View, h: Hash)
    requires 0 < |v.nodes|
    ensures EmptyBefore(e, v, h, |v.nodes|) == EmptyNodes(v, h)
    ensures TargetsBefore(e, v, h, |v.nodes|) == Targets(e, v, h)
  {
    forall i | 0 <= i < |v.nodes| ensures RingDistance(Start(e, h, |v.nodes|), |v.nodes|, i) < |v.nodes| {
      RingDistanceStep(Start(e, h, |v.nodes|), |v.nodes|, i);
    }
  }

  lemma UpSplit(v: View, h: Hash)
    ensures |UpNodes(v)| == |UpHolders(v, h)| + |EmptyNodes(v, h)|
  {
    assert UpNodes(v) == UpHolders(v, h) + EmptyNodes(v, h);
    assert UpHolders(v, h) !! EmptyNodes(v, h);
  }

  function Smaller(a: int, b: int): (r: int)
    ensures r <= a && r <= b && (r == a || r == b)
  {
    if a < b then a else b
  }

  function Larger(a: int, b: int): (r: int)
    ensures r >= a && r >= b && (r == a || r == b)
  {
    if a > b then a else b
  }

  lemma RepairedCell(e: Env, v: View, i: int, h: Hash)
    requires 0 <= i < |v.nodes|
    ensures SameShape(v, RepairView(e, v))
    ensures Cell(RepairView(e, v), i, h) == RepairCell(e, v, i, h)
  {
    RewriteCells(v, AllHashes(v), (i, h) => RepairCell(e, v, i, h));
    if h !in AllHashes(v) {
      assert forall j :: 0 <= j < |v.nodes| ==> h !in v.nodes[j].data;
      assert IntactHolders(e, v, h) == {};
    }
  }

  lemma IntactSourceIsIntact(e: Env, v: View, h: Hash)
    requires IntactHolders(e, v, h) != {}
    ensures e.digest(IntactSource(e, v, h)) == h
  {
    assert Min(IntactHolders(e, v, h)) in IntactHolders(e, v, h);
  }

  lemma RepairedUpHolders(e: Env, v: View, h: Hash)
    requires IntactHolders(e, v, h) != {}
    ensures UpHolders(RepairView(e, v), h) == UpHolders(v, h) + Targets(e, v, h)
    ensures IntactHolders(e, RepairView(e, v), h) == UpHolders(RepairView(e, v), h)
  {
    hide *;
    var w := RepairView(e, v);
    HolderBounds(e, v, h);
    HolderBounds(e, w, h);
    SameSize(e, v);
    forall i | 0 <= i < |v.nodes|
      ensures i in UpHolders(w, h) <==> i in UpHolders(v, h) + Targets(e, v, h)
      ensures i in UpHolders(w, h) <==> i in IntactHolders(e, w, h)
    {
      RepairedMember(e, v, h, i);
    }
  }

  lemma SameSize(e: Env, v: View)
    ensures |RepairView(e, v).nodes| == |v.nodes|
  {
  }

  lemma HolderBounds(e: Env, v: View, h: Hash)
    ensures forall i :: i in UpHolders(v, h) ==> 0 <= i < |v.nodes|
    ensures forall i :: i in IntactHolders(e, v, h) ==> 0 <= i < |v.nodes|
    ensures |v.nodes| > 0 ==> forall i :: i in Targets(e, v, h) ==> 0 <= i < |v.nodes|
    ensures IntactHolders(e, v, h) != {} ==> |v.nodes| > 0
  {
  }

  /** What repair leaves on one node. */
  lemma RepairedMember(e: Env, v: View, h: Hash, i: int)
    requires 0 <= i < |v.nodes| && IntactHolders(e, v, h) != {}
    ensures |RepairView(e, v).nodes| == |v.nodes|
    ensures i in UpHolders(RepairView(e, v), h) <==> i in UpHolders(v, h) + Targets(e, v, h)
    ensures i in UpHolders(RepairView(e, v), h) <==> i in IntactHolders(e, RepairView(e, v), h)
  {
    hide RepairView, UpHolders;
    RepairedCell(e, v, i, h);
    IntactSourceIsIntact(e, v, h);
    UpCell(e, RepairView(e, v), h, i);
    UpCell(e, v, h, i);
  }

  lemma UpCell(e: Env, v: View, h: Hash, i: int)
    requires 0 <= i < |v.nodes|
    ensures i in UpHolders(v, h) <==> v.nodes[i].up && Cell(v, i, h).Some?
    ensures i in IntactHolders(e, v, h) <==> v.nodes[i].up && Cell(v, i, h).Some? && e.digest(Cell(v, i, h).value) == h
  {
  }

  lemma HoldersNotTargets(e: Env, v: View, h: Hash)
    requires IntactHolders(e, v, h) != {}
    ensures |v.nodes| > 0 && UpHolders(v, h) !! Targets(e, v, h)
  {
  }

  /**
   * A chunk with an intact up replica ends with every up replica intact, and with exactly
   * max(up holders before, min(R, up nodes)) of them.
   */
  lemma RepairCount(e: Env, v: View, h: Hash)
    requires IntactHolders(e, v, h) != {}
    ensures IntactHolders(e, RepairView(e, v), h) == UpHolders(RepairView(e, v), h)
    ensures |UpHolders(RepairView(e, v), h)| == Larger(|UpHolders(v, h)|, Smaller(v.replic, |UpNodes(v)|))
  {
    hide *;
    HoldersNotTargets(e, v, h);
    RepairedUpHolders(e, v, h);
    TargetsBeforeCount(e, v, h, |v.nodes|);
    EmptyBeforeAll(e, v, h);
    UpSplit(v, h);
    assert |UpHolders(v, h) + Targets(e, v, h)| == |UpHolders(v, h)| + |Targets(e, v, h)|;
  }

  lemma RepairedDownCell(e: Env, v: View, i: int, h: Hash)
    requires 0 <= i < |v.nodes| && !v.nodes[i].up
    ensures Cell(RepairView(e, v), i, h) == Cell(v, i, h)
  {
    RepairedCell(e, v, i, h);
  }

  lemma SameShapeFlip(a: View, b: View)
    requires SameShape(a, b)
    ensures SameShape(b, a) && |a.nodes| == |b.nodes|
  {
  }

  /** Repair touches no down node. */
  lemma RepairSparesDown(e: Env, v: View, i: int)
    requires 0 <= i < |v.nodes| && !v.nodes[i].up
    ensures RepairView(e, v).nodes[i] == v.nodes[i]
  {
    hide *;
    RepairedCell(e, v, i, "");
    forall h { RepairedDownCell(e, v, i, h); }
    SameShapeFlip(v, RepairView(e, v));
    NodeExtensional(RepairView(e, v), v, i);
  }

  /** Repair removes no replica and invents no chunk. */
  lemma RepairKeepsReplicas(e: Env, v: View)
    ensures Replicas(v) <= Replicas(RepairView(e, v))
    ensures AllHashes(RepairView(e, v)) == AllHashes(v)
  {
    hide *;
    RepairCopies(e, v);
    CopiesAreKnown(e, v);
    SameHashes(v, RepairView(e, v), CopiedPairs(e, v));
  }

  lemma CopiesAreKnown(e: Env, v: View)
    ensures forall p :: p in CopiedPairs(e, v) ==> p.1 in AllHashes(v)
  {
  }

  lemma SameHashes(v: View, w: View, more: set<(int, Hash)>)
    requires Replicas(w) == Replicas(v) + more && forall p :: p in more ==> p.1 in AllHashes(v)
    ensures AllHashes(w) == AllHashes(v)
  {
    hide Replicas, AllHashes;
    HashesOfReplicas(v);
    HashesOfReplicas(w);
  }

  lemma HashesOfReplicas(v: View)
    ensures AllHashes(v) == set p | p in Replicas(v) :: p.1
  {
    forall h | h in AllHashes(v) ensures h in set p | p in Replicas(v) :: p.1 {
      var i :| 0 <= i < |v.nodes| && h in v.nodes[i].data;
      assert (i, h) in Replicas(v);
    }
  }

  /** The copies repair makes of the chunks in `d`, as (node, hash) pairs. */
  ghost function CopiedOn(e: Env, v: View, d: set<Hash>): set<(int, Hash)> {
    set i, h | 0 <= i < |v.nodes| && h in d && IntactHolders(e, v, h) != {} && Target(e, v, h, i) :: (i, h)
  }

  /** The corrupt replicas repair overwrites among the chunks in `d`. */
  ghost function FixedOn(e: Env, v: View, d: set<Hash>): set<(int, Hash)> {
    set i, h | 0 <= i < |v.nodes| && h in d && IntactHolders(e, v, h) != {} && Corrupt(e, v, h, i) :: (i, h)
  }

  ghost function CorruptNodes(e: Env, v: View, h: Hash): set<int> {
    set i | 0 <= i < |v.nodes| && Corrupt(e, v, h, i)
  }

  lemma CopiedOneMore(e: Env, v: View, d: set<Hash>, h: Hash)
    requires h !in d
    ensures |CopiedOn(e, v, d + {h})| == |CopiedOn(e, v, d)| +
              if IntactHolders(e, v, h) != {} then |Targets(e, v, h)| else 0
  {
    PairsOneMore(CopiedOn(e, v, d), CopiedOn(e, v, d + {h}),
                 if IntactHolders(e, v, h) != {} then Targets(e, v, h) else {}, h);
  }

  lemma FixedOneMore(e: Env, v: View, d: set<Hash>, h: Hash)
    requires h !in d
    ensures |FixedOn(e, v, d + {h})| == |FixedOn(e, v, d)| +
              if IntactHolders(e, v, h) != {} then |CorruptNodes(e, v, h)| else 0
  {
    PairsOneMore(FixedOn(e, v, d), FixedOn(e, v, d + {h}),
                 if IntactHolders(e, v, h) != {} then CorruptNodes(e, v, h) else {}, h);
  }

  ghost function CopiedPairs(e: Env, v: View): set<(int, Hash)> {
    CopiedOn(e, v, AllHashes(v))
  }

  /** The total number of replicas grows by exactly the copies made. */
  lemma RepairCopies(e: Env, v: View)
    ensures Replicas(RepairView(e, v)) == Replicas(v) + CopiedPairs(e, v)
    ensures |Replicas(RepairView(e, v))| == |Replicas(v)| + |CopiedPairs(e, v)|
  {
    var w := RepairView(e, v);
    RewriteCells(v, AllHashes(v), (i, h) => RepairCell(e, v, i, h));
    forall i, h | 0 <= i < |v.nodes|
      ensures (i, h) in Replicas(w) <==> (i, h) in Replicas(v) + CopiedPairs(e, v)
    {
      RepairedCell(e, v, i, h);
    }
    assert Replicas(w) == Replicas(v) + CopiedPairs(e, v);
    assert Replicas(v) !! CopiedPairs(e, v);
  }

  /** Repairing a repaired cluster changes nothing. */
  lemma RepairIdempotent(e: Env, v: View)
    ensures RepairView(e, RepairView(e, v)) == RepairView(e, v)
  {
    var w := RepairView(e, v);
    RewriteCells(v, AllHashes(v), (i, h) => RepairCell(e, v, i, h));
    RewriteCells(w, AllHashes(w), (i, h) => RepairCell(e, w, i, h));
    forall i, h | 0 <= i < |v.nodes| ensures Cell(RepairView(e, w), i, h) == Cell(w, i, h) {
      RepairSettled(e, v, i, h);
      RepairedCell(e, w, i, h);
    }
    ViewExtensional(RepairView(e, w), w);
  }

  lemma RepairSettled(e: Env, v: View, i: int, h: Hash)
    requires 0 <= i < |v.nodes|
    ensures !RepairWrites(e, RepairView(e, v), h, i)
  {
    var w := RepairView(e, v);
    RepairedCell(e, v, i, h);
    if IntactHolders(e, v, h) == {} {
      UnrepairableStays(e, v, h);
    } else {
      RepairCount(e, v, h);
      assert UpNodes(w) == UpNodes(v);
      NoTargetWhenFull(e, w, h, i);
      NotCorruptWhenIntact(e, w, h, i);
    }
  }

  /** A chunk with no intact up replica is left exactly as it was. */
  lemma UnrepairableStays(e: Env, v: View, h: Hash)
    requires IntactHolders(e, v, h) == {}
    ensures IntactHolders(e, RepairView(e, v), h) == {}
    ensures forall i :: 0 <= i < |v.nodes| ==> Cell(RepairView(e, v), i, h) == Cell(v, i, h)
  {
    var w := RepairView(e, v);
    forall j | 0 <= j < |v.nodes| ensures Cell(w, j, h) == Cell(v, j, h) && j !in IntactHolders(e, w, h) {
      RepairedCell(e, v, j, h);
      assert j !in IntactHolders(e, v, h);
    }
    assert forall j :: j in IntactHolders(e, w, h) ==> 0 <= j < |v.nodes|;
  }

  lemma NotCorruptWhenIntact(e: Env, v: View, h: Hash, i: int)
    requires 0 <= i < |v.nodes|
    requires IntactHolders(e, v, h) == UpHolders(v, h)
    ensures !Corrupt(e, v, h, i)
  {
    assert i in UpHolders(v, h) ==> i in IntactHolders(e, v, h);
  }

  lemma NoTargetWhenFull(e: Env, v: View, h: Hash, i: int)
    requires 0 <= i < |v.nodes|
    requires |UpHolders(v, h)| >= Smaller(v.replic, |UpNodes(v)|)
    ensures !Target(e, v, h, i)
  {
    UpSplit(v, h);
    if |UpHolders(v, h)| < v.replic {
      assert EmptyNodes(v, h) == {};
      assert i !in EmptyNodes(v, h);
    }
  }

  /** Repair never spreads corruption: an intact cluster stays intact. */
  lemma RepairKeepsIntact(e: Env, v: View)
    requires AllIntact(e, v)
    ensures AllIntact(e, RepairView(e, v))
  {
    var w := RepairView(e, v);
    forall i, h | 0 <= i < |w.nodes| && h in w.nodes[i].data ensures e.digest(w.nodes[i].data[h]) == h {
      RepairedCell(e, v, i, h);
      if RepairWrites(e, v, h, i) { IntactSourceIsIntact(e, v, h); }
      assert Cell(w, i, h) == Some(w.nodes[i].data[h]);
    }
  }

  // ----- What the repair loops need -----

  lemma EmptyBeforeMono(e: Env, v: View, h: Hash, j: int, k: int)
    requires 0 < |v.nodes| && j <= k
    ensures EmptyBefore(e, v, h, j) <= EmptyBefore(e, v, h, k)
    ensures |EmptyBefore(e, v, h, j)| <= |EmptyBefore(e, v, h, k)|
  {
    SubsetCard(EmptyBefore(e, v, h, j), EmptyBefore(e, v, h, k));
  }

  /** When the walk stops after `k` steps it has filled exactly the target nodes. */
  lemma WalkDone(e: Env, v: View, h: Hash, k: nat)
    requires 0 < |v.nodes| && k <= |v.nodes|
    requires k == 0 || |UpHolders(v, h)| + |EmptyBefore(e, v, h, k)| <= v.replic
    requires k == |v.nodes| || |UpHolders(v, h)| + |EmptyBefore(e, v, h, k)| >= v.replic
    ensures Targets(e, v, h) == EmptyBefore(e, v, h, k)
  {
    if k == 0 { EmptyBeforeZero(e, v, h); }
    forall i | 0 <= i < |v.nodes| ensures i in Targets(e, v, h) <==> i in EmptyBefore(e, v, h, k) {
      var c := RingDistance(Start(e, h, |v.nodes|), |v.nodes|, i);
      RingDistanceStep(Start(e, h, |v.nodes|), |v.nodes|, i);
      if i in EmptyBefore(e, v, h, k) {
        EmptyBeforeMono(e, v, h, c, k);
        assert i !in EmptyBefore(e, v, h, c);
        SubsetCard(EmptyBefore(e, v, h, c), EmptyBefore(e, v, h, k));
      } else if i in EmptyNodes(v, h) {
        EmptyBeforeMono(e, v, h, k, c);
      }
    }
  }

  /** Each node either keeps its data or gets the source bytes, as the repair specification says. */
  ghost predicate RepairedTo(e: Env, v: View, w: View, h: Hash) {
    && |v.nodes| == |w.nodes| && v.replic == w.replic
    && forall i :: 0 <= i < |v.nodes| ==>
         w.nodes[i] == if RepairWrites(e, v, h, i) then v.nodes[i].(data := v.nodes[i].data[h := IntactSource(e, v, h)])
                       else v.nodes[i]
  }

  lemma RepairedToIsRepairOn(e: Env, v: View, w: View, h: Hash)
    requires RepairedTo(e, v, w, h)
    ensures w == RepairOn(e, v, {h})
  {
    RewriteCells(v, {h}, (i, g) => RepairCell(e, v, i, g));
    forall i, g | 0 <= i < |v.nodes| ensures Cell(w, i, g) == Cell(RepairOn(e, v, {h}), i, g) {
    }
    ViewExtensional(w, RepairOn(e, v, {h}));
  }

  /** Everything repair decides about a chunk depends on that chunk's own replicas only. */
  lemma SameColumn(e: Env, a: View, b: View, h: Hash)
    requires SameShape(a, b)
    requires forall i :: 0 <= i < |a.nodes| ==> Cell(a, i, h) == Cell(b, i, h)
    ensures UpHolders(a, h) == UpHolders(b, h) && Holders(a, h) == Holders(b, h)
    ensures IntactHolders(e, a, h) == IntactHolders(e, b, h)
    ensures Targets(e, a, h) == Targets(e, b, h) && CorruptNodes(e, a, h) == CorruptNodes(e, b, h)
    ensures forall i :: 0 <= i < |a.nodes| ==> RepairCell(e, a, i, h) == RepairCell(e, b, i, h)
  {
    forall i | 0 <= i < |a.nodes|
      ensures h in a.nodes[i].data <==> h in b.nodes[i].data
      ensures h in a.nodes[i].data ==> a.nodes[i].data[h] == b.nodes[i].data[h]
    {
      assert Cell(a, i, h) == Cell(b, i, h);
    }
    assert UpHolders(a, h) == UpHolders(b, h);
    forall k | |a.nodes| > 0 ensures EmptyBefore(e, a, h, k) == EmptyBefore(e, b, h, k) {}
  }

  lemma RepairOneMore(e: Env, v: View, d: set<Hash>, h: Hash)
    requires h !in d
    ensures RepairOn(e, RepairOn(e, v, d), {h}) == RepairOn(e, v, d + {h})
    ensures var u := RepairOn(e, v, d);
            && SameShape(u, v)
            && IntactHolders(e, u, h) == IntactHolders(e, v, h)
            && Targets(e, u, h) == Targets(e, v, h) && CorruptNodes(e, u, h) == CorruptNodes(e, v, h)
  {
    var u := RepairOn(e, v, d);
    RewriteCells(v, d, (i, g) => RepairCell(e, v, i, g));
    SameColumn(e, u, v, h);
    RewriteOneMore(v, d, h, (i, g) => RepairCell(e, v, i, g), (i, g) => RepairCell(e, u, i, g));
  }
}
