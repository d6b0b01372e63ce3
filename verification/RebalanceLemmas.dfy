/** What adding, removing and rebalancing achieve, and when they lose a chunk. */
module RebalanceLemmas {
  import opened Common
  import opened ClusterModel

  lemma RebalancedCell(e: Env, v: View, i: int, h: Hash)
    requires 0 <= i < |v.nodes|
    ensures SameShape(v, RebalanceView(e, v))
    ensures Cell(RebalanceView(e, v), i, h) == RebalanceCell(e, v, i, h)
  {
    RewriteCells(v, AllHashes(v), (i, h) => RebalanceCell(e, v, i, h));
    if h !in AllHashes(v) {
      assert UpHolders(v, h) == {};
    }
  }

  lemma UpHoldersMember(v: View, i: int, h: Hash)
    requires 0 <= i < |v.nodes|
    ensures i in UpHolders(v, h) <==> v.nodes[i].up && Cell(v, i, h).Some?
  {
  }

  /** Every chunk with an up holder ends, on the up nodes, exactly on its placement; down nodes keep what they had. */
  lemma RebalanceCanonical(e: Env, v: View, i: int, h: Hash)
    requires 0 <= i < |v.nodes|
    ensures v.nodes[i].up && UpHolders(v, h) != {} ==>
      (Cell(RebalanceView(e, v), i, h).Some? <==> i in Placement(e, v, h))
    ensures !v.nodes[i].up || UpHolders(v, h) == {} ==> Cell(RebalanceView(e, v), i, h) == Cell(v, i, h)
  {
    RebalancedCell(e, v, i, h);
  }

  /** Rebalancing a rebalanced cluster adds, removes and moves nothing. */
  lemma RebalanceIdempotent(e: Env, v: View)
    ensures RebalanceView(e, RebalanceView(e, v)) == RebalanceView(e, v)
  {
    hide *;
    var w := RebalanceView(e, v);
    RebalancedShape(e, v);
    RebalancedShape(e, w);
    forall i, h | 0 <= i < |w.nodes| { RebalanceSettled(e, v, i, h); }
    ViewExtensional(RebalanceView(e, w), w);
  }

  lemma RebalancedShape(e: Env, v: View)
    ensures SameShape(RebalanceView(e, v), v) && |RebalanceView(e, v).nodes| == |v.nodes|
  {
    RewriteCells(v, AllHashes(v), (i, h) => RebalanceCell(e, v, i, h));
  }

  lemma RebalanceSettled(e: Env, v: View, i: int, h: Hash)
    requires 0 <= i < |v.nodes|
    ensures var w := RebalanceView(e, v); Cell(RebalanceView(e, w), i, h) == Cell(w, i, h)
  {
    var w := RebalanceView(e, v);
    RebalancedCell(e, v, i, h);
    RebalancedCell(e, w, i, h);
    UpHoldersMember(w, i, h);
    if UpHolders(v, h) == {} {
      NoUpHolderStays(e, v, h);
    }
  }

  /** A chunk without an up holder is skipped. */
  lemma NoUpHolderStays(e: Env, v: View, h: Hash)
    requires UpHolders(v, h) == {}
    ensures UpHolders(RebalanceView(e, v), h) == {}
  {
    var w := RebalanceView(e, v);
    forall i | 0 <= i < |v.nodes| ensures i !in UpHolders(w, h) {
      RebalancedCell(e, v, i, h);
      assert i !in UpHolders(v, h);
    }
    assert |w.nodes| == |v.nodes|;
  }

  /** A held chunk outlives a rebalance iff some placement node is up, or a down node has it. */
  ghost predicate Keepable(e: Env, v: View, h: Hash)
    requires |v.nodes| > 0
  {
    Placement(e, v, h) * UpNodes(v) != {} || Holders(v, h) * DownNodes(v) != {}
  }

  lemma HeldIff(v: View, h: Hash)
    ensures h in AllHashes(v) <==> Holders(v, h) != {}
  {
    if h in AllHashes(v) {
      var i :| 0 <= i < |v.nodes| && h in v.nodes[i].data;
      assert i in Holders(v, h);
    }
  }

  lemma RebalancedHolders(e: Env, v: View, h: Hash)
    requires |v.nodes| > 0
    ensures Holders(RebalanceView(e, v), h) ==
      if UpHolders(v, h) == {} then Holders(v, h)
      else Placement(e, v, h) * UpNodes(v) + Holders(v, h) * DownNodes(v)
  {
    var w := RebalanceView(e, v);
    forall i | 0 <= i < |v.nodes|
      ensures i in Holders(w, h) <==>
        i in if UpHolders(v, h) == {} then Holders(v, h)
             else Placement(e, v, h) * UpNodes(v) + Holders(v, h) * DownNodes(v)
    {
      RebalancedCell(e, v, i, h);
    }
    assert |w.nodes| == |v.nodes|;
  }

  /** Exactly when a rebalance loses no chunk. */
  lemma RebalanceLosesNothingIff(e: Env, v: View)
    requires |v.nodes| > 0
    ensures AllHashes(RebalanceView(e, v)) <= AllHashes(v)
    ensures AllHashes(RebalanceView(e, v)) == AllHashes(v) <==>
      forall h :: h in AllHashes(v) ==> Keepable(e, v, h)
  {
    var w := RebalanceView(e, v);
    forall h
      ensures h in AllHashes(w) ==> h in AllHashes(v)
      ensures h in AllHashes(v) ==> (h in AllHashes(w) <==> Keepable(e, v, h))
    {
      HeldIff(v, h);
      HeldIff(w, h);
      RebalancedHolders(e, v, h);
      HoldersUpOrDown(v, h);
    }
  }

  lemma HoldersUpOrDown(v: View, h: Hash)
    ensures Holders(v, h) == UpHolders(v, h) + Holders(v, h) * DownNodes(v)
  {
  }

  /** With fewer than R nodes down, some placement node of every chunk is up. */
  lemma PlacementReachable(e: Env, v: View, h: Hash)
    requires Wf(v) && |DownNodes(v)| < v.replic
    ensures Placement(e, v, h) * UpNodes(v) != {}
  {
    PlacementCard(e, h, |v.nodes|, v.replic);
    var i := PickOutside(Placement(e, v, h), DownNodes(v));
    assert i in Placement(e, v, h) * UpNodes(v);
  }

  lemma RebalanceKeepsAll(e: Env, v: View)
    requires Wf(v) && |DownNodes(v)| < v.replic
    ensures AllHashes(RebalanceView(e, v)) == AllHashes(v)
  {
    forall h ensures Keepable(e, v, h) { PlacementReachable(e, v, h); }
    RebalanceLosesNothingIff(e, v);
  }

  lemma RebalanceKeepsIntact(e: Env, v: View)
    requires AllIntact(e, v) && |v.nodes| > 0
    ensures AllIntact(e, RebalanceView(e, v))
  {
    RebalancedCell(e, v, 0, "");
    forall i, h | 0 <= i < |v.nodes| {
      RebalancedCellIntact(e, v, i, h);
    }
    IntactCells(e, RebalanceView(e, v));
  }

  lemma RebalancedCellIntact(e: Env, v: View, i: int, h: Hash)
    requires AllIntact(e, v) && 0 <= i < |v.nodes|
    ensures var cell := Cell(RebalanceView(e, v), i, h); cell.Some? ==> e.digest(cell.value) == h
  {
    RebalancedCell(e, v, i, h);
    if UpHolders(v, h) != {} { SourceCell(v, h); }
  }

  lemma SourceCell(v: View, h: Hash)
    requires UpHolders(v, h) != {}
    ensures Cell(v, Min(UpHolders(v, h)), h) == Some(v.nodes[Min(UpHolders(v, h))].data[h])
  {
    UpHoldersMember(v, Min(UpHolders(v, h)), h);
  }

  lemma IntactCells(e: Env, v: View)
    ensures AllIntact(e, v) <==>
      forall i, h :: 0 <= i < |v.nodes| && Cell(v, i, h).Some? ==> e.digest(Cell(v, i, h).value) == h
  {
    if forall i, h :: 0 <= i < |v.nodes| && Cell(v, i, h).Some? ==> e.digest(Cell(v, i, h).value) == h {
      forall i, h | 0 <= i < |v.nodes| && h in v.nodes[i].data ensures e.digest(v.nodes[i].data[h]) == h {
        assert Cell(v, i, h) == Some(v.nodes[i].data[h]);
      }
    }
  }

  // ----- AddNode -----

  lemma GrowHashes(v: View)
    ensures AllHashes(Grow(v)) == AllHashes(v)
    ensures DownNodes(Grow(v)) == DownNodes(v)
  {
    var g := Grow(v);
    forall i | 0 <= i < |v.nodes| ensures g.nodes[i] == v.nodes[i] {}
    assert g.nodes[|v.nodes|] == NodeView(true, map[]);
  }

  lemma AddNodeKeepsAll(e: Env, v: View)
    requires Wf(v) && |DownNodes(v)| < v.replic
    ensures AllHashes(AddNodeView(e, v)) == AllHashes(v)
  {
    GrowHashes(v);
    RebalanceKeepsAll(e, Grow(v));
  }

  /** The chunk's placement once one more node is there. */
  ghost function GrownPlacement(e: Env, v: View, h: Hash): set<int> {
    PlacementSet(e, h, |v.nodes| + 1, v.replic)
  }

  /** A node of the chunk's new placement is up (the new one always is), or a down node has the chunk. */
  ghost predicate OutlivesGrowth(e: Env, v: View, h: Hash) {
    GrownPlacement(e, v, h) * (UpNodes(v) + {|v.nodes|}) != {} || Holders(v, h) * DownNodes(v) != {}
  }

  /** Exactly when adding a node loses no chunk. */
  lemma AddNodeLosesNothingIff(e: Env, v: View)
    ensures AllHashes(AddNodeView(e, v)) == AllHashes(v) <==>
      forall h :: h in AllHashes(v) ==> OutlivesGrowth(e, v, h)
  {
    hide AllHashes, RebalanceView, Keepable, OutlivesGrowth;
    GrowHashes(v);
    forall h ensures OutlivesGrowth(e, v, h) <==> Keepable(e, Grow(v), h) { GrowKeepable(e, v, h); }
    RebalanceLosesNothingIff(e, Grow(v));
  }

  lemma GrowKeepable(e: Env, v: View, h: Hash)
    ensures OutlivesGrowth(e, v, h) <==> Keepable(e, Grow(v), h)
  {
    var g := Grow(v);
    GrowHashes(v);
    forall i | 0 <= i < |v.nodes| ensures g.nodes[i] == v.nodes[i] {}
    assert g.nodes[|v.nodes|] == NodeView(true, map[]);
    assert UpNodes(g) == UpNodes(v) + {|v.nodes|};
    assert Holders(g, h) == Holders(v, h);
  }

  /** A two-node cluster with R = 1 whose second node, where chunk "" belongs after growing, is down. */
  function LossyEnv(): Env { Env((h: Hash) => 1, (d: Bytes) => "") }

  function LossyView(): View { View([NodeView(true, map["" := []]), NodeView(false, map[])], 1) }

  lemma LossyFacts()
    ensures Wf(LossyView()) && DownNodes(LossyView()) == {1}
    ensures AllIntact(LossyEnv(), LossyView())
    ensures Holders(LossyView(), "") == {0}
    ensures UpHolders(Grow(LossyView()), "") == {0} == Holders(Grow(LossyView()), "")
    ensures DownNodes(Grow(LossyView())) == {1}
  {
    var v := LossyView();
    assert 0 in Holders(v, "");
    assert Grow(v).nodes == [v.nodes[0], v.nodes[1], NodeView(true, map[])];
    assert 0 in UpHolders(Grow(v), "");
  }

  /** The premise is needed: with R = 1 and the new placement node down, AddNode deletes the only copy. */
  lemma AddNodeCanLose()
    ensures var e, v := LossyEnv(), LossyView();
            && Wf(v) && |DownNodes(v)| == v.replic
            && AllIntact(e, v) && "" in AllHashes(v) && "" !in AllHashes(AddNodeView(e, v))
  {
    var e, v := LossyEnv(), LossyView();
    LossyFacts();
    HeldIff(v, "");
    var g := Grow(v);
    assert Start(e, "", 3) == 1;
    assert Placement(e, g, "") == {1};
    RebalancedHolders(e, g, "");
    assert Placement(e, g, "") * UpNodes(g) == {};
    HeldIff(RebalanceView(e, g), "");
  }

  // ----- RemoveNode -----

  ghost function Drained(v: View, id: int): View
    requires 0 <= id < |v.nodes|
  {
    DrainOn(v, id, v.nodes[id].data.Keys)
  }

  lemma DrainedCell(v: View, id: int, i: int, h: Hash)
    requires 0 <= id < |v.nodes| && 0 <= i < |v.nodes|
    ensures SameShape(v, Drained(v, id))
    ensures Cell(Drained(v, id), i, h) == DrainCell(v, id, i, h)
  {
    RewriteCells(v, v.nodes[id].data.Keys, (i, h) => DrainCell(v, id, i, h));
    if Adopts(v, id, i, h) {
      assert id in Holders(v, h);
    }
  }

  lemma DrainKeepsIntact(e: Env, v: View, id: int)
    requires AllIntact(e, v) && 0 <= id < |v.nodes|
    ensures AllIntact(e, Shrink(Drained(v, id), id))
  {
    var d := Drained(v, id);
    forall i, h | 0 <= i < |v.nodes| && h in d.nodes[i].data ensures e.digest(d.nodes[i].data[h]) == h {
      DrainedCell(v, id, i, h);
      assert Cell(d, i, h) == Some(d.nodes[i].data[h]);
    }
  }

  lemma OtherMember(s: set<int>, x: int)
    requires s != {} && s != {x}
    ensures s - {x} != {}
  {
  }

  /** As long as one other node is up, a drained chunk is also held by a node other than the victim. */
  lemma DrainLeavesCopy(v: View, id: int, h: Hash)
    requires 0 <= id < |v.nodes| && UpNodes(v) - {id} != {}
    requires h in AllHashes(v)
    ensures exists i :: 0 <= i < |v.nodes| && i != id && h in Drained(v, id).nodes[i].data
  {
    HeldIff(v, h);
    if Holders(v, h) == {id} {
      var m := Min(UpNodes(v) - {id});
      DrainedCell(v, id, m, h);
      assert id in Holders(v, h);
      assert Cell(Drained(v, id), m, h).Some?;
    } else {
      OtherMember(Holders(v, h), id);
      var i := Min(Holders(v, h) - {id});
      DrainedCell(v, id, i, h);
      assert Cell(Drained(v, id), i, h).Some?;
    }
  }

  lemma DrainInventsNothing(v: View, id: int, h: Hash)
    requires 0 <= id < |v.nodes|
    requires h in AllHashes(Drained(v, id))
    ensures h in AllHashes(v)
  {
    var d := Drained(v, id);
    DrainedCell(v, id, id, h);
    var i :| 0 <= i < |d.nodes| && h in d.nodes[i].data;
    DrainedCell(v, id, i, h);
    assert Cell(d, i, h).Some?;
    assert id in Holders(v, h) || i in Holders(v, h);
    HeldIff(v, h);
  }

  lemma ShrinkHashes(v: View, id: int)
    requires 0 <= id < |v.nodes|
    ensures forall h :: h in AllHashes(Shrink(v, id)) <==>
      exists i :: 0 <= i < |v.nodes| && i != id && h in v.nodes[i].data
  {
    var s := Shrink(v, id);
    forall i, h | 0 <= i < |v.nodes| && i != id && h in v.nodes[i].data ensures h in AllHashes(s) {
      assert s.nodes[if i < id then i else i - 1] == v.nodes[i];
    }
    forall i | 0 <= i < |s.nodes| ensures s.nodes[i] == v.nodes[if i < id then i else i + 1] {}
  }

  lemma ShrinkCell(v: View, id: int, i: int, h: Hash)
    requires 0 <= id < |v.nodes| && 0 <= i < |v.nodes| - 1
    ensures var j := if i < id then i else i + 1;
            && Cell(Shrink(v, id), i, h) == Cell(v, j, h)
            && Shrink(v, id).nodes[i].up == v.nodes[j].up
  {
  }

  lemma SurvivorUp(v: View, id: int)
    requires Removable(v, id)
    requires v.replic >= 1 && |DownNodes(Shrink(v, id))| < v.replic
    ensures UpNodes(v) - {id} != {}
  {
    var s := Shrink(v, id);
    var i := PickOutside(Range(|s.nodes|), DownNodes(s));
    assert s.nodes[i].up;
    var j := if i < id then i else i + 1;
    assert s.nodes[i] == v.nodes[j];
    assert j in UpNodes(v) - {id};
  }

  /** Removing a node while fewer than R of the others are down keeps the set of held chunks exactly. */
  lemma RemoveNodeKeepsAll(e: Env, v: View, id: int)
    requires Wf(v) && Removable(v, id)
    requires |DownNodes(Shrink(v, id))| < v.replic
    ensures AllHashes(RemoveNodeView(e, v, id)) == AllHashes(v)
  {
    var d := Drained(v, id);
    var s := Shrink(d, id);
    SurvivorUp(v, id);
    DrainedCell(v, id, id, "");
    ShrinkHashes(d, id);
    forall h ensures h in AllHashes(s) <==> h in AllHashes(v) {
      if h in AllHashes(v) {
        DrainLeavesCopy(v, id, h);
      }
      if h in AllHashes(s) {
        DrainInventsNothing(v, id, h);
      }
    }
    ShrinkDown(v, d, id);
    RebalanceKeepsAll(e, s);
  }

  /** The chunks left after the drain: all but those only the victim held when no other node was up. */
  lemma DrainCovers(v: View, id: int, h: Hash)
    requires 0 <= id < |v.nodes|
    ensures h in AllHashes(Shrink(Drained(v, id), id)) <==>
      h in AllHashes(v) && (UpNodes(v) - {id} != {} || Holders(v, h) != {id})
  {
    var d := Drained(v, id);
    ShrinkHashes(d, id);
    DrainedCell(v, id, id, "");
    if h in AllHashes(Shrink(d, id)) {
      DrainInventsNothing(v, id, h);
      var i :| 0 <= i < |d.nodes| && i != id && h in d.nodes[i].data;
      DrainedCell(v, id, i, h);
      assert Cell(d, i, h).Some?;
      assert i in Holders(v, h) || UpNodes(v) - {id} != {};
    }
    if h in AllHashes(v) {
      if UpNodes(v) - {id} != {} {
        DrainLeavesCopy(v, id, h);
      } else if Holders(v, h) != {id} {
        HeldIff(v, h);
        OtherMember(Holders(v, h), id);
        var i := Min(Holders(v, h) - {id});
        DrainedCell(v, id, i, h);
        assert Cell(d, i, h).Some?;
      }
    }
  }

  /** The id a node had before the splice of node `id`. */
  function OldId(i: int, id: int): int {
    if i < id then i else i + 1
  }

  /** The nodes, by their old ids, of the chunk's placement once node `id` is gone. */
  ghost function ShrunkPlacement(e: Env, v: View, id: int, h: Hash): set<int>
    requires |v.nodes| > 1
  {
    set i | i in PlacementSet(e, h, |v.nodes| - 1, v.replic) :: OldId(i, id)
  }

  /** A node of the chunk's new placement is up, or a down node other than the victim has the chunk. */
  ghost predicate OutlivesNode(e: Env, v: View, id: int, h: Hash)
    requires |v.nodes| > 1
  {
    ShrunkPlacement(e, v, id, h) * UpNodes(v) != {} || (Holders(v, h) - {id}) * DownNodes(v) != {}
  }

  /** Exactly when removing a node loses no chunk. */
  lemma RemoveNodeLosesNothingIff(e: Env, v: View, id: int)
    requires Wf(v) && Removable(v, id)
    ensures AllHashes(RemoveNodeView(e, v, id)) <= AllHashes(v)
    ensures AllHashes(RemoveNodeView(e, v, id)) == AllHashes(v) <==>
      forall h :: h in AllHashes(v) ==> OutlivesNode(e, v, id, h)
  {
    hide *;
    RemoveParts(e, v, id);
    var w := Shrink(Drained(v, id), id);
    forall h
      ensures h in AllHashes(w) ==> h in AllHashes(v)
      ensures h in AllHashes(v) ==> (OutlivesNode(e, v, id, h) <==> h in AllHashes(w) && Keepable(e, w, h))
    {
      DrainCovers(v, id, h);
      ShrunkKeepable(e, v, id, h);
    }
    RebalanceLosesNothingIff(e, w);
  }

  lemma ShrunkKeepable(e: Env, v: View, id: int, h: Hash)
    requires Wf(v) && Removable(v, id) && |Shrink(Drained(v, id), id).nodes| > 0
    ensures h in AllHashes(v) ==> (OutlivesNode(e, v, id, h) <==>
      h in AllHashes(Shrink(Drained(v, id), id)) && Keepable(e, Shrink(Drained(v, id), id), h))
  {
    var w := Shrink(Drained(v, id), id);
    hide Shrink, Drained, AllHashes;
    ShrunkPlacementUp(e, v, id, h);
    ShrunkDownHolders(v, id, h);
    DrainCovers(v, id, h);
    HoldersOfDown(v, h);
  }

  lemma HoldersOfDown(v: View, h: Hash)
    ensures Holders(v, h) * DownNodes(v) <= Holders(v, h)
  {
  }

  /** The new placement has an up node before the splice iff it has one after it. */
  lemma ShrunkPlacementUp(e: Env, v: View, id: int, h: Hash)
    requires Wf(v) && Removable(v, id) && |Shrink(Drained(v, id), id).nodes| > 0
    ensures ShrunkPlacement(e, v, id, h) * UpNodes(v) != {} <==>
      Placement(e, Shrink(Drained(v, id), id), h) * UpNodes(Shrink(Drained(v, id), id)) != {}
    ensures ShrunkPlacement(e, v, id, h) * UpNodes(v) <= UpNodes(v) - {id}
  {
    hide *;
    SpliceBounds(v, id, h);
    var w := Shrink(Drained(v, id), id);
    var here, there := ShrunkPlacement(e, v, id, h) * UpNodes(v), Placement(e, w, h) * UpNodes(w);
    ShrunkMembers(e, v, id, h);
    if here != {} {
      var i := NewIdOf(e, v, id, h, Min(here));
      assert i in there;
    }
    if there != {} {
      assert OldId(Min(there), id) in here;
    }
  }

  lemma NewIdOf(e: Env, v: View, id: int, h: Hash, j: int) returns (i: int)
    requires Wf(v) && Removable(v, id) && |v.nodes| > 1 && j in ShrunkPlacement(e, v, id, h)
    ensures i in PlacementSet(e, h, |v.nodes| - 1, v.replic) && OldId(i, id) == j
  {
    i :| i in PlacementSet(e, h, |v.nodes| - 1, v.replic) && OldId(i, id) == j;
  }

  /** A node is up and placed before the splice iff it is after it. */
  lemma ShrunkMembers(e: Env, v: View, id: int, h: Hash)
    requires Wf(v) && Removable(v, id) && |Shrink(Drained(v, id), id).nodes| > 0
    ensures |v.nodes| > 1
    ensures var w := Shrink(Drained(v, id), id);
            && Placement(e, w, h) == PlacementSet(e, h, |v.nodes| - 1, v.replic)
            && (forall i :: i in Placement(e, w, h) ==> OldId(i, id) in ShrunkPlacement(e, v, id, h))
            && (forall i :: i in Placement(e, w, h) ==> (i in UpNodes(w) <==> OldId(i, id) in UpNodes(v)))
    ensures ShrunkPlacement(e, v, id, h) * UpNodes(v) <= UpNodes(v) - {id}
  {
    hide RingDistance, Start, Drained, Shrink;
    ShrunkShape(v, id, h);
  }

  lemma ShrunkShape(v: View, id: int, h: Hash)
    requires Wf(v) && Removable(v, id)
    ensures var w := Shrink(Drained(v, id), id);
            && |w.nodes| == |v.nodes| - 1 && w.replic == v.replic
            && forall i :: 0 <= i < |w.nodes| ==> w.nodes[i].up == v.nodes[OldId(i, id)].up
  {
    DrainedCell(v, id, id, h);
    forall i | 0 <= i < |v.nodes| - 1 { ShrinkCell(Drained(v, id), id, i, h); }
  }

  /** The down holders after the splice are the victim's down companions from before it. */
  lemma ShrunkDownHolders(v: View, id: int, h: Hash)
    requires Wf(v) && Removable(v, id)
    ensures var w := Shrink(Drained(v, id), id);
            (Holders(v, h) - {id}) * DownNodes(v) != {} <==> Holders(w, h) * DownNodes(w) != {}
  {
    hide *;
    SpliceBounds(v, id, h);
    var w := Shrink(Drained(v, id), id);
    var before, after := (Holders(v, h) - {id}) * DownNodes(v), Holders(w, h) * DownNodes(w);
    forall i | 0 <= i < |v.nodes| - 1 ensures i in after <==> OldId(i, id) in before {
      DownHolderMoves(v, id, i, h);
    }
    if before != {} {
      var j := Min(before);
      assert (if j < id then j else j - 1) in after;
    }
    if after != {} {
      assert OldId(Min(after), id) in before;
    }
  }

  lemma SpliceBounds(v: View, id: int, h: Hash)
    requires Wf(v) && Removable(v, id)
    ensures 0 <= id < |v.nodes| == |Drained(v, id).nodes| && |Shrink(Drained(v, id), id).nodes| == |v.nodes| - 1 > 0
    ensures forall j :: j in Holders(v, h) ==> 0 <= j < |v.nodes|
    ensures forall i :: i in Holders(Shrink(Drained(v, id), id), h) ==> 0 <= i < |v.nodes| - 1
    ensures forall j :: OldId(j, id) == if j < id then j else j + 1
  {
  }

  lemma DownHolderMoves(v: View, id: int, i: int, h: Hash)
    requires Wf(v) && Removable(v, id) && 0 <= i < |v.nodes| - 1 && |v.nodes| == |Drained(v, id).nodes|
    ensures var w := Shrink(Drained(v, id), id);
            i in Holders(w, h) * DownNodes(w) <==> OldId(i, id) in (Holders(v, h) - {id}) * DownNodes(v)
  {
    var w, j := Shrink(Drained(v, id), id), OldId(i, id);
    DrainedCell(v, id, j, h);
    ShrinkCell(Drained(v, id), id, i, h);
    HolderCell(w, i, h);
    HolderCell(v, j, h);
    if !v.nodes[j].up {
      NotAdoptedDown(v, id, j, h);
    }
  }

  lemma NotAdoptedDown(v: View, id: int, j: int, h: Hash)
    requires 0 <= j < |v.nodes| && !v.nodes[j].up
    ensures !Adopts(v, id, j, h)
  {
  }

  lemma HolderCell(v: View, i: int, h: Hash)
    requires 0 <= i < |v.nodes|
    ensures i in Holders(v, h) <==> Cell(v, i, h).Some?
  {
  }

  lemma RemoveParts(e: Env, v: View, id: int)
    requires Wf(v) && Removable(v, id)
    ensures |v.nodes| > 1 && 0 <= id < |v.nodes| == |Drained(v, id).nodes| && |Shrink(Drained(v, id), id).nodes| > 0
    ensures RemoveNodeView(e, v, id) == RebalanceView(e, Shrink(Drained(v, id), id))
  {
  }

  lemma ShrinkDown(v: View, d: View, id: int)
    requires 0 <= id < |v.nodes| && SameShape(v, d)
    ensures DownNodes(Shrink(d, id)) == DownNodes(Shrink(v, id))
  {
    forall i | 0 <= i < |v.nodes| - 1
      ensures Shrink(d, id).nodes[i].up == Shrink(v, id).nodes[i].up
    {
    }
  }

  // ----- Replica accounting -----

  function Total(nodes: seq<NodeView>): nat {
    if nodes == [] then 0 else |nodes[0].data| + Total(nodes[1..])
  }

  lemma {:induction false} TotalSplit(a: seq<NodeView>, b: seq<NodeView>)
    ensures Total(a + b) == Total(a) + Total(b)
  {
    if a == [] {
      assert a + b == b;
    } else {
      assert (a + b)[1..] == a[1..] + b;
      TotalSplit(a[1..], b);
    }
  }

  lemma {:induction false} TotalIsReplicas(v: View)
    ensures Total(v.nodes) == |Replicas(v)|
    decreases |v.nodes|
  {
    if v.nodes == [] {
      assert Replicas(v) == {};
    } else {
      var n := |v.nodes| - 1;
      var front := v.(nodes := v.nodes[..n]);
      assert v.nodes == v.nodes[..n] + [v.nodes[n]];
      TotalSplit(v.nodes[..n], [v.nodes[n]]);
      TotalIsReplicas(front);
      LastNodeReplicas(v);
    }
  }

  lemma LastNodeReplicas(v: View)
    requires v.nodes != []
    ensures var n := |v.nodes| - 1;
            |Replicas(v)| == |Replicas(v.(nodes := v.nodes[..n]))| + |v.nodes[n].data|
  {
    var n := |v.nodes| - 1;
    var front := Replicas(v.(nodes := v.nodes[..n]));
    var last := set h | h in v.nodes[n].data.Keys :: (n, h);
    FlipTagCard(v.nodes[n].data.Keys, n);
    assert Replicas(v) == front + last;
    assert front !! last;
  }

  lemma {:induction false} FlipTagCard(s: set<Hash>, n: int)
    ensures |(set h | h in s :: (n, h))| == |s|
    decreases |s|
  {
    if s == {} {
      assert (set h | h in s :: (n, h)) == {};
    } else {
      var y :| y in s;
      FlipTagCard(s - {y}, n);
      assert (set h | h in s :: (n, h)) == (set h | h in s - {y} :: (n, h)) + {(n, y)};
    }
  }

  /** Replicas before and after any change differ by those added less those removed. */
  lemma ReplicaDelta(v: View, w: View)
    ensures Total(w.nodes) == Total(v.nodes) + |Replicas(w) - Replicas(v)| - |Replicas(v) - Replicas(w)|
  {
    TotalIsReplicas(v);
    TotalIsReplicas(w);
    var a, b := Replicas(v), Replicas(w);
    assert a == a * b + (a - b);
    assert b == a * b + (b - a);
  }

  lemma ShrinkTotal(v: View, id: int)
    requires 0 <= id < |v.nodes|
    ensures Total(Shrink(v, id).nodes) == Total(v.nodes) - |v.nodes[id].data|
  {
    TotalSplit(v.nodes[..id], v.nodes[id + 1..]);
    TotalSplit(v.nodes[..id], [v.nodes[id]]);
    TotalSplit(v.nodes[..id] + [v.nodes[id]], v.nodes[id + 1..]);
    assert v.nodes == v.nodes[..id] + [v.nodes[id]] + v.nodes[id + 1..];
  }

  // ----- AddNode then RemoveNode -----

  ghost predicate AllUp(v: View) {
    forall i :: 0 <= i < |v.nodes| ==> v.nodes[i].up
  }

  /** Every chunk of `c`, and no other, is on exactly its placement nodes, with the content `c` gives. */
  ghost predicate Canonical(e: Env, v: View, c: map<Hash, Bytes>) {
    && Wf(v) && AllUp(v)
    && forall i, h :: 0 <= i < |v.nodes| ==>
         Cell(v, i, h) == if h in c && i in Placement(e, v, h) then Some(c[h]) else None
  }

  /** The chunks of `c`, and no others, are held somewhere, always with the content `c` gives. */
  ghost predicate Carries(v: View, c: map<Hash, Bytes>) {
    && (forall h :: h in c <==> UpHolders(v, h) != {})
    && (forall i, h :: 0 <= i < |v.nodes| && Cell(v, i, h).Some? ==> h in c && Cell(v, i, h) == Some(c[h]))
  }

  lemma RebalanceMakesCanonical(e: Env, v: View, c: map<Hash, Bytes>)
    requires Wf(v) && AllUp(v) && Carries(v, c)
    ensures Canonical(e, RebalanceView(e, v), c)
  {
    var w := RebalanceView(e, v);
    RewriteCells(v, AllHashes(v), (i, h) => RebalanceCell(e, v, i, h));
    forall i, h | 0 <= i < |w.nodes|
      ensures Cell(w, i, h) == if h in c && i in Placement(e, w, h) then Some(c[h]) else None
    {
      RebalancedCell(e, v, i, h);
      if UpHolders(v, h) != {} {
        var m := Min(UpHolders(v, h));
        assert Cell(v, m, h) == Some(v.nodes[m].data[h]);
      } else {
        UpHoldersMember(v, i, h);
      }
    }
  }

  lemma CanonicalCarries(e: Env, v: View, c: map<Hash, Bytes>)
    requires Canonical(e, v, c)
    ensures Carries(v, c)
  {
    forall h ensures h in c <==> UpHolders(v, h) != {} {
      if h in c {
        PlacementCard(e, h, |v.nodes|, v.replic);
        assert Placement(e, v, h) != {};
        var i := Min(Placement(e, v, h));
        UpHoldersMember(v, i, h);
      }
      forall i | i in UpHolders(v, h) ensures h in c {
        assert Cell(v, i, h).Some?;
      }
    }
  }

  lemma GrowCarries(v: View, c: map<Hash, Bytes>)
    requires AllUp(v) && Carries(v, c)
    ensures AllUp(Grow(v)) && Carries(Grow(v), c)
  {
    var g := Grow(v);
    forall i, h | 0 <= i < |g.nodes| ensures Cell(g, i, h) == Cell(v, i, h) {}
    forall h ensures UpHolders(g, h) == UpHolders(v, h) {
      forall i ensures i in UpHolders(g, h) <==> i in UpHolders(v, h) {
        if 0 <= i < |v.nodes| { assert g.nodes[i] == v.nodes[i]; }
      }
    }
  }

  lemma DrainShrinkUp(v: View, id: int)
    requires AllUp(v) && 0 <= id < |v.nodes|
    ensures AllUp(Shrink(Drained(v, id), id))
  {
    DrainedCell(v, id, id, "");
    forall i | 0 <= i < |v.nodes| - 1 ensures Shrink(Drained(v, id), id).nodes[i].up {
      ShrinkCell(Drained(v, id), id, i, "");
    }
  }

  lemma DrainShrinkContent(v: View, id: int, c: map<Hash, Bytes>, i: int, h: Hash)
    requires Carries(v, c) && 0 <= id < |v.nodes| && 0 <= i < |v.nodes| - 1
    ensures var cell := Cell(Shrink(Drained(v, id), id), i, h); cell.Some? ==> h in c && cell == Some(c[h])
  {
    DrainedCell(v, id, if i < id then i else i + 1, h);
    ShrinkCell(Drained(v, id), id, i, h);
  }

  lemma DrainShrinkCarries(v: View, id: int, c: map<Hash, Bytes>)
    requires AllUp(v) && Carries(v, c) && 0 <= id < |v.nodes| && |v.nodes| >= 2
    ensures AllUp(Shrink(Drained(v, id), id)) && Carries(Shrink(Drained(v, id), id), c)
  {
    var s := Shrink(Drained(v, id), id);
    DrainShrinkUp(v, id);
    DrainedCell(v, id, id, "");
    forall i, h | 0 <= i < |s.nodes| {
      DrainShrinkContent(v, id, c, i, h);
    }
    forall h ensures h in c <==> UpHolders(s, h) != {} {
      AllUpHolders(s, h);
      AllUpHolders(v, h);
      if h in c {
        DrainReaches(v, id, h);
      }
      if UpHolders(s, h) != {} { SourceCell(s, h); }
    }
  }

  lemma DrainReaches(v: View, id: int, h: Hash)
    requires AllUp(v) && 0 <= id < |v.nodes| && |v.nodes| >= 2 && h in AllHashes(v)
    ensures h in AllHashes(Shrink(Drained(v, id), id))
  {
    assert (if id == 0 then 1 else 0) in UpNodes(v) - {id};
    DrainLeavesCopy(v, id, h);
    DrainedCell(v, id, id, h);
    ShrinkHashes(Drained(v, id), id);
  }

  lemma AllUpHolders(v: View, h: Hash)
    requires AllUp(v)
    ensures h in AllHashes(v) <==> UpHolders(v, h) != {}
  {
    HeldIff(v, h);
    assert UpHolders(v, h) == Holders(v, h);
  }

  /** Adding a node to a canonical, all-up cluster and removing it again restores the original data. */
  lemma AddThenRemoveRestores(e: Env, v: View, c: map<Hash, Bytes>)
    requires Canonical(e, v, c)
    ensures var w := AddNodeView(e, v);
            Canonical(e, w, c) && |w.nodes| == |v.nodes| + 1 &&
            Removable(w, |v.nodes|) && RemoveNodeView(e, w, |v.nodes|) == v
  {
    var w := AddNodeView(e, v);
    CanonicalCarries(e, v, c);
    GrowCarries(v, c);
    RebalanceMakesCanonical(e, Grow(v), c);
    RewriteCells(Grow(v), AllHashes(Grow(v)), (i, h) => RebalanceCell(e, Grow(v), i, h));
    CanonicalCarries(e, w, c);
    DrainShrinkCarries(w, |v.nodes|, c);
    var s := Shrink(Drained(w, |v.nodes|), |v.nodes|);
    DrainedCell(w, |v.nodes|, 0, "");
    RebalanceMakesCanonical(e, s, c);
    var r := RebalanceView(e, s);
    RewriteCells(s, AllHashes(s), (i, h) => RebalanceCell(e, s, i, h));
    ViewExtensional(r, v);
  }

  // ----- What the rebalance loops need -----

  lemma SameColumnHolders(a: View, b: View, h: Hash)
    requires SameShape(a, b)
    requires forall i :: 0 <= i < |a.nodes| ==> Cell(a, i, h) == Cell(b, i, h)
    ensures UpHolders(a, h) == UpHolders(b, h) && Holders(a, h) == Holders(b, h)
  {
    forall i | 0 <= i < |a.nodes|
      ensures h in a.nodes[i].data <==> h in b.nodes[i].data
    {
      assert Cell(a, i, h) == Cell(b, i, h);
    }
  }

  lemma SameColumnRebalance(e: Env, a: View, b: View, h: Hash, i: int)
    requires SameShape(a, b) && 0 <= i < |a.nodes|
    requires forall i :: 0 <= i < |a.nodes| ==> Cell(a, i, h) == Cell(b, i, h)
    ensures RebalanceCell(e, a, i, h) == RebalanceCell(e, b, i, h)
  {
    SameColumnHolders(a, b, h);
    if UpHolders(a, h) != {} {
      SourceCell(a, h);
      SourceCell(b, h);
    }
  }

  lemma RebalanceOneMore(e: Env, v: View, d: set<Hash>, h: Hash)
    requires h !in d
    ensures RebalanceOn(e, RebalanceOn(e, v, d), {h}) == RebalanceOn(e, v, d + {h})
    ensures var u := RebalanceOn(e, v, d);
            SameShape(u, v) && UpHolders(u, h) == UpHolders(v, h) && Holders(u, h) == Holders(v, h)
  {
    var u := RebalanceOn(e, v, d);
    RewriteCells(v, d, (i, g) => RebalanceCell(e, v, i, g));
    SameColumnHolders(u, v, h);
    forall i | 0 <= i < |v.nodes| { SameColumnRebalance(e, u, v, h, i); }
    RewriteOneMore(v, d, h, (i, g) => RebalanceCell(e, v, i, g), (i, g) => RebalanceCell(e, u, i, g));
  }

  lemma DrainOneMore(v: View, id: int, d: set<Hash>, h: Hash)
    requires h !in d && 0 <= id < |v.nodes|
    ensures DrainOn(DrainOn(v, id, d), id, {h}) == DrainOn(v, id, d + {h})
    ensures var u := DrainOn(v, id, d);
            && SameShape(u, v) && Holders(u, h) == Holders(v, h)
            && Cell(u, id, h) == Cell(v, id, h)
  {
    var u := DrainOn(v, id, d);
    RewriteCells(v, d, (i, g) => DrainCell(v, id, i, g));
    SameColumnHolders(u, v, h);
    assert UpNodes(u) == UpNodes(v);
    RewriteOneMore(v, d, h, (i, g) => DrainCell(v, id, i, g), (i, g) => DrainCell(u, id, i, g));
  }

  /** Up placement nodes that lack the chunk, and up nodes off the placement that have it. */
  ghost function Gains(e: Env, v: View, h: Hash): set<int> {
    if UpHolders(v, h) == {} then {} else Placement(e, v, h) * UpNodes(v) - Holders(v, h)
  }

  ghost function Losses(e: Env, v: View, h: Hash): set<int> {
    if UpHolders(v, h) == {} then {} else UpHolders(v, h) - Placement(e, v, h)
  }

  lemma GainsAndLosses(e: Env, v: View, h: Hash)
    ensures Holders(RebalanceView(e, v), h) == Holders(v, h) + Gains(e, v, h) - Losses(e, v, h)
    ensures Gains(e, v, h) !! Holders(v, h) && Losses(e, v, h) <= Holders(v, h)
  {
    if |v.nodes| > 0 {
      RebalancedHolders(e, v, h);
    } else {
      assert UpHolders(v, h) == {};
      NoUpHolderStays(e, v, h);
      RebalancedShape(e, v);
    }
  }

  ghost function GainsOn(e: Env, v: View, d: set<Hash>): set<(int, Hash)> {
    set i, h | h in d && i in Gains(e, v, h) :: (i, h)
  }

  ghost function LossesOn(e: Env, v: View, d: set<Hash>): set<(int, Hash)> {
    set i, h | h in d && i in Losses(e, v, h) :: (i, h)
  }

  ghost function MovedOn(e: Env, v: View, d: set<Hash>): set<Hash> {
    set h | h in d && Gains(e, v, h) + Losses(e, v, h) != {}
  }

  lemma MovesOneMore(e: Env, v: View, d: set<Hash>, h: Hash)
    requires h !in d
    ensures |GainsOn(e, v, d + {h})| == |GainsOn(e, v, d)| + |Gains(e, v, h)|
    ensures |LossesOn(e, v, d + {h})| == |LossesOn(e, v, d)| + |Losses(e, v, h)|
    ensures |MovedOn(e, v, d + {h})| == |MovedOn(e, v, d)| + if Gains(e, v, h) + Losses(e, v, h) != {} then 1 else 0
  {
    hide *;
    GainsOneMore(e, v, d, h);
    LossesOneMore(e, v, d, h);
    MovedOneMore(e, v, d, h);
  }

  lemma GainsOneMore(e: Env, v: View, d: set<Hash>, h: Hash)
    requires h !in d
    ensures |GainsOn(e, v, d + {h})| == |GainsOn(e, v, d)| + |Gains(e, v, h)|
  {
    hide Gains;
    PairsOneMore(GainsOn(e, v, d), GainsOn(e, v, d + {h}), Gains(e, v, h), h);
  }

  lemma LossesOneMore(e: Env, v: View, d: set<Hash>, h: Hash)
    requires h !in d
    ensures |LossesOn(e, v, d + {h})| == |LossesOn(e, v, d)| + |Losses(e, v, h)|
  {
    hide Losses;
    PairsOneMore(LossesOn(e, v, d), LossesOn(e, v, d + {h}), Losses(e, v, h), h);
  }

  lemma MovedOneMore(e: Env, v: View, d: set<Hash>, h: Hash)
    requires h !in d
    ensures |MovedOn(e, v, d + {h})| == |MovedOn(e, v, d)| + if Gains(e, v, h) + Losses(e, v, h) != {} then 1 else 0
  {
    hide Gains, Losses;
    assert MovedOn(e, v, d + {h}) == MovedOn(e, v, d) + if Gains(e, v, h) + Losses(e, v, h) != {} then {h} else {};
  }

  /** The chunks whose holder set differs between two views. */
  ghost function HolderChanges(v: View, w: View): set<Hash> {
    set h | h in AllHashes(v) && Holders(w, h) != Holders(v, h)
  }

  lemma ReplicaIn(v: View, i: int, h: Hash)
    ensures (i, h) in Replicas(v) <==> i in Holders(v, h)
    ensures (i, h) in Replicas(v) ==> h in AllHashes(v)
  {
  }

  /** Added, removed and moved are exactly the differences between the clusters before and after. */
  lemma MovesAreDifferences(e: Env, v: View)
    ensures var w, d := RebalanceView(e, v), AllHashes(v);
            && GainsOn(e, v, d) == Replicas(w) - Replicas(v)
            && LossesOn(e, v, d) == Replicas(v) - Replicas(w)
            && MovedOn(e, v, d) == HolderChanges(v, w)
  {
    var w, d := RebalanceView(e, v), AllHashes(v);
    forall i, h
      ensures (i, h) in GainsOn(e, v, d) <==> (i, h) in Replicas(w) - Replicas(v)
      ensures (i, h) in LossesOn(e, v, d) <==> (i, h) in Replicas(v) - Replicas(w)
    {
      PairMoves(e, v, d, i, h);
    }
    forall h ensures h in MovedOn(e, v, d) <==> h in HolderChanges(v, w) {
      ChunkMoves(e, v, h);
    }
  }

  lemma PairMoves(e: Env, v: View, d: set<Hash>, i: int, h: Hash)
    requires d == AllHashes(v)
    ensures (i, h) in GainsOn(e, v, d) <==> (i, h) in Replicas(RebalanceView(e, v)) - Replicas(v)
    ensures (i, h) in LossesOn(e, v, d) <==> (i, h) in Replicas(v) - Replicas(RebalanceView(e, v))
  {
    hide *;
    var w := RebalanceView(e, v);
    GainsAndLosses(e, v, h);
    ReplicaIn(v, i, h);
    ReplicaIn(w, i, h);
    InMoves(e, v, d, i, h);
    MovesAreHeld(e, v, h, i);
  }

  lemma MovesAreHeld(e: Env, v: View, h: Hash, i: int)
    ensures i in Gains(e, v, h) || i in Losses(e, v, h) ==> h in AllHashes(v)
  {
    HeldIff(v, h);
    HoldersUpOrDown(v, h);
  }

  lemma InMoves(e: Env, v: View, d: set<Hash>, i: int, h: Hash)
    ensures (i, h) in GainsOn(e, v, d) <==> h in d && i in Gains(e, v, h)
    ensures (i, h) in LossesOn(e, v, d) <==> h in d && i in Losses(e, v, h)
  {
  }

  lemma ChunkMoves(e: Env, v: View, h: Hash)
    ensures h in MovedOn(e, v, AllHashes(v)) <==> h in HolderChanges(v, RebalanceView(e, v))
  {
    GainsAndLosses(e, v, h);
  }
}
