/** Re-hashing every replica of the cluster. */
module DeepVerify {
  import opened Common
  import opened Ordering
  import opened ClusterModel
  import opened RepairLemmas

  /** The replicas on node `i` that no longer reproduce their content-address. */
  ghost function BadOn(e: Env, v: View, i: int): set<Hash>
    requires 0 <= i < |v.nodes|
  {
    set h | h in v.nodes[i].data && e.digest(v.nodes[i].data[h]) != h
  }

  /** Deep verification finds nothing on the up nodes exactly when all their replicas are intact. */
  lemma CleanIff(e: Env, v: View)
    ensures (forall i :: i in UpNodes(v) ==> BadOn(e, v, i) == {})
            <==> forall h :: IntactHolders(e, v, h) == UpHolders(v, h)
  {
    if forall i :: i in UpNodes(v) ==> BadOn(e, v, i) == {} {
      forall h, i | i in UpHolders(v, h) ensures i in IntactHolders(e, v, h) {
        assert i in UpNodes(v) && h !in BadOn(e, v, i);
      }
    }
    if forall h :: IntactHolders(e, v, h) == UpHolders(v, h) {
      forall i, h | i in UpNodes(v) && h in v.nodes[i].data ensures h !in BadOn(e, v, i) {
        assert i in UpHolders(v, h);
      }
    }
  }

  /** After a repair the bad replicas left on an up node are exactly those of chunks no up node holds intact. */
  lemma RepairLeavesBad(e: Env, v: View, i: int)
    requires Wf(v) && i in UpNodes(v)
    ensures |RepairView(e, v).nodes| == |v.nodes|
    ensures BadOn(e, RepairView(e, v), i) == set h | h in BadOn(e, v, i) && IntactHolders(e, v, h) == {}
  {
    var w := RepairView(e, v);
    RepairedCell(e, v, i, "");
    forall h ensures h in BadOn(e, w, i) <==> h in BadOn(e, v, i) && IntactHolders(e, v, h) == {} {
      RepairedCell(e, v, i, h);
      BadCell(e, v, i, h);
      BadCell(e, w, i, h);
      if IntactHolders(e, v, h) != {} {
        assert Min(IntactHolders(e, v, h)) in IntactHolders(e, v, h);
      }
    }
  }

  lemma BadCell(e: Env, v: View, i: int, h: Hash)
    requires 0 <= i < |v.nodes|
    ensures h in BadOn(e, v, i) <==> Cell(v, i, h).Some? && e.digest(Cell(v, i, h).value) != h
  {
  }

  // ----- The report, replica by replica -----

  /** One node's result from a deep verification. */
  datatype NodeVerify = NodeVerify(ID: int, up: bool, checked: nat, bad: seq<Hash>)

  ghost predicate Reports(e: Env, v: View, i: int, nv: NodeVerify)
    requires 0 <= i < |v.nodes|
  {
    && nv.ID == i && nv.up == v.nodes[i].up
    && nv.checked == (if nv.up then |v.nodes[i].data| else 0)
    && Lists(StrLess, nv.bad, if nv.up then BadOn(e, v, i) else {})
  }

  /** The replicas among `done` that fail their content-address, listed as met. */
  ghost predicate BadSoFar(e: Env, v: View, i: int, done: set<Hash>, bad: seq<Hash>)
    requires 0 <= i < |v.nodes|
  {
    Distinct(bad) && Elems(bad) == BadOn(e, v, i) * done
  }

  lemma BadStart(e: Env, v: View, i: int)
    requires 0 <= i < |v.nodes|
    ensures BadSoFar(e, v, i, {}, [])
  {
  }

  lemma BadStep(e: Env, v: View, i: int, done: set<Hash>, bad: seq<Hash>, h: Hash)
    requires 0 <= i < |v.nodes| && BadSoFar(e, v, i, done, bad) && h in v.nodes[i].data && h !in done
    ensures e.digest(v.nodes[i].data[h]) != h ==> BadSoFar(e, v, i, done + {h}, bad + [h])
    ensures e.digest(v.nodes[i].data[h]) == h ==> BadSoFar(e, v, i, done + {h}, bad)
  {
    assert h !in Elems(bad);
    assert Elems(bad + [h]) == Elems(bad) + {h};
    if e.digest(v.nodes[i].data[h]) != h {
      assert BadOn(e, v, i) * (done + {h}) == BadOn(e, v, i) * done + {h};
    } else {
      assert BadOn(e, v, i) * (done + {h}) == BadOn(e, v, i) * done;
    }
  }

  lemma BadDone(e: Env, v: View, i: int, bad: seq<Hash>)
    requires 0 <= i < |v.nodes| && BadSoFar(e, v, i, v.nodes[i].data.Keys, bad)
    ensures Lists(StrLess, Sort(StrLess, bad), BadOn(e, v, i))
  {
    StrLessStrictTotal();
    SortListing(StrLess, bad);
    assert BadOn(e, v, i) * v.nodes[i].data.Keys == BadOn(e, v, i);
  }

  lemma ReportIs(e: Env, v: View, i: int, nv: NodeVerify)
    requires 0 <= i < |v.nodes| && nv.ID == i && nv.up == v.nodes[i].up
    requires nv.up ==> nv.checked == |v.nodes[i].data.Keys| && Lists(StrLess, nv.bad, BadOn(e, v, i))
    requires !nv.up ==> nv.checked == 0 && nv.bad == []
    ensures Reports(e, v, i, nv)
  {
  }
}
