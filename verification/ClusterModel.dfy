/** The cluster as a value, chunk by chunk. */
module ClusterModel {
  import opened Common

  /** What the cluster code calls out to: the FNV-64a seed of a hash and the content digest. */
  datatype Env = Env(seed: Hash -> nat, digest: Bytes -> Hash)

  datatype NodeView = NodeView(up: bool, data: map<Hash, Bytes>)

  datatype View = View(nodes: seq<NodeView>, replic: nat)

  ghost predicate Wf(v: View) {
    1 <= v.replic <= |v.nodes|
  }

  // ----- Placement -----

  function Start(e: Env, h: Hash, n: nat): (s: nat)
    requires n > 0
  {
    e.seed(h) % n
  }

  /** How many steps clockwise from `start` node `i` is on a ring of `n` nodes. */
  function RingDistance(start: int, n: int, i: int): int {
    if i >= start then i - start else i - start + n
  }

  /** The node reached after `k` steps, as the code computes it. */
  function RingStep(start: int, n: int, k: int): int
    requires n > 0
  {
    (start + k) % n
  }

  lemma WrapOnce(a: int, n: int)
    requires 0 < n <= a < 2 * n
    ensures a % n == a - n
  {
  }

  lemma RingStepDistance(start: int, n: int, k: int)
    requires 0 <= start < n && 0 <= k < n
    ensures 0 <= RingStep(start, n, k) < n
    ensures RingDistance(start, n, RingStep(start, n, k)) == k
    ensures RingStep(start, n, k) == if start + k < n then start + k else start + k - n
  {
    if start + k >= n {
      WrapOnce(start + k, n);
    }
  }

  lemma RingDistanceStep(start: int, n: int, i: int)
    requires 0 <= start < n && 0 <= i < n
    ensures 0 <= RingDistance(start, n, i) < n
    ensures RingStep(start, n, RingDistance(start, n, i)) == i
  {
    RingStepDistance(start, n, RingDistance(start, n, i));
  }

  /** The nodes less than `r` steps from the chunk's start node. */
  ghost function PlacementSet(e: Env, h: Hash, n: nat, r: nat): set<int>
    requires n > 0
  {
    set i | 0 <= i < n && RingDistance(Start(e, h, n), n, i) < r
  }

  /** The replicas of a chunk are on `r` distinct nodes. */
  lemma {:induction false} PlacementCard(e: Env, h: Hash, n: nat, r: nat)
    requires r <= n && n > 0
    ensures |PlacementSet(e, h, n, r)| == r
  {
    var s := Start(e, h, n);
    forall i | 0 <= i < n ensures RingDistance(s, n, i) >= 0 { RingDistanceStep(s, n, i); }
    if r == 0 {
      assert PlacementSet(e, h, n, r) == {};
    } else {
      PlacementCard(e, h, n, r - 1);
      var last := RingStep(s, n, r - 1);
      RingStepDistance(s, n, r - 1);
      forall i | 0 <= i < n && RingDistance(s, n, i) == r - 1 ensures i == last {
        RingDistanceStep(s, n, i);
      }
      assert PlacementSet(e, h, n, r) == PlacementSet(e, h, n, r - 1) + {last};
    }
  }

  ghost function Placement(e: Env, v: View, h: Hash): set<int>
    requires |v.nodes| > 0
  {
    PlacementSet(e, h, |v.nodes|, v.replic)
  }

  // ----- Cells: one chunk on one node -----

  function Cell(v: View, i: int, h: Hash): Option<Bytes> {
    if 0 <= i < |v.nodes| && h in v.nodes[i].data then Some(v.nodes[i].data[h]) else None
  }

  ghost predicate SameShape(a: View, b: View) {
    && |a.nodes| == |b.nodes| && a.replic == b.replic
    && forall i :: 0 <= i < |a.nodes| ==> a.nodes[i].up == b.nodes[i].up
  }

  lemma NodeExtensional(a: View, b: View, i: int)
    requires SameShape(a, b) && 0 <= i < |a.nodes|
    requires forall h :: Cell(a, i, h) == Cell(b, i, h)
    ensures a.nodes[i] == b.nodes[i]
  {
    var m, m' := a.nodes[i].data, b.nodes[i].data;
    forall h ensures (h in m <==> h in m') && (h in m ==> m[h] == m'[h]) {
      assert Cell(a, i, h) == Cell(b, i, h);
    }
    assert m == m';
  }

  /** Two views with the same shape and the same cells are the same view. */
  lemma ViewExtensional(a: View, b: View)
    requires SameShape(a, b)
    requires forall i, h :: 0 <= i < |a.nodes| ==> Cell(a, i, h) == Cell(b, i, h)
    ensures a == b
  {
    forall i | 0 <= i < |a.nodes| ensures a.nodes[i] == b.nodes[i] {
      NodeExtensional(a, b, i);
    }
    assert a.nodes == b.nodes;
  }

  function RewriteData(m: map<Hash, Bytes>, d: set<Hash>, g: Hash -> Option<Bytes>): map<Hash, Bytes> {
    map h | h in m.Keys + d && (h in d ==> g(h).Some?) :: if h in d then g(h).value else m[h]
  }

  /** The view whose chunks in `d` have the cells `f` gives them, all else unchanged. */
  function Rewrite(v: View, d: set<Hash>, f: (int, Hash) -> Option<Bytes>): (r: View)
    ensures |r.nodes| == |v.nodes| && r.replic == v.replic
  {
    v.(nodes := seq(|v.nodes|, i requires 0 <= i < |v.nodes| =>
      v.nodes[i].(data := RewriteData(v.nodes[i].data, d, (h: Hash) => f(i, h)))))
  }

  lemma RewriteCells(v: View, d: set<Hash>, f: (int, Hash) -> Option<Bytes>)
    ensures SameShape(v, Rewrite(v, d, f))
    ensures forall i, h :: 0 <= i < |v.nodes| ==>
      Cell(Rewrite(v, d, f), i, h) == if h in d then f(i, h) else Cell(v, i, h)
  {
  }

  /** Rewriting chunk by chunk gives the same view in any order, as each step reads its own chunk only. */
  lemma RewriteOneMore(v: View, d: set<Hash>, h: Hash,
                       f: (int, Hash) -> Option<Bytes>, g: (int, Hash) -> Option<Bytes>)
    requires h !in d
    requires forall i :: 0 <= i < |v.nodes| ==> g(i, h) == f(i, h)
    ensures Rewrite(Rewrite(v, d, f), {h}, g) == Rewrite(v, d + {h}, f)
  {
    var a := Rewrite(v, d, f);
    RewriteCells(v, d, f);
    RewriteCells(a, {h}, g);
    RewriteCells(v, d + {h}, f);
    ViewExtensional(Rewrite(a, {h}, g), Rewrite(v, d + {h}, f));
  }

  ghost function AllHashes(v: View): set<Hash> {
    set i, h | 0 <= i < |v.nodes| && h in v.nodes[i].data :: h
  }

  ghost function DownNodes(v: View): set<int> {
    set i | 0 <= i < |v.nodes| && !v.nodes[i].up
  }

  ghost function UpNodes(v: View): set<int> {
    set i | 0 <= i < |v.nodes| && v.nodes[i].up
  }

  ghost function Holders(v: View, h: Hash): set<int> {
    set i | 0 <= i < |v.nodes| && h in v.nodes[i].data
  }

  ghost function UpHolders(v: View, h: Hash): set<int> {
    set i | 0 <= i < |v.nodes| && v.nodes[i].up && h in v.nodes[i].data
  }

  /** Up nodes whose replica still reproduces its content-address. */
  ghost function IntactHolders(e: Env, v: View, h: Hash): set<int> {
    set i | 0 <= i < |v.nodes| && v.nodes[i].up && h in v.nodes[i].data && e.digest(v.nodes[i].data[h]) == h
  }

  /** Every replica, on every node, reproduces its content-address. */
  ghost predicate AllIntact(e: Env, v: View) {
    forall i, h :: 0 <= i < |v.nodes| && h in v.nodes[i].data ==> e.digest(v.nodes[i].data[h]) == h
  }

  /** All replicas in the cluster, as (node, hash) pairs. */
  ghost function Replicas(v: View): set<(int, Hash)> {
    set i, h | 0 <= i < |v.nodes| && h in v.nodes[i].data :: (i, h)
  }

  /** Adding the pairs of one more chunk adds as many pairs as that chunk has nodes. */
  lemma PairsOneMore(before: set<(int, Hash)>, after: set<(int, Hash)>, nodes: set<int>, h: Hash)
    requires forall i, g :: (i, g) in before ==> g != h
    requires forall i, g :: (i, g) in after <==> (i, g) in before || (i in nodes && g == h)
    ensures |after| == |before| + |nodes|
  {
    TagCard(nodes, h);
    var tagged := Tag(nodes, h);
    forall p: (int, Hash)
      ensures p in after <==> p in before + tagged
      ensures !(p in before && p in tagged)
    {
      TagMember(nodes, h, p.0);
      assert p == (p.0, p.1);
    }
    assert after == before + tagged;
    assert before !! tagged;
  }

  // ----- Put and Get -----

  ghost function PutView(e: Env, v: View, h: Hash, d: Bytes): View
    requires |v.nodes| > 0
  {
    Rewrite(v, {h}, (i, g) => if i in Placement(e, v, h) then Some(d) else Cell(v, i, h))
  }

  /** The serving replica: least up holder inside the placement, else least up holder anywhere. */
  ghost function GetView(e: Env, v: View, h: Hash): Option<(Bytes, int)>
    requires |v.nodes| > 0
  {
    var up := UpHolders(v, h);
    var placed := up * Placement(e, v, h);
    if up == {} then None
    else
      var id := if placed != {} then Min(placed) else Min(up);
      Some((v.nodes[id].data[h], id))
  }

  ghost function SetUpView(v: View, id: int, up: bool): View {
    if 0 <= id < |v.nodes| then v.(nodes := v.nodes[id := v.nodes[id].(up := up)]) else v
  }

  ghost function RecoverAllView(v: View): View {
    v.(nodes := seq(|v.nodes|, i requires 0 <= i < |v.nodes| => v.nodes[i].(up := true)))
  }

  // ----- Repair -----

  /** Up nodes without the chunk that the repair walk meets in fewer than `k` steps. */
  ghost function EmptyBefore(e: Env, v: View, h: Hash, k: int): set<int>
    requires |v.nodes| > 0
  {
    var n := |v.nodes|;
    set i | 0 <= i < n && v.nodes[i].up && h !in v.nodes[i].data && RingDistance(Start(e, h, n), n, i) < k
  }

  ghost predicate Corrupt(e: Env, v: View, h: Hash, i: int)
    requires 0 <= i < |v.nodes|
  {
    v.nodes[i].up && h in v.nodes[i].data && e.digest(v.nodes[i].data[h]) != h
  }

  /** Node `i` receives a copy: it is up, empty, and reached before the chunk has enough replicas. */
  ghost predicate Target(e: Env, v: View, h: Hash, i: int)
    requires 0 <= i < |v.nodes|
  {
    && v.nodes[i].up && h !in v.nodes[i].data
    && |UpHolders(v, h)| + |EmptyBefore(e, v, h, RingDistance(Start(e, h, |v.nodes|), |v.nodes|, i))| < v.replic
  }

  ghost predicate RepairWrites(e: Env, v: View, h: Hash, i: int) {
    0 <= i < |v.nodes| && IntactHolders(e, v, h) != {} && (Corrupt(e, v, h, i) || Target(e, v, h, i))
  }

  /** The bytes repair copies from: those of the least-numbered intact up holder. */
  ghost function IntactSource(e: Env, v: View, h: Hash): Bytes
    requires IntactHolders(e, v, h) != {}
  {
    v.nodes[Min(IntactHolders(e, v, h))].data[h]
  }

  ghost function RepairCell(e: Env, v: View, i: int, h: Hash): Option<Bytes> {
    if RepairWrites(e, v, h, i) then Some(IntactSource(e, v, h)) else Cell(v, i, h)
  }

  /** Repair restricted to the chunks in `d`. */
  ghost function RepairOn(e: Env, v: View, d: set<Hash>): View {
    Rewrite(v, d, (i, h) => RepairCell(e, v, i, h))
  }

  ghost function RepairView(e: Env, v: View): View {
    RepairOn(e, v, AllHashes(v))
  }

  // ----- Rebalance, AddNode, RemoveNode -----

  ghost function RebalanceCell(e: Env, v: View, i: int, h: Hash): Option<Bytes> {
    var cell := Cell(v, i, h);
    if !(0 <= i < |v.nodes|) || !v.nodes[i].up || UpHolders(v, h) == {} then cell
    else if i !in Placement(e, v, h) then None
    else if cell.Some? then cell
    else Some(v.nodes[Min(UpHolders(v, h))].data[h])
  }

  ghost function RebalanceOn(e: Env, v: View, d: set<Hash>): View {
    Rewrite(v, d, (i, h) => RebalanceCell(e, v, i, h))
  }

  ghost function RebalanceView(e: Env, v: View): View {
    RebalanceOn(e, v, AllHashes(v))
  }

  ghost function Grow(v: View): View {
    v.(nodes := v.nodes + [NodeView(true, map[])])
  }

  ghost function AddNodeView(e: Env, v: View): View {
    RebalanceView(e, Grow(v))
  }

  /** Node `i` takes over chunk `h` when `id` is its only holder and `i` is the first other up node. */
  ghost predicate Adopts(v: View, id: int, i: int, h: Hash) {
    Holders(v, h) == {id} && UpNodes(v) - {id} != {} && i == Min(UpNodes(v) - {id})
  }

  ghost function DrainCell(v: View, id: int, i: int, h: Hash): Option<Bytes> {
    if Adopts(v, id, i, h) then Cell(v, id, h) else Cell(v, i, h)
  }

  ghost function DrainOn(v: View, id: int, d: set<Hash>): View {
    Rewrite(v, d, (i, h) => DrainCell(v, id, i, h))
  }

  ghost function Shrink(v: View, id: int): View
    requires 0 <= id < |v.nodes|
  {
    v.(nodes := v.nodes[..id] + v.nodes[id + 1..])
  }

  ghost predicate Removable(v: View, id: int) {
    0 <= id < |v.nodes| && v.replic <= |v.nodes| - 1
  }

  ghost function RemoveNodeView(e: Env, v: View, id: int): View
    requires Removable(v, id)
  {
    RebalanceView(e, Shrink(DrainOn(v, id, v.nodes[id].data.Keys), id))
  }

  // ----- A new cluster -----

  ghost function NewView(n: nat, r: nat): View {
    View(seq(n, i => NodeView(true, map[])), r)
  }
}
