/** What the store's operations keep, write and drop, told from the recorded numbers and bytes alone. */
module StoreLaws {
  import opened Common
  import opened Ordering
  import opened Manifests
  import opened Chunker
  import opened StoreModel
  import opened SnapshotHistory

  // ----- Retention -----

  /** What a retention keeps has the greatest sequence numbers, and the greatest names among equal ones. */
  lemma KeptAreGreatest(s: Store, keep: nat, n: string, m: string)
    requires n in KeptNames(s, keep) && m in Listed(s) && m !in KeptNames(s, keep)
    ensures s.snapshots[m].seqNo <= s.snapshots[n].seqNo
    ensures s.snapshots[m].seqNo == s.snapshots[n].seqNo ==> StrLess(m, n)
  {
    var a, b := Key(s.snapshots[m].seqNo, m), Key(s.snapshots[n].seqNo, n);
    if a.seqNo > b.seqNo || (a.seqNo == b.seqNo && !StrLess(m, n)) {
      if m != n { StrLessTotal(m, n); }
      FewerNewer(s, a, b);
      assert false;
    }
  }

  lemma FewerNewer(s: Store, a: Key, b: Key)
    requires Newer(a, b)
    ensures |NewerThan(s, a)| <= |NewerThan(s, b)|
  {
    NewerStrictTotal();
    assert NewerThan(s, a) <= NewerThan(s, b);
    SubsetCard(NewerThan(s, a), NewerThan(s, b));
  }

  /** It keeps as many as asked for, or all there are. */
  lemma KeptCount(s: Store, keep: nat)
    ensures |KeptNames(s, keep)| == if keep < |Listed(s)| then keep else |Listed(s)|
  {
    hide Newer, KeptNames, NamesIn, KeysOf;
    var all := NewestFirstListing(s);
    var k := if keep < |all| then keep else |all|;
    KeyCount(s);
    assert all[..k] + all[k..] == all;
    RetainedAreNewest(s, keep, all[..k], all[k..]);
    NewerStrictTotal();
    ListingCard(Newer, all[..k]);
    KeptListed(s, keep);
    KeyCountOver(s, KeptNames(s, keep));
    KeptKeys(s, KeptNames(s, keep), all[..k]);
  }

  lemma KeptListed(s: Store, keep: nat)
    ensures KeptNames(s, keep) <= Listed(s) <= s.snapshots.Keys
  {
  }

  lemma KeptKeys(s: Store, names: set<string>, keys: seq<Key>)
    requires NamesIn(keys) == names <= Listed(s) && forall k :: k in keys ==> k in KeysOf(s)
    ensures (set n | n in names :: Key(s.snapshots[n].seqNo, n)) == Elems(keys)
  {
  }

  lemma NewestFirstListing(s: Store) returns (all: seq<Key>)
    ensures Lists(Newer, all, KeysOf(s)) && |all| == |KeysOf(s)|
  {
    var xs := Enumeration(KeysOf(s));
    NewerStrictTotal();
    SortListing(Newer, xs);
    all := Sort(Newer, xs);
    ListingCard(Newer, all);
  }

  lemma {:induction false} Enumeration(keys: set<Key>) returns (xs: seq<Key>)
    ensures Distinct(xs) && Elems(xs) == keys
    decreases |keys|
  {
    if keys == {} {
      xs := [];
    } else {
      var k :| k in keys;
      var rest := Enumeration(keys - {k});
      assert k !in Elems(rest);
      xs := rest + [k];
      assert Elems(xs) == Elems(rest) + {k};
    }
  }

  /** The listed names after a retention are the kept ones. */
  lemma RetainLists(s: Store, keep: nat)
    ensures Listed(RetainStore(s, keep)) == KeptNames(s, keep)
  {
  }

  /**
   * A snapshot just taken under a non-empty name survives every retention, and a retention of one leaves only it,
   * unless the counter was exhausted.
   */
  lemma LatestSurvives(digest: Bytes -> Hash, s: Store, name: string, tree: Tree, n: nat, keep: nat)
    requires n > 0 && name != "" && keep >= 1
    requires MaxSeq(s) < 0xffff_ffff_ffff_ffff
    ensures var t := SnapshotStore(digest, s, name, tree, n);
      && name in Listed(RetainStore(t, keep))
      && Listed(RetainStore(t, 1)) == {name}
  {
    var t := SnapshotStore(digest, s, name, tree, n);
    var latest := Key(t.snapshots[name].seqNo, name);
    assert latest in KeysOf(t);
    assert latest.seqNo == MaxSeq(s) + 1;
    forall m | m in Listed(t) && m != name
      ensures t.snapshots[m].seqNo < latest.seqNo && latest in NewerThan(t, Key(t.snapshots[m].seqNo, m))
    {
      assert m in Listed(s);
    }
    StrLessIrreflexive(name);
    assert NewerThan(t, latest) == {};
    RetainLists(t, keep);
    RetainLists(t, 1);
    forall m | m in Listed(t) && m != name ensures !IsKept(t, 1, m) {
      NotEmpty(NewerThan(t, Key(t.snapshots[m].seqNo, m)), latest);
    }
  }

  lemma NotEmpty(keys: set<Key>, k: Key)
    requires k in keys
    ensures |keys| >= 1
  {
    SubsetCard({k}, keys);
  }

  /** What each operation of a history does to the listed names; the manifests it does not write stay as they are. */
  lemma StepLists(digest: Bytes -> Hash, s: Store, op: Op)
    ensures var t := Step(digest, s, op);
      && Listed(t) == (match op
                       case Snapshot(name, _, _) => Listed(s) + ({name} - {""})
                       case Drop(name) => Listed(s) - {name}
                       case Gc => Listed(s)
                       case Retain(keep) => if keep == 0 then Listed(s) else KeptNames(s, keep))
      && (forall n :: n in Listed(t) && !(op.Snapshot? && n == op.name) ==>
            n in s.snapshots && t.snapshots[n] == s.snapshots[n])
      && (op == Retain(0) ==> t == s)
  {
  }

  // ----- Snapshot -----

  /** The manifest of a snapshot, field by field: each file with its size and as many chunks as its cut has pieces. */
  lemma SnapshotRecordsFields(digest: Bytes -> Hash, s: Store, name: string, tree: Tree, n: nat, i: nat)
    requires n > 0 && i < |tree|
    ensures var t := SnapshotStore(digest, s, name, tree, n);
      && name in t.snapshots
      && var m := t.snapshots[name];
      && m.name == name && m.chunkSize == n % 0x1_0000_0000 && m.seqNo == (MaxSeq(s) + 1) % 0x1_0000_0000_0000_0000
      && |m.files| == |tree|
      && m.files[i].path == tree[i].0 && m.files[i].size == |tree[i].1|
      && (|m.files[i].chunks| - 1) * n < |tree[i].1| <= |m.files[i].chunks| * n
  {
    PieceCount(tree[i].1, n);
  }

  lemma {:induction false} PieceCount(content: Bytes, n: nat)
    requires n > 0
    ensures (|Split(content, n)| - 1) * n < |content| <= |Split(content, n)| * n
    decreases |content|
  {
    if |content| > n {
      PieceCount(content[n..], n);
      var k := |Split(content[n..], n)|;
      assert k * n == (k - 1) * n + n && (k + 1) * n == k * n + n;
    }
  }

  /** Chunk `j` of a file is the digest of the bytes from `j * n` on, up to the chunk size or the end. */
  lemma ChunkIsDigest(digest: Bytes -> Hash, path: string, content: Bytes, n: nat, j: nat)
    requires n > 0 && j * n < |content|
    ensures var chunks := FileOf(digest, path, content, n).chunks;
      && j < |chunks|
      && chunks[j] == digest(content[j * n..if j * n + n < |content| then j * n + n else |content|])
  {
    PieceAt(content, n, j, j * n);
  }

  lemma {:induction false} PieceAt(content: Bytes, n: nat, j: nat, at: nat)
    requires n > 0 && at == j * n && at < |content|
    ensures var pieces := Split(content, n);
      && j < |pieces| && pieces[j] == content[at..if at + n < |content| then at + n else |content|]
    decreases j
  {
    if j == 0 {
      assert content[0..|content|] == content;
    } else {
      assert (j - 1) * n == at - n;
      assert at >= n by { if j > 1 { assert (j - 1) * n >= n; } }
      PieceAt(content[n..], n, j - 1, at - n);
    }
  }

  /** No size given means four kibibytes. */
  lemma DefaultSize()
    ensures EffectiveSize(0) == 4 * 1024
  {
  }
}
