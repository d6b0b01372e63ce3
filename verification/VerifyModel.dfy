/** What a verification pass over the chunk store reports. */
module VerifyModel {
  import opened Common
  import opened Ordering
  import opened Manifests
  import opened StoreModel

  datatype VerifyResult = VerifyResult(checked: nat, bad: nat, firstBad: string)

  ghost function Bad(digest: Bytes -> Hash, s: Store, hashes: set<Hash>): set<Hash> {
    set h | h in hashes && h in s.chunks && digest(s.chunks[h]) != h
  }

  /** `first` is the least member but "", or "" when there is none. */
  ghost predicate LeastBut(s: set<Hash>, first: string) {
    && (first == "" <==> s <= {""})
    && (first != "" ==> first in s && forall h :: h in s && h != "" ==> !StrLess(h, first))
  }

  /** All chunks checked, all bad ones counted, the least bad hash reported; an empty hash is never reported. */
  ghost predicate Verified(digest: Bytes -> Hash, s: Store, hashes: set<Hash>, r: VerifyResult) {
    var bad := Bad(digest, s, hashes);
    r.checked == |hashes| && r.bad == |bad| && LeastBut(bad, r.firstBad)
  }

  /** A verification is clean exactly when every covered chunk is intact, as referential integrity guarantees. */
  lemma VerifiedClean(digest: Bytes -> Hash, s: Store, hashes: set<Hash>, r: VerifyResult)
    requires Verified(digest, s, hashes, r) && hashes <= s.chunks.Keys
    ensures r.bad == 0 <==> forall h :: h in hashes ==> digest(s.chunks[h]) == h
    ensures Integral(digest, s) ==> r.bad == 0 && r.firstBad == ""
  {
    var bad := Bad(digest, s, hashes);
    if forall h :: h in hashes ==> digest(s.chunks[h]) == h {
      assert bad == {};
    }
    if r.bad == 0 {
      forall h | h in hashes ensures digest(s.chunks[h]) == h { assert h !in bad; }
    }
  }

  ghost predicate Verifying(digest: Bytes -> Hash, s: Store, all: seq<Hash>, k: nat, r: VerifyResult) {
    && k <= |all| && Ascending(StrLess, all)
    && (forall j :: 0 <= j < k ==> all[j] in s.chunks)
    && r.checked == k
    && Verified(digest, s, Elems(all[..k]), r)
  }

  lemma VerifyStart(digest: Bytes -> Hash, s: Store, all: seq<Hash>)
    requires Ascending(StrLess, all)
    ensures Verifying(digest, s, all, 0, VerifyResult(0, 0, ""))
  {
    assert Elems(all[..0]) == {};
    assert Bad(digest, s, {}) == {};
  }

  lemma VerifyMember(hashes: set<Hash>, s: Store, all: seq<Hash>, k: nat)
    requires Lists(StrLess, all, hashes) && k < |all|
    ensures all[k] !in s.chunks ==> !(hashes <= s.chunks.Keys)
  {
    assert all[k] in Elems(all);
  }

  lemma VerifyStep(digest: Bytes -> Hash, s: Store, all: seq<Hash>, k: nat, r: VerifyResult)
    requires Verifying(digest, s, all, k, r) && k < |all| && all[k] in s.chunks
    ensures digest(s.chunks[all[k]]) == all[k] ==> Verifying(digest, s, all, k + 1, r.(checked := r.checked + 1))
    ensures digest(s.chunks[all[k]]) != all[k] ==>
      Verifying(digest, s, all, k + 1,
                VerifyResult(r.checked + 1, r.bad + 1, if r.firstBad == "" then all[k] else r.firstBad))
  {
    hide Verified, Elems, Ascending;
    OneMoreHash(all, k);
    VerifiedOneMore(digest, s, Elems(all[..k]), all[k], r);
  }

  lemma VerifiedOneMore(digest: Bytes -> Hash, s: Store, before: set<Hash>, h: Hash, r: VerifyResult)
    requires Verified(digest, s, before, r) && h in s.chunks && h !in before
    requires forall g :: g in before ==> StrLess(g, h)
    ensures digest(s.chunks[h]) == h ==> Verified(digest, s, before + {h}, r.(checked := r.checked + 1))
    ensures digest(s.chunks[h]) != h ==>
      Verified(digest, s, before + {h},
               VerifyResult(r.checked + 1, r.bad + 1, if r.firstBad == "" then h else r.firstBad))
  {
    if digest(s.chunks[h]) == h {
      GoodOneMore(digest, s, before, h, r);
    } else {
      BadFirst(digest, s, before, h, r);
    }
  }

  lemma GoodOneMore(digest: Bytes -> Hash, s: Store, before: set<Hash>, h: Hash, r: VerifyResult)
    requires Verified(digest, s, before, r) && h in s.chunks && h !in before && digest(s.chunks[h]) == h
    ensures Verified(digest, s, before + {h}, r.(checked := r.checked + 1))
  {
    hide Bad, StrLess;
    BadOneMore(digest, s, before, h);
  }

  lemma BadFirst(digest: Bytes -> Hash, s: Store, before: set<Hash>, h: Hash, r: VerifyResult)
    requires Verified(digest, s, before, r) && h in s.chunks && h !in before
    requires forall g :: g in before ==> StrLess(g, h)
    requires digest(s.chunks[h]) != h
    ensures Verified(digest, s, before + {h},
                     VerifyResult(r.checked + 1, r.bad + 1, if r.firstBad == "" then h else r.firstBad))
  {
    hide Bad;
    BadOneMore(digest, s, before, h);
    LeastOneMore(Bad(digest, s, before), h, r.firstBad);
  }

  lemma LeastOneMore(s: set<Hash>, h: Hash, first: string)
    requires LeastBut(s, first) && forall g :: g in s ==> StrLess(g, h)
    ensures LeastBut(s + {h}, if first == "" then h else first)
  {
    hide StrLess;
    StrLessIrreflexive(h);
    if first != "" && StrLess(h, first) {
      StrLessTransitive(h, first, h);
    }
    forall g | g in s ensures h != "" { EmptyIsLeast(g); }
  }

  lemma EmptyIsLeast(g: string)
    ensures !StrLess(g, "")
  {
  }

  lemma BadOneMore(digest: Bytes -> Hash, s: Store, before: set<Hash>, h: Hash)
    requires h in s.chunks && h !in before
    ensures Bad(digest, s, before) <= before && |before + {h}| == |before| + 1
    ensures Bad(digest, s, before + {h}) == Bad(digest, s, before) + if digest(s.chunks[h]) == h then {} else {h}
    ensures |Bad(digest, s, before + {h})| == |Bad(digest, s, before)| + if digest(s.chunks[h]) == h then 0 else 1
  {
  }

  lemma OneMoreHash(all: seq<Hash>, k: nat)
    requires Ascending(StrLess, all) && k < |all|
    ensures Elems(all[..k + 1]) == Elems(all[..k]) + {all[k]} && all[k] !in Elems(all[..k])
    ensures |Elems(all[..k + 1])| == |Elems(all[..k])| + 1
    ensures forall h :: h in Elems(all[..k]) ==> StrLess(h, all[k])
  {
    assert all[..k + 1] == all[..k] + [all[k]];
    StrLessStrictTotal();
  }

  lemma VerifyDone(digest: Bytes -> Hash, s: Store, all: seq<Hash>, hashes: set<Hash>, r: VerifyResult)
    requires Lists(StrLess, all, hashes) && Verifying(digest, s, all, |all|, r)
    ensures Verified(digest, s, hashes, r) && hashes <= s.chunks.Keys
  {
    assert all[..|all|] == all;
    forall h | h in hashes ensures h in s.chunks { assert h in Elems(all); }
  }
}
