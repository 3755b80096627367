/** Which keys a cleanup may evict, in terms of access stamps, file times and
    artifact sizes alone. */
module AnchorRecency {
  import opened Options
  import opened Sets
  import opened AnchorDirectory
  import opened AnchorRanking

  predicate Valued(d: Directory, k: Key) { RegisterOf(d, k).Published? || RegisterOf(d, k) == Poisoned }

  ghost predicate NoEarlier(d: Directory, o: Key, k: Key) {
    forall s, t :: LastTouched(d, o, s) && LastTouched(d, k, t) ==> s >= t
  }

  ghost predicate NamedBy(d: Directory, ks: set<Key>, s: Sha) {
    exists k :: k in ks && RegisterOf(d, k).Published? && RegisterOf(d, k).anchor.sha == s
  }

  /** The bytes of the artifacts some keys name, each artifact once. */
  ghost function Weight(d: Directory, ks: set<Key>): nat {
    Sum(map s | s in d.artifacts && NamedBy(d, ks, s) :: d.artifacts[s].size)
  }

  /** An evicted key had to give way to surviving keys, each protected or used
      no earlier: sixteen of them, or so many bytes that its artifact does not
      fit beside theirs. */
  ghost predicate Outranked(d: Directory, d': Directory, keep: Option<Key>, k: Key) {
    keep != Some(k) && exists others: set<Key> :: Crowded(d, d', keep, k, others)
  }

  ghost predicate Crowded(d: Directory, d': Directory, keep: Option<Key>, k: Key, others: set<Key>) {
    k !in others && (forall o :: o in others ==> Survives(d, d', o) && (keep == Some(o) || NoEarlier(d, o, k))) &&
    (|others| == 16 || Weight(d, others + {k}) > 4294967296)
  }

  /** A published key with an access stamp later than any other key's last use. */
  ghost predicate LatestUse(d: Directory, k: Key) {
    RegisterOf(d, k).Published? && k in d.access &&
    forall j, t :: j != k && LastTouched(d, j, t) ==> t < d.access[k]
  }

  ghost predicate Survives(d: Directory, d': Directory, o: Key) {
    Valued(d, o) && RegisterOf(d', o) == RegisterOf(d, o)
  }

  ghost predicate RecencyLaw(d: Directory, d': Directory, keep: Option<Key>) {
    forall k :: Valued(d, k) && RegisterOf(d', k) == Absent ==> Outranked(d, d', keep, k)
  }

  // ---------------------------------------------------------------------
  // From entries to keys
  // ---------------------------------------------------------------------

  /** Entries that say of their keys what the directory says. */
  ghost predicate Truthful(d: Directory, es: seq<Entry>) {
    Backs(d, es) &&
    (forall e :: e in es ==> Valued(d, e.key) && LastTouched(d, e.key, e.used)) &&
    forall e, a :: e in es ==> (e.artifact == Some(a) <==> RegisterOf(d, e.key) == Published(a))
  }

  lemma WeightOfEntries(d: Directory, es: seq<Entry>)
    requires Truthful(d, es)
    ensures Weight(d, KeysOf(es)) == SumOfSizes(es)
  {
    SizesMeaning(d, es);
    SumOfSizesIsSum(d, es);
    forall s ensures NamedBy(d, KeysOf(es), s) <==> s in Sizes(es) {
      if NamedBy(d, KeysOf(es), s) {
        var k :| k in KeysOf(es) && RegisterOf(d, k).Published? && RegisterOf(d, k).anchor.sha == s;
        var e :| e in es && e.key == k;
        assert e.artifact == Some(RegisterOf(d, k).anchor);
      }
      if s in Sizes(es) {
        var e :| e in es && e.artifact.Some? && e.artifact.value.sha == s;
        assert RegisterOf(d, e.key) == Published(e.artifact.value) && e.key in KeysOf(es);
      }
    }
    assert (map s | s in d.artifacts && NamedBy(d, KeysOf(es), s) :: d.artifacts[s].size) == Sizes(es);
  }

  /** A justified loss is an outranked key. */
  lemma JustifiedIsOutranked(d: Directory, d': Directory, keep: Option<Key>, kept: seq<Entry>, e: Entry)
    requires Truthful(d, kept + [e]) && DistinctKeys(kept) && Justified(kept, e, keep)
    requires e.key !in KeysOf(kept) && forall x :: x in kept ==> Survives(d, d', x.key)
    ensures Outranked(d, d', keep, e.key)
  {
    var n: nat :| n <= |kept| && (forall j :: 0 <= j < n ==> Ahead(kept[j], e, keep)) && Overfull(kept, n, e);
    PrefixCrowds(d, d', keep, kept, n, e);
  }

  lemma PrefixCrowds(d: Directory, d': Directory, keep: Option<Key>, kept: seq<Entry>, n: nat, e: Entry)
    requires n <= |kept| && (forall j :: 0 <= j < n ==> Ahead(kept[j], e, keep)) && Overfull(kept, n, e)
    requires Truthful(d, kept + [e]) && DistinctKeys(kept)
    requires e.key !in KeysOf(kept) && forall x :: x in kept ==> Survives(d, d', x.key)
    ensures Crowded(d, d', keep, e.key, KeysOf(kept[..n]))
  {
    AheadAreNoEarlier(d, kept, n, e, keep);
    WeightWith(d, kept, n, e);
    KeysCount(kept[..n]);
    PrefixSurvives(d, d', kept, n, e.key);
  }

  lemma PrefixSurvives(d: Directory, d': Directory, kept: seq<Entry>, n: nat, k: Key)
    requires n <= |kept| && k !in KeysOf(kept) && forall x :: x in kept ==> Survives(d, d', x.key)
    ensures k !in KeysOf(kept[..n]) && forall o :: o in KeysOf(kept[..n]) ==> Survives(d, d', o)
  {
    assert forall x :: x in kept[..n] ==> x in kept;
  }

  lemma AheadAreNoEarlier(d: Directory, kept: seq<Entry>, n: nat, e: Entry, keep: Option<Key>)
    requires n <= |kept| && Truthful(d, kept + [e]) && forall j :: 0 <= j < n ==> Ahead(kept[j], e, keep)
    ensures forall x :: x in kept[..n] ==> keep == Some(x.key) || NoEarlier(d, x.key, e.key)
  {
    assert e in kept + [e];
    forall x | x in kept[..n] ensures keep == Some(x.key) || NoEarlier(d, x.key, e.key) {
      assert x in kept + [e];
    }
  }

  lemma WeightWith(d: Directory, kept: seq<Entry>, n: nat, e: Entry)
    requires n <= |kept| && Truthful(d, kept + [e])
    ensures Weight(d, KeysOf(kept[..n]) + {e.key}) == SumOfSizes(kept[..n] + [e])
  {
    var some := kept[..n] + [e];
    assert forall x :: x in some ==> x in kept + [e];
    assert Truthful(d, some);
    WeightOfEntries(d, some);
    forall k ensures k in KeysOf(some) <==> k in KeysOf(kept[..n]) + {e.key} {
      if k == e.key { assert e in some; }
      if k in KeysOf(kept[..n]) {
        var x :| x in kept[..n] && x.key == k;
        assert x in some;
      }
    }
    assert KeysOf(some) == KeysOf(kept[..n]) + {e.key};
  }

  /** The latest use of all is never evicted, unless a protected key's artifact
      leaves no room for it. */
  lemma LatestStays(d: Directory, d': Directory, keep: Option<Key>, k: Key)
    requires Sound(d) && RecencyLaw(d, d', keep) && RegisterOf(d, k).Published? && k in d.access
    requires forall j, t :: j != k && keep != Some(j) && LastTouched(d, j, t) ==> t < d.access[k]
    ensures RegisterOf(d', k) == Absent ==>
      keep.Some? && keep != Some(k) && Weight(d, {keep.value, k}) > 4294967296
  {
    if RegisterOf(d', k) == Absent {
      assert Outranked(d, d', keep, k);
      var others: set<Key> :| Crowded(d, d', keep, k, others);
      forall o | o in others ensures keep == Some(o) {
        var t := TimeOf(d, o);
        assert LastTouched(d, k, d.access[k]);
      }
      AtMostOne(others, keep);
      WeightOfOne(d, k);
      assert others == {} ==> others + {k} == {k};
      assert others != {} ==> others + {k} == {keep.value, k};
    }
  }

  lemma TimeOf(d: Directory, k: Key) returns (t: int)
    requires Valued(d, k)
    ensures LastTouched(d, k, t)
  {
    t := if k in d.access && !GarbageAt(d, k) then d.access[k]
         else if k in d.poisoned then d.poisoned[k] else d.receipts[k].mtime;
  }

  lemma AtMostOne(others: set<Key>, keep: Option<Key>)
    requires forall o :: o in others ==> keep == Some(o)
    ensures |others| <= 1 && (others != {} ==> keep.Some? && others == {keep.value})
  {
    if keep.Some? {
      SubsetCount(others, {keep.value});
    } else {
      assert others == {};
    }
  }

  lemma WeightOfOne(d: Directory, k: Key)
    requires Sound(d) && RegisterOf(d, k).Published?
    ensures Weight(d, {k}) <= 4294967296
  {
    var a := RegisterOf(d, k).anchor;
    var m := map s | s in d.artifacts && NamedBy(d, {k}, s) :: d.artifacts[s].size;
    assert NamedBy(d, {k}, a.sha);
    assert m == map[a.sha := a.size];
    SumWithout(m, a.sha);
    assert m - {a.sha} == map[];
  }
}
