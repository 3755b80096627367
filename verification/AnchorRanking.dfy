/** The order in which a cleanup considers entries, and what it may evict. */
module AnchorRanking {
  import opened Options
  import opened Sets
  import opened AnchorDirectory

  /** The sort key: protected first, then by last use, latest first. */
  predicate Ahead(a: Entry, b: Entry, keep: Option<Key>) {
    var p, q := keep == Some(a.key), keep == Some(b.key);
    if p == q then a.used >= b.used else p
  }

  predicate Ranked(es: seq<Entry>, keep: Option<Key>) {
    forall i, j :: 0 <= i < j < |es| ==> Ahead(es[i], es[j], keep)
  }

  function Insert(es: seq<Entry>, e: Entry, keep: Option<Key>): seq<Entry> {
    if es != [] && Ahead(es[0], e, keep) then [es[0]] + Insert(es[1..], e, keep) else [e] + es
  }

  lemma {:induction false} InsertMembers(es: seq<Entry>, e: Entry, keep: Option<Key>)
    ensures forall x :: x in Insert(es, e, keep) <==> x in es || x == e
  {
    if es != [] && Ahead(es[0], e, keep) {
      InsertMembers(es[1..], e, keep);
    }
  }

  lemma {:induction false} InsertRanked(es: seq<Entry>, e: Entry, keep: Option<Key>)
    requires Ranked(es, keep)
    ensures Ranked(Insert(es, e, keep), keep)
  {
    var r := Insert(es, e, keep);
    if es != [] && Ahead(es[0], e, keep) {
      InsertRanked(es[1..], e, keep);
      InsertMembers(es[1..], e, keep);
      forall x | x in r[1..] ensures Ahead(es[0], x, keep) {
        if x != e {
          var i :| 0 <= i < |es| - 1 && es[1..][i] == x;
          assert Ahead(es[0], es[i + 1], keep);
        }
      }
    }
  }

  lemma {:induction false} InsertDistinct(es: seq<Entry>, e: Entry, keep: Option<Key>)
    requires DistinctKeys(es) && e.key !in KeysOf(es)
    ensures DistinctKeys(Insert(es, e, keep))
  {
    if es != [] && Ahead(es[0], e, keep) {
      assert DistinctKeys(es[1..]);
      InsertDistinct(es[1..], e, keep);
      InsertMembers(es[1..], e, keep);
      forall x | x in Insert(es[1..], e, keep) ensures x.key != es[0].key {
        if x == e {
          assert es[0] in es;
        } else {
          var i :| 0 <= i < |es| - 1 && es[1..][i] == x;
          assert es[0].key != es[i + 1].key;
        }
      }
    } else {
      forall j | 0 <= j < |es| ensures es[j].key != e.key {
        assert es[j] in es;
      }
    }
  }

  /** The sorted list of noted entries. */
  method SortEntries(entries: map<Key, Entry>, keep: Option<Key>) returns (order: seq<Entry>)
    requires forall k :: k in entries ==> entries[k].key == k
    ensures DistinctKeys(order) && Ranked(order, keep)
    ensures forall e :: e in order <==> e.key in entries && entries[e.key] == e
  {
    order := [];
    var todo := entries.Keys;
    while todo != {}
      invariant todo <= entries.Keys && DistinctKeys(order) && Ranked(order, keep)
      invariant forall e :: e in order <==> e.key in entries && e.key !in todo && entries[e.key] == e
      decreases todo
    {
      var k :| k in todo;
      todo := todo - {k};
      InsertMembers(order, entries[k], keep);
      InsertRanked(order, entries[k], keep);
      InsertDistinct(order, entries[k], keep);
      order := Insert(order, entries[k], keep);
    }
  }

  // ---------------------------------------------------------------------
  // Why an entry goes
  // ---------------------------------------------------------------------

  predicate Overfull(kept: seq<Entry>, n: nat, e: Entry)
    requires n <= |kept|
  {
    n == MAX_ENTRIES || SumOfSizes(kept[..n] + [e]) > MAX_BYTES
  }

  function SumOfSizes(es: seq<Entry>): nat {
    if es == [] then 0
    else
      var n := |es| - 1;
      var a := es[n].artifact;
      SumOfSizes(es[..n]) + if a.Some? && a.value.sha !in Sizes(es[..n]) then a.value.size else 0
  }

  /** Entries used no earlier leave no room for this one. */
  ghost predicate Justified(kept: seq<Entry>, e: Entry, keep: Option<Key>) {
    keep != Some(e.key) &&
    exists n: nat :: n <= |kept| && (forall j :: 0 <= j < n ==> Ahead(kept[j], e, keep)) && Overfull(kept, n, e)
  }

  /** Running totals agree with the set of artifacts named. */
  lemma {:induction false} SumOfSizesIsSum(d: Directory, es: seq<Entry>)
    requires Backs(d, es)
    ensures SumOfSizes(es) == Sum(Sizes(es))
  {
    if es != [] {
      var n := |es| - 1;
      assert es == es[..n] + [es[n]];
      SumOfSizesIsSum(d, es[..n]);
      SizesMeaning(d, es[..n]);
      var a, before := es[n].artifact, Sizes(es[..n]);
      if a.Some? {
        if a.value.sha in before {
          assert before[a.value.sha := a.value.size] == before;
        } else {
          SumWith(before, a.value.sha, a.value.size);
        }
      }
    }
  }

  lemma SmallerSum(d: Directory, es: seq<Entry>, fs: seq<Entry>)
    requires Backs(d, fs) && forall e :: e in es ==> e in fs
    ensures SumOfSizes(es) <= SumOfSizes(fs)
  {
    SumOfSizesIsSum(d, es);
    SumOfSizesIsSum(d, fs);
    SizesMeaning(d, es);
    SizesMeaning(d, fs);
    SumMonotone(Sizes(es), Sizes(fs));
  }

  /** Nothing is evicted from a cache that fits. */
  lemma FittingIsKept(d: Directory, order: seq<Entry>, kept: seq<Entry>, keep: Option<Key>)
    requires Backs(d, order) && DistinctKeys(order) && DistinctKeys(kept)
    requires forall e :: e in kept ==> e in order
    requires forall e :: e in order ==> e in kept || Justified(kept, e, keep)
    requires |order| <= MAX_ENTRIES && SumOfSizes(order) <= MAX_BYTES
    ensures forall e :: e in order ==> e in kept
  {
    forall e | e in order ensures e in kept {
      if e !in kept {
        var n: nat :| n <= |kept| && (forall j :: 0 <= j < n ==> Ahead(kept[j], e, keep)) && Overfull(kept, n, e);
        SmallerSum(d, kept[..n] + [e], order);
        KeysCount(order);
        KeysCount(kept);
        OneMore(order, kept, e);
      }
    }
  }

  lemma OneMore(order: seq<Entry>, kept: seq<Entry>, e: Entry)
    requires DistinctKeys(order) && e in order && e !in kept
    requires forall x :: x in kept ==> x in order
    ensures |KeysOf(kept)| < |KeysOf(order)|
  {
    assert e.key in KeysOf(order);
    SubsetCount(KeysOf(kept), KeysOf(order));
  }
}
