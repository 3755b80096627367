/** The cache's operations, every one of which may fail or be cut short at any
    step on the file system. */
module AnchorCache {
  import opened Options
  import opened Sets
  import opened AnchorDirectory
  import opened AnchorRanking
  import opened AnchorRecency

  /** What becomes of one step: it works, it fails before or after it took
      effect, or the client is killed before it. */
  datatype Fate = Works | Fails | Late | Killed

  predicate Lands(f: Fate) { f == Works || f == Late }

  datatype Reason = TooLarge | KeyPoisoned | KeyBroken | Inconsistent | Divergent

  /** The answer to a client: `Stopped` stands for an I/O error or a crash. */
  datatype Answer = Hit(anchor: Anchor) | Miss | Done(anchor: Anchor) | Rejected(reason: Reason) | Stopped

  // ---------------------------------------------------------------------
  // Effects of single steps
  // ---------------------------------------------------------------------

  function WithoutReceipt(d: Directory, k: Key): Directory { d.(receipts := d.receipts - {k}) }

  function WithoutTombstone(d: Directory, k: Key): Directory { d.(poisoned := d.poisoned - {k}) }

  function WithoutAccess(d: Directory, k: Key): Directory { d.(access := d.access - {k}) }

  function WithoutArtifact(d: Directory, s: Sha): Directory { d.(artifacts := d.artifacts - {s}) }

  function WithReceipt(d: Directory, k: Key, c: Content, now: int): Directory {
    d.(receipts := d.receipts[k := Receipt(c, now)])
  }

  function WithTombstone(d: Directory, k: Key, now: int): Directory { d.(poisoned := d.poisoned[k := now]) }

  /** `os.replace` of the receipt onto the tombstone's name. */
  function Renamed(d: Directory, k: Key): Directory
    requires k in d.receipts
  {
    d.(receipts := d.receipts - {k}, poisoned := d.poisoned[k := d.receipts[k].mtime])
  }

  function Touched(d: Directory, k: Key, now: int): Directory { d.(access := d.access[k := now]) }

  /** Keys may only have been evicted, and never the protected one. */
  ghost predicate OnlyEvictions(d: Directory, d': Directory, keep: Option<Key>) {
    forall k {:trigger RegisterOf(d', k)} ::
      RegisterOf(d', k) == RegisterOf(d, k) || (RegisterOf(d', k) == Absent && keep != Some(k))
  }

  /** All other keys keep their register. */
  ghost predicate OnlyKey(d: Directory, d': Directory, k: Key) {
    forall j {:trigger RegisterOf(d', j)} :: j != k ==> RegisterOf(d', j) == RegisterOf(d, j)
  }

  /** The check a cleanup makes of a receipt: the artifact's contents are not
      hashed again. */
  predicate MetadataOk(d: Directory, k: Key)
    requires k in d.receipts
  {
    match d.receipts[k].content
    case PoisonRecord => true
    case Garbage => false
    case Ordinary(a) =>
      a.sha in d.artifacts && d.artifacts[a.sha].size == a.size && d.artifacts[a.sha].mode == a.mode
  }

  ghost predicate NoGarbage(d: Directory) {
    forall k :: k in d.receipts ==> !d.receipts[k].content.Garbage?
  }

  /** Each key's entry is what its receipt says. */
  ghost predicate Noted(d: Directory, entries: map<Key, Entry>) {
    forall k :: k in entries ==> k in d.receipts && !d.receipts[k].content.Garbage? && entries[k] == ReceiptEntry(d, k)
  }

  /** Only broken receipts went, with their access stamps. */
  ghost predicate OnlyBrokenGone(d: Directory, d': Directory) {
    d'.poisoned == d.poisoned && d'.artifacts == d.artifacts && d'.access.Keys <= d.access.Keys &&
    (forall k, mtime {:trigger Used(d', k, mtime)} :: GarbageAt(d, k) || Used(d', k, mtime) == Used(d, k, mtime)) &&
    (forall k :: k in d'.receipts ==> k in d.receipts && d'.receipts[k] == d.receipts[k]) &&
    (forall k :: k in d.receipts && k !in d'.receipts ==> d.receipts[k].content.Garbage?)
  }

  /** Entries noted so far: tombstones for the keys done, receipts otherwise. */
  ghost predicate Merged(d: Directory, entries: map<Key, Entry>, done: set<Key>) {
    NoGarbage(d) && done <= d.poisoned.Keys && entries.Keys == d.receipts.Keys + done && done !! d.receipts.Keys &&
    forall k :: k in entries ==> entries[k] == if k in done then TombstoneEntry(d, k) else ReceiptEntry(d, k)
  }

  lemma Unmerged(d: Directory, noted: map<Key, Entry>, entries: map<Key, Entry>, done: set<Key>, k: Key)
    requires Merged(d, noted, done) && k in d.receipts && entries == noted - {k}
    ensures Merged(WithoutReceipt(d, k), entries, done)
  {
  }

  /** Only receipts beside tombstones went. */
  ghost predicate OnlyShadowedGone(d: Directory, d': Directory) {
    d'.poisoned == d.poisoned && d'.artifacts == d.artifacts && d'.access == d.access &&
    (forall k :: k in d'.receipts ==> k in d.receipts && d'.receipts[k] == d.receipts[k]) &&
    (forall k :: k in d.receipts && k !in d'.receipts ==> k in d.poisoned)
  }

  lemma ShadowedCompose(d: Directory, d': Directory, d'': Directory)
    requires OnlyShadowedGone(d, d') && OnlyShadowedGone(d', d'')
    ensures OnlyShadowedGone(d, d'')
  {
  }

  function WithoutEntry(d: Directory, e: Entry): Directory {
    if e.tombstone then WithoutTombstone(d, e.key) else WithoutReceipt(d, e.key)
  }

  /** The kept entries are some of those considered, and the others are
      justified losses. */
  ghost predicate Chosen(order: seq<Entry>, kept: seq<Entry>, keep: Option<Key>) {
    (forall e :: e in kept ==> e in order) && forall e :: e in order ==> e in kept || Justified(kept, e, keep)
  }

  /** The directory holds the entries kept and those still to consider. */
  ghost predicate Awaits(d: Directory, kept: seq<Entry>, order: seq<Entry>, i: nat) {
    i <= |order| && Describes(d, kept + order[i..])
  }

  /** The state of the greedy pass before entry i. */
  ghost predicate Progress(order: seq<Entry>, i: nat, kept: seq<Entry>, names: set<Sha>, total: int, keep: Option<Key>) {
    i <= |order| && |kept| <= i && |kept| <= MAX_ENTRIES &&
    total == SumOfSizes(kept) <= MAX_BYTES && names == Sizes(kept).Keys && Chosen(order[..i], kept, keep)
  }

  function Extra(e: Entry, names: set<Sha>): nat {
    if e.artifact.Some? && e.artifact.value.sha !in names then e.artifact.value.size else 0
  }

  lemma OneMoreKept(kept: seq<Entry>, e: Entry)
    ensures SumOfSizes(kept + [e]) == SumOfSizes(kept) + Extra(e, Sizes(kept).Keys)
    ensures Sizes(kept + [e]).Keys == Sizes(kept).Keys + if e.artifact.Some? then {e.artifact.value.sha} else {}
  {
    assert (kept + [e])[..|kept|] == kept;
  }

  lemma JustifiedStill(kept: seq<Entry>, x: Entry, e: Entry, keep: Option<Key>)
    requires Justified(kept, x, keep)
    ensures Justified(kept + [e], x, keep)
  {
    var n: nat :| n <= |kept| && (forall j :: 0 <= j < n ==> Ahead(kept[j], x, keep)) && Overfull(kept, n, x);
    assert (kept + [e])[..n] == kept[..n];
    assert Overfull(kept + [e], n, x);
  }

  lemma ProtectedFirst(order: seq<Entry>, i: nat, keep: Option<Key>)
    requires i < |order| && DistinctKeys(order) && Ranked(order, keep)
    ensures keep == Some(order[i].key) ==> i == 0
  {
    assert i > 0 ==> order[0].key != order[i].key && Ahead(order[0], order[i], keep);
  }

  lemma KeepOne(order: seq<Entry>, i: nat, kept: seq<Entry>, names: set<Sha>, total: nat, keep: Option<Key>)
    requires i < |order| && DistinctKeys(order) && Ranked(order, keep) && Progress(order, i, kept, names, total, keep)
    requires order[i].artifact.Some? ==> order[i].artifact.value.size <= MAX_BYTES
    requires keep == Some(order[i].key) ||
      (|kept| < MAX_ENTRIES && total + Extra(order[i], names) <= MAX_BYTES)
    ensures Progress(order, i + 1, kept + [order[i]],
      names + if order[i].artifact.Some? then {order[i].artifact.value.sha} else {}, total + Extra(order[i], names), keep)
  {
    var e := order[i];
    OneMoreKept(kept, e);
    ProtectedFirst(order, i, keep);
    assert order[..i + 1] == order[..i] + [e];
    forall x | x in order[..i + 1] ensures x in kept + [e] || Justified(kept + [e], x, keep) {
      if x in order[..i] && x !in kept {
        JustifiedStill(kept, x, e, keep);
      }
    }
  }

  lemma DropOne(order: seq<Entry>, i: nat, kept: seq<Entry>, names: set<Sha>, total: nat, keep: Option<Key>)
    requires i < |order| && Ranked(order, keep) && Progress(order, i, kept, names, total, keep)
    requires keep != Some(order[i].key) && (|kept| == MAX_ENTRIES || total + Extra(order[i], names) > MAX_BYTES)
    ensures Progress(order, i + 1, kept, names, total, keep)
  {
    var e, n := order[i], |kept|;
    OneMoreKept(kept, e);
    assert kept[..n] == kept;
    forall j | 0 <= j < n ensures Ahead(kept[j], e, keep) {
      assert kept[j] in order[..i];
    }
    assert Overfull(kept, n, e);
    assert order[..i + 1] == order[..i] + [e];
  }

  /** The entry about to be considered is one of the directory's. */
  lemma StillThere(d: Directory, kept: seq<Entry>, order: seq<Entry>, i: nat)
    requires Sound(d) && i < |order| && Describes(d, kept + order[i..])
    ensures Present(d, order[i].key) && EntryOf(d, order[i].key) == order[i]
    ensures order[i].artifact.Some? ==> order[i].artifact.value.size <= MAX_BYTES
    ensures kept + order[i..] == (kept + [order[i]]) + order[i + 1..]
    ensures kept + order[i..] == kept + ([order[i]] + order[i + 1..])
  {
    assert (kept + order[i..])[|kept|] == order[i];
    assert order[i] in kept + order[i..];
  }

  lemma EvictDescribed(d: Directory, a: seq<Entry>, e: Entry, b: seq<Entry>)
    requires Describes(d, a + ([e] + b))
    ensures Describes(WithoutAccess(WithoutEntry(d, e), e.key), a + b)
  {
    var es, d' := a + ([e] + b), WithoutAccess(WithoutEntry(d, e), e.key);
    assert es[|a|] == e;
    assert e in es;
    RemovedDistinct(a, e, b);
    OthersDiffer(a, e, b);
    RemovedKeys(a, e, b);
    EvictedDirectory(d, e);
    forall x | x in a + b ensures Present(d', x.key) && EntryOf(d', x.key) == x {
      assert x in es;
    }
  }

  lemma EvictedDirectory(d: Directory, e: Entry)
    requires Tidy(d) && Present(d, e.key) && EntryOf(d, e.key) == e
    ensures var d' := WithoutAccess(WithoutEntry(d, e), e.key);
      Tidy(d') && d'.receipts.Keys + d'.poisoned.Keys == d.receipts.Keys + d.poisoned.Keys - {e.key} &&
      forall k :: k != e.key && Present(d, k) ==> Present(d', k) && EntryOf(d', k) == EntryOf(d, k)
  {
  }

  lemma OthersDiffer(a: seq<Entry>, e: Entry, b: seq<Entry>)
    requires DistinctKeys(a + ([e] + b))
    ensures forall x :: x in a + b ==> x in a + ([e] + b) && x.key != e.key
  {
    var es := a + ([e] + b);
    assert es[|a|] == e;
    forall x | x in a + b ensures x in es && x.key != e.key {
      if x in a {
        var i :| 0 <= i < |a| && a[i] == x;
        assert es[i] == x;
      } else {
        var i :| 0 <= i < |b| && b[i] == x;
        assert es[|a| + 1 + i] == x;
      }
    }
  }

  lemma RemovedKeys(a: seq<Entry>, e: Entry, b: seq<Entry>)
    requires DistinctKeys(a + ([e] + b))
    ensures KeysOf(a + b) == KeysOf(a + ([e] + b)) - {e.key}
  {
    OthersDiffer(a, e, b);
    assert forall x :: x in a + ([e] + b) <==> x in a + b || x == e;
  }

  lemma EvictIsEviction(d: Directory, e: Entry, keep: Option<Key>)
    requires Tidy(d) && Present(d, e.key) && EntryOf(d, e.key) == e && keep != Some(e.key)
    ensures OnlyEvictions(d, WithoutEntry(d, e), keep)
    ensures OnlyEvictions(d, WithoutAccess(WithoutEntry(d, e), e.key), keep)
  {
  }

  lemma EvictionsCompose(d: Directory, d': Directory, d'': Directory, keep: Option<Key>)
    requires OnlyEvictions(d, d', keep) && OnlyEvictions(d', d'', keep)
    ensures OnlyEvictions(d, d'', keep)
  {
    forall k ensures RegisterOf(d'', k) == RegisterOf(d, k) || (RegisterOf(d'', k) == Absent && keep != Some(k)) {
      assert RegisterOf(d', k) == RegisterOf(d, k) || (RegisterOf(d', k) == Absent && keep != Some(k));
    }
  }

  lemma RemovedDistinct(a: seq<Entry>, e: Entry, b: seq<Entry>)
    requires DistinctKeys(a + ([e] + b))
    ensures DistinctKeys(a + b)
  {
    var es := a + ([e] + b);
    forall i, j | 0 <= i < j < |a + b| ensures (a + b)[i].key != (a + b)[j].key {
      var i', j' := if i < |a| then i else i + 1, if j < |a| then j else j + 1;
      assert es[i'] == (a + b)[i] && es[j'] == (a + b)[j];
    }
  }

  ghost predicate OnlyArtifactsGone(d: Directory, d': Directory) {
    d'.receipts == d.receipts && d'.poisoned == d.poisoned && d'.access == d.access &&
    forall s :: s in d'.artifacts ==> s in d.artifacts && d'.artifacts[s] == d.artifacts[s]
  }

  ghost predicate OnlyStampsGone(d: Directory, d': Directory, keys: set<Key>) {
    d'.receipts == d.receipts && d'.poisoned == d.poisoned && d'.artifacts == d.artifacts &&
    forall k :: k in keys ==> (k in d'.access <==> k in d.access) && (k in d.access ==> d'.access[k] == d.access[k])
  }

  lemma BrokenIsEviction(d: Directory, d': Directory, keep: Option<Key>)
    requires OnlyBrokenGone(d, d') && (keep.Some? ==> RegisterOf(d, keep.value).Published?)
    ensures OnlyEvictions(d, d', keep)
  {
  }

  lemma ShadowedIsNoEviction(d: Directory, d': Directory)
    requires OnlyShadowedGone(d, d')
    ensures forall keep :: OnlyEvictions(d, d', keep)
  {
    assert forall k :: RegisterOf(d', k) == RegisterOf(d, k);
  }

  lemma SameFiles(d: Directory, d': Directory)
    requires d.receipts == d'.receipts && d.poisoned == d'.poisoned
    ensures forall keep :: OnlyEvictions(d, d', keep)
  {
    assert forall k :: RegisterOf(d', k) == RegisterOf(d, k);
  }

  /** The sorted entries list the directory. */
  lemma MergedDescribes(d: Directory, entries: map<Key, Entry>, order: seq<Entry>)
    requires Merged(d, entries, d.poisoned.Keys) && DistinctKeys(order)
    requires forall e :: e in order <==> e.key in entries && entries[e.key] == e
    ensures Describes(d, order)
  {
    forall k ensures k in KeysOf(order) <==> k in entries {
      if k in entries {
        assert entries[k] in order;
      }
    }
    assert d.receipts.Keys + d.poisoned.Keys == KeysOf(order);
  }

  /** What a cleanup may keep: the published and the poisoned keys, each with
      the artifact it names and the time of its last use. */
  ghost predicate Candidates(d: Directory, order: seq<Entry>) {
    DistinctKeys(order) && Backs(d, order) &&
    (forall e :: e in order ==> Present(d, e.key) && LastTouched(d, e.key, e.used)) &&
    (forall k :: k in KeysOf(order) <==> RegisterOf(d, k).Published? || RegisterOf(d, k) == Poisoned) &&
    forall e, a :: e in order ==> (e.artifact == Some(a) <==> RegisterOf(d, e.key) == Published(a))
  }

  lemma DescribedCandidates(d: Directory, order: seq<Entry>)
    requires Sound(d) && Describes(d, order)
    ensures Candidates(d, order)
  {
    forall k ensures k in KeysOf(order) <==> RegisterOf(d, k).Published? || RegisterOf(d, k) == Poisoned {
      assert k in KeysOf(order) <==> Present(d, k);
    }
    forall e | e in order ensures Present(d, e.key) && LastTouched(d, e.key, e.used) {
      assert e == EntryOf(d, e.key);
    }
  }

  /** Scanning removed no published and no poisoned key and kept the times of
      use. */
  lemma ScannedCandidates(d: Directory, mid: Directory, d': Directory, order: seq<Entry>)
    requires Sound(d') && Describes(d', order) && OnlyBrokenGone(d, mid) && OnlyShadowedGone(mid, d')
    requires forall k :: GarbageAt(d, k) ==> k !in mid.receipts && k !in mid.access
    ensures Candidates(d, order)
  {
    DescribedCandidates(d', order);
    ScannedRegisters(d, mid, d');
    forall e | e in order ensures Present(d, e.key) && LastTouched(d, e.key, e.used) {
      ScannedTime(d, mid, d', e.key, e.used);
    }
  }

  lemma ScannedRegisters(d: Directory, mid: Directory, d': Directory)
    requires OnlyBrokenGone(d, mid) && OnlyShadowedGone(mid, d') && Tidy(d')
    ensures forall k :: RegisterOf(d', k) == RegisterOf(d, k) || (RegisterOf(d, k) == Broken && RegisterOf(d', k) == Absent)
  {
  }

  lemma ScannedTime(d: Directory, mid: Directory, d': Directory, k: Key, t: int)
    requires OnlyBrokenGone(d, mid) && OnlyShadowedGone(mid, d') && Tidy(d')
    requires forall k :: GarbageAt(d, k) ==> k !in mid.receipts && k !in mid.access
    requires Present(d', k) && LastTouched(d', k, t)
    ensures Present(d, k) && LastTouched(d, k, t)
  {
    if !GarbageAt(d, k) {
      var mtime := if k in d.poisoned then d.poisoned[k] else d.receipts[k].mtime;
      assert Used(mid, k, mtime) == Used(d, k, mtime);
    }
  }

  /** What a cleanup kept and lost obeys the recency law. */
  lemma ChosenObeysRecency(d: Directory, d': Directory, order: seq<Entry>, kept: seq<Entry>, keep: Option<Key>)
    requires Candidates(d, order) && Chosen(order, kept, keep) && Describes(d', kept) && OnlyEvictions(d, d', keep)
    requires NoGarbage(d')
    ensures RecencyLaw(d, d', keep)
  {
    assert Truthful(d, order);
    forall x | x in kept ensures Survives(d, d', x.key) {
      assert Present(d', x.key) && x in order;
    }
    forall k | Valued(d, k) && RegisterOf(d', k) == Absent ensures Outranked(d, d', keep, k) {
      assert k in KeysOf(order);
      var e :| e in order && e.key == k;
      assert e in kept ==> Present(d', k);
      assert e !in kept && k !in KeysOf(kept);
      assert Truthful(d, kept + [e]);
      JustifiedIsOutranked(d, d', keep, kept, e);
    }
  }

  lemma DescribedBacks(d: Directory, kept: seq<Entry>)
    requires Sound(d) && Describes(d, kept)
    ensures Backs(d, kept)
  {
    DescribedCandidates(d, kept);
  }

  lemma KeptNames(d: Directory, kept: seq<Entry>)
    requires Sound(d) && Describes(d, kept)
    ensures forall s :: Named(d, s) <==> s in Sizes(kept)
  {
    DescribedBacks(d, kept);
    SizesMeaning(d, kept);
    forall s ensures Named(d, s) <==> s in Sizes(kept) {
      if Named(d, s) {
        var k :| k in d.receipts && d.receipts[k].content.Ordinary? && d.receipts[k].content.anchor.sha == s;
        assert k in KeysOf(kept);
        var e :| e in kept && e.key == k;
        assert EntryOf(d, k) == e;
      }
      if s in Sizes(kept) {
        var e :| e in kept && e.artifact.Some? && e.artifact.value.sha == s;
        assert EntryOf(d, e.key) == e;
      }
    }
  }

  /** Once the artifacts are swept they are those of the kept entries. */
  lemma SweptArtifacts(d: Directory, d': Directory, kept: seq<Entry>)
    requires Sound(d) && Sound(d') && Describes(d, kept) && OnlyArtifactsGone(d, d')
    requires d'.artifacts.Keys == d.artifacts.Keys * Sizes(kept).Keys
    ensures Describes(d', kept)
    ensures forall s :: s in d'.artifacts <==> Named(d', s)
    ensures Bytes(d') == SumOfSizes(kept)
  {
    KeptNames(d', kept);
    DescribedBacks(d', kept);
    SizesMeaning(d', kept);
    BytesOfKept(d', kept);
  }

  lemma BytesOfKept(d: Directory, kept: seq<Entry>)
    requires Backs(d, kept) && d.artifacts.Keys == Sizes(kept).Keys
    ensures Bytes(d) == SumOfSizes(kept)
  {
    SizesMeaning(d, kept);
    SumOfSizesIsSum(d, kept);
    assert (map s | s in d.artifacts :: d.artifacts[s].size) == Sizes(kept);
  }

  lemma SweptAccess(d: Directory, d': Directory, kept: seq<Entry>)
    requires Describes(d, kept) && OnlyStampsGone(d, d', KeysOf(kept)) && d'.access.Keys <= KeysOf(kept)
    requires |kept| <= MAX_ENTRIES && SumOfSizes(kept) <= MAX_BYTES
    requires (forall s :: s in d.artifacts <==> Named(d, s)) && Bytes(d) == SumOfSizes(kept)
    ensures Describes(d', kept) && Bounded(d')
  {
    assert forall s :: Named(d', s) <==> Named(d, s);
    assert Bytes(d') == Bytes(d);
    StampsKept(d, d', kept);
    DescribedCount(d', kept);
  }

  lemma StampsKept(d: Directory, d': Directory, kept: seq<Entry>)
    requires Describes(d, kept) && OnlyStampsGone(d, d', KeysOf(kept)) && d'.access.Keys <= KeysOf(kept)
    ensures Describes(d', kept) && forall k :: k in d'.access ==> Present(d', k)
  {
    forall e | e in kept ensures Present(d', e.key) && EntryOf(d', e.key) == e {
      assert e.key in KeysOf(kept);
    }
    forall k | k in d'.access ensures Present(d', k) {
      assert k in KeysOf(kept);
    }
  }

  lemma DescribedCount(d: Directory, kept: seq<Entry>)
    requires Describes(d, kept)
    ensures |d.receipts| + |d.poisoned| == |kept|
  {
    KeysCount(kept);
    UnionCount(d.receipts.Keys, d.poisoned.Keys);
  }

  // ---------------------------------------------------------------------
  // What the faults make of an attempt to poison
  // ---------------------------------------------------------------------

  /** The rename at step s, else the tombstone's creation at s + 1, else the
      truncation at s + 2 and the write at s + 3. */
  predicate PoisonTakes(fate: nat -> Fate, s: nat) {
    Lands(fate(s)) ||
    (fate(s) == Fails &&
      (Lands(fate(s + 1)) || (fate(s + 1) == Fails && fate(s + 2) == Works && Lands(fate(s + 3)))))
  }

  predicate KeyBreaks(fate: nat -> Fate, s: nat) {
    fate(s) == Fails && fate(s + 1) == Fails && Lands(fate(s + 2)) &&
    !(fate(s + 2) == Works && Lands(fate(s + 3)))
  }

  predicate PoisonTable(now: Register, fate: nat -> Fate, s: nat) {
    (now == Poisoned <==> PoisonTakes(fate, s)) && (now == Broken <==> KeyBreaks(fate, s))
  }

  /** A publication of something else than the key has. */
  predicate Diverges(before: Register, candidate: Anchor) {
    before.Published? && before != Published(candidate) && candidate.size <= MAX_BYTES
  }

  /** An error is caught; being killed is not. */
  predicate Caught(f: Fate) { f == Fails || f == Late }

  predicate PoisonReported(fate: nat -> Fate, s: nat) {
    fate(s) == Works ||
    (Caught(fate(s)) &&
      (fate(s + 1) == Works || (Caught(fate(s + 1)) && fate(s + 2) == Works && fate(s + 3) == Works)))
  }

  function PoisonSteps(fate: nat -> Fate, s: nat): nat {
    if !Caught(fate(s)) then 1
    else if !Caught(fate(s + 1)) then 2
    else if fate(s + 2) == Works then 4
    else 3
  }

  /** How far an attempt to poison a key may get. */
  predicate Spoiling(before: Register, now: Register) {
    now == before || now == Poisoned || (before.Published? && now == Broken)
  }

  /** `_reject_poisoned_cache_key_locked`. */
  predicate IsPoisoned(d: Directory, k: Key) {
    k in d.poisoned || (k in d.receipts && d.receipts[k].content.PoisonRecord?)
  }

  /** `_validated_cached_anchor`. */
  function Validated(d: Directory, k: Key): Option<Anchor> {
    if k in d.receipts && d.receipts[k].content.Ordinary? && d.receipts[k].content.anchor.sha in d.artifacts &&
      d.artifacts[d.receipts[k].content.anchor.sha] == d.receipts[k].content.anchor
    then Some(d.receipts[k].content.anchor)
    else None
  }

  /** Other keys may have been evicted. */
  ghost predicate OthersOnlyEvicted(d: Directory, d': Directory, k: Key) {
    forall j {:trigger RegisterOf(d', j)} :: j != k ==> RegisterOf(d', j) == RegisterOf(d, j) || RegisterOf(d', j) == Absent
  }

  /** Some key's published object has the same bytes but is not the same. */
  ghost predicate Clashes(d: Directory, a: Anchor) {
    exists k, b :: RegisterOf(d, k) == Published(b) && b.sha == a.sha && b != a
  }

  /** What a lookup may answer, from the register before and after. */
  predicate LookupAnswers(before: Register, now: Register, answer: Answer) {
    now == before &&
    match before
    case Published(a) => answer == Hit(a) || answer == Stopped
    case Absent => answer == Miss || answer == Stopped
    case Broken => answer == Rejected(KeyBroken)
    case Poisoned => answer == Rejected(KeyPoisoned)
    case Illegal => false
  }

  /** What a publication may answer. */
  predicate PublishAnswers(before: Register, now: Register, candidate: Anchor, answer: Answer) {
    if candidate.size > MAX_BYTES then answer == Rejected(TooLarge) && now == before
    else
      match before
      case Published(a) =>
        if a == candidate then now == before && (answer == Done(a) || answer == Stopped)
        else Spoiling(before, now) && (answer == Stopped || (answer == Rejected(Divergent) && now == Poisoned))
      case Absent =>
        (answer == Done(candidate) && now == Published(candidate)) ||
        (answer == Rejected(Inconsistent) && now == Absent) ||
        (answer == Stopped && (now == Absent || now == Published(candidate)))
      case Broken => answer == Rejected(KeyBroken) && now == before
      case Poisoned => answer == Rejected(KeyPoisoned) && now == before
      case Illegal => false
  }

  /** After a cleanup an artifact is there because a surviving key names it. */
  lemma ClashFound(d: Directory, clean: Directory, k: Key, candidate: Anchor)
    requires OnlyEvictions(d, clean, None) && Bounded(clean) && Sound(clean)
    ensures candidate.sha in clean.artifacts && clean.artifacts[candidate.sha] != candidate ==> Clashes(d, candidate)
  {
    if candidate.sha in clean.artifacts && clean.artifacts[candidate.sha] != candidate {
      assert Named(clean, candidate.sha);
      var j :| j in clean.receipts && clean.receipts[j].content.Ordinary? &&
        clean.receipts[j].content.anchor.sha == candidate.sha;
      var b := clean.receipts[j].content.anchor;
      assert RegisterOf(clean, j) == Published(b) && Backed(clean, b);
      assert RegisterOf(d, j) == Published(b);
    }
  }

  ghost predicate SameRegister(d: Directory, d': Directory) {
    forall k {:trigger RegisterOf(d', k)} :: RegisterOf(d', k) == RegisterOf(d, k)
  }

  lemma TouchedBounded(d: Directory, k: Key, now: int)
    requires Bounded(d) && Present(d, k)
    ensures Bounded(Touched(d, k, now))
  {
    var d' := Touched(d, k, now);
    assert forall s :: Named(d', s) <==> Named(d, s);
    assert Bytes(d') == Bytes(d);
  }

  lemma LatestKept(d: Directory, d': Directory, keep: Option<Key>)
    requires Sound(d) && RecencyLaw(d, d', keep) && OnlyEvictions(d, d', keep)
    ensures keep.None? ==> forall k :: LatestUse(d, k) ==> RegisterOf(d', k) == RegisterOf(d, k)
  {
    forall k | keep.None? && LatestUse(d, k) ensures RegisterOf(d', k) == RegisterOf(d, k) {
      LatestStays(d, d', keep, k);
    }
  }

  /** All entries fit within both limits. */
  predicate Fits(order: seq<Entry>) { |order| <= MAX_ENTRIES && SumOfSizes(order) <= MAX_BYTES }

  lemma {:induction false} PrefixSum(es: seq<Entry>, m: nat)
    requires m <= |es|
    ensures SumOfSizes(es[..m]) <= SumOfSizes(es)
  {
    if m < |es| {
      PrefixSum(es[..|es| - 1], m);
      assert es[..|es| - 1][..m] == es[..m];
    } else {
      assert es[..m] == es;
    }
  }

  /** Among entries that all fit there is room for each in turn. */
  lemma RoomForAll(order: seq<Entry>, i: nat)
    requires Fits(order) && i < |order|
    ensures |order[..i]| < MAX_ENTRIES
    ensures SumOfSizes(order[..i]) + Extra(order[i], Sizes(order[..i]).Keys) <= MAX_BYTES
    ensures order[..i] + [order[i]] == order[..i + 1]
  {
    assert order[..i] + [order[i]] == order[..i + 1];
    OneMoreKept(order[..i], order[i]);
    PrefixSum(order, i + 1);
  }

  /** The entries of a bounded directory fit. */
  lemma BoundedFits(d: Directory, order: seq<Entry>)
    requires Sound(d) && Bounded(d) && Describes(d, order)
    ensures Fits(order)
  {
    DescribedCount(d, order);
    DescribedBacks(d, order);
    KeptNames(d, order);
    BytesOfKept(d, order);
  }

  class Cache {
    const fate: nat -> Fate
    const clock: nat -> int
    var step: nat
    var dir: Directory
    ghost var history: seq<Event>

    ghost predicate Valid()
      reads this
    {
      Sound(dir) && Faithful(dir, history)
    }

    /** An empty cache, with any schedule of faults and any clock. */
    constructor (fate: nat -> Fate, clock: nat -> int)
      ensures Valid() && history == [] && Bounded(dir) && this.fate == fate && step == 0
      ensures forall k :: RegisterOf(dir, k) == Absent
    {
      this.fate, this.clock := fate, clock;
      step, dir, history := 0, Directory(map[], map[], map[], map[]), [];
    }

    /** A client that finds the cache as others left it. */
    constructor Reopen(dir: Directory, ghost history: seq<Event>, fate: nat -> Fate, clock: nat -> int)
      requires Sound(dir) && Faithful(dir, history)
      ensures Valid() && this.dir == dir && this.history == history && this.fate == fate && step == 0
    {
      this.fate, this.clock := fate, clock;
      this.dir, step, this.history := dir, 0, history;
    }

    /** No faults from here on. */
    ghost predicate Calm()
      reads `step
    {
      forall n {:trigger fate(n)} :: n >= step ==> fate(n) == Works
    }

    /** Not a single step was taken. */
    ghost predicate Still(d: Directory, s: nat, h: seq<Event>)
      reads `dir, `step, `history
    {
      dir == d && step == s && history == h
    }

    method Next() returns (f: Fate)
      modifies `step
      ensures f == fate(old(step)) && step == old(step) + 1
    {
      f := fate(step);
      step := step + 1;
    }

    // ---------------------------------------------------------------------
    // Cleanup
    // ---------------------------------------------------------------------

    /** `receipt_path.unlink` and the access stamp's, evicting the key unless a
        tombstone remains. */
    method DropReceipt(k: Key) returns (ok: bool)
      requires Valid() && k in dir.receipts
      modifies `step, `dir, `history
      ensures Valid() && old(history) <= history
      ensures dir == old(dir) || dir == WithoutReceipt(old(dir), k)
      ensures ok ==> dir == WithoutReceipt(old(dir), k)
      ensures old(step) <= step && (old(Calm()) ==> ok)
    {
      var f := Next();
      if Lands(f) {
        ghost var before := dir;
        dir := WithoutReceipt(dir, k);
        if k !in dir.poisoned {
          Recorded(before, dir, history, Evict(k));
          history := history + [Evict(k)];
        }
      }
      ok := f == Works;
    }

    method DropTombstone(k: Key) returns (ok: bool)
      requires Valid() && k in dir.poisoned && k !in dir.receipts
      modifies `step, `dir, `history
      ensures Valid() && old(history) <= history
      ensures dir == old(dir) || dir == WithoutTombstone(old(dir), k)
      ensures ok ==> dir == WithoutTombstone(old(dir), k)
      ensures old(step) <= step && (old(Calm()) ==> ok)
    {
      var f := Next();
      if Lands(f) {
        ghost var before := dir;
        dir := WithoutTombstone(dir, k);
        Recorded(before, dir, history, Evict(k));
        history := history + [Evict(k)];
      }
      ok := f == Works;
    }

    method DropAccess(k: Key) returns (ok: bool)
      requires Valid()
      modifies `step, `dir
      ensures Valid()
      ensures dir == old(dir) || dir == WithoutAccess(old(dir), k)
      ensures ok ==> dir == WithoutAccess(old(dir), k)
      ensures old(step) <= step && (old(Calm()) ==> ok)
    {
      var f := Next();
      if Lands(f) {
        SameRegisters(dir, WithoutAccess(dir, k), history);
        dir := WithoutAccess(dir, k);
      }
      ok := f == Works;
    }

    method DropArtifact(s: Sha) returns (ok: bool)
      requires Valid() && !Named(dir, s)
      modifies `step, `dir
      ensures Valid()
      ensures dir == old(dir) || dir == WithoutArtifact(old(dir), s)
      ensures ok ==> dir == WithoutArtifact(old(dir), s)
      ensures old(step) <= step && (old(Calm()) ==> ok)
    {
      var f := Next();
      if Lands(f) {
        SameRegisters(dir, WithoutArtifact(dir, s), history);
        dir := WithoutArtifact(dir, s);
      }
      ok := f == Works;
    }

    /** `_cleanup_compiler_cache_locked`, reading the receipts: broken ones go. */
    method ScanReceipts(keep: Option<Key>) returns (ok: bool, entries: map<Key, Entry>)
      requires Valid() && (keep.Some? ==> RegisterOf(dir, keep.value).Published?)
      modifies `step, `dir, `history
      ensures Valid() && old(history) <= history && OnlyBrokenGone(old(dir), dir)
      ensures ok ==> NoGarbage(dir) && entries.Keys == dir.receipts.Keys && Noted(dir, entries)
      ensures ok ==> forall k :: GarbageAt(old(dir), k) ==> k !in dir.receipts && k !in dir.access
      ensures old(step) <= step && (old(Calm()) ==> ok)
      ensures NoGarbage(old(dir)) ==> ok && Still(old(dir), old(step), old(history))
    {
      entries := map[];
      var todo := dir.receipts.Keys;
      while todo != {}
        invariant old(step) <= step && Valid() && old(history) <= history && OnlyBrokenGone(old(dir), dir)
        invariant todo <= dir.receipts.Keys && entries.Keys == dir.receipts.Keys - todo && Noted(dir, entries)
        invariant forall k :: GarbageAt(old(dir), k) && k !in todo ==> k !in dir.receipts && k !in dir.access
        invariant NoGarbage(old(dir)) ==> Still(old(dir), old(step), old(history))
        decreases todo
      {
        var k :| k in todo;
        todo := todo - {k};
        if MetadataOk(dir, k) {
          entries := entries[k := ReceiptEntry(dir, k)];
        } else {
          ok := Discard(k);
          if !ok {
            return;
          }
        }
      }
      ok := true;
    }

    method Discard(k: Key) returns (ok: bool)
      requires Valid() && k in dir.receipts && !MetadataOk(dir, k)
      modifies `step, `dir, `history
      ensures Valid() && old(history) <= history && OnlyBrokenGone(old(dir), dir)
      ensures ok ==> dir == WithoutAccess(WithoutReceipt(old(dir), k), k)
      ensures old(step) <= step && (old(Calm()) ==> ok)
    {
      ok := DropReceipt(k);
      if ok {
        ok := DropAccess(k);
      }
    }

    /** The tombstones: each replaces whatever receipt its key still has. */
    method ScanTombstones(noted: map<Key, Entry>) returns (ok: bool, entries: map<Key, Entry>)
      requires Valid() && Merged(dir, noted, {})
      modifies `step, `dir, `history
      ensures Valid() && old(history) <= history && OnlyShadowedGone(old(dir), dir)
      ensures ok ==> Merged(dir, entries, dir.poisoned.Keys)
      ensures old(step) <= step && (old(Calm()) ==> ok)
      ensures Tidy(old(dir)) ==> ok && Still(old(dir), old(step), old(history))
    {
      entries := noted;
      var todo := dir.poisoned.Keys;
      ghost var done := {};
      while todo != {}
        invariant old(step) <= step && Valid() && old(history) <= history && OnlyShadowedGone(old(dir), dir)
        invariant todo == dir.poisoned.Keys - done && Merged(dir, entries, done)
        invariant Tidy(old(dir)) ==> Still(old(dir), old(step), old(history))
        decreases todo
      {
        var k :| k in todo;
        ghost var before := dir;
        ok, entries := NoteTombstone(k, entries, done);
        ShadowedCompose(old(dir), before, dir);
        if !ok {
          return;
        }
        todo, done := todo - {k}, done + {k};
      }
      ok := true;
    }

    /** One tombstone: the receipt beside it goes, its entry replaces the
        receipt's. */
    method NoteTombstone(k: Key, noted: map<Key, Entry>, ghost done: set<Key>) returns (ok: bool, entries: map<Key, Entry>)
      requires Valid() && Merged(dir, noted, done) && k in dir.poisoned && k !in done
      modifies `step, `dir, `history
      ensures Valid() && old(history) <= history && OnlyShadowedGone(old(dir), dir)
      ensures ok ==> Merged(dir, entries, done + {k})
      ensures old(step) <= step && (old(Calm()) ==> ok)
      ensures Tidy(old(dir)) ==> ok && Still(old(dir), old(step), old(history))
    {
      entries := noted;
      if k in entries {
        ghost var was := dir;
        ok := DropReceipt(k);
        if !ok {
          return;
        }
        entries := entries - {k};
        Unmerged(was, noted, entries, done, k);
      }
      entries := entries[k := TombstoneEntry(dir, k)];
      ok := true;
    }

    /** Evicting one entry: its receipt or tombstone, then its access stamp. */
    method EvictEntry(e: Entry) returns (ok: bool)
      requires Valid() && Tidy(dir) && Present(dir, e.key) && EntryOf(dir, e.key) == e
      modifies `step, `dir, `history
      ensures Valid() && old(history) <= history
      ensures dir == old(dir) || dir == WithoutEntry(old(dir), e) || dir == WithoutAccess(WithoutEntry(old(dir), e), e.key)
      ensures ok ==> dir == WithoutAccess(WithoutEntry(old(dir), e), e.key)
      ensures old(step) <= step && (old(Calm()) ==> ok)
    {
      if e.tombstone {
        ok := DropTombstone(e.key);
      } else {
        ok := DropReceipt(e.key);
      }
      if ok {
        ok := DropAccess(e.key);
      }
    }

    /** The greedy pass over the ranked entries. */
    method Retain(order: seq<Entry>, keep: Option<Key>) returns (ok: bool, kept: seq<Entry>, names: set<Sha>)
      requires Valid() && Describes(dir, order) && Ranked(order, keep)
      modifies `step, `dir, `history
      ensures Valid() && old(history) <= history && OnlyEvictions(old(dir), dir, keep)
      ensures dir.artifacts == old(dir).artifacts
      ensures ok ==> Describes(dir, kept) && |kept| <= MAX_ENTRIES && SumOfSizes(kept) <= MAX_BYTES
      ensures ok ==> Chosen(order, kept, keep) && names == Sizes(kept).Keys
      ensures old(step) <= step && (old(Calm()) ==> ok)
      ensures Fits(order) ==> ok && Still(old(dir), old(step), old(history))
    {
      kept, names := [], {};
      var total := 0;
      assert [] + order[0..] == order;
      for i := 0 to |order|
        invariant old(step) <= step && Valid() && old(history) <= history && OnlyEvictions(old(dir), dir, keep)
        invariant Fits(order) ==> kept == order[..i] && Still(old(dir), old(step), old(history))
        invariant dir.artifacts == old(dir).artifacts
        invariant Awaits(dir, kept, order, i) && Progress(order, i, kept, names, total, keep)
      {
        ghost var before := dir;
        ok, kept, names, total := Consider(order, i, kept, names, total, keep);
        EvictionsCompose(old(dir), before, dir, keep);
        if !ok {
          return;
        }
      }
      assert kept + order[|order|..] == kept && order[..|order|] == order;
      ok := true;
    }

    /** One round: the protected entry stays, another stays if it fits. */
    method Consider(order: seq<Entry>, i: nat, kept: seq<Entry>, names: set<Sha>, total: nat, keep: Option<Key>)
      returns (ok: bool, kept': seq<Entry>, names': set<Sha>, total': nat)
      requires Valid() && i < |order| && DistinctKeys(order) && Ranked(order, keep)
      requires Awaits(dir, kept, order, i) && Progress(order, i, kept, names, total, keep)
      modifies `step, `dir, `history
      ensures Valid() && old(history) <= history && OnlyEvictions(old(dir), dir, keep)
      ensures dir.artifacts == old(dir).artifacts
      ensures ok ==> Awaits(dir, kept', order, i + 1) && Progress(order, i + 1, kept', names', total', keep)
      ensures old(step) <= step && (old(Calm()) ==> ok)
      ensures Fits(order) && kept == order[..i] ==>
        ok && kept' == order[..i + 1] && Still(old(dir), old(step), old(history))
    {
      StillThere(dir, kept, order, i);
      kept', names', total' := kept, names, total;
      var extra := Extra(order[i], names);
      if Fits(order) && kept == order[..i] {
        RoomForAll(order, i);
      }
      if keep == Some(order[i].key) || (|kept| < MAX_ENTRIES && total + extra <= MAX_BYTES) {
        KeepOne(order, i, kept, names, total, keep);
        names' := names + if order[i].artifact.Some? then {order[i].artifact.value.sha} else {};
        kept', total' := kept + [order[i]], total + extra;
        ok := true;
      } else {
        DropOne(order, i, kept, names, total, keep);
        ok := Lose(kept, order[i], order[i + 1..], keep);
      }
    }

    method Lose(kept: seq<Entry>, e: Entry, rest: seq<Entry>, keep: Option<Key>) returns (ok: bool)
      requires Valid() && Describes(dir, kept + ([e] + rest)) && keep != Some(e.key)
      requires Present(dir, e.key) && EntryOf(dir, e.key) == e
      modifies `step, `dir, `history
      ensures Valid() && old(history) <= history && OnlyEvictions(old(dir), dir, keep)
      ensures dir.artifacts == old(dir).artifacts
      ensures ok ==> Describes(dir, kept + rest)
      ensures old(step) <= step && (old(Calm()) ==> ok)
    {
      EvictDescribed(dir, kept, e, rest);
      EvictIsEviction(dir, e, keep);
      ok := EvictEntry(e);
    }

    /** Artifacts no kept entry names go. */
    method SweepArtifacts(names: set<Sha>) returns (ok: bool)
      requires Valid() && forall s :: Named(dir, s) ==> s in names
      modifies `step, `dir
      ensures Valid() && OnlyArtifactsGone(old(dir), dir)
      ensures ok ==> dir.artifacts.Keys == old(dir).artifacts.Keys * names
      ensures old(step) <= step && (old(Calm()) ==> ok)
      ensures old(dir).artifacts.Keys <= names ==> ok && Still(old(dir), old(step), old(history))
    {
      var todo := dir.artifacts.Keys - names;
      while todo != {}
        invariant old(step) <= step && Valid() && OnlyArtifactsGone(old(dir), dir)
        invariant todo !! names && dir.artifacts.Keys == old(dir).artifacts.Keys * names + todo
        invariant old(dir).artifacts.Keys <= names ==> todo == {} && Still(old(dir), old(step), old(history))
        decreases todo
      {
        var s :| s in todo;
        assert !Named(dir, s);
        ok := DropArtifact(s);
        if !ok {
          return;
        }
        todo := todo - {s};
      }
      ok := true;
    }

    /** Access stamps of keys without an entry go. */
    method SweepAccess(keys: set<Key>) returns (ok: bool)
      requires Valid()
      modifies `step, `dir
      ensures Valid() && OnlyStampsGone(old(dir), dir, keys)
      ensures ok ==> dir.access.Keys <= keys
      ensures old(step) <= step && (old(Calm()) ==> ok)
      ensures old(dir).access.Keys <= keys ==> ok && Still(old(dir), old(step), old(history))
    {
      var todo := dir.access.Keys - keys;
      while todo != {}
        invariant old(step) <= step && Valid() && OnlyStampsGone(old(dir), dir, keys)
        invariant todo !! keys && dir.access.Keys <= keys + todo
        invariant old(dir).access.Keys <= keys ==> todo == {} && Still(old(dir), old(step), old(history))
        decreases todo
      {
        var k :| k in todo;
        ok := DropAccess(k);
        if !ok {
          return;
        }
        todo := todo - {k};
      }
      ok := true;
    }

    /** `_cleanup_compiler_cache_locked`. A directory within its bounds is left
        alone. */
    method Cleanup(keep: Option<Key>) returns (ok: bool, ghost order: seq<Entry>, ghost kept: seq<Entry>)
      requires Valid() && (keep.Some? ==> RegisterOf(dir, keep.value).Published?)
      modifies `step, `dir, `history
      ensures Valid() && old(history) <= history && OnlyEvictions(old(dir), dir, keep)
      ensures ok ==> Bounded(dir) && Candidates(old(dir), order) && Describes(dir, kept) && Chosen(order, kept, keep)
      ensures old(step) <= step && (old(Calm()) ==> ok)
      ensures Bounded(old(dir)) ==> ok && Still(old(dir), old(step), old(history))
      ensures ok ==> |dir.receipts| + |dir.poisoned| <= 16 && Bytes(dir) <= 4294967296
      ensures ok ==> RecencyLaw(old(dir), dir, keep)
      ensures ok && keep.None? ==>
        forall k :: LatestUse(old(dir), k) ==> RegisterOf(dir, k) == RegisterOf(old(dir), k)
    {
      order, kept := [], [];
      var ranked, names;
      ok, ranked := ListEntries(keep);
      if !ok {
        return;
      }
      ghost var before := dir;
      order := ranked;
      ok, kept, names := Evictions(ranked, keep);
      EvictionsCompose(old(dir), before, dir, keep);
      if ok {
        ChosenObeysRecency(old(dir), dir, order, kept, keep);
        LatestKept(old(dir), dir, keep);
      }
    }

    /** The part of a cleanup that lists the entries and ranks them. */
    method ListEntries(keep: Option<Key>) returns (ok: bool, ranked: seq<Entry>)
      requires Valid() && (keep.Some? ==> RegisterOf(dir, keep.value).Published?)
      modifies `step, `dir, `history
      ensures Valid() && old(history) <= history && OnlyEvictions(old(dir), dir, keep)
      ensures ok ==> Candidates(old(dir), ranked) && Describes(dir, ranked) && Ranked(ranked, keep)
      ensures old(step) <= step && (old(Calm()) ==> ok)
      ensures Tidy(old(dir)) ==> ok && Still(old(dir), old(step), old(history))
    {
      ranked := [];
      var noted, entries;
      ok, noted := ScanReceipts(keep);
      BrokenIsEviction(old(dir), dir, keep);
      if !ok {
        return;
      }
      ghost var scanned := dir;
      ok, entries := ScanTombstones(noted);
      ShadowedIsNoEviction(scanned, dir);
      EvictionsCompose(old(dir), scanned, dir, keep);
      if !ok {
        return;
      }
      ranked := SortEntries(entries, keep);
      MergedDescribes(dir, entries, ranked);
      ScannedCandidates(old(dir), scanned, dir, ranked);
    }

    /** The part of a cleanup after the entries were listed. */
    method Evictions(order: seq<Entry>, keep: Option<Key>) returns (ok: bool, kept: seq<Entry>, names: set<Sha>)
      requires Valid() && Describes(dir, order) && Ranked(order, keep)
      modifies `step, `dir, `history
      ensures Valid() && old(history) <= history && OnlyEvictions(old(dir), dir, keep)
      ensures ok ==> Bounded(dir) && Describes(dir, kept) && Chosen(order, kept, keep)
      ensures old(step) <= step && (old(Calm()) ==> ok)
      ensures Bounded(old(dir)) ==> ok && Still(old(dir), old(step), old(history))
    {
      if Bounded(dir) {
        BoundedFits(dir, order);
      }
      ok, kept, names := Retain(order, keep);
      if !ok {
        return;
      }
      ghost var before := dir;
      KeptNames(dir, kept);
      assert Bounded(before) ==> before.artifacts.Keys <= names && before.access.Keys <= KeysOf(kept);
      ok := SweepArtifacts(names);
      if ok {
        SweptArtifacts(before, dir, kept);
        ghost var swept := dir;
        ok := SweepAccess(KeysOf(kept));
        if ok {
          SweptAccess(swept, dir, kept);
        }
      }
      SameFiles(before, dir);
      EvictionsCompose(old(dir), before, dir, keep);
    }

    // ---------------------------------------------------------------------
    // Poisoning
    // ---------------------------------------------------------------------

    /** `_poison_cache_key_locked`: rename the receipt, else create a tombstone,
        else overwrite the receipt in place. */
    method PoisonKey(k: Key) returns (ok: bool)
      requires Valid() && RegisterOf(dir, k).Published?
      modifies `step, `dir, `history
      ensures Valid() && old(history) <= history && OnlyKey(old(dir), dir, k)
      ensures Spoiling(RegisterOf(old(dir), k), RegisterOf(dir, k))
      ensures PoisonTable(RegisterOf(dir, k), fate, old(step))
      ensures ok <==> PoisonReported(fate, old(step))
      ensures step == old(step) + PoisonSteps(fate, old(step))
      ensures ok ==> RegisterOf(dir, k) == Poisoned
      ensures old(step) <= step && (old(Calm()) ==> ok)
    {
      var f := RenameReceipt(k);
      if f == Works || f == Killed {
        return f == Works;
      }
      f := CreateTombstone(k);
      if f == Works || f == Killed {
        return f == Works;
      }
      ok := OverwriteReceipt(k);
    }

    /** `os.replace` of the receipt onto the tombstone's path. */
    method RenameReceipt(k: Key) returns (f: Fate)
      requires Valid() && RegisterOf(dir, k).Published?
      modifies `step, `dir, `history
      ensures Valid() && old(history) <= history && OnlyKey(old(dir), dir, k)
      ensures f == fate(old(step)) && step == old(step) + 1
      ensures if Lands(f) then k in dir.poisoned else RegisterOf(dir, k) == RegisterOf(old(dir), k)
    {
      f := Next();
      if Lands(f) {
        ghost var before := dir;
        dir := Renamed(dir, k);
        Recorded(before, dir, history, Poison(k));
        history := history + [Poison(k)];
      }
    }

    /** `_create_json_once` on the tombstone's path; the file may be there. */
    method CreateTombstone(k: Key) returns (f: Fate)
      requires Valid() && (RegisterOf(dir, k).Published? || k in dir.poisoned)
      modifies `step, `dir, `history
      ensures Valid() && old(history) <= history && OnlyKey(old(dir), dir, k)
      ensures RegisterOf(dir, k).Published? || k in dir.poisoned
      ensures f == fate(old(step)) && step == old(step) + 1
      ensures RegisterOf(dir, k) == if Lands(f) then Poisoned else RegisterOf(old(dir), k)
      ensures k in old(dir).poisoned ==> k in dir.poisoned
      ensures old(step) <= step && (old(Calm()) ==> f == Works)
    {
      f := Next();
      if Lands(f) && k !in dir.poisoned {
        ghost var before := dir;
        dir := WithTombstone(dir, k, clock(step));
        Recorded(before, dir, history, Poison(k));
        history := history + [Poison(k)];
      }
    }

    /** Opening truncates the receipt; writing makes it a poison record. */
    method OverwriteReceipt(k: Key) returns (ok: bool)
      requires Valid() && (RegisterOf(dir, k).Published? || k in dir.poisoned)
      modifies `step, `dir, `history
      ensures Valid() && old(history) <= history && OnlyKey(old(dir), dir, k)
      ensures Spoiling(RegisterOf(old(dir), k), RegisterOf(dir, k))
      ensures ok <==> fate(old(step)) == Works && fate(old(step) + 1) == Works
      ensures RegisterOf(dir, k) ==
        if RegisterOf(old(dir), k) == Poisoned then Poisoned
        else if !Lands(fate(old(step))) then RegisterOf(old(dir), k)
        else if fate(old(step)) == Works && Lands(fate(old(step) + 1)) then Poisoned
        else Broken
      ensures step == old(step) + if fate(old(step)) == Works then 2 else 1
      ensures old(step) <= step && (old(Calm()) ==> ok)
    {
      var f := Next();
      if Lands(f) {
        Truncate(k, clock(step));
      }
      if f != Works {
        return false;
      }
      f := Next();
      if Lands(f) {
        ghost var before := dir;
        dir := WithReceipt(dir, k, PoisonRecord, clock(step));
        if k !in dir.poisoned {
          Recorded(before, dir, history, Poison(k));
          history := history + [Poison(k)];
        } else {
          Unmoved(before, dir, history);
        }
      }
      ok := f == Works;
    }

    method Truncate(k: Key, now: int)
      requires Valid() && (RegisterOf(dir, k).Published? || k in dir.poisoned)
      modifies `dir, `history
      ensures Valid() && old(history) <= history
      ensures dir == WithReceipt(old(dir), k, Garbage, now)
    {
      ghost var before := dir;
      dir := WithReceipt(dir, k, Garbage, now);
      if k !in dir.poisoned {
        Recorded(before, dir, history, Break(k));
        history := history + [Break(k)];
      } else {
        Unmoved(before, dir, history);
      }
    }

    // ---------------------------------------------------------------------
    // Lookup and publication
    // ---------------------------------------------------------------------

    /** `_touch_cache_access`. */
    method Touch(k: Key) returns (ok: bool)
      requires Valid()
      modifies `step, `dir
      ensures Valid() && SameRegister(old(dir), dir)
      ensures Bounded(old(dir)) && Present(old(dir), k) ==> Bounded(dir)
      ensures dir == old(dir) || dir == Touched(old(dir), k, clock(step))
      ensures ok ==> dir == Touched(old(dir), k, clock(step))
      ensures old(step) <= step && (old(Calm()) ==> ok)
    {
      var f := Next();
      if Lands(f) {
        if Bounded(dir) && Present(dir, k) {
          TouchedBounded(dir, k, clock(step));
        }
        SameRegisters(dir, Touched(dir, k, clock(step)), history);
        dir := Touched(dir, k, clock(step));
      }
      ok := f == Works;
    }

    /** `_lookup_cached_anchor`: a hit is what the copy made of the artifact. */
    method Lookup(k: Key) returns (answer: Answer)
      requires Valid()
      modifies `step, `dir, `history
      ensures Valid() && old(history) <= history && OthersOnlyEvicted(old(dir), dir, k)
      ensures LookupAnswers(RegisterOf(old(dir), k), RegisterOf(dir, k), answer)
      ensures answer.Hit? || answer.Miss? ==> Bounded(dir)
      ensures answer.Hit? ==> k in dir.access && dir.access[k] == clock(step)
      ensures old(step) <= step && (old(Calm()) ==> !answer.Stopped?)
    {
      if IsPoisoned(dir, k) {
        return Rejected(KeyPoisoned);
      }
      var cached := Validated(dir, k);
      if k in dir.receipts && cached.None? {
        return Rejected(KeyBroken);
      }
      if cached.None? {
        var ok := Clean(None);
        return if ok then Miss else Stopped;
      }
      var ok := Clean(Some(k));
      if !ok {
        return Stopped;
      }
      answer := Deliver(k, cached.value);
    }

    /** `_copy_cached_anchor`, then the access stamp. */
    method Deliver(k: Key, cached: Anchor) returns (answer: Answer)
      requires Valid() && RegisterOf(dir, k) == Published(cached) && Bounded(dir)
      modifies `step, `dir
      ensures Valid() && SameRegister(old(dir), dir) && Bounded(dir)
      ensures answer == Hit(cached) || answer == Stopped
      ensures answer.Hit? ==> k in dir.access && dir.access[k] == clock(step)
      ensures old(step) <= step && (old(Calm()) ==> !answer.Stopped?)
    {
      var copied := dir.artifacts[cached.sha];
      var f := Next();
      if f != Works {
        return Stopped;
      }
      var ok := Touch(k);
      answer := if ok then Hit(copied) else Stopped;
    }

    /** A cleanup, as far as its callers rely on it. */
    method Clean(keep: Option<Key>) returns (ok: bool)
      requires Valid() && (keep.Some? ==> RegisterOf(dir, keep.value).Published?)
      modifies `step, `dir, `history
      ensures Valid() && old(history) <= history
      ensures OnlyEvictions(old(dir), dir, keep)
      ensures keep.Some? ==>
        RegisterOf(dir, keep.value) == RegisterOf(old(dir), keep.value) && OthersOnlyEvicted(old(dir), dir, keep.value)
      ensures ok ==> Bounded(dir)
      ensures Bounded(old(dir)) ==> ok && Still(old(dir), old(step), old(history))
      ensures old(step) <= step && (old(Calm()) ==> ok)
    {
      ghost var order, kept;
      ok, order, kept := Cleanup(keep);
    }

    /** `_publish_cached_anchor`; `staged` is what the staged file is by the
        time it is linked into the cache. */
    method Publish(k: Key, candidate: Anchor, staged: Anchor) returns (answer: Answer)
      requires Valid()
      modifies `step, `dir, `history
      ensures Valid() && old(history) <= history && OthersOnlyEvicted(old(dir), dir, k)
      ensures PublishAnswers(RegisterOf(old(dir), k), RegisterOf(dir, k), candidate, answer)
      ensures answer.Done? ==> Bounded(dir)
      ensures Diverges(RegisterOf(old(dir), k), candidate) && Bounded(old(dir)) ==>
        PoisonTable(RegisterOf(dir, k), fate, old(step)) && old(step) + PoisonSteps(fate, old(step)) <= step
      ensures answer == Rejected(Inconsistent) ==> staged != candidate || Clashes(old(dir), candidate)
      ensures old(step) <= step && (old(Calm()) ==> !answer.Stopped?)
    {
      if candidate.size > MAX_BYTES {
        return Rejected(TooLarge);
      }
      if IsPoisoned(dir, k) {
        return Rejected(KeyPoisoned);
      }
      var winner := Validated(dir, k);
      if k in dir.receipts {
        if winner.None? {
          return Rejected(KeyBroken);
        }
        answer := Settle(k, winner.value, candidate);
      } else {
        answer := PublishFirst(k, candidate, staged);
      }
    }

    /** The key has a published object: agree with it or poison the key. */
    method Settle(k: Key, winner: Anchor, candidate: Anchor) returns (answer: Answer)
      requires Valid() && RegisterOf(dir, k) == Published(winner) && candidate.size <= MAX_BYTES
      modifies `step, `dir, `history
      ensures Valid() && old(history) <= history && OthersOnlyEvicted(old(dir), dir, k)
      ensures PublishAnswers(Published(winner), RegisterOf(dir, k), candidate, answer)
      ensures answer.Done? ==> Bounded(dir) && k in dir.access && dir.access[k] == clock(step)
      ensures answer != Rejected(Inconsistent)
      ensures winner != candidate && Bounded(old(dir)) ==>
        PoisonTable(RegisterOf(dir, k), fate, old(step)) && old(step) + PoisonSteps(fate, old(step)) <= step
      ensures old(step) <= step && (old(Calm()) ==> !answer.Stopped?)
    {
      var ok := Clean(Some(k));
      if !ok {
        return Stopped;
      }
      if winner != candidate {
        answer := Diverge(k);
      } else {
        ok := Touch(k);
        answer := if ok then Done(winner) else Stopped;
      }
    }

    /** Poison first, then the evidence; an error either way. */
    method Diverge(k: Key) returns (answer: Answer)
      requires Valid() && RegisterOf(dir, k).Published?
      modifies `step, `dir, `history
      ensures Valid() && old(history) <= history && OnlyKey(old(dir), dir, k)
      ensures Spoiling(RegisterOf(old(dir), k), RegisterOf(dir, k))
      ensures PoisonTable(RegisterOf(dir, k), fate, old(step)) && old(step) + PoisonSteps(fate, old(step)) <= step
      ensures answer == Stopped || (answer == Rejected(Divergent) && RegisterOf(dir, k) == Poisoned)
      ensures old(step) <= step && (old(Calm()) ==> !answer.Stopped?)
    {
      var ok := PoisonKey(k);
      if !ok {
        return Stopped;
      }
      var evidence := Next();
      answer := if evidence == Works then Rejected(Divergent) else Stopped;
    }

    /** The key has nothing: link the artifact, then create the receipt. */
    method PublishFirst(k: Key, candidate: Anchor, staged: Anchor) returns (answer: Answer)
      requires Valid() && RegisterOf(dir, k) == Absent && candidate.size <= MAX_BYTES
      modifies `step, `dir, `history
      ensures Valid() && old(history) <= history && OthersOnlyEvicted(old(dir), dir, k)
      ensures PublishAnswers(Absent, RegisterOf(dir, k), candidate, answer)
      ensures answer.Done? ==> Bounded(dir)
      ensures answer == Rejected(Inconsistent) ==> staged != candidate || Clashes(old(dir), candidate)
      ensures old(step) <= step && (old(Calm()) ==> !answer.Stopped?)
    {
      var ok := Clean(None);
      if !ok {
        return Stopped;
      }
      ghost var clean := dir;
      ok := LinkArtifact(candidate.sha, staged);
      if !ok {
        return Stopped;
      }
      if dir.artifacts[candidate.sha] != candidate {
        ClashFound(old(dir), clean, k, candidate);
        return Rejected(Inconsistent);
      }
      ok := CreateReceipt(k, candidate);
      if ok {
        ok := Touch(k);
      }
      if !ok {
        return Stopped;
      }
      var bounded := Clean(Some(k));
      answer := if bounded then Done(candidate) else Stopped;
    }

    /** `_hardlink_once` of the staged object unless the artifact is there; the
        flush before it may fail. */
    method LinkArtifact(s: Sha, staged: Anchor) returns (ok: bool)
      requires Valid()
      modifies `step, `dir
      ensures Valid() && dir.receipts == old(dir).receipts && dir.poisoned == old(dir).poisoned
      ensures ok ==> s in dir.artifacts
      ensures ok ==> dir.artifacts[s] == if s in old(dir).artifacts then old(dir).artifacts[s] else staged
      ensures old(step) <= step && (old(Calm()) ==> ok)
    {
      var f := Next();
      if f != Works {
        return false;
      }
      if s in dir.artifacts {
        return true;
      }
      f := Next();
      if Lands(f) {
        SameRegisters(dir, dir.(artifacts := dir.artifacts[s := staged]), history);
        dir := dir.(artifacts := dir.artifacts[s := staged]);
      }
      ok := f == Works;
    }

    /** The commit point of a publication. */
    method CreateReceipt(k: Key, candidate: Anchor) returns (ok: bool)
      requires Valid() && RegisterOf(dir, k) == Absent && Backed(dir, candidate)
      modifies `step, `dir, `history
      ensures Valid() && old(history) <= history && OnlyKey(old(dir), dir, k)
      ensures RegisterOf(dir, k) == Absent || RegisterOf(dir, k) == Published(candidate)
      ensures ok ==> RegisterOf(dir, k) == Published(candidate)
      ensures old(step) <= step && (old(Calm()) ==> ok)
    {
      var f := Next();
      if Lands(f) {
        ghost var before := dir;
        dir := WithReceipt(dir, k, Ordinary(candidate), clock(step));
        Recorded(before, dir, history, Commit(k, candidate));
        history := history + [Commit(k, candidate)];
      }
      ok := f == Works;
    }
  }

  lemma Unmoved(d: Directory, d': Directory, h: seq<Event>)
    requires Faithful(d, h) && forall k :: RegisterOf(d', k) == RegisterOf(d, k)
    ensures Faithful(d', h)
  {
    forall k ensures RegisterOf(d', k) == After(h, k) {
      assert RegisterOf(d, k) == After(h, k);
    }
  }

  lemma SameRegisters(d: Directory, d': Directory, h: seq<Event>)
    requires Faithful(d, h) && d.receipts == d'.receipts && d.poisoned == d'.poisoned
    ensures Faithful(d', h)
  {
    forall k ensures RegisterOf(d', k) == After(h, k) {
      assert RegisterOf(d, k) == After(h, k);
    }
  }
}
