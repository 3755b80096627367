/** The compiler anchor-object cache on disk, one register per key, and the
    history of a key. */
module AnchorDirectory {
  import opened Options

  type Key = string
  type Sha = string

  const MAX_ENTRIES: nat := 16
  const MAX_BYTES: nat := 4 * 1024 * 1024 * 1024

  /** What identifies an object file. */
  datatype Anchor = Anchor(sha: Sha, size: nat, mode: nat)

  datatype Content = Ordinary(anchor: Anchor) | PoisonRecord | Garbage

  datatype Receipt = Receipt(content: Content, mtime: int)

  /** The files of the cache: receipts, artifacts by name, tombstones with
      their times, and access stamps. */
  datatype Directory = Directory(
    receipts: map<Key, Receipt>, artifacts: map<Sha, Anchor>, poisoned: map<Key, int>, access: map<Key, int>)

  /** Every ordinary receipt names an artifact that is there and fits. */
  ghost predicate Sound(d: Directory) {
    forall k :: k in d.receipts && d.receipts[k].content.Ordinary? ==> Backed(d, d.receipts[k].content.anchor)
  }

  predicate Backed(d: Directory, a: Anchor) {
    a.sha in d.artifacts && d.artifacts[a.sha] == a && a.size <= MAX_BYTES
  }

  // ---------------------------------------------------------------------
  // Registers and histories
  // ---------------------------------------------------------------------

  /** What a client can find out about one key. */
  datatype Register = Absent | Published(anchor: Anchor) | Broken | Poisoned | Illegal

  function RegisterOf(d: Directory, k: Key): Register {
    if k in d.poisoned then Poisoned
    else if k !in d.receipts then Absent
    else
      match d.receipts[k].content
      case Ordinary(a) => Published(a)
      case PoisonRecord => Poisoned
      case Garbage => Broken
  }

  datatype Event = Commit(key: Key, anchor: Anchor) | Evict(key: Key) | Break(key: Key) | Poison(key: Key)

  /** The only moves a key may make: first publication wins, poison is left by
      eviction alone. */
  function Apply(r: Register, k: Key, e: Event): Register {
    if e.key != k then r
    else
      match e
      case Commit(_, a) => if r == Absent then Published(a) else Illegal
      case Evict(_) => if r == Absent || r == Illegal then Illegal else Absent
      case Break(_) => if r.Published? then Broken else Illegal
      case Poison(_) => if r.Published? || r == Broken then Poisoned else Illegal
  }

  function After(h: seq<Event>, k: Key): Register {
    if h == [] then Absent else Apply(After(h[..|h| - 1], k), k, h[|h| - 1])
  }

  /** The directory shows what the history says. */
  ghost predicate Faithful(d: Directory, h: seq<Event>) {
    forall k :: RegisterOf(d, k) == After(h, k)
  }

  lemma Recorded(d: Directory, d': Directory, h: seq<Event>, e: Event)
    requires Faithful(d, h)
    requires forall k :: RegisterOf(d', k) == Apply(RegisterOf(d, k), k, e)
    ensures Faithful(d', h + [e])
  {
    assert (h + [e])[..|h|] == h;
  }

  predicate Untouched(h: seq<Event>, k: Key, from: nat) {
    forall j :: from <= j < |h| ==> h[j].key != k
  }

  lemma {:induction false} UntouchedSame(h: seq<Event>, k: Key, from: nat)
    requires from <= |h| && Untouched(h, k, from)
    ensures After(h, k) == After(h[..from], k)
  {
    if from == |h| {
      assert h[..from] == h;
    } else {
      var before := h[..|h| - 1];
      UntouchedSame(before, k, from);
      assert before[..from] == h[..from];
    }
  }

  /** The last event of a history that touches a key. */
  lemma {:induction false} LastTouch(h: seq<Event>, k: Key) returns (i: nat)
    requires After(h, k) != Absent
    ensures i < |h| && h[i].key == k && Untouched(h, k, i + 1)
    ensures After(h, k) == Apply(After(h[..i], k), k, h[i])
  {
    var n := |h| - 1;
    if h[n].key == k {
      i := n;
    } else {
      i := LastTouch(h[..n], k);
      assert h[..n][..i] == h[..i];
    }
  }

  /** A key shows exactly the object committed when it was last absent, with
      nothing done to it since. */
  lemma PublishedMeans(h: seq<Event>, k: Key, a: Anchor)
    ensures After(h, k) == Published(a) <==>
      exists i: nat :: i < |h| && h[i] == Commit(k, a) && After(h[..i], k) == Absent && Untouched(h, k, i + 1)
  {
    if After(h, k) == Published(a) {
      var i := LastTouch(h, k);
      assert h[i] == Commit(k, a);
    }
    if i: nat :| i < |h| && h[i] == Commit(k, a) && After(h[..i], k) == Absent && Untouched(h, k, i + 1) {
      CommittedShows(h, k, a, i);
    }
  }

  lemma CommittedShows(h: seq<Event>, k: Key, a: Anchor, i: nat)
    requires i < |h| && h[i] == Commit(k, a) && After(h[..i], k) == Absent && Untouched(h, k, i + 1)
    ensures After(h, k) == Published(a)
  {
    UntouchedSame(h, k, i + 1);
    assert h[..i + 1][..i] == h[..i];
  }

  predicate Evicted(h: seq<Event>, k: Key, from: nat) {
    exists j :: from <= j < |h| && h[j] == Evict(k)
  }

  /** How a register stands to an earlier value of itself, no eviction between. */
  predicate Onward(before: Register, now: Register) {
    before == now || before == Absent || now == Illegal ||
    (before.Published? && (now == Broken || now == Poisoned)) || (before == Broken && now == Poisoned)
  }

  lemma {:induction false} OnwardUntilEvicted(h: seq<Event>, k: Key, from: nat)
    requires from <= |h| && !Evicted(h, k, from)
    ensures Onward(After(h[..from], k), After(h, k))
  {
    if from == |h| {
      assert h[..from] == h;
    } else {
      var before := h[..|h| - 1];
      assert forall j :: from <= j < |before| ==> h[j] == before[j];
      OnwardUntilEvicted(before, k, from);
      assert before[..from] == h[..from];
    }
  }

  /** Different objects for one key mean an eviction in between. */
  lemma TwoObjectsNeedEviction(h: seq<Event>, k: Key, from: nat)
    requires from <= |h| && After(h[..from], k).Published? && After(h, k).Published?
    requires After(h[..from], k) != After(h, k)
    ensures Evicted(h, k, from)
  {
    if !Evicted(h, k, from) {
      OnwardUntilEvicted(h, k, from);
    }
  }

  /** A poisoned key stays poisoned until it is evicted. */
  lemma PoisonSticks(h: seq<Event>, k: Key, from: nat)
    requires from <= |h| && After(h[..from], k) == Poisoned && After(h, k) != Illegal
    ensures After(h, k) == Poisoned || Evicted(h, k, from)
  {
    if !Evicted(h, k, from) {
      OnwardUntilEvicted(h, k, from);
    }
  }

  // ---------------------------------------------------------------------
  // Entries
  // ---------------------------------------------------------------------

  /** What a cleanup notes down about one key. */
  datatype Entry = Entry(key: Key, tombstone: bool, artifact: Option<Anchor>, used: int)

  function Used(d: Directory, k: Key, mtime: int): int {
    if k in d.access then d.access[k] else mtime
  }

  function ReceiptEntry(d: Directory, k: Key): Entry
    requires k in d.receipts
  {
    var r := d.receipts[k];
    Entry(k, false, if r.content.Ordinary? then Some(r.content.anchor) else None, Used(d, k, r.mtime))
  }

  function TombstoneEntry(d: Directory, k: Key): Entry
    requires k in d.poisoned
  {
    Entry(k, true, None, Used(d, k, d.poisoned[k]))
  }

  predicate Present(d: Directory, k: Key) { k in d.receipts || k in d.poisoned }

  function EntryOf(d: Directory, k: Key): Entry
    requires Present(d, k)
  {
    if k in d.poisoned then TombstoneEntry(d, k) else ReceiptEntry(d, k)
  }

  predicate GarbageAt(d: Directory, k: Key) {
    k in d.receipts && d.receipts[k].content.Garbage?
  }

  /** When a key was last used: its access stamp says so if it has one, which a
      broken receipt takes away with itself; otherwise the time of its
      tombstone, otherwise of its receipt. */
  predicate LastTouched(d: Directory, k: Key, t: int) {
    if k in d.access && !GarbageAt(d, k) then t == d.access[k]
    else if k in d.poisoned then t == d.poisoned[k]
    else k in d.receipts && t == d.receipts[k].mtime
  }

  /** A listed entry carries its key's last use: the stamp of the last lookup
      or publication where there is one. */
  lemma EntryTime(d: Directory, k: Key)
    requires Present(d, k)
    ensures EntryOf(d, k).key == k
    ensures k in d.access ==> EntryOf(d, k).used == d.access[k]
    ensures k !in d.access && k in d.poisoned ==> EntryOf(d, k).used == d.poisoned[k]
    ensures k !in d.access && k !in d.poisoned ==> EntryOf(d, k).used == d.receipts[k].mtime
  {
  }

  /** No broken receipt, and no receipt beside a tombstone. */
  ghost predicate Tidy(d: Directory) {
    (forall k :: k in d.receipts ==> !d.receipts[k].content.Garbage?) &&
    forall k :: k in d.receipts ==> k !in d.poisoned
  }

  predicate DistinctKeys(es: seq<Entry>) {
    forall i, j :: 0 <= i < j < |es| ==> es[i].key != es[j].key
  }

  function KeysOf(es: seq<Entry>): set<Key> {
    set e | e in es :: e.key
  }

  /** The entries are those of the directory, each once. */
  ghost predicate Describes(d: Directory, es: seq<Entry>) {
    Tidy(d) && DistinctKeys(es) && d.receipts.Keys + d.poisoned.Keys == KeysOf(es) &&
    forall e :: e in es ==> Present(d, e.key) && EntryOf(d, e.key) == e
  }

  lemma {:induction false} KeysCount(es: seq<Entry>)
    requires DistinctKeys(es)
    ensures |KeysOf(es)| == |es|
  {
    if es != [] {
      var n := |es| - 1;
      KeysCount(es[..n]);
      assert es == es[..n] + [es[n]];
      assert KeysOf(es) == KeysOf(es[..n]) + {es[n].key};
    }
  }

  // ---------------------------------------------------------------------
  // Sizes
  // ---------------------------------------------------------------------

  ghost function Sum(m: map<Sha, nat>): nat {
    if m == map[] then 0
    else
      var s :| s in m;
      m[s] + Sum(m - {s})
  }

  lemma {:induction false} SumWithout(m: map<Sha, nat>, s: Sha)
    requires s in m
    ensures Sum(m) == m[s] + Sum(m - {s})
    decreases |m|
  {
    var t :| t in m && Sum(m) == m[t] + Sum(m - {t});
    if t != s {
      SumWithout(m - {t}, s);
      SumWithout(m - {s}, t);
      assert m - {t} - {s} == m - {s} - {t};
    }
  }

  lemma SumWith(m: map<Sha, nat>, s: Sha, size: nat)
    requires s !in m
    ensures Sum(m[s := size]) == Sum(m) + size
  {
    SumWithout(m[s := size], s);
    assert m[s := size] - {s} == m;
  }

  lemma {:induction false} SumMonotone(m: map<Sha, nat>, n: map<Sha, nat>)
    requires forall s :: s in m ==> s in n && n[s] == m[s]
    ensures Sum(m) <= Sum(n)
    decreases |m|
  {
    if m != map[] {
      var s :| s in m;
      SumWithout(m, s);
      SumWithout(n, s);
      SumMonotone(m - {s}, n - {s});
    }
  }

  /** The artifacts some entries name, each once. */
  function Sizes(es: seq<Entry>): map<Sha, nat> {
    if es == [] then map[]
    else
      var before, e := Sizes(es[..|es| - 1]), es[|es| - 1];
      if e.artifact.Some? then before[e.artifact.value.sha := e.artifact.value.size] else before
  }

  /** Entries that agree on the size of an artifact they share. */
  ghost predicate Backs(d: Directory, es: seq<Entry>) {
    forall e :: e in es && e.artifact.Some? ==> Backed(d, e.artifact.value)
  }

  lemma {:induction false} SizesMeaning(d: Directory, es: seq<Entry>)
    requires Backs(d, es)
    ensures forall s :: s in Sizes(es) ==> s in d.artifacts && Sizes(es)[s] == d.artifacts[s].size
    ensures forall s :: s in Sizes(es) <==> exists e :: e in es && e.artifact.Some? && e.artifact.value.sha == s
  {
    if es != [] {
      var n := |es| - 1;
      assert es == es[..n] + [es[n]];
      SizesMeaning(d, es[..n]);
    }
  }

  /** Total bytes of the artifact directory. */
  ghost function Bytes(d: Directory): nat {
    Sum(map s | s in d.artifacts :: d.artifacts[s].size)
  }

  /** What a completed cleanup guarantees. */
  ghost predicate Bounded(d: Directory) {
    Tidy(d) &&
    (forall s :: s in d.artifacts <==> Named(d, s)) &&
    |d.receipts| + |d.poisoned| <= MAX_ENTRIES && Bytes(d) <= MAX_BYTES &&
    forall k :: k in d.access ==> Present(d, k)
  }

  /** Some surviving ordinary receipt names the artifact. */
  ghost predicate Named(d: Directory, s: Sha) {
    exists k :: k in d.receipts && d.receipts[k].content.Ordinary? && d.receipts[k].content.anchor.sha == s
  }
}
