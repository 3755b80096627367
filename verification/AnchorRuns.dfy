/** Runs of many clients against one cache, and what their answers agree on. */
module AnchorRuns {
  import opened Options
  import opened AnchorDirectory
  import opened AnchorRanking
  import opened AnchorCache

  /** A client's call; the global lock makes calls happen one after another. */
  datatype Request = LookupOf(key: Key) | PublishOf(key: Key, candidate: Anchor, staged: Anchor)

  predicate Lawful(request: Request, answer: Answer, before: Register, now: Register) {
    match request
    case LookupOf(_) => LookupAnswers(before, now, answer)
    case PublishOf(_, candidate, _) => PublishAnswers(before, now, candidate, answer)
  }

  /** The history's length before each call and after the last one. */
  predicate Marks(h: seq<Event>, marks: seq<nat>) {
    (forall i :: 0 <= i < |marks| ==> marks[i] <= |h|) && forall i, j :: 0 <= i <= j < |marks| ==> marks[i] <= marks[j]
  }

  predicate LawfulAt(h: seq<Event>, request: Request, answer: Answer, from: nat, to: nat)
    requires from <= |h| && to <= |h|
  {
    Lawful(request, answer, After(h[..from], request.key), After(h[..to], request.key))
  }

  /** A run of calls over a history that the directory followed throughout. */
  predicate Run(h: seq<Event>, requests: seq<Request>, answers: seq<Answer>, marks: seq<nat>) {
    |answers| == |requests| && |marks| == |requests| + 1 && Marks(h, marks) &&
    forall i :: 0 <= i < |requests| ==> LawfulAt(h, requests[i], answers[i], marks[i], marks[i + 1])
  }

  /** No key's history ever leaves the legal moves. */
  ghost predicate Legal(h: seq<Event>) {
    forall k, n: nat :: n <= |h| ==> After(h[..n], k) != Illegal
  }

  lemma {:induction false} NeverIllegalAgain(h: seq<Event>, k: Key, n: nat)
    requires n <= |h| && After(h, k) != Illegal
    ensures After(h[..n], k) != Illegal
  {
    if n < |h| {
      NeverIllegalAgain(h[..|h| - 1], k, n);
      assert h[..|h| - 1][..n] == h[..n];
    } else {
      assert h[..n] == h;
    }
  }

  /** One call after another, each by any client, under any faults. */
  method Serve(cache: Cache, requests: seq<Request>) returns (answers: seq<Answer>, ghost marks: seq<nat>)
    requires cache.Valid()
    modifies cache
    ensures cache.Valid() && old(cache.history) <= cache.history
    ensures Run(cache.history, requests, answers, marks) && Legal(cache.history)
  {
    answers, marks := [], [|cache.history|];
    for i := 0 to |requests|
      invariant cache.Valid() && old(cache.history) <= cache.history
      invariant Run(cache.history, requests[..i], answers, marks) && marks[i] == |cache.history|
    {
      ghost var before := cache.history;
      var answer := ServeOne(cache, requests[i]);
      RunExtends(before, cache.history, requests[..i], answers, marks, requests[i], answer);
      assert requests[..i + 1] == requests[..i] + [requests[i]];
      answers, marks := answers + [answer], marks + [|cache.history|];
    }
    assert requests[..|requests|] == requests;
    forall k, n: nat | n <= |cache.history| ensures After(cache.history[..n], k) != Illegal {
      assert RegisterOf(cache.dir, k) == After(cache.history, k);
      NeverIllegalAgain(cache.history, k, n);
    }
  }

  method ServeOne(cache: Cache, request: Request) returns (answer: Answer)
    requires cache.Valid()
    modifies cache
    ensures cache.Valid() && old(cache.history) <= cache.history
    ensures Lawful(request, answer, After(old(cache.history), request.key), After(cache.history, request.key))
  {
    match request
    case LookupOf(k) => answer := cache.Lookup(k);
    case PublishOf(k, candidate, staged) => answer := cache.Publish(k, candidate, staged);
  }

  lemma RunExtends(h: seq<Event>, h': seq<Event>, requests: seq<Request>, answers: seq<Answer>, marks: seq<nat>,
                   request: Request, answer: Answer)
    requires Run(h, requests, answers, marks) && marks[|requests|] == |h| && h <= h'
    requires Lawful(request, answer, After(h, request.key), After(h', request.key))
    ensures Run(h', requests + [request], answers + [answer], marks + [|h'|])
  {
    var rs, bs, ms := requests + [request], answers + [answer], marks + [|h'|];
    forall i | 0 <= i < |rs| ensures LawfulAt(h', rs[i], bs[i], ms[i], ms[i + 1]) {
      if i < |requests| {
        assert LawfulAt(h, requests[i], answers[i], marks[i], marks[i + 1]);
        assert h'[..marks[i]] == h[..marks[i]] && h'[..marks[i + 1]] == h[..marks[i + 1]];
      } else {
        assert h'[..|h|] == h && h'[..|h'|] == h';
      }
    }
  }

  // ---------------------------------------------------------------------
  // What clients agree on
  // ---------------------------------------------------------------------

  /** The object an answer delivers. */
  function Delivered(answer: Answer): Option<Anchor> {
    match answer
    case Hit(a) => Some(a)
    case Done(a) => Some(a)
    case _ => None
  }

  /** A delivered object is the one published when the key was last absent,
      untouched since: the first publication since its last eviction. */
  lemma DeliveredIsFirstPublished(h: seq<Event>, requests: seq<Request>, answers: seq<Answer>, marks: seq<nat>, i: nat)
    requires Run(h, requests, answers, marks) && i < |requests| && Delivered(answers[i]).Some?
    ensures marks[i + 1] <= |h|
    ensures exists e: nat ::
      e < marks[i + 1] && h[e] == Commit(requests[i].key, Delivered(answers[i]).value) &&
      After(h[..e], requests[i].key) == Absent && Untouched(h[..marks[i + 1]], requests[i].key, e + 1)
  {
    var k, past := requests[i].key, h[..marks[i + 1]];
    assert LawfulAt(h, requests[i], answers[i], marks[i], marks[i + 1]);
    PublishedMeans(past, k, Delivered(answers[i]).value);
    var e: nat :| e < |past| && past[e] == Commit(k, Delivered(answers[i]).value) &&
      After(past[..e], k) == Absent && Untouched(past, k, e + 1);
    assert past[..e] == h[..e];
  }

  /** Two clients that were given different objects for a key were separated by
      an eviction of that key. */
  lemma DeliveriesAgree(h: seq<Event>, requests: seq<Request>, answers: seq<Answer>, marks: seq<nat>, i: nat, j: nat)
    requires Run(h, requests, answers, marks) && i < j < |requests| && requests[i].key == requests[j].key
    requires Delivered(answers[i]).Some? && Delivered(answers[j]).Some?
    requires Delivered(answers[i]) != Delivered(answers[j])
    ensures marks[j + 1] <= |h| && Evicted(h[..marks[j + 1]], requests[i].key, marks[i + 1])
  {
    assert LawfulAt(h, requests[i], answers[i], marks[i], marks[i + 1]);
    assert LawfulAt(h, requests[j], answers[j], marks[j], marks[j + 1]);
    var past := h[..marks[j + 1]];
    assert past[..marks[i + 1]] == h[..marks[i + 1]];
    TwoObjectsNeedEviction(past, requests[i].key, marks[i + 1]);
  }

  /** From the moment a poison is committed, whatever becomes of the call that
      committed it, every call for the key is refused until the key's
      tombstone is evicted. */
  lemma PoisonBlocks(h: seq<Event>, requests: seq<Request>, answers: seq<Answer>, marks: seq<nat>, n: nat, j: nat)
    requires Run(h, requests, answers, marks) && Legal(h) && j < |requests|
    requires n <= marks[j] && marks[j] <= |h| && After(h[..n], requests[j].key) == Poisoned
    ensures Evicted(h[..marks[j]], requests[j].key, n) ||
      answers[j] == Rejected(KeyPoisoned) || answers[j] == Rejected(TooLarge)
  {
    assert LawfulAt(h, requests[j], answers[j], marks[j], marks[j + 1]);
    var past := h[..marks[j]];
    assert past[..n] == h[..n];
    PoisonSticks(past, requests[j].key, n);
  }

  /** In particular after a publication was told that it diverged. */
  lemma DivergenceBlocks(h: seq<Event>, requests: seq<Request>, answers: seq<Answer>, marks: seq<nat>, i: nat, j: nat)
    requires Run(h, requests, answers, marks) && Legal(h) && i < j < |requests| && requests[i].key == requests[j].key
    requires answers[i] == Rejected(Divergent)
    ensures marks[j] <= |h|
    ensures Evicted(h[..marks[j]], requests[i].key, marks[i + 1]) ||
      answers[j] == Rejected(KeyPoisoned) || answers[j] == Rejected(TooLarge)
  {
    assert LawfulAt(h, requests[i], answers[i], marks[i], marks[i + 1]);
    PoisonBlocks(h, requests, answers, marks, marks[i + 1], j);
  }

  /** A cleanup loses no published and no poisoned key of a cache within both
      limits. */
  lemma NothingLostWhenItFits(d: Directory, d': Directory, order: seq<Entry>, kept: seq<Entry>, keep: Option<Key>)
    requires Candidates(d, order) && Describes(d', kept) && Chosen(order, kept, keep)
    requires OnlyEvictions(d, d', keep)
    requires |order| <= MAX_ENTRIES && SumOfSizes(order) <= MAX_BYTES
    ensures forall k :: RegisterOf(d, k).Published? || RegisterOf(d, k) == Poisoned ==> RegisterOf(d', k) == RegisterOf(d, k)
  {
    FittingIsKept(d, order, kept, keep);
    forall k | RegisterOf(d, k).Published? || RegisterOf(d, k) == Poisoned ensures RegisterOf(d', k) == RegisterOf(d, k) {
      assert k in KeysOf(order);
      var e :| e in order && e.key == k;
      assert Present(d', k);
    }
  }

  /** Nothing stands against a first publication. */
  ghost predicate Publishable(d: Directory, k: Key, candidate: Anchor) {
    RegisterOf(d, k) == Absent && candidate.size <= MAX_BYTES && !Clashes(d, candidate)
  }

  /** Without faults, what was published is there for the next client. */
  method PublishThenLookup(cache: Cache, k: Key, candidate: Anchor) returns (published: Answer, found: Answer)
    requires cache.Valid() && cache.Calm()
    modifies cache
    ensures cache.Valid()
    ensures published.Done? ==> published == Done(candidate) && found == Hit(candidate)
    ensures Publishable(old(cache.dir), k, candidate) ==> published.Done?
  {
    published := cache.Publish(k, candidate, candidate);
    found := cache.Lookup(k);
  }

  // ---------------------------------------------------------------------
  // How a divergence is forgotten
  // ---------------------------------------------------------------------

  /** A cache that holds one key and nothing else. */
  ghost predicate Alone(d: Directory, k: Key, r: Register) {
    RegisterOf(d, k) == r && forall x {:trigger RegisterOf(d, x)} :: x != k ==> RegisterOf(d, x) == Absent
  }

  method PublishAlone(k: Key, a: Anchor) returns (cache: Cache, first: Answer)
    requires a.size <= MAX_BYTES
    ensures cache.Valid() && Bounded(cache.dir) && Alone(cache.dir, k, Published(a)) && first == Done(a)
  {
    cache := new Cache(n => Works, n => n);
    first := cache.Publish(k, a, a);
  }

  /** The rename and the tombstone's creation fail, the receipt is truncated
      but not rewritten: the key is broken rather than poisoned. */
  method BreakKey(cache: Cache, k: Key, a: Anchor, b: Anchor) returns (diverged: Answer)
    requires cache.Valid() && Bounded(cache.dir) && Alone(cache.dir, k, Published(a)) && cache.step == 0
    requires a != b && b.size <= MAX_BYTES
    requires forall n :: cache.fate(n) == if n == 0 || n == 1 || n == 3 then Fails else Works
    modifies cache
    ensures cache.Valid() && Alone(cache.dir, k, Broken) && cache.Calm() && diverged == Stopped
  {
    diverged := cache.Publish(k, b, b);
    assert KeyBreaks(cache.fate, 0) && PoisonSteps(cache.fate, 0) == 4;
  }

  /** The next cleanup, on behalf of any key, forgets the broken one, which
      then takes the other object. */
  method ForgetKey(cache: Cache, k: Key, j: Key, b: Anchor) returns (other: Answer, second: Answer)
    requires cache.Valid() && Alone(cache.dir, k, Broken) && cache.Calm() && j != k && b.size <= MAX_BYTES
    modifies cache
    ensures other == Miss && second == Done(b)
  {
    other := cache.Lookup(j);
    assert RegisterOf(cache.dir, k) == Absent;
    second := cache.Publish(k, b, b);
  }

  /** Two clients of one key are given different objects although the second
      one's divergence was noticed and no poison was ever left. */
  method DivergenceForgotten(k: Key, j: Key, a: Anchor, b: Anchor)
    returns (cache: Cache, first: Answer, diverged: Answer, other: Answer, second: Answer)
    requires j != k && a != b && a.size <= MAX_BYTES && b.size <= MAX_BYTES
    ensures first == Done(a) && diverged == Stopped && other == Miss && second == Done(b)
  {
    var earlier;
    earlier, first := PublishAlone(k, a);
    cache := new Cache.Reopen(earlier.dir, earlier.history,
      n => if n == 0 || n == 1 || n == 3 then Fails else Works, n => n);
    diverged := BreakKey(cache, k, a, b);
    other, second := ForgetKey(cache, k, j, b);
  }
}
