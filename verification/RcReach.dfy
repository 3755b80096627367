/** What reference counting means for reachability. */
module RcReach {
  import opened RcHeap
  import opened RcSharing

  ghost predicate Anchored(h: Blocks, owned: multiset<Addr>, a: Addr) {
    a in h && (a in owned || !Mortal(h[a]))
  }

  /** `path` leads from an owned or immortal block to its last block. */
  ghost predicate Path(h: Blocks, owned: multiset<Addr>, path: seq<Addr>)
    requires AllWellFormed(h)
  {
    path != [] && Anchored(h, owned, path[0]) &&
    (forall i :: 0 <= i < |path| ==> path[i] in h) &&
    forall i :: 0 < i < |path| ==> path[i] in Out(h[path[i - 1]])
  }

  ghost predicate Reachable(h: Blocks, owned: multiset<Addr>, a: Addr)
    requires AllWellFormed(h)
  {
    exists path :: Path(h, owned, path) && path[|path| - 1] == a
  }

  /** No use after free: nothing on a path from a reference that stays owned
      is freed or rewritten. */
  lemma {:induction false} PathSurvives(h: Blocks, d: multiset<Addr>, owned: multiset<Addr>, path: seq<Addr>, i: nat)
    requires Inv(h, owned + d) && Path(h, owned, path) && i < |path|
    ensures path[i] in AfterDrops(h, d)
    ensures AfterDrops(h, d)[path[i]].data == h[path[i]].data
    ensures AfterDrops(h, d)[path[i]].tid == h[path[i]].tid
  {
    if path[i] in Dead(h, d) {
      DeadUnreferenced(h, d, owned, path[i]);
      DeadJustified(h, d, path[i]);
      if i > 0 {
        PathSurvives(h, d, owned, path, i - 1);
        IncomingMember(h, h.Keys - Dead(h, d), path[i - 1], path[i]);
      }
    }
  }

  /** A block that stays reachable survives a cascade and stays reachable. */
  lemma ReachedSurvives(h: Blocks, d: multiset<Addr>, owned: multiset<Addr>, a: Addr)
    requires Inv(h, owned + d) && Reachable(h, owned, a)
    ensures a in h && a !in Dead(h, d) && a in AfterDrops(h, d)
    ensures AfterDrops(h, d)[a].data == h[a].data && AfterDrops(h, d)[a].tid == h[a].tid
    ensures Reachable(AfterDrops(h, d), owned, a)
  {
    assert owned + multiset{} == owned;
    ReachedSurvivesAmong(h, d, owned, multiset{}, a);
  }

  lemma ReachedSurvivesAmong(h: Blocks, d: multiset<Addr>, owned: multiset<Addr>, more: multiset<Addr>, a: Addr)
    requires Inv(h, (owned + more) + d) && Reachable(h, owned, a)
    ensures a in h && a !in Dead(h, d) && a in AfterDrops(h, d)
    ensures AfterDrops(h, d)[a].data == h[a].data && AfterDrops(h, d)[a].tid == h[a].tid
    ensures Reachable(AfterDrops(h, d), owned, a)
  {
    var h' := AfterDrops(h, d);
    var path :| Path(h, owned, path) && path[|path| - 1] == a;
    assert Path(h, owned + more, path);
    forall i: nat | i < |path| ensures path[i] in h' && h'[path[i]].data == h[path[i]].data {
      PathSurvives(h, d, owned + more, path, i);
    }
    assert Path(h', owned, path);
  }

  lemma ReachedMore(h: Blocks, owned: multiset<Addr>, more: multiset<Addr>, a: Addr)
    requires AllWellFormed(h) && Reachable(h, owned, a)
    ensures Reachable(h, owned + more, a)
  {
    var path :| Path(h, owned, path) && path[|path| - 1] == a;
    assert Path(h, owned + more, path);
  }

  /** Hiding a block whose last reference goes leaves the rest reachable. */
  lemma ReachedWithoutLast(h: Blocks, a: Addr, owned: multiset<Addr>, p: Addr)
    requires a in h && Inv(h, owned + multiset{a}) && Mortal(h[a]) && h[a].rc == 1 && AllWellFormed(h - {a})
    requires Reachable(h, owned, p)
    ensures p != a && Reachable(h - {a}, owned, p)
  {
    DeadClosed(h, multiset{a});
    var path :| Path(h, owned, path) && path[|path| - 1] == p;
    forall i: nat | i < |path| ensures path[i] != a {
      PathSurvives(h, multiset{a}, owned, path, i);
    }
    assert Path(h - {a}, owned, path);
  }

  /** Rewriting a block's own slots does not make it unreachable. */
  lemma ReachedSetData(h: Blocks, a: Addr, s: Data, owned: multiset<Addr>)
    requires AllWellFormed(h) && a in h && AllWellFormed(SetData(h, a, s)) && Reachable(h, owned, a)
    ensures Reachable(SetData(h, a, s), owned, a)
  {
    var path :| Path(h, owned, path) && path[|path| - 1] == a;
    var n := FirstAt(path, a);
    assert Path(SetData(h, a, s), owned, path[..n + 1]);
  }

  lemma FirstAt(path: seq<Addr>, a: Addr) returns (n: nat)
    requires a in path
    ensures n < |path| && path[n] == a && forall i :: 0 <= i < n ==> path[i] != a
  {
    n := 0;
    while path[n] != a
      invariant n < |path| && a in path[n..]
      invariant forall i :: 0 <= i < n ==> path[i] != a
      decreases |path| - n
    {
      n := n + 1;
    }
  }

  /** References only point to blocks of strictly smaller rank; immortal
      blocks may point anywhere. */
  ghost predicate Acyclic(h: Blocks, rank: map<Addr, nat>)
    requires AllWellFormed(h)
  {
    (forall a :: a in h ==> a in rank) &&
    forall a, b :: a in h && b in h && Mortal(h[a]) && b in Out(h[a]) ==> rank[b] < rank[a]
  }

  lemma RankBound(h: Blocks, rank: map<Addr, nat>) returns (m: nat)
    requires forall a :: a in h ==> a in rank
    ensures forall a :: a in h ==> rank[a] <= m
  {
    m := 0;
    var todo := h.Keys;
    while todo != {}
      invariant forall a :: a in h && a !in todo ==> rank[a] <= m
    {
      var a :| a in todo;
      m := if rank[a] > m then rank[a] else m;
      todo := todo - {a};
    }
  }

  /** On an acyclic heap every block is reachable: nothing leaks. */
  lemma {:induction false} AcyclicReachable(h: Blocks, owned: multiset<Addr>, rank: map<Addr, nat>, m: nat, a: Addr)
    requires Inv(h, owned) && Acyclic(h, rank) && a in h
    requires forall b :: b in h ==> rank[b] <= m
    ensures Reachable(h, owned, a)
    decreases m - rank[a]
  {
    if Anchored(h, owned, a) {
      AnchoredReachable(h, owned, a);
    } else {
      assert Exact(h, owned, a);
      var b := IncomingHolder(h, h.Keys, a);
      if Mortal(h[b]) {
        AcyclicReachable(h, owned, rank, m, b);
      } else {
        AnchoredReachable(h, owned, b);
      }
      NextReachable(h, owned, b, a);
    }
  }

  lemma AnchoredReachable(h: Blocks, owned: multiset<Addr>, a: Addr)
    requires AllWellFormed(h) && Anchored(h, owned, a)
    ensures Reachable(h, owned, a)
  {
    assert Path(h, owned, [a]) && [a][|[a]| - 1] == a;
  }

  lemma NextReachable(h: Blocks, owned: multiset<Addr>, b: Addr, a: Addr)
    requires AllWellFormed(h) && Reachable(h, owned, b) && b in h && a in h && a in Out(h[b])
    ensures Reachable(h, owned, a)
  {
    var path :| Path(h, owned, path) && path[|path| - 1] == b;
    assert Path(h, owned, path + [a]) && (path + [a])[|path + [a]| - 1] == a;
  }

  /** On an acyclic heap releasing references frees exactly the garbage: a
      block survives if and only if it is still reachable. */
  lemma DropsCollectGarbage(h: Blocks, d: multiset<Addr>, owned: multiset<Addr>, rank: map<Addr, nat>, a: Addr)
    requires Inv(h, owned + d) && Acyclic(h, rank) && a in h
    ensures a in AfterDrops(h, d) <==> Reachable(h, owned, a)
  {
    if Reachable(h, owned, a) {
      var path :| Path(h, owned, path) && path[|path| - 1] == a;
      PathSurvives(h, d, owned, path, |path| - 1);
    }
    if a in AfterDrops(h, d) {
      SurvivorReachable(h, d, owned, rank, a);
    }
  }

  lemma SurvivorReachable(h: Blocks, d: multiset<Addr>, owned: multiset<Addr>, rank: map<Addr, nat>, a: Addr)
    requires Inv(h, owned + d) && Acyclic(h, rank) && a in AfterDrops(h, d)
    ensures Reachable(h, owned, a)
  {
    var h' := AfterDrops(h, d);
    AfterDropsInv(h, d, owned);
    assert Acyclic(h', rank);
    var m := RankBound(h', rank);
    AcyclicReachable(h', owned, rank, m, a);
    PathBefore(h, d, owned, a);
  }

  lemma PathBefore(h: Blocks, d: multiset<Addr>, owned: multiset<Addr>, a: Addr)
    requires AllWellFormed(h) && Reachable(AfterDrops(h, d), owned, a)
    ensures Reachable(h, owned, a)
  {
    var path :| Path(AfterDrops(h, d), owned, path) && path[|path| - 1] == a;
    assert Path(h, owned, path);
  }

  // ---------------------------------------------------------------------
  // What leaks
  // ---------------------------------------------------------------------

  /** Mortal blocks each of which references the next, the last the first. */
  ghost predicate Cycle(h: Blocks, c: seq<Addr>)
    requires AllWellFormed(h)
  {
    c != [] && Chain(h, c) && c[0] in Out(h[c[|c| - 1]])
  }

  ghost predicate Chain(h: Blocks, c: seq<Addr>)
    requires AllWellFormed(h)
  {
    (forall i :: 0 <= i < |c| ==> c[i] in h && Mortal(h[c[i]])) &&
    forall i :: 0 < i < |c| ==> c[i] in Out(h[c[i - 1]])
  }

  /** Some reference to each block of a cycle comes from the cycle. */
  lemma CycleHolder(h: Blocks, c: seq<Addr>, x: Addr) returns (b: Addr)
    requires AllWellFormed(h) && Cycle(h, c) && x in c
    ensures b in c && b in h && x in Out(h[b])
  {
    var i :| 0 <= i < |c| && c[i] == x;
    b := if i == 0 then c[|c| - 1] else c[i - 1];
  }

  /** No release frees a block of a cycle: the blocks outside it are closed. */
  lemma CycleSurvives(h: Blocks, d: multiset<Addr>, owned: multiset<Addr>, c: seq<Addr>)
    requires Inv(h, owned + d) && Cycle(h, c)
    ensures forall x :: x in c ==> x in AfterDrops(h, d)
  {
    var outside := set x | x in h && x !in c;
    forall x | x in h && Mortal(h[x]) && x in c ensures h[x].rc > d[x] + Incoming(h, outside)[x] {
      var b := CycleHolder(h, c, x);
      IncomingMonotone(h, outside, h.Keys);
      IncomingMember(h, h.Keys - outside, b, x);
      assert Exact(h, owned + d, x);
    }
    assert Closed(h, d, outside);
    DeadWithin(h, d, outside);
  }

  /** A survivor that nothing keeps alive is referenced by another one. */
  lemma LeakedHolder(h: Blocks, d: multiset<Addr>, owned: multiset<Addr>, a: Addr) returns (b: Addr)
    requires Inv(h, owned + d) && Leaked(h, d, owned, a)
    ensures Leaked(h, d, owned, b) && a in Out(h[b])
  {
    var h' := AfterDrops(h, d);
    AfterDropsInv(h, d, owned);
    MortalIfUnreachable(h, owned, a);
    assert Exact(h', owned, a);
    b := IncomingHolder(h', h'.Keys, a);
    if Reachable(h, owned, b) {
      NextReachable(h, owned, b, a);
    }
  }

  /** Survives the release although nothing reaches it. */
  ghost predicate Leaked(h: Blocks, d: multiset<Addr>, owned: multiset<Addr>, a: Addr)
    requires AllWellFormed(h)
  {
    a in AfterDrops(h, d) && !Reachable(h, owned, a)
  }

  lemma MortalIfUnreachable(h: Blocks, owned: multiset<Addr>, a: Addr)
    requires AllWellFormed(h) && a in h && !Reachable(h, owned, a)
    ensures Mortal(h[a]) && a !in owned
  {
    if Anchored(h, owned, a) {
      AnchoredReachable(h, owned, a);
    }
  }

  /** Walking back from holder to holder among finitely many blocks closes a
      cycle. */
  lemma {:induction false} LeakedCycle(h: Blocks, d: multiset<Addr>, owned: multiset<Addr>, walk: seq<Addr>)
    returns (c: seq<Addr>)
    requires Inv(h, owned + d) && walk != [] && Chain(h, walk)
    requires forall x :: x in walk ==> Leaked(h, d, owned, x)
    ensures Cycle(h, c) && forall x :: x in c ==> Leaked(h, d, owned, x)
    decreases |h.Keys - (set x | x in walk)|
  {
    var b := LeakedHolder(h, d, owned, walk[0]);
    if b in walk {
      var j :| 0 <= j < |walk| && walk[j] == b;
      c := walk[..j + 1];
      ClosedWalk(h, walk, j);
    } else {
      MortalIfUnreachable(h, owned, b);
      var longer := [b] + walk;
      LongerWalk(h, walk, b);
      FewerLeft(h.Keys, walk, b);
      c := LeakedCycle(h, d, owned, longer);
    }
  }

  lemma ClosedWalk(h: Blocks, walk: seq<Addr>, j: nat)
    requires AllWellFormed(h) && Chain(h, walk) && j < |walk| && walk[0] in Out(h[walk[j]])
    ensures Cycle(h, walk[..j + 1]) && forall x :: x in walk[..j + 1] ==> x in walk
  {
  }

  lemma LongerWalk(h: Blocks, walk: seq<Addr>, b: Addr)
    requires AllWellFormed(h) && walk != [] && Chain(h, walk) && b in h && Mortal(h[b]) && walk[0] in Out(h[b])
    ensures Chain(h, [b] + walk)
  {
  }

  lemma FewerLeft(all: set<Addr>, walk: seq<Addr>, b: Addr)
    requires b in all && b !in walk
    ensures |all - (set x | x in [b] + walk)| < |all - (set x | x in walk)|
  {
    var before, now := all - (set x | x in walk), all - (set x | x in [b] + walk);
    assert now == before - {b};
  }

  /** A release leaves a block that nothing keeps alive exactly when there is a
      cycle of mortal blocks that no remaining owner and no immortal block
      reaches. */
  lemma LeaksAreCycles(h: Blocks, d: multiset<Addr>, owned: multiset<Addr>)
    requires Inv(h, owned + d)
    ensures (exists a :: Leaked(h, d, owned, a)) <==>
      exists c :: Cycle(h, c) && forall x :: x in c ==> !Reachable(h, owned, x)
  {
    if a :| Leaked(h, d, owned, a) {
      MortalIfUnreachable(h, owned, a);
      var c := LeakedCycle(h, d, owned, [a]);
    }
    if c :| Cycle(h, c) && forall x :: x in c ==> !Reachable(h, owned, x) {
      CycleSurvives(h, d, owned, c);
      assert Leaked(h, d, owned, c[0]);
    }
  }

  /** The smallest leak: a cell that holds itself outlives its last owner. */
  lemma CycleLeaks()
    ensures exists h: Blocks, d: multiset<Addr>, a ::
      Inv(h, d) && a in AfterDrops(h, d) && !Reachable(h, multiset{}, a)
  {
    var h: Blocks := map[0 := Block(2, Cell, CellData(Ref(0)))];
    var d := multiset{0};
    SelfCell(h);
    assert multiset{} + d == d;
    DropShared(h, 0, multiset{});
    assert 0 in AfterDrops(h, d);
  }

  lemma SelfCell(h: Blocks)
    requires h == map[0 := Block(2, Cell, CellData(Ref(0)))]
    ensures Inv(h, multiset{0})
  {
    assert Slots(h[0].data) == [Ref(0)];
    assert Refs([Ref(0)]) == multiset{0};
    IncomingTake(h, h.Keys, 0);
    assert h.Keys - {0} == {};
    assert forall a :: Exact(h, multiset{0}, a);
  }
}
