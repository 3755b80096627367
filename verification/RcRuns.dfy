/** Whole runs of a program on the heap. */
module RcRuns {
  import opened RcHeap
  import opened RcSharing
  import opened RcReach

  datatype State = State(heap: Blocks, owned: multiset<Addr>)

  datatype Action =
    | Alloc(a: Addr, tid: TypeId, data: Data)
    | Dup(v: Value)
    | Drop(v: Value)
    | Store(a: Addr, data: Data)
    | Intern(a: Addr, tid: TypeId)

  /** When the runtime's callers may take an action: a dup needs a live block,
      a drop an owned reference, and references stored in slots must balance
      those taken out. */
  ghost predicate Enabled(s: State, x: Action) {
    AllWellFormed(s.heap) &&
    match x
    case Alloc(a, tid, data) => a !in s.heap && Fits(tid, data) && Refs(Slots(data)) <= s.owned
    case Dup(v) => v.Ref? ==> v.addr in s.heap
    case Drop(v) => Refs([v]) <= s.owned
    case Store(a, data) =>
      a in s.heap && Fits(s.heap[a].tid, data) && Refs(Slots(data)) <= s.owned + Out(s.heap[a])
    case Intern(a, tid) => a in s.heap && NeverDrop(tid)
  }

  ghost function Next(s: State, x: Action): State
    requires Enabled(s, x)
  {
    match x
    case Alloc(a, tid, data) =>
      State(s.heap[a := Block(1, tid, data)], s.owned - Refs(Slots(data)) + multiset{a})
    case Dup(v) => State(AfterDups(s.heap, Refs([v])), s.owned + Refs([v]))
    case Drop(v) => State(AfterDrops(s.heap, Refs([v])), s.owned - Refs([v]))
    case Store(a, data) =>
      State(SetData(s.heap, a, data), s.owned + Out(s.heap[a]) - Refs(Slots(data)))
    case Intern(a, tid) => State(s.heap[a := s.heap[a].(tid := tid)], s.owned)
  }

  ghost predicate Run(states: seq<State>, actions: seq<Action>) {
    |states| == |actions| + 1 && states[0] == State(map[], multiset{}) &&
    forall i :: 0 <= i < |actions| ==> Enabled(states[i], actions[i]) && states[i + 1] == Next(states[i], actions[i])
  }

  lemma StepInv(s: State, x: Action)
    requires Inv(s.heap, s.owned) && Enabled(s, x)
    ensures Inv(Next(s, x).heap, Next(s, x).owned)
  {
    match x {
      case Alloc(a, tid, data) =>
        assert s.owned == s.owned - Refs(Slots(data)) + Refs(Slots(data));
        AllocInv(s.heap, a, Block(1, tid, data), s.owned - Refs(Slots(data)));
      case Dup(v) => DupEffect(s.heap, v, s.owned);
      case Drop(v) =>
        assert s.owned == s.owned - Refs([v]) + Refs([v]);
        AfterDropsInv(s.heap, Refs([v]), s.owned - Refs([v]));
      case Store(a, data) =>
        var total := s.owned + Out(s.heap[a]);
        assert total == total - Refs(Slots(data)) + Refs(Slots(data));
        SetDataInv(s.heap, a, data, s.owned, total - Refs(Slots(data)));
      case Intern(a, tid) => InternInv(s.heap, a, tid, s.owned);
    }
  }

  /** Reference counts are exact in every state of every run. */
  lemma {:induction false} CountsExact(states: seq<State>, actions: seq<Action>, i: nat)
    requires Run(states, actions) && i < |states|
    ensures Inv(states[i].heap, states[i].owned)
  {
    if i > 0 {
      CountsExact(states, actions, i - 1);
      assert states[i] == Next(states[i - 1], actions[i - 1]);
      StepInv(states[i - 1], actions[i - 1]);
    } else {
      assert states[0].heap.Keys == {};
      assert forall a :: Exact(states[0].heap, states[0].owned, a);
    }
  }

  /** The block is immortal and stays so, with the same count. */
  ghost predicate Frozen(g: Blocks, h: Blocks, a: Addr) {
    a in g && !Mortal(g[a]) && a in h && !Mortal(h[a]) && h[a].rc == g[a].rc
  }

  lemma StepImmortal(s: State, x: Action, a: Addr)
    requires Inv(s.heap, s.owned) && Enabled(s, x) && a in s.heap && !Mortal(s.heap[a])
    ensures Frozen(s.heap, Next(s, x).heap, a)
  {
    match x {
      case Drop(v) =>
        if a in Dead(s.heap, Refs([v])) {
          DeadJustified(s.heap, Refs([v]), a);
        }
      case Alloc(_, _, _) =>
      case Dup(_) =>
      case Store(_, _) =>
      case Intern(_, _) =>
    }
  }

  lemma RunStep(states: seq<State>, actions: seq<Action>, i: nat, a: Addr)
    requires Run(states, actions) && i < |actions|
    requires a in states[i].heap && !Mortal(states[i].heap[a])
    ensures Frozen(states[i].heap, states[i + 1].heap, a)
  {
    CountsExact(states, actions, i);
    StepImmortal(states[i], actions[i], a);
  }

  /** A block that is ever saturated or interned is never freed, and its
      count never moves again. */
  lemma {:induction false} ImmortalForever(states: seq<State>, actions: seq<Action>, i: nat, j: nat, a: Addr)
    requires Run(states, actions) && i <= j < |states|
    requires a in states[i].heap && !Mortal(states[i].heap[a])
    ensures Frozen(states[i].heap, states[j].heap, a)
    decreases j - i
  {
    if i < j {
      ImmortalForever(states, actions, i, j - 1, a);
      RunStep(states, actions, j - 1, a);
    }
  }

  /** Whatever the program owns, or reaches from something it owns, is there. */
  lemma NothingDangles(states: seq<State>, actions: seq<Action>, i: nat, a: Addr)
    requires Run(states, actions) && i < |states|
    ensures AllWellFormed(states[i].heap)
    ensures a in states[i].owned ==> a in states[i].heap
    ensures forall b :: b in states[i].heap && a in Out(states[i].heap[b]) ==> a in states[i].heap
  {
    CountsExact(states, actions, i);
    var h, owned := states[i].heap, states[i].owned;
    assert Exact(h, owned, a);
    forall b | b in h && a in Out(h[b]) ensures a in h {
      IncomingMember(h, h.Keys, b, a);
    }
  }

  /** When a program on an acyclic heap has given up everything it owned, only
      immortal blocks and what they reach are left. */
  lemma NoLeakAtExit(states: seq<State>, actions: seq<Action>, i: nat, rank: map<Addr, nat>, a: Addr)
    requires Run(states, actions) && i < |states| && states[i].owned == multiset{}
    requires AllWellFormed(states[i].heap) && Acyclic(states[i].heap, rank) && a in states[i].heap
    ensures exists path ::
      (Path(states[i].heap, multiset{}, path) && path[|path| - 1] == a && !Mortal(states[i].heap[path[0]]))
  {
    CountsExact(states, actions, i);
    var h := states[i].heap;
    var m := RankBound(h, rank);
    AcyclicReachable(h, multiset{}, rank, m, a);
    var path :| Path(h, multiset{}, path) && path[|path| - 1] == a;
    assert Anchored(h, multiset{}, path[0]);
  }
}
