/** The higher-order list operations.  A closure is any heap transformer that
    keeps the heap invariant for every owner, returns an owned value and
    cannot touch a block referenced only from outside the heap. */
module RcCallbacks {
  import opened RcHeap
  import opened RcSharing
  import opened RcMachine
  import opened RcLists

  type Callback = (Blocks, seq<Value>) -> (Blocks, Value)

  ghost predicate ArgsLive(h: Blocks, args: seq<Value>) {
    forall v :: v in args && v.Ref? ==> v.addr in h
  }

  /** A block that only its owners outside the heap refer to. */
  ghost predicate Private(h: Blocks, owned: multiset<Addr>, a: Addr)
    requires AllWellFormed(h)
  {
    a in h && a in owned && Incoming(h, h.Keys)[a] == 0
  }

  ghost predicate CallOk(h: Blocks, args: seq<Value>, owned: multiset<Addr>, h': Blocks, r: Value)
    requires AllWellFormed(h)
  {
    Inv(h', owned + Refs([r])) &&
    (forall a :: a in h && h[a].tid.OptionNone? ==>
      a in h' && h'[a].tid == h[a].tid && h'[a].data == h[a].data) &&
    forall a :: Private(h, owned, a) && Ref(a) !in args ==>
      Private(h', owned, a) && h'[a] == h[a] && r != Ref(a)
  }

  ghost predicate WellBehaved(cb: Callback) {
    forall h, args, owned {:trigger Inv(h, owned), cb(h, args)} :: Inv(h, owned) && ArgsLive(h, args) ==>
      CallOk(h, args, owned, cb(h, args).0, cb(h, args).1)
  }

  /** The closure does not write to the list being walked. */
  ghost predicate Spares(cb: Callback, list: Addr) {
    forall h: Blocks, args {:trigger cb(h, args)} :: list in h && list in cb(h, args).0 ==>
      cb(h, args).0[list].data == h[list].data
  }

  method Call(heap: Heap, cb: Callback, args: seq<Value>) returns (r: Value)
    requires heap.Valid() && WellBehaved(cb) && ArgsLive(heap.blocks, args)
    modifies heap`blocks, heap`roots
    ensures heap.Valid() && heap.roots == old(heap.roots) + Refs([r])
    ensures CallOk(old(heap.blocks), args, old(heap.roots), heap.blocks, r)
    ensures heap.blocks == cb(old(heap.blocks), args).0 && r == cb(old(heap.blocks), args).1
  {
    var out := cb(heap.blocks, args);
    assert CallOk(heap.blocks, args, heap.roots, out.0, out.1);
    heap.blocks, r := out.0, out.1;
    heap.roots := heap.roots + Refs([r]);
  }

  function Selected(vs: seq<Value>, keep: seq<bool>): seq<Value>
    requires |keep| <= |vs|
  {
    if keep == [] then []
    else
      Selected(vs, keep[..|keep| - 1]) + if keep[|keep| - 1] then [vs[|keep| - 1]] else []
  }

  /** Raising counts keeps a private block private unless it is the one shared. */
  lemma PrivateDups(h: Blocks, owned: multiset<Addr>, a: Addr, d: multiset<Addr>)
    requires AllWellFormed(h) && Private(h, owned, a)
    ensures Private(AfterDups(h, d), owned + d, a)
  {
    IncomingSame(h, AfterDups(h, d), h.Keys);
  }

  /** Dropping other references keeps a private block private. */
  lemma PrivateDrops(h: Blocks, owned: multiset<Addr>, a: Addr, d: multiset<Addr>)
    requires Inv(h, owned + d) && Private(h, owned, a)
    ensures Private(AfterDrops(h, d), owned, a)
  {
    OwnedSurvives(h, d, owned, a);
    AfterDropsIncoming(h, d);
  }

  lemma PrivateSetData(h: Blocks, owned: multiset<Addr>, a: Addr, s: Data)
    requires AllWellFormed(h) && Private(h, owned, a) && Fits(h[a].tid, s) && Refs(Slots(s))[a] == 0
    ensures AllWellFormed(SetData(h, a, s)) && Private(SetData(h, a, s), owned, a)
  {
    SetDataCount(h, a, s);
    var h' := SetData(h, a, s);
    assert (Incoming(h', h'.Keys) + Out(h[a]))[a] == (Incoming(h, h.Keys) + Refs(Slots(s)))[a];
  }

  lemma PrivateNew(h: Blocks, owned: multiset<Addr>, a: Addr, b: Block)
    requires Inv(h, owned) && a !in h && Fits(b.tid, b.data) && Slots(b.data) == []
    ensures AllWellFormed(h[a := b]) && Private(h[a := b], owned + multiset{a}, a)
  {
    AllocCount(h, a, b);
    assert Exact(h, owned, a);
  }

  /** Nothing that a slot holds is private. */
  lemma SlotNotPrivate(h: Blocks, owned: multiset<Addr>, list: Addr, v: Value, a: Addr)
    requires AllWellFormed(h) && list in h && v in Slots(h[list].data) && Private(h, owned, a)
    ensures v != Ref(a)
  {
    if v == Ref(a) {
      RefsMember(Slots(h[list].data), v);
      IncomingMember(h, h.Keys, list, a);
    }
  }

  /** A list under construction, the list being walked, and what is known of
      both between two calls of the closure. */
  ghost predicate Walking(h: Blocks, roots: multiset<Addr>, list: Addr, d: Data, out: Addr) {
    Inv(h, roots) && IsList(h, list) && h[list].data == d && list in roots &&
    IsList(h, out) && Private(h, roots, out) && out != list
  }

  lemma WalkCall(h: Blocks, roots: multiset<Addr>, list: Addr, d: Data, out: Addr, cb: Callback, i: nat)
    requires Walking(h, roots, list, d, out) && i < d.len && WellBehaved(cb) && Spares(cb, list)
    ensures ArgsLive(h, [d.buf[i]])
    ensures var (h', r) := cb(h, [d.buf[i]]);
      CallOk(h, [d.buf[i]], roots, h', r) && Walking(h', roots + Refs([r]), list, d, out) &&
      h'[out] == h[out] && r != Ref(out)
  {
    SlotLive(h, roots, list, i);
    assert d.buf[i] == Slots(d)[i];
    SlotNotPrivate(h, roots, list, d.buf[i], out);
    var (h', r) := cb(h, [d.buf[i]]);
    assert CallOk(h, [d.buf[i]], roots, h', r);
    OwnedLive(h', roots + Refs([r]), list);
  }

  /** Sharing values into the list under construction. */
  lemma WalkShare(h: Blocks, roots: multiset<Addr>, list: Addr, d: Data, out: Addr, vs: seq<Value>, s: Data)
    requires Walking(h, roots, list, d, out) && s.ListData? && WellLaidOut(s)
    requires Fits(h[out].tid, s) && Elems(s) == Elems(h[out].data) + vs && Ref(out) !in vs
    requires AllWellFormed(AfterDups(h, Refs(vs)))
    requires Inv(SetData(AfterDups(h, Refs(vs)), out, s), roots)
    ensures Walking(SetData(AfterDups(h, Refs(vs)), out, s), roots, list, d, out)
  {
    PrivateDups(h, roots, out, Refs(vs));
    RefsConcat(Elems(h[out].data), vs);
    NotAmong(vs, out);
    IncomingTake(h, h.Keys, out);
    PrivateSetData(AfterDups(h, Refs(vs)), roots + Refs(vs), out, s);
  }

  lemma WalkDrop(h: Blocks, roots: multiset<Addr>, list: Addr, d: Data, out: Addr, r: Value)
    requires Walking(h, roots + Refs([r]), list, d, out) && list in roots && out in roots
    ensures Walking(AfterDrops(h, Refs([r])), roots, list, d, out)
    ensures AfterDrops(h, Refs([r]))[out].data == h[out].data
  {
    AfterDropsInv(h, Refs([r]), roots);
    OwnedSurvives(h, Refs([r]), roots, list);
    OwnedSurvives(h, Refs([r]), roots, out);
    PrivateDrops(h, roots, out, Refs([r]));
  }

  /** Starting a walk: the result list is new and therefore private. */
  method StartWalk(heap: Heap, list: Addr) returns (out: Addr)
    requires heap.Valid() && IsList(heap.blocks, list) && list in heap.roots
    modifies heap`blocks, heap`roots
    ensures heap.Valid() && out !in old(heap.blocks) && heap.roots == old(heap.roots) + multiset{out}
    ensures Walking(heap.blocks, heap.roots, list, old(heap.blocks)[list].data, out)
    ensures heap.blocks == old(heap.blocks)[out := Block(1, List, ListData([], 0))]
  {
    ghost var h := heap.blocks;
    out := MakeList(heap, 0);
    assert seq(0, _ => Null) == [];
    PrivateNew(h, old(heap.roots), out, heap.blocks[out]);
  }

  /** Values shared into a list. */
  ghost function Appended(h: Blocks, out: Addr, vs: seq<Value>): Blocks
    requires AllWellFormed(h) && IsList(h, out)
  {
    SetData(AfterDups(h, Refs(vs)), out, PushedAll(h[out].data, vs))
  }

  lemma AppendedOne(h: Blocks, out: Addr, v: Value)
    requires AllWellFormed(h) && IsList(h, out)
    ensures Appended(h, out, [v]) == SetData(AfterDups(h, Refs([v])), out, Pushed(h[out].data, v))
  {
    assert [v][..0] == [];
    assert PushedAll(h[out].data, [v]) == Pushed(PushedAll(h[out].data, []), v);
  }

  /** The element at `i` is shared into the result. */
  method Take(heap: Heap, list: Addr, ghost d: Data, out: Addr, i: nat)
    requires heap.Valid() && Walking(heap.blocks, heap.roots, list, d, out) && i < d.len
    modifies heap`blocks, heap`roots
    ensures heap.Valid() && heap.roots == old(heap.roots)
    ensures Walking(heap.blocks, heap.roots, list, d, out)
    ensures heap.blocks == Appended(old(heap.blocks), out, [d.buf[i]])
  {
    ghost var h := heap.blocks;
    var v := heap.blocks[list].data.buf[i];
    SlotLive(h, heap.roots, list, i);
    assert v == Slots(d)[i];
    SlotNotPrivate(h, heap.roots, list, v, out);
    heap.Dup(v);
    Push(heap, out, v);
    assert old(heap.roots) + Refs([v]) - Refs([v]) == old(heap.roots);
    AppendedOne(h, out, v);
    WalkShare(h, heap.roots, list, d, out, [v], Pushed(h[out].data, v));
  }

  ghost predicate Answers(cb: Callback) {
    forall h, args {:trigger cb(h, args)} :: cb(h, args).1.Scalar?
  }

  ghost predicate Says(cb: Callback, h: Blocks, v: Value)
  {
    cb(h, [v]).1.Scalar? && cb(h, [v]).1.n != 0
  }

  /** One question to the predicate; its answer is a tagged scalar. */
  method Ask(heap: Heap, list: Addr, ghost d: Data, out: Addr, i: nat, cb: Callback) returns (yes: bool)
    requires heap.Valid() && Walking(heap.blocks, heap.roots, list, d, out) && i < d.len
    requires WellBehaved(cb) && Spares(cb, list) && Answers(cb)
    modifies heap`blocks, heap`roots, heap`freed
    ensures heap.Valid() && heap.roots == old(heap.roots)
    ensures Walking(heap.blocks, heap.roots, list, d, out) && heap.blocks[out] == old(heap.blocks)[out]
    ensures heap.blocks == cb(old(heap.blocks), [d.buf[i]]).0
    ensures yes == Says(cb, old(heap.blocks), d.buf[i])
  {
    WalkCall(heap.blocks, heap.roots, list, d, out, cb, i);
    var r := Call(heap, cb, [heap.blocks[list].data.buf[i]]);
    yes := r.n != 0;
    assert heap.roots == old(heap.roots);
    ScalarDrop(heap.blocks, heap.roots, r);
    heap.Drop(r);
  }

  /** One round of a filter: the closure runs in one heap and leaves the next,
      to which an approved element is added. */
  ghost predicate FilterRound(cb: Callback, v: Value, out: Addr, h: Blocks, h': Blocks) {
    var asked := cb(h, [v]).0;
    AllWellFormed(asked) && IsList(asked, out) &&
    h' == if Says(cb, h, v) then Appended(asked, out, [v]) else asked
  }

  /** `ring_list_filter`: the kept elements in order, each now co-owned.
      `seen` are the heaps the walk goes through, from the one with the fresh
      empty list to the final one. */
  method Filter(heap: Heap, list: Addr, cb: Callback)
    returns (out: Addr, ghost keep: seq<bool>, ghost seen: seq<Blocks>)
    requires heap.Valid() && IsList(heap.blocks, list) && list in heap.roots
    requires WellBehaved(cb) && Spares(cb, list) && Answers(cb)
    modifies heap`blocks, heap`roots, heap`freed
    ensures heap.Valid() && heap.roots == old(heap.roots) + multiset{out}
    ensures out !in old(heap.blocks) && IsList(heap.blocks, out)
    ensures var vs := Elems(old(heap.blocks)[list].data);
      |keep| == |vs| && |seen| == |vs| + 1 &&
      Elems(heap.blocks[out].data) == Selected(vs, keep) &&
      (forall i :: 0 <= i < |vs| ==> keep[i] == Says(cb, seen[i], vs[i])) &&
      seen[0] == old(heap.blocks)[out := Block(1, List, ListData([], 0))] && seen[|vs|] == heap.blocks &&
      forall i :: 0 <= i < |vs| ==> FilterRound(cb, vs[i], out, seen[i], seen[i + 1])
  {
    ghost var d := heap.blocks[list].data;
    var n := heap.blocks[list].data.len;
    out := StartWalk(heap, list);
    keep, seen := [], [heap.blocks];
    for i := 0 to n
      invariant heap.Valid() && heap.roots == old(heap.roots) + multiset{out}
      invariant Walking(heap.blocks, heap.roots, list, d, out)
      invariant |keep| == i && Selected(Elems(d), keep) == Elems(heap.blocks[out].data)
      invariant FilterSoFar(cb, Elems(d), out, keep, seen) && seen[i] == heap.blocks
      invariant seen[0] == old(heap.blocks)[out := Block(1, List, ListData([], 0))]
    {
      var yes := FilterStep(heap, list, d, out, i, cb);
      FilterNext(cb, Elems(d), out, keep, seen, heap.blocks, yes);
      seen, keep := seen + [heap.blocks], keep + [yes];
    }
  }

  /** Ask about one element and share it if the answer is yes. */
  method FilterStep(heap: Heap, list: Addr, ghost d: Data, out: Addr, i: nat, cb: Callback) returns (yes: bool)
    requires heap.Valid() && Walking(heap.blocks, heap.roots, list, d, out) && i < d.len
    requires WellBehaved(cb) && Spares(cb, list) && Answers(cb)
    modifies heap`blocks, heap`roots, heap`freed
    ensures heap.Valid() && heap.roots == old(heap.roots) && Walking(heap.blocks, heap.roots, list, d, out)
    ensures yes == Says(cb, old(heap.blocks), Elems(d)[i])
    ensures FilterRound(cb, Elems(d)[i], out, old(heap.blocks), heap.blocks)
    ensures Elems(heap.blocks[out].data) == Elems(old(heap.blocks)[out].data) + if yes then [Elems(d)[i]] else []
  {
    yes := Ask(heap, list, d, out, i, cb);
    if yes {
      Take(heap, list, d, out, i);
    }
  }

  /** The answers and the heaps so far. */
  ghost predicate FilterSoFar(cb: Callback, vs: seq<Value>, out: Addr, keep: seq<bool>, seen: seq<Blocks>) {
    |keep| <= |vs| && |seen| == |keep| + 1 &&
    (forall i :: 0 <= i < |keep| ==> keep[i] == Says(cb, seen[i], vs[i])) &&
    forall i :: 0 <= i < |keep| ==> FilterRound(cb, vs[i], out, seen[i], seen[i + 1])
  }

  lemma FilterNext(cb: Callback, vs: seq<Value>, out: Addr, keep: seq<bool>, seen: seq<Blocks>, h: Blocks, yes: bool)
    requires FilterSoFar(cb, vs, out, keep, seen) && |keep| < |vs|
    requires yes == Says(cb, seen[|keep|], vs[|keep|]) && FilterRound(cb, vs[|keep|], out, seen[|keep|], h)
    ensures FilterSoFar(cb, vs, out, keep + [yes], seen + [h])
    ensures Selected(vs, keep + [yes]) == Selected(vs, keep) + if yes then [vs[|keep|]] else []
  {
    assert (keep + [yes])[..|keep|] == keep;
  }

  lemma ScalarDrop(h: Blocks, roots: multiset<Addr>, r: Value)
    requires Inv(h, roots) && r.Scalar?
    ensures Refs([r]) == multiset{} && AfterDrops(h, Refs([r])) == h && roots - Refs([r]) == roots
  {
    AfterNoDrops(h, roots);
  }

  ghost predicate Lists(cb: Callback) {
    forall h, args {:trigger cb(h, args)} ::
      cb(h, args).1.Null? || (cb(h, args).1.Ref? && IsList(cb(h, args).0, cb(h, args).1.addr))
  }

  /** The elements of the list a closure returned. */
  ghost function Part(h: Blocks, r: Value): seq<Value> {
    if r.Ref? && IsList(h, r.addr) then Elems(h[r.addr].data) else []
  }

  ghost function Flattened(parts: seq<seq<Value>>): seq<Value> {
    if parts == [] then [] else Flattened(parts[..|parts| - 1]) + parts[|parts| - 1]
  }

  /** One round of a flat map: the closure runs in one heap; what its list
      holds is shared into the result and the list is released. */
  ghost predicate FlatRound(cb: Callback, v: Value, out: Addr, h: Blocks, h': Blocks) {
    var asked, sub := cb(h, [v]).0, cb(h, [v]).1;
    AllWellFormed(asked) && IsList(asked, out) && Absorbed(asked, out, sub, h')
  }

  ghost predicate Absorbed(h: Blocks, out: Addr, sub: Value, h': Blocks)
    requires AllWellFormed(h) && IsList(h, out)
  {
    if sub.Ref? then
      AllWellFormed(Appended(h, out, Part(h, sub))) && h' == AfterDrops(Appended(h, out, Part(h, sub)), Refs([sub]))
    else h' == h
  }

  /** `ring_list_flat_map`: the sublists' elements are shared into the result
      and each sublist is then released. `seen` is as for a filter. */
  method FlatMap(heap: Heap, list: Addr, cb: Callback)
    returns (out: Addr, ghost parts: seq<seq<Value>>, ghost seen: seq<Blocks>)
    requires heap.Valid() && IsList(heap.blocks, list) && list in heap.roots
    requires WellBehaved(cb) && Spares(cb, list) && Lists(cb)
    modifies heap`blocks, heap`roots, heap`freed
    ensures heap.Valid() && heap.roots == old(heap.roots) + multiset{out}
    ensures out !in old(heap.blocks) && IsList(heap.blocks, out)
    ensures var vs := Elems(old(heap.blocks)[list].data);
      |parts| == |vs| && |seen| == |vs| + 1 &&
      Elems(heap.blocks[out].data) == Flattened(parts) &&
      (forall i :: 0 <= i < |vs| ==> parts[i] == PartOf(cb, seen[i], vs[i])) &&
      seen[0] == old(heap.blocks)[out := Block(1, List, ListData([], 0))] && seen[|vs|] == heap.blocks &&
      forall i :: 0 <= i < |vs| ==> FlatRound(cb, vs[i], out, seen[i], seen[i + 1])
  {
    ghost var d := heap.blocks[list].data;
    var n := heap.blocks[list].data.len;
    out := StartWalk(heap, list);
    parts, seen := [], [heap.blocks];
    for i := 0 to n
      invariant heap.Valid() && heap.roots == old(heap.roots) + multiset{out}
      invariant Walking(heap.blocks, heap.roots, list, d, out)
      invariant |parts| == i && Flattened(parts) == Elems(heap.blocks[out].data)
      invariant FlatSoFar(cb, Elems(d), out, parts, seen) && seen[i] == heap.blocks
      invariant seen[0] == old(heap.blocks)[out := Block(1, List, ListData([], 0))]
    {
      ghost var part := FlatStep(heap, list, d, out, i, cb);
      FlatNext(cb, Elems(d), out, parts, seen, heap.blocks, part);
      seen, parts := seen + [heap.blocks], parts + [part];
    }
    FlatAll(cb, Elems(d), out, parts, seen);
  }

  lemma FlatAll(cb: Callback, vs: seq<Value>, out: Addr, parts: seq<seq<Value>>, seen: seq<Blocks>)
    requires FlatSoFar(cb, vs, out, parts, seen) && |parts| == |vs|
    ensures forall i :: 0 <= i < |vs| ==> parts[i] == PartOf(cb, seen[i], vs[i])
    ensures forall i :: 0 <= i < |vs| ==> FlatRound(cb, vs[i], out, seen[i], seen[i + 1])
  {
    forall i | 0 <= i < |vs|
      ensures parts[i] == PartOf(cb, seen[i], vs[i]) && FlatRound(cb, vs[i], out, seen[i], seen[i + 1])
    {
      assert FlatAt(cb, vs, out, parts, seen, i);
    }
  }

  /** Call the closure on one element and take over what it returned. */
  method FlatStep(heap: Heap, list: Addr, ghost d: Data, out: Addr, i: nat, cb: Callback) returns (ghost part: seq<Value>)
    requires heap.Valid() && Walking(heap.blocks, heap.roots, list, d, out) && i < d.len
    requires list in heap.roots && out in heap.roots
    requires WellBehaved(cb) && Spares(cb, list) && Lists(cb)
    modifies heap`blocks, heap`roots, heap`freed
    ensures heap.Valid() && heap.roots == old(heap.roots) && Walking(heap.blocks, heap.roots, list, d, out)
    ensures part == PartOf(cb, old(heap.blocks), Elems(d)[i])
    ensures FlatRound(cb, Elems(d)[i], out, old(heap.blocks), heap.blocks)
    ensures Elems(heap.blocks[out].data) == Elems(old(heap.blocks)[out].data) + part
  {
    WalkCall(heap.blocks, heap.roots, list, d, out, cb, i);
    ghost var roots := heap.roots;
    var sub := Call(heap, cb, [heap.blocks[list].data.buf[i]]);
    part := Part(heap.blocks, sub);
    Absorb(heap, list, d, out, sub, roots);
  }

  /** What the closure contributes for one element in a given heap. */
  ghost function PartOf(cb: Callback, h: Blocks, v: Value): seq<Value> {
    Part(cb(h, [v]).0, cb(h, [v]).1)
  }

  ghost predicate FlatSoFar(cb: Callback, vs: seq<Value>, out: Addr, parts: seq<seq<Value>>, seen: seq<Blocks>) {
    |parts| <= |vs| && |seen| == |parts| + 1 &&
    forall i {:trigger FlatAt(cb, vs, out, parts, seen, i)} ::
      0 <= i < |parts| ==> FlatAt(cb, vs, out, parts, seen, i)
  }

  ghost predicate FlatAt(cb: Callback, vs: seq<Value>, out: Addr, parts: seq<seq<Value>>, seen: seq<Blocks>, i: nat)
    requires i < |parts| <= |vs| && |seen| == |parts| + 1
  {
    parts[i] == PartOf(cb, seen[i], vs[i]) && FlatRound(cb, vs[i], out, seen[i], seen[i + 1])
  }

  lemma FlatNext(cb: Callback, vs: seq<Value>, out: Addr, parts: seq<seq<Value>>, seen: seq<Blocks>,
                 h: Blocks, part: seq<Value>)
    requires FlatSoFar(cb, vs, out, parts, seen) && |parts| < |vs|
    requires part == PartOf(cb, seen[|parts|], vs[|parts|]) && FlatRound(cb, vs[|parts|], out, seen[|parts|], h)
    ensures FlatSoFar(cb, vs, out, parts + [part], seen + [h])
    ensures Flattened(parts + [part]) == Flattened(parts) + part
  {
    assert (parts + [part])[..|parts|] == parts;
    forall i | 0 <= i < |parts| + 1 ensures FlatAt(cb, vs, out, parts + [part], seen + [h], i) {
      if i < |parts| {
        assert FlatAt(cb, vs, out, parts, seen, i);
      }
    }
  }

  /** The inner loop of `ring_list_flat_map`. */
  method Absorb(heap: Heap, list: Addr, ghost d: Data, out: Addr, sub: Value, ghost roots: multiset<Addr>)
    requires heap.Valid() && heap.roots == roots + Refs([sub]) && list in roots && out in roots
    requires Walking(heap.blocks, heap.roots, list, d, out)
    requires sub.Null? || (sub.Ref? && sub.addr != out && IsList(heap.blocks, sub.addr))
    modifies heap`blocks, heap`roots, heap`freed
    ensures heap.Valid() && heap.roots == roots && Walking(heap.blocks, roots, list, d, out)
    ensures Elems(heap.blocks[out].data) == Elems(old(heap.blocks)[out].data) + Part(old(heap.blocks), sub)
    ensures Absorbed(old(heap.blocks), out, sub, heap.blocks)
  {
    if sub.Null? {
      assert roots + Refs([sub]) == roots;
      return;
    }
    ghost var h := heap.blocks;
    ghost var vs := Elems(h[sub.addr].data);
    assert Ref(out) !in vs by {
      if Ref(out) in vs {
        SlotNotPrivate(h, heap.roots, sub.addr, Ref(out), out);
      }
    }
    Extend(heap, out, sub.addr);
    WalkShare(h, heap.roots, list, d, out, vs, PushedAll(h[out].data, vs));
    WalkDrop(heap.blocks, roots, list, d, out, sub);
    heap.Drop(sub);
    assert roots + Refs([sub]) - Refs([sub]) == roots;
  }

  /** One round of a fold: the closure runs in one heap; an accumulator that
      an earlier round made is released. */
  ghost predicate FoldRound(cb: Callback, acc: Value, v: Value, first: bool, h: Blocks, h': Blocks, acc': Value) {
    var asked := cb(h, [acc, v]).0;
    acc' == cb(h, [acc, v]).1 && AllWellFormed(asked) && h' == if first then asked else AfterDrops(asked, Refs([acc]))
  }

  /** `ring_list_fold`: every intermediate accumulator is released, the
      caller's initial value is not, and the result is owned. `seen` are the
      heaps the fold goes through. */
  method Fold(heap: Heap, list: Addr, init: Value, cb: Callback)
    returns (acc: Value, ghost accs: seq<Value>, ghost seen: seq<Blocks>)
    requires heap.Valid() && IsList(heap.blocks, list) && list in heap.roots && heap.Live(init)
    requires WellBehaved(cb) && Spares(cb, list)
    modifies heap`blocks, heap`roots, heap`freed
    ensures heap.Valid() && heap.roots == old(heap.roots) + Refs([acc])
    ensures var vs := Elems(old(heap.blocks)[list].data);
      |accs| == |seen| == |vs| + 1 && accs[0] == init && acc == accs[|vs|] &&
      seen[0] == old(heap.blocks) &&
      heap.blocks == (if vs == [] then AfterDups(old(heap.blocks), Refs([init])) else seen[|vs|]) &&
      forall i :: 0 <= i < |vs| ==> FoldRound(cb, accs[i], vs[i], i == 0, seen[i], seen[i + 1], accs[i + 1])
  {
    ghost var d := heap.blocks[list].data;
    acc, accs, seen := init, [init], [heap.blocks];
    var n := heap.blocks[list].data.len;
    if n == 0 {
      heap.Dup(init);
      return;
    }
    for i := 0 to n
      invariant heap.Valid() && heap.Live(acc)
      invariant heap.roots == old(heap.roots) + if i == 0 then multiset{} else Refs([acc])
      invariant IsList(heap.blocks, list) && heap.blocks[list].data == d
      invariant FoldSoFar(cb, Elems(d), accs, seen) && |accs| == i + 1
      invariant accs[0] == init && acc == accs[i] && seen[0] == old(heap.blocks) && seen[i] == heap.blocks
    {
      acc := FoldStep(heap, list, d, acc, i, cb, old(heap.roots));
      FoldNext(cb, Elems(d), accs, seen, heap.blocks, acc);
      seen, accs := seen + [heap.blocks], accs + [acc];
    }
  }

  ghost predicate FoldSoFar(cb: Callback, vs: seq<Value>, accs: seq<Value>, seen: seq<Blocks>) {
    0 < |accs| == |seen| <= |vs| + 1 &&
    forall i :: 0 <= i < |accs| - 1 ==> FoldRound(cb, accs[i], vs[i], i == 0, seen[i], seen[i + 1], accs[i + 1])
  }

  lemma FoldNext(cb: Callback, vs: seq<Value>, accs: seq<Value>, seen: seq<Blocks>, h: Blocks, acc: Value)
    requires FoldSoFar(cb, vs, accs, seen) && |accs| <= |vs|
    requires var i := |accs| - 1; FoldRound(cb, accs[i], vs[i], i == 0, seen[i], h, acc)
    ensures FoldSoFar(cb, vs, accs + [acc], seen + [h])
  {
  }

  /** One iteration of the fold. */
  method FoldStep(heap: Heap, list: Addr, ghost d: Data, oldAcc: Value, i: nat, cb: Callback, ghost roots: multiset<Addr>)
    returns (acc: Value)
    requires heap.Valid() && heap.Live(oldAcc) && list in roots
    requires heap.roots == roots + if i == 0 then multiset{} else Refs([oldAcc])
    requires IsList(heap.blocks, list) && heap.blocks[list].data == d && i < d.len
    requires WellBehaved(cb) && Spares(cb, list)
    modifies heap`blocks, heap`roots, heap`freed
    ensures heap.Valid() && heap.Live(acc) && heap.roots == roots + Refs([acc])
    ensures IsList(heap.blocks, list) && heap.blocks[list].data == d
    ensures FoldRound(cb, oldAcc, Elems(d)[i], i == 0, old(heap.blocks), heap.blocks, acc)
  {
    acc := FoldCall(heap, list, d, oldAcc, i, cb);
    assert i > 0 ==> heap.roots == (roots + Refs([acc])) + Refs([oldAcc]);
    ReleaseOld(heap, list, oldAcc, i == 0, roots + Refs([acc]));
    AccumulatorLive(heap.blocks, roots, acc);
  }

  /** The closure's call, which leaves the list alone. */
  method FoldCall(heap: Heap, list: Addr, ghost d: Data, oldAcc: Value, i: nat, cb: Callback) returns (acc: Value)
    requires heap.Valid() && heap.Live(oldAcc) && list in heap.roots
    requires IsList(heap.blocks, list) && heap.blocks[list].data == d && i < d.len
    requires WellBehaved(cb) && Spares(cb, list)
    modifies heap`blocks, heap`roots
    ensures heap.Valid() && heap.roots == old(heap.roots) + Refs([acc])
    ensures IsList(heap.blocks, list) && heap.blocks[list].data == d
    ensures heap.blocks == cb(old(heap.blocks), [oldAcc, Elems(d)[i]]).0
    ensures acc == cb(old(heap.blocks), [oldAcc, Elems(d)[i]]).1
  {
    SlotLive(heap.blocks, heap.roots, list, i);
    acc := Call(heap, cb, [oldAcc, heap.blocks[list].data.buf[i]]);
    OwnedLive(heap.blocks, heap.roots, list);
  }

  lemma AccumulatorLive(h: Blocks, roots: multiset<Addr>, acc: Value)
    requires Inv(h, roots + Refs([acc]))
    ensures acc.Ref? ==> acc.addr in h
  {
    if acc.Ref? {
      assert Refs([acc]) == multiset{acc.addr};
      OwnedLive(h, roots + Refs([acc]), acc.addr);
    }
  }

  method ReleaseOld(heap: Heap, list: Addr, oldAcc: Value, first: bool, ghost kept: multiset<Addr>)
    requires heap.Valid() && list in kept && IsList(heap.blocks, list)
    requires heap.roots == if first then kept else kept + Refs([oldAcc])
    modifies heap`blocks, heap`roots, heap`freed
    ensures heap.Valid() && heap.roots == kept
    ensures IsList(heap.blocks, list) && heap.blocks[list].data == old(heap.blocks)[list].data
    ensures AllWellFormed(old(heap.blocks)) && heap.blocks == (if first then old(heap.blocks) else AfterDrops(old(heap.blocks), Refs([oldAcc])))
  {
    if first {
      return;
    }
    OwnedSurvives(heap.blocks, Refs([oldAcc]), kept, list);
    heap.Drop(oldAcc);
    assert kept + Refs([oldAcc]) - Refs([oldAcc]) == kept;
  }

  // ---------------------------------------------------------------------
  // A closure that keeps the conventions
  // ---------------------------------------------------------------------

  /** Returns its last argument, shared: the identity for a map, the latest
      element for a fold. */
  ghost function Latest(h: Blocks, args: seq<Value>): (Blocks, Value) {
    if args != [] && AllWellFormed(h) && ArgsLive(h, args) then
      (AfterDups(h, Refs([args[|args| - 1]])), args[|args| - 1])
    else (h, Null)
  }

  lemma LatestCallOk(h: Blocks, args: seq<Value>, owned: multiset<Addr>)
    requires Inv(h, owned) && ArgsLive(h, args)
    ensures CallOk(h, args, owned, Latest(h, args).0, Latest(h, args).1)
  {
    var h', r := Latest(h, args).0, Latest(h, args).1;
    if args != [] {
      DupEffect(h, r, owned);
      forall a | Private(h, owned, a) && Ref(a) !in args ensures Private(h', owned, a) && h'[a] == h[a] {
        NotAmong([r], a);
        PrivateDups(h, owned, a, Refs([r]));
      }
    } else {
      assert owned + Refs([Null]) == owned;
    }
  }

  /** The assumptions about closures can be met by one that works. */
  lemma LatestWellBehaved(list: Addr)
    ensures WellBehaved((h, args) => Latest(h, args)) && Spares((h, args) => Latest(h, args), list)
  {
    var cb := (h, args) => Latest(h, args);
    forall h, args, owned | Inv(h, owned) && ArgsLive(h, args)
      ensures CallOk(h, args, owned, cb(h, args).0, cb(h, args).1)
    {
      LatestCallOk(h, args, owned);
    }
  }
}
