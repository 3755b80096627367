/** The list operations of the runtime.  A list owns one counted reference for
    every slot in use; every operation is specified by the sequence it leaves
    in the list and by the exact heap it leaves behind. */
module RcLists {
  import opened RcHeap
  import opened RcSharing
  import opened RcReach
  import opened RcMachine

  ghost predicate IsList(h: Blocks, a: Addr) {
    a in h && h[a].data.ListData? && WellLaidOut(h[a].data)
  }

  function Elems(d: Data): seq<Value>
    requires d.ListData? && WellLaidOut(d)
  {
    d.buf[..d.len]
  }

  /** `make_ring_list`. */
  method MakeList(heap: Heap, cap: nat) returns (a: Addr)
    requires heap.Valid()
    modifies heap`blocks, heap`roots
    ensures heap.Valid() && a !in old(heap.blocks)
    ensures heap.blocks == old(heap.blocks)[a := Block(1, List, ListData(seq(cap, _ => Null), 0))]
    ensures heap.roots == old(heap.roots) + multiset{a}
  {
    a := heap.Alloc(List, ListData(seq(cap, _ => Null), 0));
  }

  function GrownCap(len: nat, cap: nat): nat {
    if len < cap then cap else if cap < 4 then 4 else cap + cap / 2
  }

  /** A list's data after one push: the buffer is replaced by a larger one
      when it is full. */
  function Pushed(d: Data, v: Value): (r: Data)
    requires d.ListData? && WellLaidOut(d)
    ensures r.ListData? && WellLaidOut(r) && Elems(r) == Elems(d) + [v]
    ensures d.buf == [] || |r.buf| == GrownCap(d.len, |d.buf|)
  {
    var cap := GrownCap(d.len, |d.buf|);
    var buf := d.buf + seq(cap - |d.buf|, _ => Null);
    ListData(buf[d.len := v], d.len + 1)
  }

  function PushedAll(d: Data, vs: seq<Value>): (r: Data)
    requires d.ListData? && WellLaidOut(d)
    ensures r.ListData? && WellLaidOut(r) && Elems(r) == Elems(d) + vs
    decreases |vs|
  {
    if vs == [] then d
    else
      assert Elems(d) + vs == (Elems(d) + vs[..|vs| - 1]) + [vs[|vs| - 1]];
      Pushed(PushedAll(d, vs[..|vs| - 1]), vs[|vs| - 1])
  }

  lemma PushMoves(d: Data, v: Value, roots: multiset<Addr>)
    requires d.ListData? && WellLaidOut(d) && Refs([v]) <= roots
    ensures roots + Refs(Slots(d)) == roots - Refs([v]) + Refs(Slots(Pushed(d, v)))
  {
    RefsConcat(Elems(d), [v]);
    assert Slots(Pushed(d, v)) == Elems(d) + [v];
  }

  /** `ring_list_push_raw`: an owned value moves into the list. */
  method Push(heap: Heap, list: Addr, v: Value)
    requires heap.Valid() && IsList(heap.blocks, list) && Refs([v]) <= heap.roots
    modifies heap`blocks, heap`roots
    ensures heap.Valid()
    ensures heap.blocks == SetData(old(heap.blocks), list, Pushed(old(heap.blocks)[list].data, v))
    ensures heap.roots == old(heap.roots) - Refs([v])
  {
    var d := heap.blocks[list].data;
    var ln, cp, buf := d.len, |d.buf|, d.buf;
    if ln >= cp {
      var newCap := if cp < 4 then 4 else cp + cp / 2;
      buf := buf + seq(newCap - cp, _ => Null);
    }
    var d' := ListData(buf[ln := v], ln + 1);
    assert d' == Pushed(d, v);
    PushMoves(d, v, heap.roots);
    heap.Store(list, d', heap.roots - Refs([v]));
  }

  /** `ring_list_set`: store first, then release the old element. */
  method Set(heap: Heap, list: Addr, idx: nat, v: Value)
    requires heap.Valid() && IsList(heap.blocks, list) && Refs([v]) <= heap.roots
    requires idx < heap.blocks[list].data.len
    modifies heap`blocks, heap`roots, heap`freed
    ensures heap.Valid() && heap.roots == old(heap.roots) - Refs([v])
    ensures var d := old(heap.blocks)[list].data;
      heap.blocks == AfterDrops(SetData(old(heap.blocks), list, ListData(d.buf[idx := v], d.len)), Refs([d.buf[idx]]))
  {
    var d := heap.blocks[list].data;
    var previous := d.buf[idx];
    var d' := ListData(d.buf[idx := v], d.len);
    ghost var kept := heap.roots - Refs([v]);
    assert heap.roots == kept + Refs([v]);
    SetMoves(d, idx, v, kept);
    heap.Store(list, d', kept + Refs([previous]));
    heap.Drop(previous);
    assert kept + Refs([previous]) - Refs([previous]) == kept;
  }

  lemma SetMoves(d: Data, idx: nat, v: Value, kept: multiset<Addr>)
    requires d.ListData? && WellLaidOut(d) && idx < d.len
    ensures kept + Refs([v]) + Refs(Slots(d)) ==
      kept + Refs([d.buf[idx]]) + Refs(Slots(ListData(d.buf[idx := v], d.len)))
  {
    RefsUpdate(Elems(d), idx, v);
    assert Slots(ListData(d.buf[idx := v], d.len)) == Elems(d)[idx := v];
    assert kept + Refs([v]) + Refs(Slots(d)) == kept + (Refs(Slots(d)) + Refs([v]));
  }

  lemma RefsUpdate(s: seq<Value>, i: nat, v: Value)
    requires i < |s|
    ensures Refs(s[i := v]) + Refs([s[i]]) == Refs(s) + Refs([v])
  {
    RefsPrefix(s, i);
    RefsPrefix(s[i := v], i);
    assert s[i := v][..i] == s[..i] && s[i := v][i + 1..] == s[i + 1..];
  }

  /** Sharing a run of values: one dup each. */
  method DupAll(heap: Heap, vs: seq<Value>)
    requires heap.Valid() && forall v :: v in vs ==> heap.Live(v)
    modifies heap`blocks, heap`roots
    ensures heap.Valid()
    ensures heap.roots == old(heap.roots) + Refs(vs)
    ensures heap.blocks == AfterDups(old(heap.blocks), Refs(vs))
  {
    AfterDupsCompose(heap.blocks, multiset{}, multiset{});
    for i := 0 to |vs|
      invariant heap.Valid()
      invariant heap.roots == old(heap.roots) + Refs(vs[..i])
      invariant heap.blocks == AfterDups(old(heap.blocks), Refs(vs[..i]))
    {
      assert vs[i] in vs && heap.Live(vs[i]);
      DupsStep(old(heap.blocks), vs, i);
      heap.Dup(vs[i]);
    }
    assert vs[..|vs|] == vs;
  }

  /** A fresh list that co-owns some live values: allocate, copy the slots,
      dup each of them. */
  method Collect(heap: Heap, vs: seq<Value>) returns (a: Addr)
    requires heap.Valid() && forall v :: v in vs ==> heap.Live(v)
    modifies heap`blocks, heap`roots
    ensures heap.Valid() && a !in old(heap.blocks)
    ensures heap.blocks == AfterDups(old(heap.blocks), Refs(vs))[a := Block(1, List, ListData(vs, |vs|))]
    ensures heap.roots == old(heap.roots) + multiset{a}
  {
    a := MakeList(heap, |vs|);
    ghost var b := heap.blocks[a];
    NotAmong(vs, a);
    DupsFresh(old(heap.blocks), a, b, Refs(vs));
    DupAll(heap, vs);
    FreshWritten(AfterDups(old(heap.blocks), Refs(vs)), a, b, ListData(vs, |vs|));
    assert vs[..|vs|] == vs;
    assert heap.roots == old(heap.roots) + multiset{a} + Refs(vs);
    heap.Store(a, ListData(vs, |vs|), old(heap.roots) + multiset{a});
  }

  lemma FreshWritten(h: Blocks, a: Addr, b: Block, d: Data)
    ensures SetData(h[a := b], a, d) == h[a := b.(data := d)]
  {
  }

  lemma {:induction false} NotAmong(vs: seq<Value>, a: Addr)
    requires Ref(a) !in vs
    ensures Refs(vs)[a] == 0
  {
    if vs != [] {
      NotAmong(vs[1..], a);
    }
  }

  /** `ring_list_concat`. */
  method Concat(heap: Heap, a: Addr, b: Addr) returns (r: Addr)
    requires heap.Valid() && IsList(heap.blocks, a) && IsList(heap.blocks, b)
    modifies heap`blocks, heap`roots
    ensures heap.Valid() && r !in old(heap.blocks)
    ensures var vs := Elems(old(heap.blocks)[a].data) + Elems(old(heap.blocks)[b].data);
      heap.blocks == AfterDups(old(heap.blocks), Refs(vs))[r := Block(1, List, ListData(vs, |vs|))]
    ensures heap.roots == old(heap.roots) + multiset{r}
  {
    SlotsLive(heap.blocks, heap.roots, a);
    SlotsLive(heap.blocks, heap.roots, b);
    r := Collect(heap, Elems(heap.blocks[a].data) + Elems(heap.blocks[b].data));
  }

  /** The part of a sequence that `ring_list_slice` selects. */
  function Clamped(vs: seq<Value>, start: int, end: int): seq<Value> {
    var lo := if start < 0 then 0 else start;
    var hi := if end > |vs| then |vs| else end;
    if lo >= hi then [] else vs[lo..hi]
  }

  predicate InRange(n: nat, start: int, end: int, i: int) { 0 <= i < n && start <= i < end }

  /** The selected part holds, in order, exactly the elements whose places lie
      between the bounds, whatever the bounds are. */
  lemma ClampedElements(vs: seq<Value>, start: int, end: int, r: seq<Value>, lo: nat)
    requires r == Clamped(vs, start, end) && lo == if start < 0 then 0 else start
    ensures forall i :: 0 <= i < |r| ==> lo + i < |vs| && r[i] == vs[lo + i]
    ensures forall j :: InRange(|vs|, start, end, j) <==> lo <= j < lo + |r|
  {
    var hi := if end > |vs| then |vs| else end;
    if lo < hi {
      assert r == vs[lo..hi];
      forall i | 0 <= i < |r| ensures r[i] == vs[lo + i] {
      }
    }
  }

  /** `ring_list_slice`: bounds are clamped, a reversed range is empty. */
  method Slice(heap: Heap, list: Addr, start: int, end: int) returns (r: Addr)
    requires heap.Valid() && IsList(heap.blocks, list)
    modifies heap`blocks, heap`roots
    ensures heap.Valid() && r !in old(heap.blocks)
    ensures var vs := Clamped(Elems(old(heap.blocks)[list].data), start, end);
      heap.blocks == AfterDups(old(heap.blocks), Refs(vs))[r := Block(1, List, ListData(vs, |vs|))]
    ensures heap.roots == old(heap.roots) + multiset{r}
  {
    SlotsLive(heap.blocks, heap.roots, list);
    var vs := Elems(heap.blocks[list].data);
    var lo, hi := start, end;
    if lo < 0 { lo := 0; }
    if hi > |vs| { hi := |vs|; }
    r := Collect(heap, if lo >= hi then [] else vs[lo..hi]);
  }

  /** `ring_list_extend`.  The other list may be the list itself: its slots
      are read again from the buffer that each push may have replaced. */
  method Extend(heap: Heap, list: Addr, other: Addr)
    requires heap.Valid() && IsList(heap.blocks, list) && IsList(heap.blocks, other)
    modifies heap`blocks, heap`roots
    ensures heap.Valid() && heap.roots == old(heap.roots)
    ensures var vs := Elems(old(heap.blocks)[other].data);
      heap.blocks == SetData(AfterDups(old(heap.blocks), Refs(vs)), list, PushedAll(old(heap.blocks)[list].data, vs))
  {
    ghost var h0, d0, vs := heap.blocks, heap.blocks[list].data, Elems(heap.blocks[other].data);
    var n := heap.blocks[other].data.len;
    ExtendStart(h0, list, vs);
    for i := 0 to n
      invariant heap.Valid() && heap.roots == old(heap.roots)
      invariant heap.blocks == SetData(AfterDups(h0, Refs(vs[..i])), list, PushedAll(d0, vs[..i]))
    {
      ExtendReads(h0, heap.blocks, list, other, vs, i);
      var v := heap.blocks[other].data.buf[i];
      ExtendStep(h0, list, d0, vs, i);
      SlotsLive(heap.blocks, heap.roots, other);
      assert v in Slots(heap.blocks[other].data);
      heap.Dup(v);
      Push(heap, list, heap.blocks[other].data.buf[i]);
      assert old(heap.roots) + Refs([v]) - Refs([v]) == old(heap.roots);
    }
    assert vs[..n] == vs;
  }

  lemma ExtendStart(h0: Blocks, list: Addr, vs: seq<Value>)
    requires AllWellFormed(h0) && IsList(h0, list)
    ensures h0 == SetData(AfterDups(h0, Refs(vs[..0])), list, PushedAll(h0[list].data, vs[..0]))
  {
    AfterDupsCompose(h0, multiset{}, multiset{});
    assert h0[list].(data := h0[list].data) == h0[list];
    UpdateSame(h0, list, h0[list]);
  }

  /** The slot to read still holds the element, even in the list's own buffer. */
  lemma ExtendReads(h0: Blocks, h: Blocks, list: Addr, other: Addr, vs: seq<Value>, i: nat)
    requires AllWellFormed(h0) && IsList(h0, list) && IsList(h0, other) && vs == Elems(h0[other].data) && i < |vs|
    requires h == SetData(AfterDups(h0, Refs(vs[..i])), list, PushedAll(h0[list].data, vs[..i]))
    ensures IsList(h, other) && i < h[other].data.len && h[other].data.buf[i] == vs[i]
  {
    assert Elems(PushedAll(h0[list].data, vs[..i])) == Elems(h0[list].data) + vs[..i];
    assert Elems(h[other].data)[i] == vs[i];
  }

  lemma ExtendStep(h0: Blocks, list: Addr, d0: Data, vs: seq<Value>, i: nat)
    requires AllWellFormed(h0) && IsList(h0, list) && d0 == h0[list].data && i < |vs|
    ensures var h := SetData(AfterDups(h0, Refs(vs[..i])), list, PushedAll(d0, vs[..i]));
      AllWellFormed(h) &&
      SetData(AfterDups(h, Refs([vs[i]])), list, Pushed(PushedAll(d0, vs[..i]), vs[i])) ==
      SetData(AfterDups(h0, Refs(vs[..i + 1])), list, PushedAll(d0, vs[..i + 1]))
  {
    DupsStep(h0, vs, i);
    DupsSetData(AfterDups(h0, Refs(vs[..i])), list, PushedAll(d0, vs[..i]), Refs([vs[i]]));
    PushedNext(d0, vs, i);
  }

  lemma PushedNext(d0: Data, vs: seq<Value>, i: nat)
    requires d0.ListData? && WellLaidOut(d0) && i < |vs|
    ensures PushedAll(d0, vs[..i + 1]) == Pushed(PushedAll(d0, vs[..i]), vs[i])
  {
    assert vs[..i + 1][..i] == vs[..i];
  }

  /** `ring_list_pop`: the last element moves from the list into an option. */
  method Pop(heap: Heap, list: Addr) returns (r: Value)
    requires heap.Valid() && IsList(heap.blocks, list)
    modifies heap`blocks, heap`roots, heap`noneSingleton
    ensures heap.Valid() && heap.roots == old(heap.roots) + Refs([r])
    ensures old(heap.blocks)[list].data.len == 0 ==>
      NoneGiven(old(heap.blocks), old(heap.noneSingleton), heap.blocks, heap.noneSingleton, r)
    ensures var d := old(heap.blocks)[list].data; d.len > 0 ==>
      heap.noneSingleton == old(heap.noneSingleton) && r.Ref? && r.addr !in old(heap.blocks) &&
      heap.blocks == SetData(old(heap.blocks), list, ListData(d.buf[d.len - 1 := Null], d.len - 1))
        [r.addr := Block(1, Option, OptionData(0, d.buf[d.len - 1]))]
  {
    var d := heap.blocks[list].data;
    if d.len == 0 {
      r := heap.EnumNone();
      return;
    }
    var v := d.buf[d.len - 1];
    var d' := ListData(d.buf[d.len - 1 := Null], d.len - 1);
    LastMoves(d, d', v, heap.roots);
    heap.Store(list, d', heap.roots + Refs([v]));
    r := heap.EnumSome(v);
    assert old(heap.roots) + Refs([v]) - Refs([v]) == old(heap.roots);
  }

  lemma LastMoves(d: Data, d': Data, v: Value, roots: multiset<Addr>)
    requires d.ListData? && WellLaidOut(d) && d.len > 0 && v == d.buf[d.len - 1]
    requires d' == ListData(d.buf[d.len - 1 := Null], d.len - 1)
    ensures roots + Refs(Elems(d)) == roots + Refs([v]) + Refs(Elems(d'))
  {
    assert Elems(d) == Elems(d') + [v];
    RefsConcat(Elems(d'), [v]);
  }

  /** `ring_list_shift`: the first element moves out, the rest move down. */
  method Shift(heap: Heap, list: Addr) returns (r: Value)
    requires heap.Valid() && IsList(heap.blocks, list)
    modifies heap`blocks, heap`roots, heap`noneSingleton
    ensures heap.Valid() && heap.roots == old(heap.roots) + Refs([r])
    ensures old(heap.blocks)[list].data.len == 0 ==>
      NoneGiven(old(heap.blocks), old(heap.noneSingleton), heap.blocks, heap.noneSingleton, r)
    ensures var d := old(heap.blocks)[list].data; d.len > 0 ==>
      heap.noneSingleton == old(heap.noneSingleton) && r.Ref? && r.addr !in old(heap.blocks) &&
      heap.blocks == SetData(old(heap.blocks), list, ListData(d.buf[1..d.len] + [Null] + d.buf[d.len..], d.len - 1))
        [r.addr := Block(1, Option, OptionData(0, d.buf[0]))]
  {
    var d := heap.blocks[list].data;
    if d.len == 0 {
      r := heap.EnumNone();
      return;
    }
    var v := d.buf[0];
    var d' := ListData(d.buf[1..d.len] + [Null] + d.buf[d.len..], d.len - 1);
    assert Elems(d) == [v] + Elems(d');
    RefsConcat([v], Elems(d'));
    assert heap.roots + Refs(Elems(d)) == heap.roots + Refs([v]) + Refs(Elems(d'));
    heap.Store(list, d', heap.roots + Refs([v]));
    r := heap.EnumSome(v);
    assert old(heap.roots) + Refs([v]) - Refs([v]) == old(heap.roots);
  }

  /** The outcome of looking at an index: a fresh option that co-owns the
      element, or the singleton; nothing else changes. */
  ghost predicate Looked(before: Blocks, none: Value, list: Addr, idx: int, after: Blocks, none': Value, r: Value)
    requires AllWellFormed(before) && IsList(before, list)
  {
    var d := before[list].data;
    if 0 <= idx < d.len then
      none' == none && r.Ref? && r.addr !in before &&
      after == AfterDups(before, Refs([d.buf[idx]]))[r.addr := Block(1, Option, OptionData(0, d.buf[idx]))]
    else NoneGiven(before, none, after, none', r)
  }

  /** `ring_list_get_opt`; `ring_list_first` and `ring_list_last` are this at
      the two ends.  The element stays in the list, so the option co-owns it. */
  method GetOpt(heap: Heap, list: Addr, idx: int) returns (r: Value)
    requires heap.Valid() && IsList(heap.blocks, list)
    modifies heap`blocks, heap`roots, heap`noneSingleton
    ensures heap.Valid() && heap.roots == old(heap.roots) + Refs([r])
    ensures Looked(old(heap.blocks), old(heap.noneSingleton), list, idx, heap.blocks, heap.noneSingleton, r)
  {
    var d := heap.blocks[list].data;
    if idx < 0 || idx >= d.len {
      r := heap.EnumNone();
      return;
    }
    SlotLive(heap.blocks, heap.roots, list, idx);
    r := SomeCopy(heap, d.buf[idx]);
  }

  lemma SlotLive(h: Blocks, owned: multiset<Addr>, list: Addr, i: nat)
    requires Inv(h, owned) && IsList(h, list) && i < h[list].data.len
    ensures h[list].data.buf[i].Ref? ==> h[list].data.buf[i].addr in h
  {
    SlotsLive(h, owned, list);
    assert h[list].data.buf[i] == Slots(h[list].data)[i];
  }

  /** `ring_dup` then `ring_enum_some`: an option that co-owns a value. */
  method SomeCopy(heap: Heap, v: Value) returns (r: Value)
    requires heap.Valid() && heap.Live(v)
    modifies heap`blocks, heap`roots
    ensures heap.Valid() && heap.roots == old(heap.roots) + Refs([r])
    ensures r.Ref? && r.addr !in old(heap.blocks)
    ensures heap.blocks == AfterDups(old(heap.blocks), Refs([v]))[r.addr := Block(1, Option, OptionData(0, v))]
  {
    heap.Dup(v);
    r := heap.EnumSome(v);
    assert old(heap.roots) + Refs([v]) - Refs([v]) == old(heap.roots);
  }

  method First(heap: Heap, list: Addr) returns (r: Value)
    requires heap.Valid() && IsList(heap.blocks, list)
    modifies heap`blocks, heap`roots, heap`noneSingleton
    ensures heap.Valid() && heap.roots == old(heap.roots) + Refs([r])
    ensures Looked(old(heap.blocks), old(heap.noneSingleton), list, 0, heap.blocks, heap.noneSingleton, r)
  {
    r := GetOpt(heap, list, 0);
  }

  method Last(heap: Heap, list: Addr) returns (r: Value)
    requires heap.Valid() && IsList(heap.blocks, list)
    modifies heap`blocks, heap`roots, heap`noneSingleton
    ensures heap.Valid() && heap.roots == old(heap.roots) + Refs([r])
    ensures Looked(old(heap.blocks), old(heap.noneSingleton), list, old(heap.blocks)[list].data.len - 1,
                   heap.blocks, heap.noneSingleton, r)
  {
    r := GetOpt(heap, list, heap.blocks[list].data.len - 1);
  }

  // ---------------------------------------------------------------------
  // Clearing: slots are released before they are overwritten
  // ---------------------------------------------------------------------

  /** A list's buffer once its first `i` slots have been nulled. */
  function Nulled(d: Data, i: nat): (r: Data)
    requires d.ListData? && WellLaidOut(d) && i <= d.len
    ensures r.ListData? && WellLaidOut(r) && r.len == d.len && |r.buf| == |d.buf|
  {
    ListData(seq(i, _ => Null) + d.buf[i..], d.len)
  }

  lemma NulledNext(d: Data, i: nat)
    requires d.ListData? && WellLaidOut(d) && i < d.len
    ensures Nulled(d, i + 1) == ListData(Nulled(d, i).buf[i := Null], d.len)
  {
  }

  lemma {:induction false} NoRefs(vs: seq<Value>)
    requires forall i :: 0 <= i < |vs| ==> vs[i] == Null
    ensures Refs(vs) == multiset{}
  {
    if vs != [] {
      NoRefs(vs[1..]);
    }
  }

  lemma NulledRefs(d: Data, i: nat)
    requires d.ListData? && WellLaidOut(d) && i <= d.len
    ensures Refs(Slots(d)) == Refs(Slots(d)[..i]) + Refs(Slots(Nulled(d, i)))
  {
    var nulls := seq(i, _ => Null);
    assert Slots(Nulled(d, i)) == nulls + Slots(d)[i..];
    assert Slots(d) == Slots(d)[..i] + Slots(d)[i..];
    NoRefs(nulls);
    RefsConcat(nulls, Slots(d)[i..]);
    RefsConcat(Slots(d)[..i], Slots(d)[i..]);
  }

  ghost predicate Clearing(h0: Blocks, list: Addr, roots: multiset<Addr>) {
    Inv(h0, roots) && IsList(h0, list) && Reachable(h0, roots, list)
  }

  /** The heap with the first `i` slots of the list nulled. */
  ghost function Cut(h0: Blocks, list: Addr, i: nat): Blocks
    requires IsList(h0, list) && i <= h0[list].data.len
  {
    SetData(h0, list, Nulled(h0[list].data, i))
  }

  lemma CutInv(h0: Blocks, list: Addr, roots: multiset<Addr>, i: nat)
    requires Clearing(h0, list, roots) && i <= h0[list].data.len
    ensures Inv(Cut(h0, list, i), roots + Refs(Elems(h0[list].data)[..i]))
  {
    var d := h0[list].data;
    NulledRefs(d, i);
    assert roots + Refs(Slots(d)) == roots + Refs(Elems(d)[..i]) + Refs(Slots(Nulled(d, i)));
    SetDataInv(h0, list, Nulled(d, i), roots, roots + Refs(Elems(d)[..i]));
  }

  lemma ClearStart(h0: Blocks, list: Addr, roots: multiset<Addr>)
    requires Clearing(h0, list, roots)
    ensures Inv(Cut(h0, list, 0), roots) && AfterDrops(Cut(h0, list, 0), multiset{}) == h0
  {
    CutInv(h0, list, roots, 0);
    assert roots + Refs(Elems(h0[list].data)[..0]) == roots;
    assert Nulled(h0[list].data, 0) == h0[list].data;
    UpdateSame(h0, list, h0[list]);
    AfterNoDrops(h0, roots);
  }

  lemma CutSurvives(h0: Blocks, list: Addr, roots: multiset<Addr>, i: nat)
    requires Clearing(h0, list, roots) && i < h0[list].data.len
    ensures var before := Refs(Elems(h0[list].data)[..i]);
      AllWellFormed(Cut(h0, list, i)) && AllWellFormed(Cut(h0, list, i + 1)) &&
      list !in Dead(Cut(h0, list, i), before) && list !in Dead(Cut(h0, list, i + 1), before) &&
      Reachable(AfterDrops(Cut(h0, list, i), before), roots, list)
  {
    var d := h0[list].data;
    var before, e := Refs(Elems(d)[..i]), Refs([d.buf[i]]);
    CutNextInv(h0, list, roots, i);
    CutInv(h0, list, roots, i);
    ReachedSetData(h0, list, Nulled(d, i), roots);
    ReachedSetData(h0, list, Nulled(d, i + 1), roots);
    ReachedSurvives(Cut(h0, list, i), before, roots, list);
    assert roots + before + e == (roots + e) + before;
    ReachedSurvivesAmong(Cut(h0, list, i + 1), before, roots, e, list);
  }

  lemma CutCommutes(h0: Blocks, list: Addr, roots: multiset<Addr>, i: nat)
    requires Clearing(h0, list, roots) && i < h0[list].data.len
    ensures var d := h0[list].data; var before := Refs(Elems(d)[..i]);
      AllWellFormed(Cut(h0, list, i)) && AllWellFormed(Cut(h0, list, i + 1)) &&
      list in AfterDrops(Cut(h0, list, i), before) && Reachable(AfterDrops(Cut(h0, list, i), before), roots, list) &&
      AfterDrops(Cut(h0, list, i), before)[list].data == Nulled(d, i) &&
      AfterDrops(Cut(h0, list, i + 1), before) ==
        SetData(AfterDrops(Cut(h0, list, i), before), list, Nulled(d, i + 1))
  {
    var d := h0[list].data;
    CutSurvives(h0, list, roots, i);
    assert Cut(h0, list, i + 1) == SetData(Cut(h0, list, i), list, Nulled(d, i + 1));
    DropsSetData(Cut(h0, list, i), list, Nulled(d, i + 1), Refs(Elems(d)[..i]));
  }

  lemma CutNextInv(h0: Blocks, list: Addr, roots: multiset<Addr>, i: nat)
    requires Clearing(h0, list, roots) && i < h0[list].data.len
    ensures var d := h0[list].data;
      Inv(Cut(h0, list, i + 1), roots + Refs(Elems(d)[..i]) + Refs([d.buf[i]]))
  {
    var d := h0[list].data;
    RefsPrefix(Elems(d), i);
    CutInv(h0, list, roots, i + 1);
    assert roots + Refs(Elems(d)[..i + 1]) == roots + Refs(Elems(d)[..i]) + Refs([d.buf[i]]);
  }

  /** One slot is released: the view already shows it empty. */
  lemma ClearStep(h0: Blocks, list: Addr, roots: multiset<Addr>, i: nat, mem: Blocks) returns (view: Blocks)
    requires Clearing(h0, list, roots) && i < h0[list].data.len
    requires AllWellFormed(Cut(h0, list, i))
    requires mem == AfterDrops(Cut(h0, list, i), Refs(Elems(h0[list].data)[..i]))
    ensures var d := h0[list].data; var v := d.buf[i];
      IsList(mem, list) && view == SetData(mem, list, Nulled(d, i + 1)) &&
      Inv(view, roots + Refs([v])) && Reachable(view, roots, list) &&
      AllWellFormed(Cut(h0, list, i + 1)) &&
      AfterDrops(view, Refs([v])) == AfterDrops(Cut(h0, list, i + 1), Refs(Elems(d)[..i + 1]))
  {
    var d := h0[list].data;
    var before, e := Refs(Elems(d)[..i]), Refs([d.buf[i]]);
    CutCommutes(h0, list, roots, i);
    CutNextInv(h0, list, roots, i);
    view := SetData(mem, list, Nulled(d, i + 1));
    var g' := Cut(h0, list, i + 1);
    assert roots + before + e == (roots + e) + before;
    AfterDropsInv(g', before, roots + e);
    AfterDropsCompose(g', before, e, roots);
    RefsPrefix(Elems(d), i);
    ReachedSetData(mem, list, Nulled(d, i + 1), roots);
  }

  /** Overwriting the released slot brings memory and view together again. */
  lemma ClearWrite(mem: Blocks, mem': Blocks, view: Blocks, list: Addr, roots: multiset<Addr>, v: Value, s: Data)
    requires list in mem && view == SetData(mem, list, s) && Inv(view, roots + Refs([v]))
    requires Reachable(view, roots, list)
    requires Drops(mem, mem', view, {list}, Refs([v]))
    ensures list in mem' && mem'[list].data == mem[list].data
    ensures SetData(mem', list, s) == AfterDrops(view, Refs([v]))
  {
    ReachedSurvives(view, Refs([v]), roots, list);
    var after := AfterDrops(view, Refs([v]));
    assert after.Keys == view.Keys - Dead(view, Refs([v]));
    SameAfterWrite(mem', list, s, after);
  }

  lemma SameAfterWrite(mem: Blocks, list: Addr, s: Data, after: Blocks)
    requires list in mem && mem.Keys == after.Keys
    requires forall x :: x in after && x != list ==> mem[x] == after[x]
    requires after[list] == mem[list].(data := s)
    ensures SetData(mem, list, s) == after
  {
  }

  lemma ClearEnd(h0: Blocks, list: Addr, roots: multiset<Addr>)
    requires Clearing(h0, list, roots)
    ensures var d := h0[list].data; var empty := ListData(Nulled(d, d.len).buf, 0);
      AllWellFormed(Cut(h0, list, d.len)) && AllWellFormed(SetData(h0, list, empty)) &&
      list in AfterDrops(Cut(h0, list, d.len), Refs(Elems(d))) &&
      SetData(AfterDrops(Cut(h0, list, d.len), Refs(Elems(d))), list, empty) ==
        AfterDrops(SetData(h0, list, empty), Refs(Elems(d))) &&
      Inv(AfterDrops(SetData(h0, list, empty), Refs(Elems(d))), roots)
  {
    var d := h0[list].data;
    var empty := ListData(Nulled(d, d.len).buf, 0);
    assert Elems(d)[..d.len] == Elems(d);
    CutInv(h0, list, roots, d.len);
    EmptiedInv(h0, list, roots, empty);
    assert SetData(h0, list, empty) == SetData(Cut(h0, list, d.len), list, empty);
    ReachedSetData(h0, list, Nulled(d, d.len), roots);
    SurvivesBoth(Cut(h0, list, d.len), list, empty, Refs(Elems(d)), roots);
    AfterDropsInv(SetData(h0, list, empty), Refs(Elems(d)), roots);
  }

  /** A block kept alive before and after a rewrite survives the cascade alike. */
  lemma SurvivesBoth(h: Blocks, a: Addr, s: Data, d: multiset<Addr>, roots: multiset<Addr>)
    requires Inv(h, roots + d) && a in h && Fits(h[a].tid, s) && Inv(SetData(h, a, s), roots + d)
    requires Reachable(h, roots, a)
    ensures a in AfterDrops(h, d) && SetData(AfterDrops(h, d), a, s) == AfterDrops(SetData(h, a, s), d)
  {
    ReachedSurvives(h, d, roots, a);
    ReachedSetData(h, a, s, roots);
    ReachedSurvives(SetData(h, a, s), d, roots, a);
    DropsSetData(h, a, s, d);
  }

  lemma EmptiedInv(h0: Blocks, list: Addr, roots: multiset<Addr>, empty: Data)
    requires Clearing(h0, list, roots) && empty.ListData? && empty.len == 0
    ensures Inv(SetData(h0, list, empty), roots + Refs(Elems(h0[list].data)))
  {
    assert Slots(empty) == [];
    SetDataInv(h0, list, empty, roots, roots + Refs(Elems(h0[list].data)));
  }

  method ReleasePinned(heap: Heap, v: Value, ghost view: Blocks, ghost list: Addr)
    requires Shows(heap.blocks, view, {list}) && Inv(view, heap.roots + Refs([v]))
    requires Reachable(view, heap.roots, list)
    modifies heap`blocks, heap`freed
    ensures Drops(old(heap.blocks), heap.blocks, view, {list}, Refs([v]))
  {
    heap.Release(v, view, {list}, heap.roots);
  }

  /** One iteration of `ring_list_clear`: release, then overwrite. */
  method ClearSlot(heap: Heap, list: Addr, i: nat, ghost h0: Blocks)
    requires Clearing(h0, list, heap.roots) && i < h0[list].data.len && AllWellFormed(Cut(h0, list, i))
    requires heap.blocks == AfterDrops(Cut(h0, list, i), Refs(Elems(h0[list].data)[..i]))
    requires list in heap.blocks && heap.blocks[list].data == Nulled(h0[list].data, i)
    requires NoneReady(heap.blocks, heap.noneSingleton)
    modifies heap`blocks, heap`freed
    ensures AllWellFormed(Cut(h0, list, i + 1))
    ensures heap.blocks == AfterDrops(Cut(h0, list, i + 1), Refs(Elems(h0[list].data)[..i + 1]))
    ensures list in heap.blocks && heap.blocks[list].data == Nulled(h0[list].data, i + 1)
    ensures NoneReady(heap.blocks, heap.noneSingleton)
  {
    ReleaseSlot(heap, list, i, h0);
    NulledNext(h0[list].data, i);
    WriteSlot(heap, list, i);
  }

  /** The release, after which the slot still shows what it held. */
  method ReleaseSlot(heap: Heap, list: Addr, i: nat, ghost h0: Blocks)
    requires Clearing(h0, list, heap.roots) && i < h0[list].data.len && AllWellFormed(Cut(h0, list, i))
    requires heap.blocks == AfterDrops(Cut(h0, list, i), Refs(Elems(h0[list].data)[..i]))
    requires list in heap.blocks && heap.blocks[list].data == Nulled(h0[list].data, i)
    requires NoneReady(heap.blocks, heap.noneSingleton)
    modifies heap`blocks, heap`freed
    ensures AllWellFormed(Cut(h0, list, i + 1))
    ensures list in heap.blocks && heap.blocks[list].data == Nulled(h0[list].data, i)
    ensures var after := SetData(heap.blocks, list, Nulled(h0[list].data, i + 1));
      after == AfterDrops(Cut(h0, list, i + 1), Refs(Elems(h0[list].data)[..i + 1])) &&
      NoneReady(after, heap.noneSingleton)
  {
    var v := heap.blocks[list].data.buf[i];
    ghost var mem := heap.blocks;
    ghost var view := ClearStep(h0, list, heap.roots, i, mem);
    ReleasePinned(heap, v, view, list);
    ClearWrite(mem, heap.blocks, view, list, heap.roots, v, Nulled(h0[list].data, i + 1));
    NoneStaysReady(mem, view, list, Nulled(h0[list].data, i + 1), Refs([v]), heap.noneSingleton);
  }

  lemma NoneStaysReady(mem: Blocks, view: Blocks, list: Addr, d: Data, drops: multiset<Addr>, none: Value)
    requires IsList(mem, list) && d.ListData? && view == SetData(mem, list, d) && AllWellFormed(view)
    requires NoneReady(mem, none)
    ensures NoneReady(AfterDrops(view, drops), none)
  {
    assert none.Ref? ==> none.addr != list;
    NoneSurvives(view, drops, none);
  }

  /** `ring_list_clear`.  While an element is being released its slot still
      shows it, so something the caller owns must keep the list alive: the
      list itself or a block that leads to it. */
  method Clear(heap: Heap, list: Addr)
    requires heap.Valid() && IsList(heap.blocks, list) && Reachable(heap.blocks, heap.roots, list)
    modifies heap`blocks, heap`freed
    ensures heap.Valid()
    ensures var d := old(heap.blocks)[list].data;
      heap.blocks == AfterDrops(SetData(old(heap.blocks), list, ListData(Nulled(d, d.len).buf, 0)), Refs(Elems(d)))
  {
    ghost var h0, d0 := heap.blocks, heap.blocks[list].data;
    ghost var vs := Elems(d0);
    ClearStart(h0, list, heap.roots);
    var n := heap.blocks[list].data.len;
    for i := 0 to n
      invariant AllWellFormed(Cut(h0, list, i))
      invariant heap.blocks == AfterDrops(Cut(h0, list, i), Refs(vs[..i]))
      invariant list in heap.blocks && heap.blocks[list].data == Nulled(d0, i)
      invariant NoneReady(heap.blocks, heap.noneSingleton)
    {
      ClearSlot(heap, list, i, h0);
    }
    assert vs[..n] == vs && n == d0.len;
    ClearEnd(h0, list, heap.roots);
    heap.blocks := heap.blocks[list := heap.blocks[list].(data := ListData(heap.blocks[list].data.buf, 0))];
  }

  /** `l->buf[i] = nullptr`. */
  method WriteSlot(heap: Heap, list: Addr, i: nat)
    requires IsList(heap.blocks, list) && i < |heap.blocks[list].data.buf|
    modifies heap`blocks
    ensures var d := old(heap.blocks)[list].data;
      heap.blocks == SetData(old(heap.blocks), list, ListData(d.buf[i := Null], d.len))
  {
    var block := heap.blocks[list];
    heap.blocks := heap.blocks[list := block.(data := ListData(block.data.buf[i := Null], block.data.len))];
  }
}
