/** The runtime's heap, changed in place: allocation, dup, drop and the
    destructors that call back into drop. */
module RcMachine {
  import opened Sets
  import opened RcHeap
  import opened RcSharing
  import opened RcReach

  /** `mem` is the memory, `view` the heap without the blocks that are being
      destroyed.  The data of a pinned block may be out of step: a slot that
      has been released but not yet overwritten is absent from the view. */
  ghost predicate Shows(mem: Blocks, view: Blocks, pinned: set<Addr>) {
    view.Keys <= mem.Keys &&
    forall a :: a in view ==>
      mem[a].rc == view[a].rc && mem[a].tid == view[a].tid &&
      (a in pinned || mem[a].data == view[a].data)
  }

  /** The effect of releasing `d`: the view moves to `AfterDrops`, the dead
      blocks are returned to the allocator, and neither the blocks under
      destruction nor the data of pinned blocks are touched. */
  ghost predicate Drops(before: Blocks, after: Blocks, view: Blocks, pinned: set<Addr>, d: multiset<Addr>)
    requires AllWellFormed(view)
  {
    Shows(after, AfterDrops(view, d), pinned) &&
    after.Keys == before.Keys - Dead(view, d) &&
    (forall x :: x in before && x !in view ==> after[x] == before[x]) &&
    (forall x :: x in pinned && x in before ==> x in after && after[x].data == before[x].data)
  }

  /** The pinned blocks are kept alive by references that stay. */
  ghost predicate Held(view: Blocks, owned: multiset<Addr>, pinned: set<Addr>)
    requires AllWellFormed(view)
  {
    forall p :: p in pinned ==> Reachable(view, owned, p)
  }

  lemma HeldAfterDrops(view: Blocks, d: multiset<Addr>, owned: multiset<Addr>, more: multiset<Addr>, pinned: set<Addr>)
    requires Inv(view, (owned + more) + d) && Held(view, owned, pinned)
    ensures Held(AfterDrops(view, d), owned, pinned)
  {
    forall p | p in pinned ensures Reachable(AfterDrops(view, d), owned, p) {
      ReachedSurvivesAmong(view, d, owned, more, p);
    }
  }

  lemma HeldMore(view: Blocks, owned: multiset<Addr>, more: multiset<Addr>, pinned: set<Addr>)
    requires AllWellFormed(view) && Held(view, owned, pinned)
    ensures Held(view, owned + more, pinned)
  {
    forall p | p in pinned ensures Reachable(view, owned + more, p) {
      ReachedMore(view, owned, more, p);
    }
  }

  lemma HeldWithoutLast(view: Blocks, a: Addr, owned: multiset<Addr>, pinned: set<Addr>)
    requires a in view && Inv(view, owned + multiset{a}) && Mortal(view[a]) && view[a].rc == 1
    requires AllWellFormed(view - {a}) && Held(view, owned, pinned)
    ensures a !in pinned && Held(view - {a}, owned, pinned)
  {
    forall p | p in pinned ensures p != a && Reachable(view - {a}, owned, p) {
      ReachedWithoutLast(view, a, owned, p);
    }
  }

  /** A block whose destructor may run: hidden from the view, with its slots
      accounted for as references still to be released. */
  ghost predicate Dying(mem: Blocks, a: Addr, view: Blocks, pinned: set<Addr>, owned: multiset<Addr>) {
    a in mem && a !in view && Fits(mem[a].tid, mem[a].data) &&
    Shows(mem, view, pinned) && Inv(view, owned + Out(mem[a])) && Held(view, owned, pinned)
  }

  /** The log of freed addresses grew by each dead block, once. */
  ghost predicate Freed(before: seq<Addr>, after: seq<Addr>, dead: set<Addr>) {
    before <= after && Once(after[|before|..], dead)
  }

  ghost predicate Once(log: seq<Addr>, dead: set<Addr>) {
    (forall i, j :: 0 <= i < j < |log| ==> log[i] != log[j]) && forall x :: x in log <==> x in dead
  }

  lemma FreedNothing(log: seq<Addr>)
    ensures Freed(log, log, {})
  {
    assert log[|log|..] == [];
  }

  lemma FreedBoth(l0: seq<Addr>, l1: seq<Addr>, l2: seq<Addr>, d: set<Addr>, e: set<Addr>)
    requires Freed(l0, l1, d) && Freed(l1, l2, e) && d !! e
    ensures Freed(l0, l2, d + e)
  {
    var a, b := l1[|l0|..], l2[|l1|..];
    assert l2[|l0|..] == a + b;
    assert forall i :: 0 <= i < |a| ==> a[i] in d;
    assert forall i :: 0 <= i < |b| ==> b[i] in e;
  }

  lemma FreedOne(log: seq<Addr>, a: Addr)
    ensures Freed(log, log + [a], {a})
  {
    assert (log + [a])[|log|..] == [a];
  }

  /** Releasing in two steps frees disjoint sets of blocks. */
  lemma FreedStep(l0: seq<Addr>, l1: seq<Addr>, l2: seq<Addr>, view: Blocks,
                  d: multiset<Addr>, e: multiset<Addr>, owned: multiset<Addr>)
    requires Inv(view, owned + d + e)
    requires Freed(l0, l1, Dead(view, d)) && Freed(l1, l2, Dead(AfterDrops(view, d), e))
    ensures Freed(l0, l2, Dead(view, d + e))
  {
    DeadCompose(view, d, e, owned);
    FreedBoth(l0, l1, l2, Dead(view, d), Dead(AfterDrops(view, d), e));
  }

  lemma DropsNothing(before: Blocks, view: Blocks, pinned: set<Addr>, owned: multiset<Addr>)
    requires Shows(before, view, pinned) && Inv(view, owned)
    ensures Drops(before, before, view, pinned, multiset{})
  {
    AfterNoDrops(view, owned);
  }

  lemma DropsStep(b0: Blocks, b1: Blocks, b2: Blocks, view: Blocks, pinned: set<Addr>,
                  d: multiset<Addr>, e: multiset<Addr>, owned: multiset<Addr>)
    requires Inv(view, owned + d + e) && view.Keys <= b0.Keys
    requires Drops(b0, b1, view, pinned, d)
    requires Drops(b1, b2, AfterDrops(view, d), pinned, e)
    ensures Drops(b0, b2, view, pinned, d + e)
  {
    AfterDropsCompose(view, d, e, owned);
    DeadCompose(view, d, e, owned);
  }

  /** What a walk over slots has released, releases next and keeps for later. */
  lemma WalkSplit(view: Blocks, owned: multiset<Addr>, slots: seq<Value>, i: nat)
    requires Inv(view, owned + Refs(slots)) && i < |slots|
    ensures var d, e, rest := Refs(slots[..i]), Refs([slots[i]]), owned + Refs(slots[i + 1..]);
      Refs(slots[..i + 1]) == d + e && Inv(view, rest + d + e) && Inv(view, (rest + e) + d) &&
      Inv(AfterDrops(view, d), rest + e) && |AfterDrops(view, d)| <= |view|
  {
    var d, e, rest := Refs(slots[..i]), Refs([slots[i]]), owned + Refs(slots[i + 1..]);
    RefsPrefix(slots, i);
    assert owned + Refs(slots) == rest + d + e == (rest + e) + d;
    AfterDropsInv(view, d, rest + e);
    assert AfterDrops(view, d).Keys <= view.Keys;
    SubsetCount(AfterDrops(view, d).Keys, view.Keys);
  }

  lemma WalkStep(b0: Blocks, b1: Blocks, b2: Blocks, l0: seq<Addr>, l1: seq<Addr>, l2: seq<Addr>, view: Blocks,
                 pinned: set<Addr>, d: multiset<Addr>, e: multiset<Addr>, owned: multiset<Addr>)
    requires Inv(view, owned + d + e) && view.Keys <= b0.Keys
    requires Drops(b0, b1, view, pinned, d) && Drops(b1, b2, AfterDrops(view, d), pinned, e)
    requires Freed(l0, l1, Dead(view, d)) && Freed(l1, l2, Dead(AfterDrops(view, d), e))
    ensures Drops(b0, b2, view, pinned, d + e) && Freed(l0, l2, Dead(view, d + e))
  {
    DropsStep(b0, b1, b2, view, pinned, d, e, owned);
    FreedStep(l0, l1, l2, view, d, e, owned);
  }

  lemma DropsImmortal(mem: Blocks, a: Addr, view: Blocks, pinned: set<Addr>, owned: multiset<Addr>)
    requires a in view && Shows(mem, view, pinned) && Inv(view, owned + multiset{a}) && !Mortal(view[a])
    ensures Drops(mem, mem, view, pinned, multiset{a})
  {
    DropImmortal(view, a, owned);
    NothingDiesOfOne(view, a, owned);
  }

  lemma DropsShared(mem: Blocks, a: Addr, view: Blocks, pinned: set<Addr>, owned: multiset<Addr>)
    requires a in view && Shows(mem, view, pinned) && Inv(view, owned + multiset{a})
    requires Mortal(view[a]) && view[a].rc > 1
    ensures Drops(mem, mem[a := mem[a].(rc := mem[a].rc - 1)], view, pinned, multiset{a})
  {
    DropShared(view, a, owned);
    NothingDiesOfOne(view, a, owned);
    SharedShows(mem, a, view, pinned);
  }

  lemma SharedShows(mem: Blocks, a: Addr, view: Blocks, pinned: set<Addr>)
    requires Shows(mem, view, pinned) && a in view && view[a].rc > 0
    ensures Shows(mem[a := mem[a].(rc := mem[a].rc - 1)], view[a := view[a].(rc := view[a].rc - 1)], pinned)
  {
  }

  /** Freeing the block once its destructor has run. */
  lemma DestroyDone(before: Blocks, mid: Blocks, a: Addr, view: Blocks, pinned: set<Addr>, e: multiset<Addr>)
    requires AllWellFormed(view) && AllWellFormed(view - {a}) && a in view && a in before && a !in pinned
    requires Drops(before, mid, view - {a}, pinned, e)
    requires AfterDrops(view, multiset{a}) == AfterDrops(view - {a}, e)
    requires Dead(view, multiset{a}) == Dead(view - {a}, e) + {a}
    ensures Drops(before, mid - {a}, view, pinned, multiset{a})
  {
    assert (mid - {a}).Keys == mid.Keys - {a};
    assert AfterDrops(view - {a}, e).Keys == (view - {a}).Keys - Dead(view - {a}, e);
  }

  /** Before a destructor runs: the block is hidden from the view, and what
      the destructor then achieves is what dropping the reference means. */
  lemma DestroyPrepared(mem: Blocks, a: Addr, view: Blocks, pinned: set<Addr>, owned: multiset<Addr>)
    requires a in view && Shows(mem, view, pinned) && Inv(view, owned + multiset{a})
    requires Held(view, owned, pinned)
    requires Mortal(view[a]) && view[a].rc == 1
    ensures a !in pinned && mem[a] == view[a]
    ensures Dying(mem, a, view - {a}, pinned, owned)
    ensures |view - {a}| < |view|
    ensures AfterDrops(view, multiset{a}) == AfterDrops(view - {a}, Out(mem[a]))
    ensures Dead(view, multiset{a}) == Dead(view - {a}, Out(mem[a])) + {a}
  {
    DropLast(view, a, owned);
    HeldWithoutLast(view, a, owned, pinned);
    RemoveLastDead(view, a, owned);
    assert (view - {a}).Keys == view.Keys - {a};
    assert |(view - {a}).Keys| < |view.Keys|;
  }

  /** The `none` singleton, once built, stays as it is. */
  ghost predicate NoneReady(h: Blocks, none: Value) {
    !none.Scalar? &&
    (none.Ref? ==>
      none.addr in h && h[none.addr].tid.OptionNone? && h[none.addr].data == OptionData(1, Null))
  }

  /** The singleton is handed out: built once, otherwise nothing changes. */
  ghost predicate NoneGiven(before: Blocks, none: Value, after: Blocks, none': Value, r: Value) {
    r == none' && r.Ref? && (none.Ref? ==> none' == none && after == before) &&
    (none.Null? ==>
      r.addr !in before && after == before[r.addr := Block(1, OptionNone, OptionData(1, Null))])
  }

  class Heap {
    var blocks: Blocks
    /** The lazily built `none` singleton. */
    var noneSingleton: Value
    /** The counted references held by the running program. */
    ghost var roots: multiset<Addr>
    /** The addresses given back to the allocator, in order. */
    ghost var freed: seq<Addr>

    ghost predicate Valid()
      reads this
    {
      Inv(blocks, roots) && NoneReady(blocks, noneSingleton)
    }

    constructor ()
      ensures Valid() && blocks == map[] && roots == multiset{} && freed == []
    {
      blocks := map[];
      noneSingleton := Null;
      roots := multiset{};
      freed := [];
    }

    /** `ring_drop`. */
    method DropRef(v: Value, ghost view: Blocks, ghost pinned: set<Addr>, ghost owned: multiset<Addr>)
      requires Shows(blocks, view, pinned) && Inv(view, owned + Refs([v]))
      requires Held(view, owned, pinned)
      modifies this`blocks, this`freed
      ensures Drops(old(blocks), blocks, view, pinned, Refs([v]))
      ensures Freed(old(freed), freed, Dead(view, Refs([v])))
      decreases |view|, 1
    {
      if v.Null? || v.Scalar? {
        assert owned + Refs([v]) == owned;
        DropsNothing(blocks, view, pinned, owned);
        return;
      }
      var a := v.addr;
      assert Refs([v]) == multiset{a};
      assert Exact(view, owned + multiset{a}, a);
      var block := blocks[a];
      if block.rc == 0 || block.rc > SATURATION || NeverDrop(block.tid) {
        DropsImmortal(blocks, a, view, pinned, owned);
        return;
      }
      if block.rc <= 1 {
        Destroy(a, view, pinned, owned);
      } else {
        DropsShared(blocks, a, view, pinned, owned);
        blocks := blocks[a := block.(rc := block.rc - 1)];
      }
    }

    /** The last reference goes: run the destructor, then free the block. */
    method Destroy(a: Addr, ghost view: Blocks, ghost pinned: set<Addr>, ghost owned: multiset<Addr>)
      requires a in view && Shows(blocks, view, pinned) && Inv(view, owned + multiset{a})
      requires Held(view, owned, pinned)
      requires Mortal(view[a]) && view[a].rc == 1
      modifies this`blocks, this`freed
      ensures Drops(old(blocks), blocks, view, pinned, multiset{a})
      ensures Freed(old(freed), freed, Dead(view, multiset{a}))
      decreases |view|, 0
    {
      DestroyPrepared(blocks, a, view, pinned, owned);
      DropByTypeid(a, view - {a}, pinned, owned);
      DestroyDone(old(blocks), blocks, a, view, pinned, Out(old(blocks[a])));
      ghost var log := freed;
      Free(a);
      FreedBoth(old(freed), log, freed, Dead(view - {a}, Out(old(blocks[a]))), {a});
    }

    /** `free` of a block that is still allocated. */
    method Free(a: Addr)
      requires a in blocks
      modifies this`blocks, this`freed
      ensures blocks == old(blocks) - {a}
      ensures freed == old(freed) + [a] && Freed(old(freed), freed, {a})
    {
      blocks := blocks - {a};
      freed := freed + [a];
      FreedOne(old(freed), a);
    }

    /** `ring_drop_by_typeid`: the destructor table. */
    method DropByTypeid(a: Addr, ghost view: Blocks, ghost pinned: set<Addr>, ghost owned: multiset<Addr>)
      requires Dying(blocks, a, view, pinned, owned)
      requires !NeverDrop(blocks[a].tid)
      modifies this`blocks, this`freed
      ensures Drops(old(blocks), blocks, view, pinned, Out(old(blocks[a])))
      ensures Freed(old(freed), freed, Dead(view, Out(old(blocks[a]))))
      decreases |view|, 6
    {
      var tid := blocks[a].tid;
      if tid.List? {
        DropList(a, view, pinned, owned);
      } else if tid.Map? {
        DropMap(a, view, pinned, owned);
      } else if tid.Closure? {
        DropClosure(a, view, pinned, owned);
      } else if tid.Option? {
        DropOption(a, view, pinned, owned);
      } else if tid.Cell? {
        DropCell(a, view, pinned, owned);
      } else if tid.ClosureEnv? || tid.DictDyn? || tid.Evidence? {
        DropCounted(a, view, pinned, owned);
      } else {
        DropsNothing(blocks, view, pinned, owned + Out(blocks[a]));
      }
    }

    method DropList(a: Addr, ghost view: Blocks, ghost pinned: set<Addr>, ghost owned: multiset<Addr>)
      requires Dying(blocks, a, view, pinned, owned)
      requires blocks[a].data.ListData?
      modifies this`blocks, this`freed
      ensures Drops(old(blocks), blocks, view, pinned, Out(old(blocks[a])))
      ensures Freed(old(freed), freed, Dead(view, Out(old(blocks[a]))))
      decreases |view|, 4
    {
      DropsNothing(blocks, view, pinned, owned + Out(blocks[a]));
      ghost var slots := Slots(blocks[a].data);
      var n := blocks[a].data.len;
      for i := 0 to n
        invariant a in blocks && blocks[a] == old(blocks[a])
        invariant Drops(old(blocks), blocks, view, pinned, Refs(slots[..i]))
        invariant Freed(old(freed), freed, Dead(view, Refs(slots[..i])))
      {
        var elem := blocks[a].data.buf[i];
        ReleaseSlot(elem, slots, i, old(blocks), old(freed), view, pinned, owned);
      }
      assert slots[..n] == slots;
    }

    method DropMap(a: Addr, ghost view: Blocks, ghost pinned: set<Addr>, ghost owned: multiset<Addr>)
      requires Dying(blocks, a, view, pinned, owned)
      requires blocks[a].data.MapData?
      modifies this`blocks, this`freed
      ensures Drops(old(blocks), blocks, view, pinned, Out(old(blocks[a])))
      ensures Freed(old(freed), freed, Dead(view, Out(old(blocks[a]))))
      decreases |view|, 5
    {
      DropsNothing(blocks, view, pinned, owned + Out(blocks[a]));
      ghost var slots := Slots(blocks[a].data);
      ghost var done := 0;
      var meta, keys, values := blocks[a].data.meta, blocks[a].data.keys, blocks[a].data.values;
      for i := 0 to |meta|
        invariant a in blocks && blocks[a] == old(blocks[a])
        invariant done <= |slots|
        invariant slots[done..] == MapSlots(meta[i..], keys[i..], values[i..])
        invariant Drops(old(blocks), blocks, view, pinned, Refs(slots[..done]))
        invariant Freed(old(freed), freed, Dead(view, Refs(slots[..done])))
      {
        assert meta[i..][1..] == meta[i + 1..] && keys[i..][1..] == keys[i + 1..] && values[i..][1..] == values[i + 1..];
        if meta[i] == 1 {
          assert slots[done..][0] == keys[i] && slots[done..][1] == values[i];
          assert slots[done + 2..] == slots[done..][2..];
          ReleaseEntry(keys[i], values[i], slots, done, old(blocks), old(freed), view, pinned, owned);
          done := done + 2;
        }
      }
      assert slots[..done] == slots;
    }

    /** One occupied entry: its key, then its value. */
    method ReleaseEntry(key: Value, value: Value, ghost slots: seq<Value>, ghost i: nat, ghost before: Blocks,
                        ghost log: seq<Addr>, ghost view: Blocks, ghost pinned: set<Addr>, ghost owned: multiset<Addr>)
      requires i + 1 < |slots| && key == slots[i] && value == slots[i + 1] && view.Keys <= before.Keys
      requires Inv(view, owned + Refs(slots))
      requires Held(view, owned, pinned)
      requires Drops(before, blocks, view, pinned, Refs(slots[..i]))
      requires Freed(log, freed, Dead(view, Refs(slots[..i])))
      modifies this`blocks, this`freed
      ensures Drops(before, blocks, view, pinned, Refs(slots[..i + 2]))
      ensures Freed(log, freed, Dead(view, Refs(slots[..i + 2])))
      ensures forall x :: x in before && x !in view ==> x in blocks && blocks[x] == before[x]
      decreases |view|, 4
    {
      ReleaseSlot(key, slots, i, before, log, view, pinned, owned);
      ReleaseSlot(value, slots, i + 1, before, log, view, pinned, owned);
    }

    method DropClosure(a: Addr, ghost view: Blocks, ghost pinned: set<Addr>, ghost owned: multiset<Addr>)
      requires Dying(blocks, a, view, pinned, owned)
      requires blocks[a].data.ClosureData?
      modifies this`blocks, this`freed
      ensures Drops(old(blocks), blocks, view, pinned, Out(old(blocks[a])))
      ensures Freed(old(freed), freed, Dead(view, Out(old(blocks[a]))))
      decreases |view|, 4
    {
      if !blocks[a].data.env.Null? {
        DropRef(blocks[a].data.env, view, pinned, owned);
      } else {
        DropsNothing(blocks, view, pinned, owned + Out(blocks[a]));
      }
    }

    method DropOption(a: Addr, ghost view: Blocks, ghost pinned: set<Addr>, ghost owned: multiset<Addr>)
      requires Dying(blocks, a, view, pinned, owned)
      requires blocks[a].data.OptionData?
      modifies this`blocks, this`freed
      ensures Drops(old(blocks), blocks, view, pinned, Out(old(blocks[a])))
      ensures Freed(old(freed), freed, Dead(view, Out(old(blocks[a]))))
      decreases |view|, 4
    {
      var payload := blocks[a].data.payload;
      if blocks[a].data.tag == 0 && !payload.Null? {
        DropRef(payload, view, pinned, owned);
      } else {
        assert Slots(blocks[a].data) == [] || Slots(blocks[a].data) == [Null];
        assert Refs([Null]) == multiset{};
        assert owned + Out(blocks[a]) == owned;
        DropsNothing(blocks, view, pinned, owned);
      }
    }

    method DropCell(a: Addr, ghost view: Blocks, ghost pinned: set<Addr>, ghost owned: multiset<Addr>)
      requires Dying(blocks, a, view, pinned, owned)
      requires blocks[a].data.CellData?
      modifies this`blocks, this`freed
      ensures Drops(old(blocks), blocks, view, pinned, Out(old(blocks[a])))
      ensures Freed(old(freed), freed, Dead(view, Out(old(blocks[a]))))
      decreases |view|, 4
    {
      DropsNothing(blocks, view, pinned, owned + Out(blocks[a]));
      var value := blocks[a].data.value;
      if !value.Null? {
        DropRef(value, view, pinned, owned);
      }
    }

    /** The walk shared by `drop_closure_env`, `drop_dict` and `drop_evidence`. */
    method DropCounted(a: Addr, ghost view: Blocks, ghost pinned: set<Addr>, ghost owned: multiset<Addr>)
      requires Dying(blocks, a, view, pinned, owned)
      requires blocks[a].data.SlotData?
      modifies this`blocks, this`freed
      ensures Drops(old(blocks), blocks, view, pinned, Out(old(blocks[a])))
      ensures Freed(old(freed), freed, Dead(view, Out(old(blocks[a]))))
      decreases |view|, 4
    {
      DropsNothing(blocks, view, pinned, owned + Out(blocks[a]));
      ghost var slots := Slots(blocks[a].data);
      var count := |blocks[a].data.slots|;
      for i := 0 to count
        invariant a in blocks && blocks[a] == old(blocks[a])
        invariant Drops(old(blocks), blocks, view, pinned, Refs(slots[..i]))
        invariant Freed(old(freed), freed, Dead(view, Refs(slots[..i])))
      {
        ReleaseSlot(blocks[a].data.slots[i], slots, i, old(blocks), old(freed), view, pinned, owned);
      }
      assert slots[..count] == slots;
    }

    /** A slot's reference, if it holds one. */
    method Release(v: Value, ghost view: Blocks, ghost pinned: set<Addr>, ghost owned: multiset<Addr>)
      requires Shows(blocks, view, pinned) && Inv(view, owned + Refs([v]))
      requires Held(view, owned, pinned)
      modifies this`blocks, this`freed
      ensures Drops(old(blocks), blocks, view, pinned, Refs([v]))
      ensures Freed(old(freed), freed, Dead(view, Refs([v])))
      decreases |view|, 2
    {
      if !v.Null? {
        DropRef(v, view, pinned, owned);
      } else {
        assert owned + Refs([v]) == owned;
        DropsNothing(blocks, view, pinned, owned);
        AfterNoDrops(view, owned);
        FreedNothing(freed);
      }
    }

    /** One iteration of a destructor's walk. */
    method ReleaseSlot(elem: Value, ghost slots: seq<Value>, ghost i: nat, ghost before: Blocks, ghost log: seq<Addr>,
                       ghost view: Blocks, ghost pinned: set<Addr>, ghost owned: multiset<Addr>)
      requires i < |slots| && elem == slots[i] && view.Keys <= before.Keys
      requires Inv(view, owned + Refs(slots))
      requires Held(view, owned, pinned)
      requires Drops(before, blocks, view, pinned, Refs(slots[..i]))
      requires Freed(log, freed, Dead(view, Refs(slots[..i])))
      modifies this`blocks, this`freed
      ensures Drops(before, blocks, view, pinned, Refs(slots[..i + 1]))
      ensures Freed(log, freed, Dead(view, Refs(slots[..i + 1])))
      ensures forall x :: x in before && x !in view ==> x in blocks && blocks[x] == before[x]
      decreases |view|, 3
    {
      ghost var d, e, rest := Refs(slots[..i]), Refs([elem]), owned + Refs(slots[i + 1..]);
      WalkSplit(view, owned, slots, i);
      ghost var now, b1, l1 := AfterDrops(view, d), blocks, freed;
      HeldMore(view, owned, Refs(slots[i + 1..]), pinned);
      HeldAfterDrops(view, d, rest, e, pinned);
      Release(elem, now, pinned, rest);
      WalkStep(before, b1, blocks, log, l1, freed, view, pinned, d, e, rest);
    }

    // -------------------------------------------------------------------
    // Operations of the running program
    // -------------------------------------------------------------------

    /** A value the program may read: its block is still allocated. */
    ghost predicate Live(v: Value)
      reads this
    {
      v.Ref? ==> v.addr in blocks
    }

    /** `ring_alloc` followed by the stores that fill the block: the
        references in its slots move from the program to the block. */
    method Alloc(tid: TypeId, data: Data) returns (a: Addr)
      requires Valid() && Fits(tid, data) && Refs(Slots(data)) <= roots
      modifies this`blocks, this`roots
      ensures Valid() && a !in old(blocks)
      ensures blocks == old(blocks)[a := Block(1, tid, data)]
      ensures roots == old(roots) - Refs(Slots(data)) + multiset{a}
    {
      a := Unused();
      ghost var kept := roots - Refs(Slots(data));
      assert roots == kept + Refs(Slots(data));
      AllocInv(blocks, a, Block(1, tid, data), kept);
      blocks := blocks[a := Block(1, tid, data)];
      roots := kept + multiset{a};
    }

    /** Any address that is not in use, freed ones included. */
    method Unused() returns (a: Addr)
      ensures a !in blocks
    {
      FreshAddress(blocks.Keys);
      a :| a !in blocks;
    }

    /** `ring_dup`. */
    method Dup(v: Value)
      requires Valid() && Live(v)
      modifies this`blocks, this`roots
      ensures Valid()
      ensures roots == old(roots) + Refs([v])
      ensures blocks == AfterDups(old(blocks), Refs([v]))
    {
      DupEffect(blocks, v, roots);
      assert v.Ref? ==> Exact(blocks, roots, v.addr);
      roots := roots + Refs([v]);
      if v.Ref? {
        Increment(v.addr);
      }
    }

    /** The guarded increment at the end of `ring_dup`. */
    method Increment(a: Addr)
      requires a in blocks && (Mortal(blocks[a]) ==> blocks[a].rc >= 1)
      modifies this`blocks
      ensures blocks == old(blocks)[a := Gain(old(blocks)[a], 1)]
    {
      var block := blocks[a];
      if block.rc == 0 || block.rc > SATURATION || NeverDrop(block.tid) {
        UpdateSame(blocks, a, block);
        return;
      }
      blocks := blocks[a := block.(rc := block.rc + 1)];
    }

    /** Giving up an owned value. */
    method Drop(v: Value)
      requires Valid() && Refs([v]) <= roots
      modifies this`blocks, this`roots, this`freed
      ensures Valid()
      ensures roots == old(roots) - Refs([v])
      ensures blocks == AfterDrops(old(blocks), Refs([v]))
      ensures Freed(old(freed), freed, Dead(old(blocks), Refs([v])))
    {
      ghost var before, kept := blocks, roots - Refs([v]);
      assert roots == kept + Refs([v]);
      DropRef(v, before, {}, kept);
      AfterDropsInv(before, Refs([v]), kept);
      roots := kept;
      ShownWhole(before, blocks, Refs([v]));
      NoneSurvives(before, Refs([v]), noneSingleton);
    }

    /** `ring_const_intern` and `ring_unit_intern`: only the header changes. */
    method Intern(v: Value, tid: TypeId)
      requires Valid() && Live(v) && (tid.ConstStatic? || tid.ConstHeapStatic?)
      requires v != noneSingleton && !v.Scalar?
      modifies this`blocks
      ensures Valid()
      ensures blocks == if v.Null? then old(blocks) else old(blocks)[v.addr := old(blocks)[v.addr].(tid := tid)]
    {
      if v.Null? {
        return;
      }
      InternInv(blocks, v.addr, tid, roots);
      blocks := blocks[v.addr := blocks[v.addr].(tid := tid)];
    }

    /** `ring_enum_none`: one immortal block per process. */
    method EnumNone() returns (r: Value)
      requires Valid()
      modifies this`blocks, this`roots, this`noneSingleton
      ensures Valid() && roots == old(roots) + Refs([r])
      ensures NoneGiven(old(blocks), old(noneSingleton), blocks, noneSingleton, r)
    {
      if noneSingleton.Null? {
        var a := Alloc(OptionNone, OptionData(1, Null));
        noneSingleton := Ref(a);
        assert old(roots) - multiset{} == old(roots);
      } else {
        AfterDupsInv(blocks, multiset{noneSingleton.addr}, roots);
        ImmortalDups(blocks, noneSingleton.addr);
        roots := roots + multiset{noneSingleton.addr};
      }
      r := noneSingleton;
    }

    /** `ring_enum_some`: the option takes over an owned payload. */
    method EnumSome(payload: Value) returns (r: Value)
      requires Valid() && Refs([payload]) <= roots
      modifies this`blocks, this`roots
      ensures Valid() && r.Ref? && r.addr !in old(blocks)
      ensures blocks == old(blocks)[r.addr := Block(1, Option, OptionData(0, payload))]
      ensures roots == old(roots) - Refs([payload]) + multiset{r.addr}
    {
      var a := Alloc(Option, OptionData(0, payload));
      r := Ref(a);
    }

    /** `ring_Cell_new`: the cell holds its own reference to the value. */
    method CellNew(value: Value) returns (r: Value)
      requires Valid() && Live(value)
      modifies this`blocks, this`roots
      ensures Valid() && r.Ref? && r.addr !in old(blocks)
      ensures blocks == AfterDups(old(blocks), Refs([value]))[r.addr := Block(1, Cell, CellData(value))]
      ensures roots == old(roots) + multiset{r.addr}
    {
      Dup(value);
      var a := Alloc(Cell, CellData(value));
      r := Ref(a);
    }

    /** `ring_Cell_get`: an owned copy of the value. */
    method CellGet(cell: Addr) returns (r: Value)
      requires Valid() && cell in blocks && blocks[cell].data.CellData?
      modifies this`blocks, this`roots
      ensures Valid() && r == old(blocks)[cell].data.value
      ensures blocks == AfterDups(old(blocks), Refs([r]))
      ensures roots == old(roots) + Refs([r])
    {
      r := blocks[cell].data.value;
      SlotsLive(blocks, roots, cell);
      Dup(r);
    }

    /** `ring_Cell_set`: store first, then release the old value. */
    method CellSet(cell: Addr, value: Value)
      requires Valid() && cell in blocks && blocks[cell].data.CellData? && Refs([value]) <= roots
      requires noneSingleton != Ref(cell)
      modifies this`blocks, this`roots, this`freed
      ensures Valid() && roots == old(roots) - Refs([value])
      ensures blocks == AfterDrops(SetData(old(blocks), cell, CellData(value)), Refs([old(blocks)[cell].data.value]))
    {
      var previous := blocks[cell].data.value;
      SwapRefs(roots, Refs([previous]), Refs([value]));
      Store(cell, CellData(value), roots - Refs([value]) + Refs([previous]));
      Drop(previous);
    }

    /** Overwriting the slots of a block, conserving references. */
    method Store(a: Addr, data: Data, ghost kept: multiset<Addr>)
      requires Valid() && a in blocks && Fits(blocks[a].tid, data) && noneSingleton != Ref(a)
      requires roots + Out(blocks[a]) == kept + Refs(Slots(data))
      modifies this`blocks, this`roots
      ensures Valid() && roots == kept && blocks == SetData(old(blocks), a, data)
    {
      SetDataInv(blocks, a, data, roots, kept);
      blocks := blocks[a := blocks[a].(data := data)];
      roots := kept;
    }
  }

  /** With nothing hidden or pinned the view is the memory. */
  lemma ShownWhole(before: Blocks, after: Blocks, d: multiset<Addr>)
    requires AllWellFormed(before) && Drops(before, after, before, {}, d)
    ensures after == AfterDrops(before, d)
  {
    assert AfterDrops(before, d).Keys == before.Keys - Dead(before, d);
    assert forall x :: x in after ==> after[x] == AfterDrops(before, d)[x];
  }

  /** One reference comes out where another goes in. */
  lemma SwapRefs(roots: multiset<Addr>, before: multiset<Addr>, after: multiset<Addr>)
    requires after <= roots
    ensures roots + before == roots - after + before + after
    ensures roots - after + before - before == roots - after
  {
  }

  lemma NoneSurvives(before: Blocks, d: multiset<Addr>, none: Value)
    requires AllWellFormed(before)
    requires none.Ref? ==> none.addr in before && NeverDrop(before[none.addr].tid)
    ensures none.Ref? ==> none.addr in AfterDrops(before, d) && AfterDrops(before, d)[none.addr] == before[none.addr]
  {
    if none.Ref? && none.addr in Dead(before, d) {
      DeadJustified(before, d, none.addr);
    }
  }

  lemma ImmortalDups(h: Blocks, a: Addr)
    requires AllWellFormed(h) && a in h && !Mortal(h[a])
    ensures AfterDups(h, multiset{a}) == h
  {
    DupOne(h, a);
  }

  /** Every value in a counted slot is live. */
  lemma SlotsLive(h: Blocks, owned: multiset<Addr>, a: Addr)
    requires Inv(h, owned) && a in h
    ensures forall v :: v in Slots(h[a].data) && v.Ref? ==> v.addr in h
  {
    forall v | v in Slots(h[a].data) && v.Ref? ensures v.addr in h {
      RefsMember(Slots(h[a].data), v);
      IncomingMember(h, h.Keys, a, v.addr);
      assert Exact(h, owned, v.addr);
    }
  }

  lemma {:induction false} RefsMember(vs: seq<Value>, v: Value)
    requires v in vs && v.Ref?
    ensures v.addr in Refs(vs)
  {
    if vs[0] != v {
      RefsMember(vs[1..], v);
    }
  }

  lemma FreshAddress(used: set<Addr>)
    ensures exists a: Addr :: a !in used
  {
    var m := Bound(used);
    assert m !in used;
  }

  lemma Bound(used: set<Addr>) returns (m: Addr)
    ensures forall a :: a in used ==> a < m
  {
    m := 0;
    var todo := used;
    while todo != {}
      invariant forall a :: a in used && a !in todo ==> a < m
    {
      var a :| a in todo;
      m := if a < m then m else a + 1;
      todo := todo - {a};
    }
  }

  /** A map that alone refers to a string gives it back with itself. */
  method MapFreesValue() returns (heap: Heap, text: Addr, m: Addr)
    ensures heap.Valid() && heap.blocks == map[]
    ensures text != m && text in heap.freed && m in heap.freed
  {
    heap := new Heap();
    text := heap.Alloc(Str, Bytes);
    MapSlotsSnoc([1], [Scalar(5)], [Ref(text)], 0);
    assert MapSlots([1][..0], [Scalar(5)][..0], [Ref(text)][..0]) == [];
    assert Slots(MapData([1], [Scalar(5)], [Ref(text)])) == [Scalar(5), Ref(text)];
    TwoRefs(Scalar(5), Ref(text), text);
    assert Refs([Scalar(5), Ref(text)]) == multiset{text};
    m := heap.Alloc(Map, MapData([1], [Scalar(5)], [Ref(text)]));
    assert Refs([Ref(m)]) == multiset{m};
    assert heap.roots == multiset{} + multiset{m};
    MapWithText(heap.blocks, text, m);
    heap.Drop(Ref(m));
    assert heap.freed[0..] == heap.freed;
  }

  lemma MapWithText(h: Blocks, text: Addr, m: Addr)
    requires Inv(h, multiset{} + multiset{m}) && h.Keys == {text, m} && text != m
    requires h[text] == Block(1, Str, Bytes) && h[m] == Block(1, Map, MapData([1], [Scalar(5)], [Ref(text)]))
    ensures AfterDrops(h, multiset{m}) == map[] && Dead(h, multiset{m}) == {text, m}
  {
    MapContentsFreed(h, m, multiset{}, 0, text);
    var after := AfterDrops(h, multiset{m});
    assert after.Keys == h.Keys - Dead(h, multiset{m});
    assert after.Keys == {};
  }
}
