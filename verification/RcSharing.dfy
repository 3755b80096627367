/** Sharing references, allocating blocks and rewriting their slots. */
module RcSharing {
  import opened RcHeap

  /** A count raised by `n` dups: it sticks one above the saturation bound. */
  function Gain(b: Block, n: nat): (r: Block)
    ensures r.tid == b.tid && r.data == b.data
  {
    if Mortal(b) then b.(rc := if b.rc + n <= SATURATION then b.rc + n else SATURATION + 1) else b
  }

  ghost function AfterDups(h: Blocks, d: multiset<Addr>): (h': Blocks)
    requires AllWellFormed(h)
    ensures AllWellFormed(h') && h'.Keys == h.Keys
  {
    map x | x in h :: Gain(h[x], d[x])
  }

  lemma AfterDupsInv(h: Blocks, d: multiset<Addr>, owned: multiset<Addr>)
    requires Inv(h, owned) && forall a :: a in d ==> a in h
    ensures Inv(AfterDups(h, d), owned + d)
  {
    IncomingSame(h, AfterDups(h, d), h.Keys);
    forall a ensures Exact(AfterDups(h, d), owned + d, a) {
      assert Exact(h, owned, a);
    }
  }

  lemma AfterDupsCompose(h: Blocks, d: multiset<Addr>, e: multiset<Addr>)
    requires AllWellFormed(h)
    ensures AfterDups(AfterDups(h, d), e) == AfterDups(h, d + e)
    ensures AfterDups(h, multiset{}) == h
  {
    var both, once := AfterDups(AfterDups(h, d), e), AfterDups(h, d + e);
    assert both.Keys == once.Keys;
    assert forall x :: x in once ==> both[x] == once[x];
  }

  lemma DupOne(h: Blocks, a: Addr)
    requires AllWellFormed(h) && a in h
    ensures AfterDups(h, multiset{a}) == h[a := Gain(h[a], 1)]
    ensures AfterDups(h, multiset{a}) ==
      if h[a].rc > 100000 || h[a].tid in {DictStatic, OptionNone, ConstStatic, ConstHeapStatic} then h
      else h[a := h[a].(rc := h[a].rc + 1)]
  {
    assert AfterDups(h, multiset{a}).Keys == h.Keys;
  }

  lemma UpdateSame(h: Blocks, a: Addr, b: Block)
    requires a in h
    ensures h[a := b] == h <==> b == h[a]
  {
    assert h[a := b][a] == b;
  }

  /** The effect of one `ring_dup`. */
  lemma DupEffect(h: Blocks, v: Value, owned: multiset<Addr>)
    requires Inv(h, owned) && (v.Ref? ==> v.addr in h)
    ensures Inv(AfterDups(h, Refs([v])), owned + Refs([v]))
    ensures AfterDups(h, Refs([v])) == if v.Ref? then h[v.addr := Gain(h[v.addr], 1)] else h
  {
    assert Refs([v]) == if v.Ref? then multiset{v.addr} else multiset{};
    AfterDupsInv(h, Refs([v]), owned);
    AfterDupsCompose(h, multiset{}, multiset{});
    if v.Ref? {
      DupOne(h, v.addr);
    }
  }

  lemma DupsStep(h: Blocks, vs: seq<Value>, i: nat)
    requires AllWellFormed(h) && i < |vs|
    ensures AfterDups(AfterDups(h, Refs(vs[..i])), Refs([vs[i]])) == AfterDups(h, Refs(vs[..i + 1]))
    ensures Refs(vs[..i + 1]) == Refs(vs[..i]) + Refs([vs[i]])
  {
    RefsPrefix(vs, i);
    AfterDupsCompose(h, Refs(vs[..i]), Refs([vs[i]]));
  }

  /** A dup followed by a drop is the identity except at the one count where
      the dup saturates: there the block becomes immortal. */
  lemma DupThenDrop(h: Blocks, a: Addr, owned: multiset<Addr>)
    requires Inv(h, owned) && a in h
    ensures AfterDrops(AfterDups(h, multiset{a}), multiset{a}) == h <==>
      !(Mortal(h[a]) && h[a].rc == SATURATION)
  {
    assert Inv(h[a := Gain(h[a], 1)], owned + multiset{a}) && (Mortal(h[a]) ==> h[a].rc >= 1) by {
      AfterDupsInv(h, multiset{a}, owned);
      DupOne(h, a);
      assert Exact(h, owned, a);
    }
    var up := Gain(h[a], 1);
    DropUpdated(h, a, up, owned);
    DupOne(h, a);
    UpdateSame(h, a, if Mortal(up) then up.(rc := up.rc - 1) else up);
  }

  /** At that count the pair does not cancel: the dup saturates the block and
      the drop no longer counts. */
  lemma SaturatedPair()
    ensures exists h: Blocks, owned :: Inv(h, owned) && 0 in h && AfterDrops(AfterDups(h, multiset{0}), multiset{0}) != h
  {
    var h: Blocks := map[0 := Block(SATURATION, Int, Bytes)];
    var owned: multiset<Addr> := multiset{}[0 := SATURATION];
    IncomingTake(h, h.Keys, 0);
    assert h.Keys - {0} == {};
    assert forall a :: Exact(h, owned, a);
    DupThenDrop(h, 0, owned);
  }

  lemma DropUpdated(h: Blocks, a: Addr, b: Block, owned: multiset<Addr>)
    requires a in h && (Mortal(b) ==> b.rc > 1) && Inv(h[a := b], owned + multiset{a})
    ensures AfterDrops(h[a := b], multiset{a}) == h[a := if Mortal(b) then b.(rc := b.rc - 1) else b]
  {
    if Mortal(b) {
      DropShared(h[a := b], a, owned);
    } else {
      DropImmortal(h[a := b], a, owned);
    }
  }

  /** A new block takes over the references in its slots and is itself owned
      by the caller. */
  lemma AllocInv(h: Blocks, a: Addr, b: Block, owned: multiset<Addr>)
    requires a !in h && b.rc == 1 && Fits(b.tid, b.data) && Inv(h, owned + Out(b))
    ensures Inv(h[a := b], owned + multiset{a})
  {
    AllocCount(h, a, b);
    assert Exact(h, owned + Out(b), a);
    var h' := h[a := b];
    forall x ensures Exact(h', owned + multiset{a}, x) {
      assert Exact(h, owned + Out(b), x);
    }
  }

  lemma AllocCount(h: Blocks, a: Addr, b: Block)
    requires AllWellFormed(h) && a !in h && Fits(b.tid, b.data)
    ensures var h' := h[a := b]; Incoming(h', h'.Keys) == Incoming(h, h.Keys) + Out(b)
  {
    var h' := h[a := b];
    IncomingTake(h', h'.Keys, a);
    assert h'.Keys - {a} == h.Keys;
    IncomingSame(h, h', h.Keys);
  }

  ghost function SetData(h: Blocks, a: Addr, d: Data): Blocks
    requires a in h
  {
    h[a := h[a].(data := d)]
  }

  /** Rewriting a block's slots conserves references: what the slots lose the
      owners gain. */
  lemma SetDataInv(h: Blocks, a: Addr, d: Data, owned: multiset<Addr>, owned': multiset<Addr>)
    requires a in h && Inv(h, owned) && Fits(h[a].tid, d)
    requires owned + Out(h[a]) == owned' + Refs(Slots(d))
    ensures Inv(SetData(h, a, d), owned')
  {
    SetDataCount(h, a, d);
    var h' := SetData(h, a, d);
    assert h'.Keys == h.Keys;
    forall x ensures Exact(h', owned', x) {
      assert Exact(h, owned, x);
      assert (owned + Out(h[a]))[x] == (owned' + Refs(Slots(d)))[x];
      assert (Incoming(h', h'.Keys) + Out(h[a]))[x] == (Incoming(h, h.Keys) + Refs(Slots(d)))[x];
    }
  }

  lemma SetDataCount(h: Blocks, a: Addr, d: Data)
    requires a in h && AllWellFormed(h) && Fits(h[a].tid, d)
    ensures var h' := SetData(h, a, d);
      Incoming(h', h'.Keys) + Out(h[a]) == Incoming(h, h.Keys) + Refs(Slots(d))
  {
    var h' := SetData(h, a, d);
    IncomingTake(h, h.Keys, a);
    IncomingTake(h', h'.Keys, a);
    assert h'.Keys - {a} == h.Keys - {a};
    IncomingSame(h, h', h.Keys - {a});
  }

  /** Interning a block as a module constant freezes its count for ever. */
  lemma InternInv(h: Blocks, a: Addr, tid: TypeId, owned: multiset<Addr>)
    requires a in h && Inv(h, owned) && NeverDrop(tid)
    ensures Inv(h[a := h[a].(tid := tid)], owned)
  {
    var h' := h[a := h[a].(tid := tid)];
    IncomingSame(h, h', h.Keys);
    assert h'.Keys == h.Keys;
    forall x ensures Exact(h', owned, x) {
      assert Exact(h, owned, x);
    }
  }

  lemma DupsSetData(h: Blocks, a: Addr, d: Data, e: multiset<Addr>)
    requires AllWellFormed(h) && a in h && Fits(h[a].tid, d)
    ensures AllWellFormed(SetData(h, a, d))
    ensures AfterDups(SetData(h, a, d), e) == SetData(AfterDups(h, e), a, d)
  {
    var l, r := AfterDups(SetData(h, a, d), e), SetData(AfterDups(h, e), a, d);
    assert l.Keys == r.Keys;
    assert forall x :: x in l ==> l[x] == r[x];
  }

  lemma DupsFresh(h: Blocks, a: Addr, b: Block, e: multiset<Addr>)
    requires AllWellFormed(h) && a !in h && Fits(b.tid, b.data) && b.rc == 1 && e[a] == 0
    ensures AllWellFormed(h[a := b])
    ensures AfterDups(h[a := b], e) == AfterDups(h, e)[a := b]
  {
    var l, r := AfterDups(h[a := b], e), AfterDups(h, e)[a := b];
    assert l.Keys == r.Keys;
    assert forall x :: x in l ==> l[x] == r[x];
  }

  /** A block somebody still owns is left alone by the cascade. */
  lemma OwnedSurvives(h: Blocks, d: multiset<Addr>, owned: multiset<Addr>, a: Addr)
    requires Inv(h, owned + d) && a in owned
    ensures a in h && a !in Dead(h, d) && a in AfterDrops(h, d)
    ensures AfterDrops(h, d)[a].data == h[a].data && AfterDrops(h, d)[a].tid == h[a].tid
  {
    OwnedLive(h, owned + d, a);
    if a in Dead(h, d) {
      DeadUnreferenced(h, d, owned, a);
    }
  }

  /** Rewriting the slots of a block that survives commutes with the cascade. */
  lemma DropsSetData(h: Blocks, a: Addr, s: Data, d: multiset<Addr>)
    requires AllWellFormed(h) && a in h && Fits(h[a].tid, s) && AllWellFormed(SetData(h, a, s))
    requires a !in Dead(h, d) && a !in Dead(SetData(h, a, s), d)
    ensures AfterDrops(SetData(h, a, s), d) == SetData(AfterDrops(h, d), a, s)
  {
    DeadSetData(h, a, s, d);
    IncomingSame(h, SetData(h, a, s), Dead(h, d));
    ReleasedSetData(h, a, s, Dead(h, d), d + Incoming(h, Dead(h, d)));
  }

  lemma ReleasedSetData(h: Blocks, a: Addr, s: Data, dead: set<Addr>, lost: multiset<Addr>)
    requires AllWellFormed(h) && a in h && AllWellFormed(SetData(h, a, s)) && a !in dead
    ensures Released(SetData(h, a, s), dead, lost) == SetData(Released(h, dead, lost), a, s)
  {
    var l, r := Released(SetData(h, a, s), dead, lost), SetData(Released(h, dead, lost), a, s);
    assert l.Keys == r.Keys;
    assert forall x :: x in l ==> l[x] == r[x];
  }

  lemma DeadSetData(h: Blocks, a: Addr, s: Data, d: multiset<Addr>)
    requires AllWellFormed(h) && a in h && Fits(h[a].tid, s) && AllWellFormed(SetData(h, a, s))
    requires a !in Dead(h, d) && a !in Dead(SetData(h, a, s), d)
    ensures Dead(SetData(h, a, s), d) == Dead(h, d)
  {
    var h' := SetData(h, a, s);
    ClosedSetData(h, h', a, d, Dead(h, d));
    ClosedSetData(h', h, a, d, Dead(h', d));
    DeadWithin(h', d, Dead(h, d));
    DeadWithin(h, d, Dead(h', d));
  }

  lemma ClosedSetData(g: Blocks, h: Blocks, a: Addr, d: multiset<Addr>, dead: set<Addr>)
    requires AllWellFormed(g) && AllWellFormed(h) && dead == Dead(g, d) && a !in dead
    requires g.Keys == h.Keys && a in g
    requires g[a].rc == h[a].rc && g[a].tid == h[a].tid && forall x :: x in g && x != a ==> g[x] == h[x]
    ensures Closed(h, d, dead)
  {
    DeadClosed(g, d);
    IncomingSame(g, h, dead);
  }
}
