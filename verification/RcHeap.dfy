/** The reference-counted heap as a value: blocks, counted references and the
    effect of releasing references.  Everything the runtime promises about
    dup and drop is stated here on maps; `RcMachine` holds the code that
    changes a heap in place and is proved against these definitions. */
module RcHeap {
  type Addr = nat

  /** A `void*` as the runtime sees it: null, a tagged scalar (low bit set) or
      a pointer to the data of an allocated block. */
  datatype Value = Null | Scalar(n: int) | Ref(addr: Addr)

  datatype TypeId =
    | Int | Float | Bool | Str | List | Map | Closure | Option | Unit
    | StringBuilder | Cell | ClosureEnv | DictStatic | DictDyn
    | OptionNone | ConstStatic | ConstHeapStatic | Evidence

  /** What follows the header.  A list owns a slot buffer of which only the
      first `len` slots are in use. */
  datatype Data =
    | Bytes
    | ListData(buf: seq<Value>, len: nat)
    | OptionData(tag: int, payload: Value)
    | CellData(value: Value)
    | ClosureData(fn: int, env: Value)
    | SlotData(slots: seq<Value>)
    | MapData(meta: seq<int>, keys: seq<Value>, values: seq<Value>)

  datatype Block = Block(rc: nat, tid: TypeId, data: Data)

  type Blocks = map<Addr, Block>

  /** Counts above this bound are frozen: dup and drop return early. */
  const SATURATION: nat := 100000

  predicate NeverDrop(tid: TypeId) {
    tid.DictStatic? || tid.OptionNone? || tid.ConstStatic? || tid.ConstHeapStatic?
  }

  predicate Mortal(b: Block) {
    !NeverDrop(b.tid) && b.rc <= SATURATION
  }

  predicate WellLaidOut(d: Data) {
    (d.ListData? ==> d.len <= |d.buf|) &&
    (d.MapData? ==> |d.meta| == |d.keys| == |d.values|)
  }

  /** The layout every destructor assumes of the blocks it is called on.  An
      immortal block may have any layout: interning changes only the header. */
  predicate Fits(tid: TypeId, d: Data) {
    WellLaidOut(d) &&
    match tid
    case List => d.ListData?
    case Map => d.MapData?
    case Closure => d.ClosureData?
    case Option => d.OptionData?
    case Cell => d.CellData?
    case ClosureEnv => d.SlotData?
    case DictDyn => d.SlotData?
    case Evidence => d.SlotData?
    case Int => d.Bytes?
    case Float => d.Bytes?
    case Bool => d.Bytes?
    case Str => d.Bytes?
    case Unit => d.Bytes?
    case StringBuilder => d.Bytes?
    case _ => true
  }

  function MapSlots(meta: seq<int>, keys: seq<Value>, values: seq<Value>): seq<Value>
    requires |meta| == |keys| == |values|
  {
    if meta == [] then []
    else (if meta[0] == 1 then [keys[0], values[0]] else []) + MapSlots(meta[1..], keys[1..], values[1..])
  }

  /** The slots that hold counted references, in the order a destructor
      releases them. */
  function Slots(d: Data): seq<Value>
    requires WellLaidOut(d)
  {
    match d
    case Bytes => []
    case ListData(buf, len) => buf[..len]
    case OptionData(tag, payload) => if tag == 0 then [payload] else []
    case CellData(value) => [value]
    case ClosureData(_, env) => [env]
    case SlotData(slots) => slots
    case MapData(meta, keys, values) => MapSlots(meta, keys, values)
  }

  /** The block references among some values, with multiplicity. */
  ghost function Refs(vs: seq<Value>): multiset<Addr> {
    if vs == [] then multiset{}
    else (if vs[0].Ref? then multiset{vs[0].addr} else multiset{}) + Refs(vs[1..])
  }

  ghost function Out(b: Block): multiset<Addr>
    requires Fits(b.tid, b.data)
  {
    Refs(Slots(b.data))
  }

  ghost predicate AllWellFormed(h: Blocks) {
    forall a :: a in h ==> Fits(h[a].tid, h[a].data)
  }

  /** All references held in slots of the blocks in `from`. */
  ghost function Incoming(h: Blocks, from: set<Addr>): multiset<Addr>
    requires AllWellFormed(h) && from <= h.Keys
  {
    if from == {} then multiset{}
    else
      var b :| b in from;
      Out(h[b]) + Incoming(h, from - {b})
  }

  /** What the invariant says of one address: only live blocks are referenced
      and the count of a mortal block is exact. */
  ghost predicate Exact(h: Blocks, owned: multiset<Addr>, a: Addr)
    requires AllWellFormed(h)
  {
    (owned[a] + Incoming(h, h.Keys)[a] > 0 ==> a in h) &&
    (a in h && Mortal(h[a]) ==> h[a].rc == owned[a] + Incoming(h, h.Keys)[a] && h[a].rc >= 1)
  }

  /** The heap invariant.  `owned` are the references held outside the heap:
      by variables of the running program and by destructors at work. */
  ghost predicate Inv(h: Blocks, owned: multiset<Addr>) {
    AllWellFormed(h) && forall a {:trigger Exact(h, owned, a)} :: Exact(h, owned, a)
  }

  lemma OwnedLive(h: Blocks, owned: multiset<Addr>, a: Addr)
    requires Inv(h, owned) && a in owned
    ensures a in h
  {
    assert Exact(h, owned, a);
  }

  // ---------------------------------------------------------------------
  // Counting
  // ---------------------------------------------------------------------

  lemma {:induction false} RefsConcat(u: seq<Value>, v: seq<Value>)
    ensures Refs(u + v) == Refs(u) + Refs(v)
  {
    if u == [] {
      assert u + v == v;
    } else {
      assert (u + v)[1..] == u[1..] + v;
      RefsConcat(u[1..], v);
    }
  }

  ghost function Positions(vs: seq<Value>, a: Addr): set<int> {
    set i | 0 <= i < |vs| && vs[i] == Ref(a)
  }

  /** Each slot holding a reference counts once. */
  lemma {:induction false} RefsCount(vs: seq<Value>, a: Addr)
    ensures Refs(vs)[a] == |Positions(vs, a)|
  {
    if vs == [] {
      assert Positions(vs, a) == {};
    } else {
      var n := |vs| - 1;
      RefsConcat(vs[..n], [vs[n]]);
      assert vs == vs[..n] + [vs[n]];
      OneRef(vs[n], a);
      RefsCount(vs[..n], a);
      PositionsSnoc(vs, a, n);
    }
  }

  lemma PositionsSnoc(vs: seq<Value>, a: Addr, n: nat)
    requires |vs| == n + 1
    ensures |Positions(vs, a)| == |Positions(vs[..n], a)| + if vs[n] == Ref(a) then 1 else 0
  {
    assert Positions(vs, a) == Positions(vs[..n], a) + if vs[n] == Ref(a) then {n as int} else {};
  }

  lemma OneRef(v: Value, a: Addr)
    ensures Refs([v])[a] == if v == Ref(a) then 1 else 0
  {
    assert Refs([v]) == (if v.Ref? then multiset{v.addr} else multiset{}) + Refs([]);
  }

  lemma TwoRefs(v: Value, w: Value, a: Addr)
    ensures Refs([v, w])[a] == (if v == Ref(a) then 1 else 0) + if w == Ref(a) then 1 else 0
  {
    RefsConcat([v], [w]);
    assert [v] + [w] == [v, w];
    OneRef(v, a);
    OneRef(w, a);
  }

  lemma {:induction false} MapSlotsSnoc(meta: seq<int>, keys: seq<Value>, values: seq<Value>, n: nat)
    requires |meta| == |keys| == |values| == n + 1
    ensures MapSlots(meta, keys, values) ==
      MapSlots(meta[..n], keys[..n], values[..n]) + if meta[n] == 1 then [keys[n], values[n]] else []
  {
    if n > 0 {
      MapSlotsSnoc(meta[1..], keys[1..], values[1..], n - 1);
      assert meta[1..][..n - 1] == meta[..n][1..] && keys[1..][..n - 1] == keys[..n][1..] &&
        values[1..][..n - 1] == values[..n][1..];
    }
  }

  /** The positions of occupied entries at which a column holds a reference. */
  ghost function Holding(meta: seq<int>, column: seq<Value>, a: Addr): set<int>
    requires |meta| == |column|
  {
    set i | 0 <= i < |meta| && meta[i] == 1 && column[i] == Ref(a)
  }

  lemma HoldingSnoc(meta: seq<int>, column: seq<Value>, a: Addr, n: nat)
    requires |meta| == |column| == n + 1
    ensures |Holding(meta, column, a)| ==
      |Holding(meta[..n], column[..n], a)| + if meta[n] == 1 && column[n] == Ref(a) then 1 else 0
  {
    assert Holding(meta, column, a) ==
      Holding(meta[..n], column[..n], a) + if meta[n] == 1 && column[n] == Ref(a) then {n as int} else {};
  }

  lemma {:induction false} MapRefsCount(meta: seq<int>, keys: seq<Value>, values: seq<Value>, a: Addr)
    requires |meta| == |keys| == |values|
    ensures Refs(MapSlots(meta, keys, values))[a] == |Holding(meta, keys, a)| + |Holding(meta, values, a)|
  {
    if meta == [] {
      assert Holding(meta, keys, a) == {} && Holding(meta, values, a) == {};
    } else {
      var n := |meta| - 1;
      MapRefsCount(meta[..n], keys[..n], values[..n], a);
      MapSlotsSnoc(meta, keys, values, n);
      RefsConcat(MapSlots(meta[..n], keys[..n], values[..n]), if meta[n] == 1 then [keys[n], values[n]] else []);
      TwoRefs(keys[n], values[n], a);
      HoldingSnoc(meta, keys, a, n);
      HoldingSnoc(meta, values, a, n);
    }
  }

  /** What a block's destructor has to release, layout by layout: the used
      slots of a list, the payload of a present option, a cell's value, a
      closure's environment, every counted slot, and both the key and the value
      of each occupied entry of a map. */
  lemma OutCounts(b: Block, a: Addr)
    requires Fits(b.tid, b.data)
    ensures b.data.Bytes? ==> Out(b)[a] == 0
    ensures b.data.ListData? ==> Out(b)[a] == |set i | 0 <= i < b.data.len && b.data.buf[i] == Ref(a)|
    ensures b.data.OptionData? ==> Out(b)[a] == if b.data.tag == 0 && b.data.payload == Ref(a) then 1 else 0
    ensures b.data.CellData? ==> Out(b)[a] == if b.data.value == Ref(a) then 1 else 0
    ensures b.data.ClosureData? ==> Out(b)[a] == if b.data.env == Ref(a) then 1 else 0
    ensures b.data.SlotData? ==> Out(b)[a] == |set i | 0 <= i < |b.data.slots| && b.data.slots[i] == Ref(a)|
    ensures b.data.MapData? ==>
      Out(b)[a] ==
        |set i | 0 <= i < |b.data.meta| && b.data.meta[i] == 1 && b.data.keys[i] == Ref(a)| +
        |set i | 0 <= i < |b.data.meta| && b.data.meta[i] == 1 && b.data.values[i] == Ref(a)|
  {
    match b.data
    case ListData(buf, len) =>
      RefsCount(buf[..len], a);
      assert Positions(buf[..len], a) == (set i | 0 <= i < len && buf[i] == Ref(a));
    case SlotData(slots) => RefsCount(slots, a);
    case MapData(meta, keys, values) => MapRefsCount(meta, keys, values, a);
    case OptionData(_, payload) => OneRef(payload, a);
    case CellData(value) => OneRef(value, a);
    case ClosureData(_, env) => OneRef(env, a);
    case Bytes =>
  }

  lemma RefsPrefix(s: seq<Value>, i: nat)
    requires i < |s|
    ensures Refs(s[..i + 1]) == Refs(s[..i]) + Refs([s[i]])
    ensures Refs(s) == Refs(s[..i]) + Refs([s[i]]) + Refs(s[i + 1..])
  {
    CutAround(s, i);
    RefsConcat(s[..i], [s[i]]);
    RefsConcat(s[..i + 1], s[i + 1..]);
  }

  lemma CutAround(s: seq<Value>, i: nat)
    requires i < |s|
    ensures s[..i] + [s[i]] == s[..i + 1] && s[..i + 1] + s[i + 1..] == s
  {
  }

  lemma {:induction false} IncomingTake(h: Blocks, from: set<Addr>, b: Addr)
    requires AllWellFormed(h) && from <= h.Keys && b in from
    ensures Incoming(h, from) == Out(h[b]) + Incoming(h, from - {b})
    decreases from
  {
    var c :| c in from && Incoming(h, from) == Out(h[c]) + Incoming(h, from - {c});
    if c != b {
      IncomingTake(h, from - {c}, b);
      IncomingTake(h, from - {b}, c);
      assert from - {c} - {b} == from - {b} - {c};
    }
  }

  lemma {:induction false} IncomingSplit(h: Blocks, s: set<Addr>, t: set<Addr>)
    requires AllWellFormed(h) && s <= h.Keys && t <= h.Keys && s !! t
    ensures Incoming(h, s + t) == Incoming(h, s) + Incoming(h, t)
    decreases s
  {
    if s == {} {
      assert s + t == t;
    } else {
      var b :| b in s;
      IncomingSplit(h, s - {b}, t);
      assert s + t - {b} == (s - {b}) + t;
      IncomingTake(h, s, b);
      IncomingTake(h, s + t, b);
      SumAssociates(Out(h[b]), Incoming(h, s - {b}), Incoming(h, t));
    }
  }

  lemma SumAssociates(a: multiset<Addr>, b: multiset<Addr>, c: multiset<Addr>)
    ensures a + (b + c) == (a + b) + c
  {
  }

  lemma {:induction false} IncomingSame(g: Blocks, h: Blocks, s: set<Addr>)
    requires AllWellFormed(g) && AllWellFormed(h) && s <= g.Keys && s <= h.Keys
    requires forall b :: b in s ==> g[b].data == h[b].data
    ensures Incoming(g, s) == Incoming(h, s)
    decreases s
  {
    if s != {} {
      var b :| b in s;
      IncomingTake(g, s, b);
      IncomingTake(h, s, b);
      IncomingSame(g, h, s - {b});
    }
  }

  lemma IncomingMonotone(h: Blocks, s: set<Addr>, t: set<Addr>)
    requires AllWellFormed(h) && s <= t <= h.Keys
    ensures Incoming(h, s) <= Incoming(h, t)
    ensures Incoming(h, t) == Incoming(h, s) + Incoming(h, t - s)
  {
    IncomingSplit(h, s, t - s);
    assert s + (t - s) == t;
  }

  /** A reference held by a block of `s` is counted. */
  lemma IncomingMember(h: Blocks, s: set<Addr>, b: Addr, a: Addr)
    requires AllWellFormed(h) && s <= h.Keys && b in s && a in Out(h[b])
    ensures a in Incoming(h, s)
  {
    IncomingTake(h, s, b);
  }

  /** A counted reference is held by some block of `s`. */
  lemma {:induction false} IncomingHolder(h: Blocks, s: set<Addr>, a: Addr) returns (b: Addr)
    requires AllWellFormed(h) && s <= h.Keys && a in Incoming(h, s)
    ensures b in s && a in Out(h[b])
    decreases s
  {
    b :| b in s;
    IncomingTake(h, s, b);
    if a !in Out(h[b]) {
      b := IncomingHolder(h, s - {b}, a);
    }
  }

  // ---------------------------------------------------------------------
  // Releasing references
  // ---------------------------------------------------------------------

  /** `g` contains every mortal block all of whose references are among the
      released ones `d` and those held inside `g`. */
  ghost predicate Closed(h: Blocks, d: multiset<Addr>, g: set<Addr>)
    requires AllWellFormed(h)
  {
    g <= h.Keys &&
    forall x :: x in h && Mortal(h[x]) && h[x].rc <= d[x] + Incoming(h, g)[x] ==> x in g
  }

  /** The least closed set: the blocks that die when `d` is released. */
  ghost function Dead(h: Blocks, d: multiset<Addr>): set<Addr>
    requires AllWellFormed(h)
  {
    set x | x in h && forall g :: Closed(h, d, g) ==> x in g
  }

  ghost function Minus(m: nat, n: nat): nat {
    if n <= m then m - n else 0
  }

  /** The heap after the references `d` have been released: the dead blocks
      are gone, the mortal survivors have lost exactly the released
      references, and nothing else has changed. */
  ghost function AfterDrops(h: Blocks, d: multiset<Addr>): (h': Blocks)
    requires AllWellFormed(h)
    ensures AllWellFormed(h')
  {
    Released(h, Dead(h, d), d + Incoming(h, Dead(h, d)))
  }

  ghost function Released(h: Blocks, dead: set<Addr>, lost: multiset<Addr>): (h': Blocks)
    requires AllWellFormed(h)
    ensures AllWellFormed(h')
  {
    map x | x in h.Keys - dead :: Lose(h[x], lost[x])
  }

  ghost function Lose(b: Block, n: nat): (r: Block)
    ensures r.tid == b.tid && r.data == b.data && Mortal(r) == Mortal(b)
  {
    if Mortal(b) then b.(rc := Minus(b.rc, n)) else b
  }

  lemma DeadWithin(h: Blocks, d: multiset<Addr>, g: set<Addr>)
    requires AllWellFormed(h) && Closed(h, d, g)
    ensures Dead(h, d) <= g
  {
  }

  /** The dead set is itself closed. */
  lemma DeadClosed(h: Blocks, d: multiset<Addr>)
    requires AllWellFormed(h)
    ensures Closed(h, d, Dead(h, d))
  {
    var dead := Dead(h, d);
    forall x | x in h && Mortal(h[x]) && h[x].rc <= d[x] + Incoming(h, dead)[x]
      ensures x in dead
    {
      forall g | Closed(h, d, g) ensures x in g {
        DeadWithin(h, d, g);
        IncomingMonotone(h, dead, g);
      }
    }
  }

  /** Every dead block was mortal and all of its references were released or
      held by dead blocks. */
  lemma DeadJustified(h: Blocks, d: multiset<Addr>, x: Addr)
    requires AllWellFormed(h) && x in Dead(h, d)
    ensures Mortal(h[x]) && h[x].rc <= d[x] + Incoming(h, Dead(h, d))[x]
  {
    var dead := Dead(h, d);
    DeadClosed(h, d);
    var next := set y | y in h && Mortal(h[y]) && h[y].rc <= d[y] + Incoming(h, dead)[y];
    assert next <= dead;
    IncomingMonotone(h, next, dead);
    assert Closed(h, d, next);
    DeadWithin(h, d, next);
  }

  /** Safety: a block that dies is referenced by nothing that stays. */
  lemma DeadUnreferenced(h: Blocks, d: multiset<Addr>, owned: multiset<Addr>, x: Addr)
    requires Inv(h, owned + d) && x in Dead(h, d)
    ensures owned[x] == 0 && Incoming(h, h.Keys - Dead(h, d))[x] == 0
    ensures h[x].rc == d[x] + Incoming(h, Dead(h, d))[x]
  {
    DeadJustified(h, d, x);
    IncomingMonotone(h, Dead(h, d), h.Keys);
    assert Exact(h, owned + d, x);
  }

  /** A block that only a dying block refers to dies with it. */
  lemma HeldByDyingDies(h: Blocks, d: multiset<Addr>, b: Addr, x: Addr)
    requires AllWellFormed(h) && b in Dead(h, d) && x in h && x in Out(h[b])
    requires Mortal(h[x]) && h[x].rc == 1
    ensures x in Dead(h, d)
  {
    DeadClosed(h, d);
    IncomingMember(h, Dead(h, d), b, x);
  }

  /** Dropping the last reference to a map frees the keys and the values of its
      occupied entries that nothing else refers to. */
  lemma MapContentsFreed(h: Blocks, m: Addr, owned: multiset<Addr>, i: nat, x: Addr)
    requires Inv(h, owned + multiset{m}) && m in h && h[m].tid == Map && h[m].rc == 1
    requires i < |h[m].data.meta| && h[m].data.meta[i] == 1
    requires h[m].data.keys[i] == Ref(x) || h[m].data.values[i] == Ref(x)
    requires x in h && Mortal(h[x]) && h[x].rc == 1
    ensures m !in AfterDrops(h, multiset{m}) && x !in AfterDrops(h, multiset{m})
  {
    OutCounts(h[m], x);
    var d := h[m].data;
    var keyed, valued := Holding(d.meta, d.keys, x), Holding(d.meta, d.values, x);
    assert d.keys[i] == Ref(x) ==> i in keyed;
    assert d.values[i] == Ref(x) ==> i in valued;
    DeadClosed(h, multiset{m});
    HeldByDyingDies(h, multiset{m}, m, x);
  }

  lemma AfterDropsIncoming(h: Blocks, d: multiset<Addr>)
    requires AllWellFormed(h)
    ensures var h' := AfterDrops(h, d);
      h'.Keys == h.Keys - Dead(h, d) &&
      Incoming(h, h.Keys) == Incoming(h, Dead(h, d)) + Incoming(h', h'.Keys) &&
      Incoming(h', h'.Keys) == Incoming(h, h'.Keys)
  {
    var h' := AfterDrops(h, d);
    assert h'.Keys == h.Keys - Dead(h, d);
    IncomingMonotone(h, Dead(h, d), h.Keys);
    IncomingSame(h, h', h'.Keys);
  }

  /** Releasing references keeps the heap invariant. */
  lemma AfterDropsInv(h: Blocks, d: multiset<Addr>, owned: multiset<Addr>)
    requires Inv(h, owned + d)
    ensures Inv(AfterDrops(h, d), owned)
  {
    forall a ensures Exact(AfterDrops(h, d), owned, a) {
      AfterDropsExact(h, d, owned, a);
    }
  }

  lemma AfterDropsExact(h: Blocks, d: multiset<Addr>, owned: multiset<Addr>, a: Addr)
    requires Inv(h, owned + d)
    ensures Exact(AfterDrops(h, d), owned, a)
  {
    AfterDropsIncoming(h, d);
    DeadClosed(h, d);
    assert Exact(h, owned + d, a);
    if a in Dead(h, d) {
      DeadUnreferenced(h, d, owned, a);
    }
  }

  /** A survivor's count falls by exactly the references it lost. */
  lemma SurvivorCount(h: Blocks, d: multiset<Addr>, owned: multiset<Addr>, x: Addr)
    requires Inv(h, owned + d) && x in AfterDrops(h, d) && Mortal(h[x])
    ensures AfterDrops(h, d)[x].rc + d[x] + Incoming(h, Dead(h, d))[x] == h[x].rc
    ensures Mortal(AfterDrops(h, d)[x])
  {
    IncomingMonotone(h, Dead(h, d), h.Keys);
    assert Exact(h, owned + d, x);
  }

  /** Releasing in two steps is releasing at once, so the order in which a
      destructor walks its slots is immaterial. */
  lemma AfterDropsCompose(h: Blocks, d: multiset<Addr>, e: multiset<Addr>, owned: multiset<Addr>)
    requires Inv(h, owned + d + e)
    ensures AfterDrops(AfterDrops(h, d), e) == AfterDrops(h, d + e)
  {
    var both, once := AfterDrops(AfterDrops(h, d), e), AfterDrops(h, d + e);
    DeadCompose(h, d, e, owned);
    assert both.Keys == once.Keys;
    forall x | x in once ensures both[x] == once[x] {
      ComposeAt(h, d, e, owned, x);
    }
  }

  lemma ComposeAt(h: Blocks, d: multiset<Addr>, e: multiset<Addr>, owned: multiset<Addr>, x: Addr)
    requires Inv(h, owned + d + e) && x in AfterDrops(h, d + e)
    requires x in AfterDrops(AfterDrops(h, d), e)
    ensures AfterDrops(AfterDrops(h, d), e)[x] == AfterDrops(h, d + e)[x]
  {
    if Mortal(h[x]) {
      DeadCounts(h, d, e, owned);
      assert owned + d + e == (owned + e) + d == owned + (d + e);
      SurvivorCount(h, d, owned + e, x);
      AfterDropsInv(h, d, owned + e);
      SurvivorCount(AfterDrops(h, d), e, owned, x);
      SurvivorCount(h, d + e, owned, x);
    }
  }

  lemma DeadCounts(h: Blocks, d: multiset<Addr>, e: multiset<Addr>, owned: multiset<Addr>)
    requires Inv(h, owned + d + e)
    ensures var h1 := AfterDrops(h, d);
      Incoming(h, Dead(h, d + e)) == Incoming(h, Dead(h, d)) + Incoming(h1, Dead(h1, e))
  {
    var h1 := AfterDrops(h, d);
    DeadCompose(h, d, e, owned);
    IncomingSplit(h, Dead(h, d), Dead(h1, e));
    IncomingSame(h, h1, Dead(h1, e));
  }

  lemma DeadCompose(h: Blocks, d: multiset<Addr>, e: multiset<Addr>, owned: multiset<Addr>)
    requires Inv(h, owned + d + e)
    ensures Dead(h, d + e) == Dead(h, d) + Dead(AfterDrops(h, d), e)
  {
    DeadComposeForward(h, d, e, owned);
    DeadComposeBack(h, d, e, owned);
  }

  lemma DeadComposeForward(h: Blocks, d: multiset<Addr>, e: multiset<Addr>, owned: multiset<Addr>)
    requires Inv(h, owned + d + e)
    ensures Dead(h, d + e) <= Dead(h, d) + Dead(AfterDrops(h, d), e)
  {
    var h1 := AfterDrops(h, d);
    var dead1, dead2 := Dead(h, d), Dead(h1, e);
    assert owned + d + e == (owned + e) + d;
    DeadClosed(h, d);
    DeadClosed(h1, e);
    IncomingSplit(h, dead1, dead2);
    IncomingSame(h, h1, dead2);
    forall x | x in h && Mortal(h[x]) && h[x].rc <= (d + e)[x] + Incoming(h, dead1 + dead2)[x]
      ensures x in dead1 + dead2
    {
      if x in h1 {
        SurvivorCount(h, d, owned + e, x);
      }
    }
    assert Closed(h, d + e, dead1 + dead2);
  }

  lemma DeadComposeBack(h: Blocks, d: multiset<Addr>, e: multiset<Addr>, owned: multiset<Addr>)
    requires Inv(h, owned + d + e)
    ensures Dead(h, d) + Dead(AfterDrops(h, d), e) <= Dead(h, d + e)
  {
    var h1 := AfterDrops(h, d);
    var dead1, dead := Dead(h, d), Dead(h, d + e);
    assert owned + d + e == (owned + e) + d;
    DeadClosed(h, d + e);
    assert Closed(h, d, dead);
    var rest := dead - dead1;
    IncomingMonotone(h, dead1, dead);
    IncomingSame(h, h1, rest);
    forall x | x in h1 && Mortal(h1[x]) && h1[x].rc <= e[x] + Incoming(h1, rest)[x]
      ensures x in rest
    {
      SurvivorCount(h, d, owned + e, x);
    }
    assert Closed(h1, e, rest);
  }

  /** When every count exceeds the released references, nothing dies. */
  lemma NothingDies(h: Blocks, d: multiset<Addr>)
    requires AllWellFormed(h)
    requires forall x :: x in h && Mortal(h[x]) ==> d[x] < h[x].rc
    ensures Dead(h, d) == {} && Incoming(h, {}) == multiset{}
  {
    assert Closed(h, d, {});
    DeadWithin(h, d, {});
  }

  lemma AfterNoDrops(h: Blocks, owned: multiset<Addr>)
    requires Inv(h, owned)
    ensures Dead(h, multiset{}) == {} && AfterDrops(h, multiset{}) == h
  {
    forall x | x in h && Mortal(h[x]) ensures multiset{}[x] < h[x].rc {
      assert Exact(h, owned, x);
    }
    NothingDies(h, multiset{});
    assert forall x :: x in h ==> AfterDrops(h, multiset{})[x] == h[x];
  }

  lemma NothingDiesOfOne(h: Blocks, a: Addr, owned: multiset<Addr>)
    requires a in h && Inv(h, owned + multiset{a}) && (Mortal(h[a]) ==> h[a].rc > 1)
    ensures Dead(h, multiset{a}) == {} && Incoming(h, {}) == multiset{}
  {
    forall x | x in h && Mortal(h[x]) ensures multiset{a}[x] < h[x].rc {
      assert Exact(h, owned + multiset{a}, x);
    }
    NothingDies(h, multiset{a});
  }

  /** The three cases of releasing one reference. */
  lemma DropImmortal(h: Blocks, a: Addr, owned: multiset<Addr>)
    requires a in h && Inv(h, owned + multiset{a}) && !Mortal(h[a])
    ensures AfterDrops(h, multiset{a}) == h
  {
    NothingDiesOfOne(h, a, owned);
    assert forall x :: x in h ==> AfterDrops(h, multiset{a})[x] == h[x];
  }

  lemma DropShared(h: Blocks, a: Addr, owned: multiset<Addr>)
    requires a in h && Inv(h, owned + multiset{a}) && Mortal(h[a]) && h[a].rc > 1
    ensures AfterDrops(h, multiset{a}) == h[a := h[a].(rc := h[a].rc - 1)]
  {
    NothingDiesOfOne(h, a, owned);
    LoseOne(h, a);
  }

  /** The three cases with their numbers: the four never-drop typeids and
      counts above 100000 are left alone, other counts fall by one, and the
      last reference frees. */
  lemma DropOne(h: Blocks, a: Addr, owned: multiset<Addr>)
    requires a in h && Inv(h, owned + multiset{a})
    ensures h[a].rc > 100000 || h[a].tid in {DictStatic, OptionNone, ConstStatic, ConstHeapStatic} ==>
      AfterDrops(h, multiset{a}) == h
    ensures h[a].rc <= 100000 && h[a].tid !in {DictStatic, OptionNone, ConstStatic, ConstHeapStatic} ==>
      if h[a].rc > 1 then AfterDrops(h, multiset{a}) == h[a := h[a].(rc := h[a].rc - 1)]
      else h[a].rc == 1 && a !in AfterDrops(h, multiset{a})
  {
    assert Exact(h, owned + multiset{a}, a);
    if !Mortal(h[a]) {
      DropImmortal(h, a, owned);
    } else if h[a].rc > 1 {
      DropShared(h, a, owned);
    } else {
      DeadClosed(h, multiset{a});
    }
  }

  lemma LoseOne(h: Blocks, a: Addr)
    requires AllWellFormed(h) && a in h && Mortal(h[a]) && h[a].rc > 1
    ensures Released(h, {}, multiset{a} + multiset{}) == h[a := h[a].(rc := h[a].rc - 1)]
  {
    var h' := Released(h, {}, multiset{a} + multiset{});
    assert h'.Keys == h.Keys;
    forall x | x in h && x != a ensures h'[x] == h[x] {
      assert Lose(h[x], 0) == h[x];
    }
  }

  /** Destroying a block is removing it and releasing its slots. */
  lemma DropLast(h: Blocks, a: Addr, owned: multiset<Addr>)
    requires a in h && Inv(h, owned + multiset{a}) && Mortal(h[a]) && h[a].rc == 1
    ensures owned[a] == 0 && Inv(h - {a}, owned + Out(h[a]))
    ensures AfterDrops(h, multiset{a}) == AfterDrops(h - {a}, Out(h[a]))
  {
    RemoveLastInv(h, a, owned);
    var whole, rest := AfterDrops(h, multiset{a}), AfterDrops(h - {a}, Out(h[a]));
    RemoveLastDead(h, a, owned);
    assert whole.Keys == rest.Keys;
    forall x | x in rest ensures whole[x] == rest[x] {
      DropLastAt(h, a, owned, x);
    }
  }

  lemma DropLastAt(h: Blocks, a: Addr, owned: multiset<Addr>, x: Addr)
    requires a in h && Inv(h, owned + multiset{a}) && Mortal(h[a]) && h[a].rc == 1
    requires AllWellFormed(h - {a}) && x in AfterDrops(h - {a}, Out(h[a])) && x in AfterDrops(h, multiset{a})
    ensures AfterDrops(h, multiset{a})[x] == AfterDrops(h - {a}, Out(h[a]))[x]
  {
    var dead := Dead(h - {a}, Out(h[a]));
    RemoveLastDead(h, a, owned);
    WithoutLast(h, a, dead);
    assert multiset{a}[x] == 0;
    assert (multiset{a} + Incoming(h, dead + {a}))[x] == (Out(h[a]) + Incoming(h - {a}, dead))[x];
  }

  lemma RemoveLastInv(h: Blocks, a: Addr, owned: multiset<Addr>)
    requires a in h && Inv(h, owned + multiset{a}) && Mortal(h[a]) && h[a].rc == 1
    ensures owned[a] == 0 && Incoming(h, h.Keys)[a] == 0
    ensures Inv(h - {a}, owned + Out(h[a]))
  {
    var rest := h - {a};
    WithoutLast(h, a, rest.Keys);
    assert rest.Keys + {a} == h.Keys;
    assert Exact(h, owned + multiset{a}, a);
    forall x ensures Exact(rest, owned + Out(h[a]), x) {
      RestExact(h, a, owned, x);
    }
  }

  lemma RestExact(h: Blocks, a: Addr, owned: multiset<Addr>, x: Addr)
    requires a in h && Inv(h, owned + multiset{a}) && Mortal(h[a]) && h[a].rc == 1
    ensures Exact(h - {a}, owned + Out(h[a]), x)
  {
    var rest := h - {a};
    assert rest.Keys + {a} == h.Keys;
    WithoutLast(h, a, rest.Keys);
    assert Exact(h, owned + multiset{a}, x);
  }

  lemma WithoutLast(h: Blocks, a: Addr, s: set<Addr>)
    requires AllWellFormed(h) && a in h && s <= h.Keys - {a}
    ensures Incoming(h, s + {a}) == Out(h[a]) + Incoming(h - {a}, s)
  {
    IncomingTake(h, s + {a}, a);
    assert s + {a} - {a} == s;
    IncomingSame(h, h - {a}, s);
  }

  lemma RemoveLastDead(h: Blocks, a: Addr, owned: multiset<Addr>)
    requires a in h && Inv(h, owned + multiset{a}) && Mortal(h[a]) && h[a].rc == 1
    ensures Dead(h, multiset{a}) == Dead(h - {a}, Out(h[a])) + {a}
  {
    RemoveLastInv(h, a, owned);
    RemoveLastDeadForward(h, a, owned);
    RemoveLastDeadBack(h, a, owned);
  }

  lemma RemoveLastDeadForward(h: Blocks, a: Addr, owned: multiset<Addr>)
    requires a in h && Inv(h, owned + multiset{a}) && Mortal(h[a]) && h[a].rc == 1
    ensures Dead(h, multiset{a}) <= Dead(h - {a}, Out(h[a])) + {a}
  {
    var rest, e := h - {a}, Out(h[a]);
    var g := Dead(rest, e);
    DeadClosed(rest, e);
    WithoutLast(h, a, g);
    assert Closed(h, multiset{a}, g + {a});
  }

  lemma RemoveLastDeadBack(h: Blocks, a: Addr, owned: multiset<Addr>)
    requires a in h && Inv(h, owned + multiset{a}) && Mortal(h[a]) && h[a].rc == 1
    ensures a in Dead(h, multiset{a})
    ensures Dead(h - {a}, Out(h[a])) <= Dead(h, multiset{a}) - {a}
  {
    var rest, d, e := h - {a}, multiset{a}, Out(h[a]);
    var g := Dead(h, d) - {a};
    DeadClosed(h, d);
    assert a in Dead(h, d);
    assert Dead(h, d) == g + {a};
    WithoutLast(h, a, g);
    assert Closed(rest, e, g);
  }
}
