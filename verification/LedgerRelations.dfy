/** The identity ledger's events and the validator of their relations. */
module LedgerRelations {
  import opened Options

  datatype Event = Event(
    eventId: int, kind: string, edgeId: int, loadId: int, parentFrame: string, childFrame: string,
    domain: string, defId: int, canonicalKey: string, producer: string,
    sourceSlot: string, destSlot: string, index: int, arity: int)

  predicate IsEdge(e: Event) { e.kind == "closure-edge" }
  predicate IsStore(e: Event) { e.kind == "capture-store" }
  predicate IsExtract(e: Event) { e.kind == "capture-extract" }
  predicate IsLoad(e: Event) { e.kind == "dict-receiver-load" || e.kind == "effect-receiver-load" }
  predicate IsCall(e: Event) { e.kind == "closure-call" }

  /** `identity_ledger_event_shape_errors` finds nothing: the identity fields
      suit the domain and the domain suits the kind. */
  predicate ShapeOk(e: Event) {
    DomainShapeOk(e) && KindShapeOk(e)
  }

  predicate DomainShapeOk(e: Event) {
    if e.domain == "exact" then e.defId != -1 && e.canonicalKey != "" && e.producer == ""
    else if e.domain == "name-only" || e.domain == "static" || e.domain == "default-evidence" then
      e.defId == -1 && e.canonicalKey != "" && e.producer == ""
    else if e.domain == "computed" || e.domain == "fresh" then
      e.defId == -1 && e.canonicalKey == "" && e.producer != ""
    else false
  }

  predicate KindShapeOk(e: Event) {
    if IsEdge(e) then e.domain == "fresh" && e.producer == "closure-edge:" + e.childFrame
    else if IsStore(e) || IsExtract(e) then e.domain == "exact" || e.domain == "name-only"
    else if e.kind == "dict-receiver-load" then
      e.domain == "name-only" || e.domain == "static" || e.domain == "computed"
    else if e.kind == "effect-receiver-load" then
      e.domain == "name-only" || e.domain == "default-evidence" || e.domain == "computed"
    else if IsCall(e) then CallShapeOk(e)
    else false
  }

  predicate CallShapeOk(e: Event) {
    var receiver := e.producer == "dict-receiver-load" || e.producer == "effect-receiver-load";
    if e.domain == "exact" || e.domain == "name-only" then e.loadId == 0
    else if e.domain == "computed" then
      (e.loadId > 0 ==> receiver) && (e.loadId <= 0 ==> e.loadId == 0 && !receiver)
    else false
  }

  /** The per-kind checks on ids, indices and slots. */
  predicate FieldsOk(e: Event) {
    if IsEdge(e) then
      e.edgeId > 0 && e.parentFrame != "" && e.childFrame != "" && e.sourceSlot != "" && e.destSlot != ""
    else if IsStore(e) || IsExtract(e) then
      e.edgeId > 0 && e.index > 0 && e.sourceSlot != "" && e.destSlot != ""
    else if IsLoad(e) then
      e.loadId > 0 && e.index > 0 && e.parentFrame != "" && e.sourceSlot != "" && e.destSlot != ""
    else if IsCall(e) then
      e.arity > 0 && e.parentFrame != "" && e.sourceSlot != "" && e.destSlot != ""
    else true
  }

  predicate SameIdentity(e: Event, f: Event) {
    e.domain == f.domain && e.defId == f.defId && e.canonicalKey == f.canonicalKey && e.producer == f.producer
  }

  predicate SameKey(e: Event, f: Event) { e.edgeId == f.edgeId && e.index == f.index }

  /** A store, its extract and their closure edge agree on frames and slots. */
  predicate FramesAgree(store: Event, extract: Event, edge: Event) {
    store.destSlot == edge.sourceSlot &&
    store.parentFrame == edge.parentFrame && store.childFrame == edge.childFrame &&
    extract.parentFrame == edge.parentFrame && extract.childFrame == edge.childFrame
  }

  predicate Consumes(call: Event, load: Event) {
    call.parentFrame == load.parentFrame && call.sourceSlot == load.destSlot &&
    call.domain == "computed" && call.producer == load.kind
  }

  /** The frame-qualified slot whose identity an event fixes. */
  function OwnedSlot(e: Event): (string, string) {
    if IsExtract(e) then (e.childFrame, e.destSlot) else (e.parentFrame, e.sourceSlot)
  }

  predicate FixesSlot(e: Event) { IsStore(e) || IsExtract(e) || IsLoad(e) || IsCall(e) }

  // ---------------------------------------------------------------------
  // The declarative reading
  // ---------------------------------------------------------------------

  predicate HasStore(es: seq<Event>, edgeId: int, index: int) {
    exists j :: 0 <= j < |es| && IsStore(es[j]) && es[j].edgeId == edgeId && es[j].index == index
  }

  /** Numbered from 1, each event well shaped. */
  ghost predicate Wellnumbered(es: seq<Event>) {
    forall i :: 0 <= i < |es| ==> es[i].eventId == i + 1 && ShapeOk(es[i]) && FieldsOk(es[i])
  }

  /** The dictionary an event is entered in, and its key there. */
  datatype Key =
    | EdgeKey(edgeId: int)
    | StoreKey(edgeId: int, index: int)
    | ExtractKey(edgeId: int, index: int)
    | LoadKey(loadId: int)

  function KeyOf(e: Event): Option<Key> {
    if IsEdge(e) then Some(EdgeKey(e.edgeId))
    else if IsStore(e) then Some(StoreKey(e.edgeId, e.index))
    else if IsExtract(e) then Some(ExtractKey(e.edgeId, e.index))
    else if IsLoad(e) then Some(LoadKey(e.loadId))
    else None
  }

  predicate LoadedCall(e: Event) { IsCall(e) && e.loadId > 0 }

  /** No two edges share an id, no two stores or two extracts an edge and
      index, no two loads an id. */
  ghost predicate KeysUnique(es: seq<Event>) {
    forall i, j :: 0 <= i < j < |es| && KeyOf(es[i]).Some? ==> KeyOf(es[i]) != KeyOf(es[j])
  }

  ghost predicate LoadsCalledOnce(es: seq<Event>) {
    forall i, j :: 0 <= i < j < |es| && LoadedCall(es[i]) && LoadedCall(es[j]) ==> es[i].loadId != es[j].loadId
  }

  /** Each store has its extract and edge, each extract its store. */
  ghost predicate StorePaired(es: seq<Event>, i: nat)
    requires i < |es|
  {
    exists j, k :: 0 <= j < |es| && 0 <= k < |es| &&
      IsExtract(es[j]) && SameKey(es[i], es[j]) && SameIdentity(es[i], es[j]) &&
      IsEdge(es[k]) && es[k].edgeId == es[i].edgeId && FramesAgree(es[i], es[j], es[k])
  }

  ghost predicate CapturesPaired(es: seq<Event>) {
    (forall i {:trigger es[i]} :: 0 <= i < |es| && IsStore(es[i]) ==> StorePaired(es, i)) &&
    (forall i {:trigger es[i]} :: 0 <= i < |es| && IsExtract(es[i]) ==> HasStore(es, es[i].edgeId, es[i].index))
  }

  /** The captures of each edge are numbered 1 to n without gaps. */
  ghost predicate Dense(es: seq<Event>, edgeId: int) {
    exists n: nat :: DenseTo(es, edgeId, n)
  }

  ghost predicate DenseTo(es: seq<Event>, edgeId: int, n: nat) {
    forall k :: HasStore(es, edgeId, k) <==> 1 <= k <= n
  }

  ghost predicate EdgesDense(es: seq<Event>) {
    forall i {:trigger es[i]} :: 0 <= i < |es| && IsEdge(es[i]) ==> Dense(es, es[i].edgeId)
  }

  /** Each load is consumed by a call of its frame, each loaded call has a load. */
  ghost predicate LoadConsumed(es: seq<Event>, i: nat)
    requires i < |es|
  {
    exists j :: 0 <= j < |es| && IsCall(es[j]) && es[j].loadId == es[i].loadId && Consumes(es[j], es[i])
  }

  predicate HasLoad(es: seq<Event>, loadId: int) {
    exists j :: 0 <= j < |es| && IsLoad(es[j]) && es[j].loadId == loadId
  }

  ghost predicate LoadsConsumed(es: seq<Event>) {
    (forall i {:trigger es[i]} :: 0 <= i < |es| && IsLoad(es[i]) ==> LoadConsumed(es, i)) &&
    (forall i {:trigger es[i]} :: 0 <= i < |es| && IsCall(es[i]) && es[i].loadId > 0 ==> HasLoad(es, es[i].loadId))
  }

  /** No slot is claimed both exactly and by name only. */
  predicate Aliases(e: Event, f: Event) {
    FixesSlot(e) && FixesSlot(f) && e.domain == "exact" && f.domain == "name-only" && OwnedSlot(e) == OwnedSlot(f)
  }

  ghost predicate NoAlias(es: seq<Event>) {
    forall i, j :: 0 <= i < |es| && 0 <= j < |es| ==> !Aliases(es[i], es[j])
  }

  ghost predicate Accepted(es: seq<Event>) {
    Wellnumbered(es) && KeysUnique(es) && LoadsCalledOnce(es) && CapturesPaired(es) && EdgesDense(es) && LoadsConsumed(es) && NoAlias(es)
  }

  // ---------------------------------------------------------------------
  // The validator
  // ---------------------------------------------------------------------

  /** The dictionaries `edges`, `stores`, `extracts` and `loads`, as one map
      from tagged keys to event positions. */
  ghost predicate Indexed(es: seq<Event>, n: nat, dict: map<Key, nat>)
    requires n <= |es|
  {
    (forall k :: k in dict ==> dict[k] < n && KeyOf(es[dict[k]]) == Some(k)) &&
    (forall i {:trigger es[i]} :: 0 <= i < n && KeyOf(es[i]).Some? ==>
      KeyOf(es[i]).value in dict && dict[KeyOf(es[i]).value] == i)
  }

  ghost predicate CallsListed(es: seq<Event>, n: nat, calls: map<int, seq<nat>>)
    requires n <= |es|
  {
    (forall id :: id in calls ==> calls[id] != [] && id > 0) &&
    (forall id, k :: id in calls && 0 <= k < |calls[id]| ==>
      calls[id][k] < n && LoadedCall(es[calls[id][k]]) && es[calls[id][k]].loadId == id) &&
    (forall id, k, m :: id in calls && 0 <= k < m < |calls[id]| ==> calls[id][k] < calls[id][m]) &&
    (forall i {:trigger es[i]} :: 0 <= i < n && LoadedCall(es[i]) ==> es[i].loadId in calls && i in calls[es[i].loadId])
  }

  ghost predicate SlotsListed(es: seq<Event>, n: nat, domain: string, slots: set<(string, string)>)
    requires n <= |es|
  {
    forall s :: s in slots <==> exists i :: 0 <= i < n && FixesSlot(es[i]) && es[i].domain == domain && OwnedSlot(es[i]) == s
  }

  /** The first loop: number, shape and fields of each event, and the
      dictionaries. */
  method Collect(es: seq<Event>)
    returns (ok: bool, dict: map<Key, nat>, calls: map<int, seq<nat>>,
             exact: set<(string, string)>, nameOnly: set<(string, string)>)
    ensures ok <==> Wellnumbered(es) && KeysUnique(es)
    ensures ok ==> Indexed(es, |es|, dict)
    ensures CallsListed(es, |es|, calls)
    ensures SlotsListed(es, |es|, "exact", exact) && SlotsListed(es, |es|, "name-only", nameOnly)
  {
    ok, dict, calls, exact, nameOnly := true, map[], map[], {}, {};
    for i := 0 to |es|
      invariant ok <==> Wellnumbered(es[..i]) && KeysUnique(es[..i])
      invariant ok ==> Indexed(es, i, dict)
      invariant CallsListed(es, i, calls)
      invariant SlotsListed(es, i, "exact", exact) && SlotsListed(es, i, "name-only", nameOnly)
    {
      var e := es[i];
      ok, dict := Enter(es, i, ok, dict);
      calls := ListCall(es, i, calls);
      exact := ListSlot(es, i, "exact", exact);
      nameOnly := ListSlot(es, i, "name-only", nameOnly);
    }
    assert es[..|es|] == es;
  }

  method Enter(es: seq<Event>, i: nat, ok: bool, dict: map<Key, nat>) returns (ok': bool, dict': map<Key, nat>)
    requires i < |es| && (ok <==> Wellnumbered(es[..i]) && KeysUnique(es[..i])) && (ok ==> Indexed(es, i, dict))
    ensures ok' <==> Wellnumbered(es[..i + 1]) && KeysUnique(es[..i + 1])
    ensures ok' ==> Indexed(es, i + 1, dict')
  {
    var e := es[i];
    ghost var was, now := es[..i], es[..i + 1];
    assert now == was + [e];
    ok', dict' := ok && e.eventId == i + 1 && ShapeOk(e) && FieldsOk(e), dict;
    var key := KeyOf(e);
    if key.Some? {
      if ok' && key.value in dict {
        assert now[dict[key.value]] == es[dict[key.value]] && now[i] == e;
        ok' := false;
      }
      dict' := dict[key.value := i];
    }
  }

  method ListCall(es: seq<Event>, i: nat, calls: map<int, seq<nat>>) returns (calls': map<int, seq<nat>>)
    requires i < |es| && CallsListed(es, i, calls)
    ensures CallsListed(es, i + 1, calls')
  {
    calls' := calls;
    if LoadedCall(es[i]) {
      var id := es[i].loadId;
      var before := if id in calls then calls[id] else [];
      calls' := calls[id := before + [i]];
      OneMoreCall(es, i, calls, before, calls');
    }
  }

  lemma OneMoreCall(es: seq<Event>, i: nat, calls: map<int, seq<nat>>, before: seq<nat>, calls': map<int, seq<nat>>)
    requires i < |es| && CallsListed(es, i, calls) && LoadedCall(es[i])
    requires before == if es[i].loadId in calls then calls[es[i].loadId] else []
    requires calls' == calls[es[i].loadId := before + [i]]
    ensures CallsListed(es, i + 1, calls')
  {
    var id := es[i].loadId;
    assert i in calls'[id];
    assert forall k :: 0 <= k < |before| ==> calls'[id][k] == before[k];
    forall j | 0 <= j < i && LoadedCall(es[j]) ensures es[j].loadId in calls' && j in calls'[es[j].loadId] {
      assert j in calls[es[j].loadId];
    }
  }

  method ListSlot(es: seq<Event>, i: nat, domain: string, slots: set<(string, string)>)
    returns (slots': set<(string, string)>)
    requires i < |es| && SlotsListed(es, i, domain, slots)
    ensures SlotsListed(es, i + 1, domain, slots')
  {
    slots' := slots;
    if FixesSlot(es[i]) && es[i].domain == domain {
      slots' := slots + {OwnedSlot(es[i])};
    }
  }

  /** The store loop and the extract loop. */
  method CheckCaptures(es: seq<Event>, dict: map<Key, nat>) returns (ok: bool)
    requires Indexed(es, |es|, dict)
    ensures ok <==> CapturesPaired(es)
  {
    ok := true;
    for i := 0 to |es|
      invariant ok <==> forall j {:trigger es[j]} :: 0 <= j < i ==>
        (IsStore(es[j]) ==> StorePaired(es, j)) && (IsExtract(es[j]) ==> HasStore(es, es[j].edgeId, es[j].index))
    {
      if IsStore(es[i]) {
        var paired := CheckStore(es, i, dict);
        ok := ok && paired;
      } else if IsExtract(es[i]) {
        StoreListed(es, dict, es[i].edgeId, es[i].index);
        ok := ok && StoreKey(es[i].edgeId, es[i].index) in dict;
      }
    }
  }

  lemma StoreListed(es: seq<Event>, dict: map<Key, nat>, edgeId: int, index: int)
    requires Indexed(es, |es|, dict)
    ensures HasStore(es, edgeId, index) <==> StoreKey(edgeId, index) in dict
  {
    if HasStore(es, edgeId, index) {
      var j :| 0 <= j < |es| && IsStore(es[j]) && es[j].edgeId == edgeId && es[j].index == index;
      assert KeyOf(es[j]) == Some(StoreKey(edgeId, index));
    }
  }

  method CheckStore(es: seq<Event>, i: nat, dict: map<Key, nat>) returns (ok: bool)
    requires Indexed(es, |es|, dict) && i < |es| && IsStore(es[i])
    ensures ok <==> StorePaired(es, i)
  {
    var store := es[i];
    var extractKey, edgeKey := ExtractKey(store.edgeId, store.index), EdgeKey(store.edgeId);
    forall j, k | 0 <= j < |es| && 0 <= k < |es| && IsExtract(es[j]) && SameKey(store, es[j]) &&
      IsEdge(es[k]) && es[k].edgeId == store.edgeId
      ensures extractKey in dict && dict[extractKey] == j && edgeKey in dict && dict[edgeKey] == k
    {
      assert KeyOf(es[j]) == Some(extractKey) && KeyOf(es[k]) == Some(edgeKey);
    }
    if extractKey !in dict || edgeKey !in dict {
      ok := false;
    } else {
      var extract, edge := es[dict[extractKey]], es[dict[edgeKey]];
      ok := SameIdentity(store, extract) && FramesAgree(store, extract, edge);
    }
  }

  function Range(n: nat): set<int> {
    if n == 0 then {} else Range(n - 1) + {n}
  }

  lemma {:induction false} RangeFacts(n: nat)
    ensures |Range(n)| == n && forall k :: k in Range(n) <==> 1 <= k <= n
  {
    if n > 0 {
      RangeFacts(n - 1);
    }
  }

  function StoreIndices(dict: map<Key, nat>, edgeId: int): set<int> {
    set k | k in dict && k.StoreKey? && k.edgeId == edgeId :: k.index
  }

  function ExtractIndices(dict: map<Key, nat>, edgeId: int): set<int> {
    set k | k in dict && k.ExtractKey? && k.edgeId == edgeId :: k.index
  }

  lemma IndicesOf(es: seq<Event>, dict: map<Key, nat>, edgeId: int)
    requires Indexed(es, |es|, dict)
    ensures forall k :: k in StoreIndices(dict, edgeId) <==> HasStore(es, edgeId, k)
    ensures CapturesPaired(es) ==> ExtractIndices(dict, edgeId) == StoreIndices(dict, edgeId)
  {
    forall k ensures k in StoreIndices(dict, edgeId) <==> HasStore(es, edgeId, k) {
      StoreListed(es, dict, edgeId, k);
      assert StoreKey(edgeId, k) in dict ==> k in StoreIndices(dict, edgeId);
    }
    if CapturesPaired(es) {
      forall k ensures k in ExtractIndices(dict, edgeId) <==> k in StoreIndices(dict, edgeId) {
        StoreListed(es, dict, edgeId, k);
        if ExtractKey(edgeId, k) in dict {
          assert IsExtract(es[dict[ExtractKey(edgeId, k)]]);
        }
        if StoreKey(edgeId, k) in dict {
          var i := dict[StoreKey(edgeId, k)];
          assert IsStore(es[i]) && StorePaired(es, i);
          var j, m :| 0 <= j < |es| && 0 <= m < |es| && IsExtract(es[j]) && SameKey(es[i], es[j]) && IsEdge(es[m]);
          assert KeyOf(es[j]) == Some(ExtractKey(edgeId, k));
          assert ExtractKey(edgeId, k) in dict;
        }
      }
    }
  }

  lemma DenseIsRange(es: seq<Event>, dict: map<Key, nat>, edgeId: int)
    requires Indexed(es, |es|, dict)
    ensures Dense(es, edgeId) <==> StoreIndices(dict, edgeId) == Range(|StoreIndices(dict, edgeId)|)
  {
    IndicesOf(es, dict, edgeId);
    var s := StoreIndices(dict, edgeId);
    if Dense(es, edgeId) {
      var n: nat :| DenseTo(es, edgeId, n);
      RangeFacts(n);
      forall k ensures k in s <==> k in Range(n) {
        assert k in s <==> HasStore(es, edgeId, k);
      }
      assert s == Range(n);
    }
    RangeFacts(|s|);
    if s == Range(|s|) {
      assert DenseTo(es, edgeId, |s|);
    }
  }

  /** The edge loop: both index lists must be 1 to n. */
  method CheckEdges(es: seq<Event>, dict: map<Key, nat>) returns (ok: bool)
    requires Indexed(es, |es|, dict) && CapturesPaired(es)
    ensures ok <==> EdgesDense(es)
  {
    ok := true;
    for i := 0 to |es|
      invariant ok <==> forall j {:trigger es[j]} :: 0 <= j < i && IsEdge(es[j]) ==> Dense(es, es[j].edgeId)
    {
      if IsEdge(es[i]) {
        var dense := CheckEdge(es, dict, es[i].edgeId);
        ok := ok && dense;
      }
    }
  }

  method CheckEdge(es: seq<Event>, dict: map<Key, nat>, edgeId: int) returns (ok: bool)
    requires Indexed(es, |es|, dict) && CapturesPaired(es)
    ensures ok <==> Dense(es, edgeId)
  {
    IndicesOf(es, dict, edgeId);
    DenseIsRange(es, dict, edgeId);
    var stored, extracted := StoreIndices(dict, edgeId), ExtractIndices(dict, edgeId);
    var expected := Range(|stored|);
    ok := stored == expected && extracted == expected;
  }

  /** The load loop and the check for calls of missing loads. */
  method CheckLoads(es: seq<Event>, dict: map<Key, nat>, calls: map<int, seq<nat>>) returns (ok: bool)
    requires Wellnumbered(es) && Indexed(es, |es|, dict) && CallsListed(es, |es|, calls)
    ensures ok <==> LoadsConsumed(es) && LoadsCalledOnce(es)
  {
    ok := true;
    for i := 0 to |es|
      invariant ok <==> forall j: nat {:trigger es[j]} :: j < i ==>
        (IsLoad(es[j]) ==> LoadOk(es, j, calls)) && (LoadedCall(es[j]) ==> HasLoad(es, es[j].loadId))
    {
      if IsLoad(es[i]) {
        var consumers := if es[i].loadId in calls then calls[es[i].loadId] else [];
        if |consumers| != 1 || !Consumes(es[consumers[0]], es[i]) {
          ok := false;
        }
      } else if LoadedCall(es[i]) {
        LoadListed(es, dict, es[i].loadId);
        ok := ok && LoadKey(es[i].loadId) in dict;
      }
    }
    LoadsReading(es, calls);
  }

  predicate LoadOk(es: seq<Event>, i: nat, calls: map<int, seq<nat>>)
    requires i < |es| && CallsListed(es, |es|, calls)
  {
    es[i].loadId in calls && |calls[es[i].loadId]| == 1 && Consumes(es[calls[es[i].loadId][0]], es[i])
  }

  lemma LoadsReading(es: seq<Event>, calls: map<int, seq<nat>>)
    requires Wellnumbered(es) && CallsListed(es, |es|, calls)
    ensures (forall j: nat {:trigger es[j]} :: j < |es| ==>
        (IsLoad(es[j]) ==> LoadOk(es, j, calls)) && (LoadedCall(es[j]) ==> HasLoad(es, es[j].loadId)))
      <==> LoadsConsumed(es) && LoadsCalledOnce(es)
  {
    if forall j: nat {:trigger es[j]} :: j < |es| ==>
      (IsLoad(es[j]) ==> LoadOk(es, j, calls)) && (LoadedCall(es[j]) ==> HasLoad(es, es[j].loadId))
    {
      forall i, j | 0 <= i < j < |es| && LoadedCall(es[i]) && LoadedCall(es[j]) ensures es[i].loadId != es[j].loadId {
        assert i in calls[es[i].loadId] && j in calls[es[j].loadId];
        var l :| 0 <= l < |es| && IsLoad(es[l]) && es[l].loadId == es[i].loadId;
        assert LoadOk(es, l, calls);
      }
    }
    if LoadsConsumed(es) && LoadsCalledOnce(es) {
      forall i: nat | i < |es| && IsLoad(es[i]) ensures LoadOk(es, i, calls) {
        OneConsumer(es, calls, i);
      }
    }
  }

  lemma OneConsumer(es: seq<Event>, calls: map<int, seq<nat>>, i: nat)
    requires CallsListed(es, |es|, calls) && LoadsCalledOnce(es) && i < |es| && IsLoad(es[i])
    requires LoadConsumed(es, i) && es[i].loadId > 0
    ensures LoadOk(es, i, calls)
  {
    var id := es[i].loadId;
    var j :| 0 <= j < |es| && IsCall(es[j]) && es[j].loadId == id && Consumes(es[j], es[i]);
    assert LoadedCall(es[j]) && j in calls[id];
    var at := calls[id];
    var k :| 0 <= k < |at| && at[k] == j;
    forall m | 0 <= m < |at| ensures at[m] == j {
      assert LoadedCall(es[at[m]]);
    }
    assert at[|at| - 1] == at[0];
  }

  lemma LoadListed(es: seq<Event>, dict: map<Key, nat>, loadId: int)
    requires Indexed(es, |es|, dict)
    ensures HasLoad(es, loadId) <==> LoadKey(loadId) in dict
  {
    if HasLoad(es, loadId) {
      var j :| 0 <= j < |es| && IsLoad(es[j]) && es[j].loadId == loadId;
      assert KeyOf(es[j]) == Some(LoadKey(loadId));
    }
  }

  /** `validate_identity_ledger_relations`: no errors exactly on the lists the
      declarative reading accepts. */
  method ValidateRelations(es: seq<Event>) returns (ok: bool)
    ensures ok <==> Accepted(es)
  {
    var dict, calls, exact, nameOnly;
    ok, dict, calls, exact, nameOnly := Collect(es);
    if ok {
      ok := CheckCaptures(es, dict);
    }
    if ok {
      var edges := CheckEdges(es, dict);
      var loads := CheckLoads(es, dict, calls);
      AliasReading(es, exact, nameOnly);
      ok := edges && loads && exact !! nameOnly;
    }
  }

  lemma AliasReading(es: seq<Event>, exact: set<(string, string)>, nameOnly: set<(string, string)>)
    requires SlotsListed(es, |es|, "exact", exact) && SlotsListed(es, |es|, "name-only", nameOnly)
    ensures exact !! nameOnly <==> NoAlias(es)
  {
    forall i, j | 0 <= i < |es| && 0 <= j < |es| && Aliases(es[i], es[j])
      ensures OwnedSlot(es[i]) in exact && OwnedSlot(es[i]) in nameOnly
    {
    }
    forall s | s in exact && s in nameOnly ensures !NoAlias(es) {
      var i :| 0 <= i < |es| && FixesSlot(es[i]) && es[i].domain == "exact" && OwnedSlot(es[i]) == s;
      var j :| 0 <= j < |es| && FixesSlot(es[j]) && es[j].domain == "name-only" && OwnedSlot(es[j]) == s;
      assert Aliases(es[i], es[j]);
    }
  }

  // ---------------------------------------------------------------------
  // Deleting an event
  // ---------------------------------------------------------------------

  function Renumbered(es: seq<Event>): (r: seq<Event>)
    ensures |r| == |es|
  {
    seq(|es|, i requires 0 <= i < |es| => es[i].(eventId := i + 1))
  }

  /** The ledger without event `d`, numbered afresh. */
  function Deleted(es: seq<Event>, d: nat): (r: seq<Event>)
    requires d < |es|
    ensures |r| == |es| - 1
  {
    Renumbered(es[..d] + es[d + 1..])
  }

  function Up(d: nat, k: nat): nat { if k < d then k else k + 1 }

  function Down(d: nat, k: nat): nat
    requires k != d
  {
    if k < d then k else k - 1
  }

  predicate CaptureFree(es: seq<Event>, edgeId: int) {
    forall j :: 0 <= j < |es| && (IsStore(es[j]) || IsExtract(es[j])) ==> es[j].edgeId != edgeId
  }

  /** The events a valid ledger can lose. */
  predicate Removable(es: seq<Event>, d: nat)
    requires d < |es|
  {
    (IsEdge(es[d]) && CaptureFree(es, es[d].edgeId)) || (IsCall(es[d]) && es[d].loadId == 0)
  }

  /** Equal up to the event number, which no relation looks at. */
  predicate Alike(e: Event, f: Event) { e == f.(eventId := e.eventId) }

  lemma UpAt(es: seq<Event>, d: nat, k: nat)
    requires d < |es| && k < |es| - 1
    ensures Alike(Deleted(es, d)[k], es[Up(d, k)]) && Up(d, k) != d
  {
    assert (es[..d] + es[d + 1..])[k] == es[Up(d, k)];
  }

  lemma DownAt(es: seq<Event>, d: nat, k: nat)
    requires d < |es| && k < |es| && k != d
    ensures Alike(es[k], Deleted(es, d)[Down(d, k)])
  {
    UpAt(es, d, Down(d, k));
  }

  lemma DeletedAt(es: seq<Event>, d: nat)
    requires d < |es|
    ensures forall k: nat {:trigger Deleted(es, d)[k]} :: k < |es| - 1 ==> Alike(Deleted(es, d)[k], es[Up(d, k)])
    ensures forall k: nat {:trigger es[k]} :: k < |es| && k != d ==> Alike(es[k], Deleted(es, d)[Down(d, k)])
  {
    forall k: nat | k < |es| - 1 ensures Alike(Deleted(es, d)[k], es[Up(d, k)]) {
      UpAt(es, d, k);
    }
    forall k: nat | k < |es| && k != d ensures Alike(es[k], Deleted(es, d)[Down(d, k)]) {
      DownAt(es, d, k);
    }
  }

  lemma DeletedWell(es: seq<Event>, d: nat)
    requires d < |es| && Wellnumbered(es)
    ensures Wellnumbered(Deleted(es, d))
  {
    DeletedAt(es, d);
    forall k: nat | k < |es| - 1
      ensures Deleted(es, d)[k].eventId == k + 1 && ShapeOk(Deleted(es, d)[k]) && FieldsOk(Deleted(es, d)[k])
    {
      var e := es[Up(d, k)];
      assert Alike(Deleted(es, d)[k], e) && ShapeOk(e) && FieldsOk(e);
    }
  }

  /** Two events at different places have different dictionary keys. */
  lemma KeysDiffer(es: seq<Event>, i: nat, j: nat)
    requires KeysUnique(es) && i < |es| && j < |es| && i != j && KeyOf(es[i]).Some?
    ensures KeyOf(es[i]) != KeyOf(es[j])
  {
    if j < i && KeyOf(es[j]).Some? {
      assert KeyOf(es[j]) != KeyOf(es[i]);
    }
  }

  lemma DeletedUnique(es: seq<Event>, d: nat)
    requires d < |es| && KeysUnique(es)
    ensures KeysUnique(Deleted(es, d))
  {
    var ds := Deleted(es, d);
    forall i: nat, j: nat | i < j < |ds| && KeyOf(ds[i]).Some? ensures KeyOf(ds[i]) != KeyOf(ds[j]) {
      DeletedAt(es, d);
      assert Alike(ds[i], es[Up(d, i)]) && Alike(ds[j], es[Up(d, j)]);
      KeysDiffer(es, Up(d, i), Up(d, j));
    }
  }

  lemma DeletedCalledOnce(es: seq<Event>, d: nat)
    requires d < |es| && LoadsCalledOnce(es)
    ensures LoadsCalledOnce(Deleted(es, d))
  {
    var ds := Deleted(es, d);
    forall i: nat, j: nat | i < j < |ds| && LoadedCall(ds[i]) && LoadedCall(ds[j]) ensures ds[i].loadId != ds[j].loadId {
      DeletedAt(es, d);
      assert Alike(ds[i], es[Up(d, i)]) && Alike(ds[j], es[Up(d, j)]);
      assert Up(d, i) < Up(d, j);
    }
  }

  lemma DeletedNoAlias(es: seq<Event>, d: nat)
    requires d < |es| && NoAlias(es)
    ensures NoAlias(Deleted(es, d))
  {
    var ds := Deleted(es, d);
    forall i: nat, j: nat | i < |ds| && j < |ds| ensures !Aliases(ds[i], ds[j]) {
      DeletedAt(es, d);
      assert Alike(ds[i], es[Up(d, i)]) && Alike(ds[j], es[Up(d, j)]);
      assert !Aliases(es[Up(d, i)], es[Up(d, j)]);
    }
  }

  lemma DeletedStores(es: seq<Event>, d: nat, edgeId: int, index: int)
    requires d < |es| && !IsStore(es[d])
    ensures HasStore(Deleted(es, d), edgeId, index) <==> HasStore(es, edgeId, index)
  {
    var ds := Deleted(es, d);
    if HasStore(es, edgeId, index) {
      var j :| 0 <= j < |es| && IsStore(es[j]) && es[j].edgeId == edgeId && es[j].index == index;
      DownAt(es, d, j);
    }
    if HasStore(ds, edgeId, index) {
      var j :| 0 <= j < |ds| && IsStore(ds[j]) && ds[j].edgeId == edgeId && ds[j].index == index;
      UpAt(es, d, j);
    }
  }

  lemma DeletedPaired(es: seq<Event>, d: nat, k: nat)
    requires d < |es| && Removable(es, d) && k < |es| - 1 && IsStore(Deleted(es, d)[k])
    requires StorePaired(es, Up(d, k))
    ensures StorePaired(Deleted(es, d), k)
  {
    var ds, i := Deleted(es, d), Up(d, k);
    UpAt(es, d, k);
    var j, m :| 0 <= j < |es| && 0 <= m < |es| &&
      IsExtract(es[j]) && SameKey(es[i], es[j]) && SameIdentity(es[i], es[j]) &&
      IsEdge(es[m]) && es[m].edgeId == es[i].edgeId && FramesAgree(es[i], es[j], es[m]);
    assert j != d && m != d;
    DownAt(es, d, j);
    DownAt(es, d, m);
    StillPaired(ds, k, Down(d, j), Down(d, m), es[i], es[j], es[m]);
  }

  lemma StillPaired(ds: seq<Event>, k: nat, j: nat, m: nat, store: Event, extract: Event, edge: Event)
    requires k < |ds| && j < |ds| && m < |ds|
    requires Alike(ds[k], store) && Alike(extract, ds[j]) && Alike(edge, ds[m])
    requires IsExtract(extract) && SameKey(store, extract) && SameIdentity(store, extract)
    requires IsEdge(edge) && edge.edgeId == store.edgeId && FramesAgree(store, extract, edge)
    ensures StorePaired(ds, k)
  {
    assert IsExtract(ds[j]) && SameKey(ds[k], ds[j]) && SameIdentity(ds[k], ds[j]) &&
      IsEdge(ds[m]) && ds[m].edgeId == ds[k].edgeId && FramesAgree(ds[k], ds[j], ds[m]);
  }

  lemma DeletedConsumed(es: seq<Event>, d: nat, k: nat)
    requires d < |es| && Removable(es, d) && k < |es| - 1 && IsLoad(Deleted(es, d)[k])
    requires LoadConsumed(es, Up(d, k)) && FieldsOk(es[Up(d, k)])
    ensures LoadConsumed(Deleted(es, d), k)
  {
    var ds, i := Deleted(es, d), Up(d, k);
    UpAt(es, d, k);
    var j :| 0 <= j < |es| && IsCall(es[j]) && es[j].loadId == es[i].loadId && Consumes(es[j], es[i]);
    assert j != d;
    DownAt(es, d, j);
    assert Consumes(ds[Down(d, j)], ds[k]);
  }

  lemma DeletedHasLoad(es: seq<Event>, d: nat, loadId: int)
    requires d < |es| && !IsLoad(es[d]) && HasLoad(es, loadId)
    ensures HasLoad(Deleted(es, d), loadId)
  {
    var j :| 0 <= j < |es| && IsLoad(es[j]) && es[j].loadId == loadId;
    DownAt(es, d, j);
    assert IsLoad(Deleted(es, d)[Down(d, j)]);
  }

  lemma DeletedDense(es: seq<Event>, d: nat, k: nat)
    requires Accepted(es) && d < |es| && Removable(es, d) && k < |es| - 1 && IsEdge(Deleted(es, d)[k])
    ensures Dense(Deleted(es, d), Deleted(es, d)[k].edgeId)
  {
    DeletedAt(es, d);
    assert Alike(Deleted(es, d)[k], es[Up(d, k)]);
    var edgeId := es[Up(d, k)].edgeId;
    assert Dense(es, edgeId);
    var n: nat :| DenseTo(es, edgeId, n);
    forall x ensures HasStore(Deleted(es, d), edgeId, x) <==> 1 <= x <= n {
      DeletedStores(es, d, edgeId, x);
    }
    assert DenseTo(Deleted(es, d), edgeId, n);
  }

  lemma DeletionKeepsCaptures(es: seq<Event>, d: nat)
    requires CapturesPaired(es) && d < |es| && Removable(es, d)
    ensures CapturesPaired(Deleted(es, d))
  {
    var ds := Deleted(es, d);
    forall k: nat | k < |ds| && IsStore(ds[k]) ensures StorePaired(ds, k) {
      UpAt(es, d, k);
      assert IsStore(es[Up(d, k)]);
      DeletedPaired(es, d, k);
    }
    forall k: nat | k < |ds| && IsExtract(ds[k]) ensures HasStore(ds, ds[k].edgeId, ds[k].index) {
      UpAt(es, d, k);
      assert IsExtract(es[Up(d, k)]);
      DeletedStores(es, d, ds[k].edgeId, ds[k].index);
    }
  }

  lemma DeletionKeepsLoads(es: seq<Event>, d: nat)
    requires LoadsConsumed(es) && Wellnumbered(es) && d < |es| && Removable(es, d)
    ensures LoadsConsumed(Deleted(es, d))
  {
    var ds := Deleted(es, d);
    forall k: nat | k < |ds| && IsLoad(ds[k]) ensures LoadConsumed(ds, k) {
      UpAt(es, d, k);
      assert IsLoad(es[Up(d, k)]) && FieldsOk(es[Up(d, k)]);
      DeletedConsumed(es, d, k);
    }
    forall k: nat | k < |ds| && LoadedCall(ds[k]) ensures HasLoad(ds, ds[k].loadId) {
      UpAt(es, d, k);
      assert LoadedCall(es[Up(d, k)]);
      DeletedHasLoad(es, d, ds[k].loadId);
    }
  }

  lemma DeletionKeeps(es: seq<Event>, d: nat)
    requires Accepted(es) && d < |es| && Removable(es, d)
    ensures Accepted(Deleted(es, d))
  {
    DeletedWell(es, d);
    DeletedUnique(es, d);
    DeletedCalledOnce(es, d);
    DeletedNoAlias(es, d);
    DeletionKeepsCaptures(es, d);
    DeletionKeepsLoads(es, d);
    forall k: nat | k < |Deleted(es, d)| && IsEdge(Deleted(es, d)[k]) ensures Dense(Deleted(es, d), Deleted(es, d)[k].edgeId) {
      DeletedDense(es, d, k);
    }
  }

  /** Without its only holder, a dictionary key is gone. */
  lemma KeyGone(es: seq<Event>, d: nat, k: nat)
    requires KeysUnique(es) && d < |es| && KeyOf(es[d]).Some? && k < |es| - 1
    ensures KeyOf(Deleted(es, d)[k]) != KeyOf(es[d])
  {
    UpAt(es, d, k);
    KeysDiffer(es, d, Up(d, k));
  }

  lemma StoreGone(es: seq<Event>, d: nat)
    requires KeysUnique(es) && d < |es| && IsStore(es[d])
    ensures !HasStore(Deleted(es, d), es[d].edgeId, es[d].index)
  {
    forall k: nat | k < |es| - 1 && IsStore(Deleted(es, d)[k])
      ensures Deleted(es, d)[k].edgeId != es[d].edgeId || Deleted(es, d)[k].index != es[d].index
    {
      KeyGone(es, d, k);
    }
  }

  lemma DeletingStoreBreaks(es: seq<Event>, d: nat)
    requires KeysUnique(es) && d < |es| && IsStore(es[d]) && StorePaired(es, d)
    ensures !CapturesPaired(Deleted(es, d))
  {
    StoreGone(es, d);
    var j :| 0 <= j < |es| && IsExtract(es[j]) && SameKey(es[d], es[j]);
    DownAt(es, d, j);
    assert IsExtract(Deleted(es, d)[Down(d, j)]);
  }

  /** A store whose extract or edge key is gone is unpaired. */
  lemma Orphaned(es: seq<Event>, d: nat, s: nat)
    requires KeysUnique(es) && d < |es| && s < |es| && IsStore(es[s])
    requires (IsExtract(es[d]) && SameKey(es[s], es[d])) || (IsEdge(es[d]) && es[s].edgeId == es[d].edgeId)
    ensures !CapturesPaired(Deleted(es, d))
  {
    var ds := Deleted(es, d);
    DownAt(es, d, s);
    var k := Down(d, s);
    assert IsStore(ds[k]);
    forall j: nat | j < |ds| ensures KeyOf(ds[j]) != KeyOf(es[d]) {
      KeyGone(es, d, j);
    }
    if IsExtract(es[d]) {
      assert forall j :: 0 <= j < |ds| && IsExtract(ds[j]) && SameKey(ds[k], ds[j]) ==> KeyOf(ds[j]) == KeyOf(es[d]);
    } else {
      assert forall j :: 0 <= j < |ds| && IsEdge(ds[j]) && ds[j].edgeId == ds[k].edgeId ==> KeyOf(ds[j]) == KeyOf(es[d]);
    }
    assert !StorePaired(ds, k);
  }

  lemma DeletingExtractBreaks(es: seq<Event>, d: nat)
    requires KeysUnique(es) && d < |es| && IsExtract(es[d]) && HasStore(es, es[d].edgeId, es[d].index)
    ensures !CapturesPaired(Deleted(es, d))
  {
    var s :| 0 <= s < |es| && IsStore(es[s]) && es[s].edgeId == es[d].edgeId && es[s].index == es[d].index;
    Orphaned(es, d, s);
  }

  lemma DeletingEdgeBreaks(es: seq<Event>, d: nat)
    requires KeysUnique(es) && CapturesPaired(es) && d < |es| && IsEdge(es[d]) && !CaptureFree(es, es[d].edgeId)
    ensures !CapturesPaired(Deleted(es, d))
  {
    var c :| 0 <= c < |es| && (IsStore(es[c]) || IsExtract(es[c])) && es[c].edgeId == es[d].edgeId;
    if IsStore(es[c]) {
      Orphaned(es, d, c);
    } else {
      assert HasStore(es, es[c].edgeId, es[c].index);
      var s :| 0 <= s < |es| && IsStore(es[s]) && es[s].edgeId == es[d].edgeId;
      Orphaned(es, d, s);
    }
  }

  lemma DeletingLoadBreaks(es: seq<Event>, d: nat)
    requires KeysUnique(es) && d < |es| && IsLoad(es[d]) && LoadConsumed(es, d) && es[d].loadId > 0
    ensures !LoadsConsumed(Deleted(es, d))
  {
    var ds := Deleted(es, d);
    var j :| 0 <= j < |es| && IsCall(es[j]) && es[j].loadId == es[d].loadId;
    DownAt(es, d, j);
    assert LoadedCall(ds[Down(d, j)]);
    forall k: nat | k < |ds| && IsLoad(ds[k]) ensures ds[k].loadId != es[d].loadId {
      KeyGone(es, d, k);
    }
    assert !HasLoad(ds, es[d].loadId);
  }

  lemma DeletingCallBreaks(es: seq<Event>, d: nat)
    requires LoadsCalledOnce(es) && d < |es| && LoadedCall(es[d]) && HasLoad(es, es[d].loadId)
    ensures !LoadsConsumed(Deleted(es, d))
  {
    var ds := Deleted(es, d);
    var j :| 0 <= j < |es| && IsLoad(es[j]) && es[j].loadId == es[d].loadId;
    DownAt(es, d, j);
    assert IsLoad(ds[Down(d, j)]);
    forall c: nat | c < |ds| && IsCall(ds[c]) ensures ds[c].loadId != es[d].loadId {
      UpAt(es, d, c);
      var u := Up(d, c);
      assert LoadedCall(es[u]) && u < d ==> es[u].loadId != es[d].loadId;
    }
    assert !LoadConsumed(ds, Down(d, j));
  }

  /** Deleting one event from a valid ledger and renumbering leaves it valid
      if and only if that event is a closure edge without captures or a call
      that consumes no load. */
  lemma DeletionTheorem(es: seq<Event>, d: nat)
    requires Accepted(es) && d < |es|
    ensures Accepted(Deleted(es, d)) <==> Removable(es, d)
  {
    assert ShapeOk(es[d]) && FieldsOk(es[d]);
    if Removable(es, d) {
      DeletionKeeps(es, d);
    } else if IsStore(es[d]) {
      DeletingStoreBreaks(es, d);
    } else if IsExtract(es[d]) {
      DeletingExtractBreaks(es, d);
    } else if IsEdge(es[d]) {
      DeletingEdgeBreaks(es, d);
    } else if IsLoad(es[d]) {
      DeletingLoadBreaks(es, d);
    } else {
      DeletingCallBreaks(es, d);
    }
  }
}
