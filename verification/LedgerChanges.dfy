/** The corruptions a ledger must not survive: what is left of an accepted
    ledger's freedom when one event is replaced by another. */
module LedgerChanges {
  import opened Options
  import opened LedgerRelations

  /** Which domains go with which identity fields. */
  predicate DomainTable(e: Event) {
    (e.domain == "exact" || e.domain == "name-only" || e.domain == "static" || e.domain == "default-evidence" ||
     e.domain == "computed" || e.domain == "fresh") &&
    (e.defId != -1 ==> e.domain == "exact") && (e.domain == "exact" ==> e.defId != -1) &&
    ((e.canonicalKey == "") <==> (e.domain == "computed" || e.domain == "fresh")) &&
    ((e.producer == "") <==> (e.domain != "computed" && e.domain != "fresh"))
  }

  /** Which domains go with which kinds. */
  predicate KindTable(e: Event) {
    (e.domain == "exact" ==> e.kind == "capture-store" || e.kind == "capture-extract" || e.kind == "closure-call") &&
    (e.domain == "static" ==> e.kind == "dict-receiver-load") &&
    (e.domain == "default-evidence" ==> e.kind == "effect-receiver-load") &&
    (e.domain == "fresh" <==> e.kind == "closure-edge") &&
    (e.domain == "computed" ==> e.kind == "closure-call" || e.kind == "dict-receiver-load" || e.kind == "effect-receiver-load")
  }

  /** Which fields are filled in for which kinds. */
  predicate FieldTable(e: Event) {
    e.sourceSlot != "" && e.destSlot != "" &&
    (e.kind != "closure-edge" && e.kind != "closure-call" ==> e.index > 0) &&
    (e.kind == "capture-store" || e.kind == "capture-extract" || e.kind == "closure-edge" ==> e.edgeId > 0) &&
    (e.kind != "capture-store" && e.kind != "capture-extract" ==> e.parentFrame != "") &&
    (e.kind == "closure-edge" ==> e.childFrame != "" && e.producer == "closure-edge:" + e.childFrame) &&
    (e.kind == "dict-receiver-load" || e.kind == "effect-receiver-load" ==> e.loadId > 0)
  }

  predicate CallTable(e: Event) {
    e.kind == "closure-call" ==>
      e.arity > 0 && e.loadId >= 0 &&
      (e.loadId > 0 <==> e.producer == "dict-receiver-load" || e.producer == "effect-receiver-load")
  }

  lemma DomainsFit(e: Event)
    requires ShapeOk(e)
    ensures DomainTable(e)
  {
  }

  lemma KindsFit(e: Event)
    requires ShapeOk(e)
    ensures KindTable(e)
  {
  }

  lemma FieldsFit(e: Event)
    requires ShapeOk(e) && FieldsOk(e)
    ensures FieldTable(e)
  {
  }

  lemma CallsFit(e: Event)
    requires ShapeOk(e) && FieldsOk(e)
    ensures CallTable(e)
  {
  }

  /** What every event of an accepted ledger satisfies by itself. */
  lemma AcceptedTable(es: seq<Event>, i: nat)
    requires Accepted(es) && i < |es|
    ensures es[i].eventId == i + 1
    ensures DomainTable(es[i]) && KindTable(es[i]) && FieldTable(es[i]) && CallTable(es[i])
  {
    Shaped(es, i);
    DomainsFit(es[i]);
    KindsFit(es[i]);
    FieldsFit(es[i]);
    CallsFit(es[i]);
  }

  lemma Shaped(es: seq<Event>, i: nat)
    requires Accepted(es) && i < |es|
    ensures es[i].eventId == i + 1 && ShapeOk(es[i]) && FieldsOk(es[i])
  {
  }

  /** The slot whose contents an event identifies: an extract fills one in the
      child's frame, the others read one in the parent's. */
  predicate Identifies(e: Event, frame: string, slot: string) {
    if e.kind == "capture-extract" then frame == e.childFrame && slot == e.destSlot
    else e.kind != "closure-edge" && frame == e.parentFrame && slot == e.sourceSlot
  }

  /** No slot is identified both exactly and by name only. */
  lemma NoSlotTwice(es: seq<Event>, i: nat, j: nat, frame: string, slot: string)
    requires Accepted(es) && i < |es| && j < |es| && es[i].domain == "exact" && es[j].domain == "name-only"
    ensures !(Identifies(es[i], frame, slot) && Identifies(es[j], frame, slot))
  {
    Shaped(es, i);
    Shaped(es, j);
    assert !Aliases(es[i], es[j]);
  }

  /** Edges and loads differ in their ids, stores and extracts in their edge
      or index, calls in the load they consume. */
  lemma NoDuplicates(es: seq<Event>, i: nat, j: nat)
    requires Accepted(es) && i < j < |es| && es[i].kind == es[j].kind
    ensures es[i].kind == "closure-edge" ==> es[i].edgeId != es[j].edgeId
    ensures es[i].kind == "capture-store" || es[i].kind == "capture-extract" ==>
      es[i].edgeId != es[j].edgeId || es[i].index != es[j].index
    ensures es[i].kind == "dict-receiver-load" || es[i].kind == "effect-receiver-load" ==> es[i].loadId != es[j].loadId
    ensures es[i].kind == "closure-call" && es[i].loadId > 0 ==> es[i].loadId != es[j].loadId
  {
    assert KeyOf(es[i]).Some? ==> KeyOf(es[i]) != KeyOf(es[j]);
  }

  // ---------------------------------------------------------------------
  // Partners
  // ---------------------------------------------------------------------

  lemma OneOfKey(es: seq<Event>, i: nat, j: nat)
    requires Accepted(es) && i < |es| && j < |es| && KeyOf(es[i]).Some? && KeyOf(es[i]) == KeyOf(es[j])
    ensures i == j
  {
  }

  /** A store's extract and edge. */
  lemma PartnersOf(es: seq<Event>, i: nat) returns (j: nat, k: nat)
    requires Accepted(es) && i < |es| && es[i].kind == "capture-store"
    ensures j < |es| && k < |es| && i != j && i != k
    ensures es[j].kind == "capture-extract" && KeyOf(es[j]) == Some(ExtractKey(es[i].edgeId, es[i].index))
    ensures es[k].kind == "closure-edge" && KeyOf(es[k]) == Some(EdgeKey(es[i].edgeId))
    ensures SameIdentity(es[i], es[j]) && FramesAgree(es[i], es[j], es[k])
  {
    assert StorePaired(es, i);
    j, k :| 0 <= j < |es| && 0 <= k < |es| &&
      IsExtract(es[j]) && SameKey(es[i], es[j]) && SameIdentity(es[i], es[j]) &&
      IsEdge(es[k]) && es[k].edgeId == es[i].edgeId && FramesAgree(es[i], es[j], es[k]);
  }

  lemma StoreOf(es: seq<Event>, j: nat) returns (i: nat)
    requires Accepted(es) && j < |es| && es[j].kind == "capture-extract"
    ensures i < |es| && es[i].kind == "capture-store" && es[i].edgeId == es[j].edgeId && es[i].index == es[j].index
  {
    assert HasStore(es, es[j].edgeId, es[j].index);
    i :| 0 <= i < |es| && IsStore(es[i]) && es[i].edgeId == es[j].edgeId && es[i].index == es[j].index;
  }

  /** A load's call. */
  lemma CallOf(es: seq<Event>, i: nat) returns (j: nat)
    requires Accepted(es) && i < |es| && IsLoad(es[i])
    ensures j < |es| && LoadedCall(es[j]) && es[j].loadId == es[i].loadId && Consumes(es[j], es[i])
  {
    assert LoadConsumed(es, i);
    assert FieldsOk(es[i]);
    j :| 0 <= j < |es| && IsCall(es[j]) && es[j].loadId == es[i].loadId && Consumes(es[j], es[i]);
  }

  lemma LoadOf(es: seq<Event>, j: nat) returns (i: nat)
    requires Accepted(es) && j < |es| && es[j].kind == "closure-call" && es[j].loadId > 0
    ensures i < |es| && IsLoad(es[i]) && es[i].loadId == es[j].loadId
  {
    assert HasLoad(es, es[j].loadId);
    i :| 0 <= i < |es| && IsLoad(es[i]) && es[i].loadId == es[j].loadId;
  }

  // ---------------------------------------------------------------------
  // One event replaced
  // ---------------------------------------------------------------------

  /** One event of a ledger replaced by another, both ledgers accepted. */
  ghost predicate Replaced(es: seq<Event>, fs: seq<Event>, i: nat) {
    i < |es| == |fs| && Accepted(es) && Accepted(fs) && forall j: nat :: j < |es| && j != i ==> fs[j] == es[j]
  }

  lemma StoreStays(es: seq<Event>, fs: seq<Event>, i: nat, j: nat)
    requires Replaced(es, fs, i) && es[i].kind == "capture-store" && j < |es| && j != i
    requires es[j].kind == "capture-extract" && KeyOf(es[j]) == Some(ExtractKey(es[i].edgeId, es[i].index))
    ensures fs[i].kind == "capture-store" && fs[i].edgeId == es[i].edgeId && fs[i].index == es[i].index
  {
    assert fs[j] == es[j];
    var m := StoreOf(fs, j);
    if m != i {
      OneOfKey(es, m, i);
    }
  }

  /** Only a store's load id, arity and source slot are its own. */
  lemma StorePinned(es: seq<Event>, fs: seq<Event>, i: nat)
    requires Replaced(es, fs, i) && es[i].kind == "capture-store"
    ensures fs[i] == es[i].(loadId := fs[i].loadId, arity := fs[i].arity, sourceSlot := fs[i].sourceSlot)
  {
    var j, k := PartnersOf(es, i);
    StoreStays(es, fs, i, j);
    var j', k' := PartnersOf(fs, i);
    OneOfKey(es, j, j');
    OneOfKey(es, k, k');
    Shaped(es, i);
    Shaped(fs, i);
    SameStores(es[i], fs[i], es[j], es[k]);
  }

  lemma SameStores(s: Event, s': Event, x: Event, e: Event)
    requires SameIdentity(s, x) && SameIdentity(s', x) && FramesAgree(s, x, e) && FramesAgree(s', x, e)
    requires s.kind == s'.kind && s.eventId == s'.eventId && s.edgeId == s'.edgeId && s.index == s'.index
    ensures s' == s.(loadId := s'.loadId, arity := s'.arity, sourceSlot := s'.sourceSlot)
  {
  }

  /** Only an extract's load id, arity and slots are its own. */
  lemma ExtractPinned(es: seq<Event>, fs: seq<Event>, j: nat)
    requires Replaced(es, fs, j) && es[j].kind == "capture-extract"
    ensures fs[j] == es[j].(loadId := fs[j].loadId, arity := fs[j].arity, sourceSlot := fs[j].sourceSlot, destSlot := fs[j].destSlot)
  {
    var i := StoreOf(es, j);
    var j0, k := PartnersOf(es, i);
    OneOfKey(es, j, j0);
    var j', k' := PartnersOf(fs, i);
    if j' != j {
      OneOfKey(es, j, j');
    }
    OneOfKey(es, k, k');
  }

  /** Only the load id, the destination slot, the index and the arity of an
      edge with captures are its own. */
  lemma EdgePinned(es: seq<Event>, fs: seq<Event>, k: nat, i: nat)
    requires Replaced(es, fs, k) && es[k].kind == "closure-edge"
    requires i < |es| && es[i].kind == "capture-store" && es[i].edgeId == es[k].edgeId
    ensures fs[k] ==
      es[k].(loadId := fs[k].loadId, destSlot := fs[k].destSlot, index := fs[k].index, arity := fs[k].arity)
  {
    var j, k0 := PartnersOf(es, i);
    OneOfKey(es, k, k0);
    var j', k' := PartnersOf(fs, i);
    if k' != k {
      OneOfKey(es, k, k');
    }
    OneOfKey(es, j, j');
    AcceptedTable(es, k);
    AcceptedTable(fs, k);
  }

  lemma OneCall(es: seq<Event>, i: nat, j: nat)
    requires Accepted(es) && i < |es| && j < |es| && LoadedCall(es[i]) && LoadedCall(es[j]) && es[i].loadId == es[j].loadId
    ensures i == j
  {
  }

  lemma OneLoad(es: seq<Event>, i: nat, j: nat)
    requires KeysUnique(es) && i < |es| && j < |es| && IsLoad(es[i]) && IsLoad(es[j]) && es[i].loadId == es[j].loadId
    ensures i == j
  {
    assert KeyOf(es[i]) == KeyOf(es[j]);
  }

  lemma LoadStays(es: seq<Event>, fs: seq<Event>, i: nat, j: nat)
    requires Replaced(es, fs, i) && IsLoad(es[i]) && j < |es| && j != i
    requires LoadedCall(es[j]) && es[j].loadId == es[i].loadId
    ensures IsLoad(fs[i]) && fs[i].loadId == es[i].loadId
  {
    assert fs[j] == es[j];
    var m := LoadOf(fs, j);
    if m != i {
      OneLoad(es, m, i);
    }
  }

  /** A load keeps its number, kind, load id, frame and destination. */
  lemma LoadPinned(es: seq<Event>, fs: seq<Event>, i: nat)
    requires Replaced(es, fs, i) && (es[i].kind == "dict-receiver-load" || es[i].kind == "effect-receiver-load")
    ensures fs[i].eventId == es[i].eventId && fs[i].kind == es[i].kind && fs[i].loadId == es[i].loadId
    ensures fs[i].parentFrame == es[i].parentFrame && fs[i].destSlot == es[i].destSlot
  {
    var j := CallOf(es, i);
    LoadStays(es, fs, i, j);
    var j' := CallOf(fs, i);
    OneCall(es, j, j');
    Shaped(es, i);
    Shaped(fs, i);
  }

  /** Only the edge id, the child frame, the destination slot, the index and
      the arity of a call with a load are its own. */
  lemma CallPinned(es: seq<Event>, fs: seq<Event>, j: nat)
    requires Replaced(es, fs, j) && es[j].kind == "closure-call" && es[j].loadId > 0
    ensures fs[j] ==
      es[j].(edgeId := fs[j].edgeId, childFrame := fs[j].childFrame, destSlot := fs[j].destSlot, index := fs[j].index, arity := fs[j].arity)
  {
    var i := LoadOf(es, j);
    var j0 := CallOf(es, i);
    var j' := CallOf(fs, i);
    AcceptedTable(es, j);
    AcceptedTable(fs, j);
  }
}
