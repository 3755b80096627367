/** The checker of generated-C probe bodies: evaluation of a straight-line
    statement list and its alpha-normal form. */
module ProbeAlpha {
  import opened Decimal
  import opened Options

  datatype Statement =
    | Declare(target: string, offset: nat)
    | Alias(target: string, arg: string, offset: nat)
    | Call(target: string, callee: string, args: seq<string>, offset: nat)
    | Rc(callee: string, arg: string, offset: nat)
    | Return(arg: string, offset: nat)

  const VALUE: string := "r_value"
  const UNIT: string := "RING_UNIT"

  datatype Origin = ParameterRoot | UnitRoot | CallResult(offset: nat, callee: string)

  datatype Event = Event(statement: Statement, argOrigins: seq<Origin>, result: Option<Origin>)

  predicate IsRoot(name: string) { name == VALUE || name == UNIT }

  predicate Assigns(s: Statement) { s.Alias? || s.Call? }

  function Args(s: Statement): seq<string> {
    match s
    case Declare(_, _) => []
    case Alias(_, arg, _) => [arg]
    case Call(_, _, args, _) => args
    case Rc(_, arg, _) => [arg]
    case Return(arg, _) => [arg]
  }

  // ---------------------------------------------------------------------
  // What the evaluator accepts
  // ---------------------------------------------------------------------

  predicate DeclaredBefore(ss: seq<Statement>, i: nat, name: string)
    requires i <= |ss|
  {
    exists j :: 0 <= j < i && ss[j].Declare? && ss[j].target == name
  }

  predicate AssignedBefore(ss: seq<Statement>, i: nat, name: string)
    requires i <= |ss|
  {
    exists j :: 0 <= j < i && Assigns(ss[j]) && ss[j].target == name
  }

  predicate Initialised(ss: seq<Statement>, i: nat, name: string)
    requires i <= |ss|
  {
    IsRoot(name) || AssignedBefore(ss, i, name)
  }

  predicate StatementOk(ss: seq<Statement>, i: nat)
    requires i < |ss|
  {
    match ss[i]
    case Declare(target, _) =>
      (forall j :: 0 <= j < i ==> ss[j].Declare?) && !DeclaredBefore(ss, i, target) && !IsRoot(target)
    case _ =>
      (forall k :: 0 <= k < |Args(ss[i])| ==> Initialised(ss, i, Args(ss[i])[k])) &&
      (Assigns(ss[i]) ==> DeclaredBefore(ss, i, ss[i].target) && !AssignedBefore(ss, i, ss[i].target))
  }

  /** Declarations come first and are distinct; every name is bound at most
      once and used only afterwards; the one return is the last statement. */
  predicate Acceptable(ss: seq<Statement>) {
    (forall i :: 0 <= i < |ss| ==> StatementOk(ss, i)) &&
    ss != [] && forall i :: 0 <= i < |ss| ==> (ss[i].Return? <==> i == |ss| - 1)
  }

  /** The origin of a name just before statement `i`: aliases are followed
      back to a root or to the call that made the value. */
  ghost predicate OriginOf(ss: seq<Statement>, i: nat, name: string, origin: Origin)
    requires i <= |ss|
    decreases i
  {
    if name == VALUE then origin == ParameterRoot
    else if name == UNIT then origin == UnitRoot
    else
      exists j: nat {:trigger BindsAt(ss, j, name)} ::
        j < i && BindsAt(ss, j, name) &&
        if ss[j].Call? then origin == CallResult(ss[j].offset, ss[j].callee)
        else OriginOf(ss, j, ss[j].arg, origin)
  }

  predicate BindsAt(ss: seq<Statement>, j: nat, name: string) {
    j < |ss| && Assigns(ss[j]) && ss[j].target == name
  }

  lemma OriginLater(ss: seq<Statement>, i: nat, name: string, origin: Origin)
    requires i < |ss| && OriginOf(ss, i, name, origin)
    ensures OriginOf(ss, i + 1, name, origin)
  {
  }

  /** The event frozen for statement `i`. */
  ghost predicate Frozen(ss: seq<Statement>, i: nat, e: Event)
    requires i < |ss|
  {
    e.statement == ss[i] && |e.argOrigins| == |Args(ss[i])| &&
    (forall k :: 0 <= k < |e.argOrigins| ==> OriginOf(ss, i, Args(ss[i])[k], e.argOrigins[k])) &&
    e.result ==
      if ss[i].Alias? then Some(e.argOrigins[0])
      else if ss[i].Call? then Some(CallResult(ss[i].offset, ss[i].callee))
      else None
  }

  // ---------------------------------------------------------------------
  // The evaluator
  // ---------------------------------------------------------------------

  ghost predicate Knows(ss: seq<Statement>, i: nat, declared: set<string>, bound: set<string>,
                        origins: map<string, Origin>, executable: bool)
    requires i <= |ss|
  {
    (forall x :: x in declared <==> DeclaredBefore(ss, i, x)) &&
    (forall x :: x in declared ==> !IsRoot(x)) &&
    (forall x :: x in bound <==> AssignedBefore(ss, i, x)) &&
    (forall x :: x in origins <==> Initialised(ss, i, x)) &&
    (forall x :: x in origins ==> OriginOf(ss, i, x, origins[x])) &&
    (executable <==> exists j :: 0 <= j < i && !ss[j].Declare?)
  }

  /** `evaluate_c_probe_statements`: a program exactly for acceptable lists. */
  method Evaluate(ss: seq<Statement>) returns (program: Option<seq<Event>>)
    ensures program.Some? <==> Acceptable(ss)
    ensures program.Some? ==>
      |program.value| == |ss| && forall i :: 0 <= i < |ss| ==> Frozen(ss, i, program.value[i])
  {
    var ok := true;
    var declared: set<string>, bound: set<string> := {}, {};
    var origins := map[VALUE := ParameterRoot, UNIT := UnitRoot];
    var events: seq<Event> := [];
    var executable := false;
    for i := 0 to |ss|
      invariant ok <==> forall j :: 0 <= j < i ==> StatementOk(ss, j)
      invariant ok ==> Knows(ss, i, declared, bound, origins, executable)
      invariant ok ==> |events| == i && forall j :: 0 <= j < i ==> Frozen(ss, j, events[j])
    {
      if ok {
        var fine, event;
        fine, declared, bound, origins, executable, event := Advance(ss, i, declared, bound, origins, executable);
        ok := fine;
        events := events + [event];
      }
    }
    var returns_ := CountReturns(ss);
    OneReturn(ss, returns_);
    if ok && |returns_| == 1 && ss[|ss| - 1].Return? {
      program := Some(events);
    } else {
      program := None;
    }
  }

  /** One statement: resolve its operands, then record what it binds. */
  method Advance(ss: seq<Statement>, i: nat, declared: set<string>, bound: set<string>,
                 origins: map<string, Origin>, executable: bool)
    returns (fine: bool, declared': set<string>, bound': set<string>,
             origins': map<string, Origin>, executable': bool, event: Event)
    requires i < |ss| && Knows(ss, i, declared, bound, origins, executable)
    ensures fine <==> StatementOk(ss, i)
    ensures fine ==> Knows(ss, i + 1, declared', bound', origins', executable')
    ensures fine ==> Frozen(ss, i, event)
  {
    var s := ss[i];
    declared', bound', origins', executable' := declared, bound, origins, executable;
    forall x | x in origins ensures OriginOf(ss, i + 1, x, origins[x]) {
      OriginLater(ss, i, x, origins[x]);
    }
    if s.Declare? {
      fine := !executable && s.target !in declared && s.target !in origins;
      declared' := declared + {s.target};
      event := Event(s, [], None);
      return;
    }
    executable' := true;
    var args := Args(s);
    fine := forall k :: 0 <= k < |args| ==> args[k] in origins;
    if !fine {
      event := Event(s, [], None);
      return;
    }
    var argOrigins := seq(|args|, k requires 0 <= k < |args| => origins[args[k]]);
    var result := None;
    if Assigns(s) {
      var origin := if s.Alias? then argOrigins[0] else CallResult(s.offset, s.callee);
      fine := s.target in declared && s.target !in bound;
      bound' := bound + {s.target};
      origins' := origins[s.target := origin];
      result := Some(origin);
      assert BindsAt(ss, i, s.target);
      assert fine ==> OriginOf(ss, i + 1, s.target, origin);
    }
    event := Event(s, argOrigins, result);
  }

  lemma OneReturn(ss: seq<Statement>, at: seq<nat>)
    requires forall i :: 0 <= i < |ss| ==> (ss[i].Return? <==> i in at)
    requires forall k, m :: 0 <= k < m < |at| ==> at[k] != at[m]
    requires forall k :: 0 <= k < |at| ==> at[k] < |ss|
    ensures ss != [] && |at| == 1 && ss[|ss| - 1].Return? <==>
      ss != [] && forall i :: 0 <= i < |ss| ==> (ss[i].Return? <==> i == |ss| - 1)
  {
    if ss != [] && forall i :: 0 <= i < |ss| ==> (ss[i].Return? <==> i == |ss| - 1) {
      assert |ss| - 1 in at;
      forall k | 0 <= k < |at| ensures at[k] == |ss| - 1 {
        assert at[k] in at && ss[at[k]].Return?;
      }
      assert at[|at| - 1] == at[0];
    }
    if ss != [] && |at| == 1 && ss[|ss| - 1].Return? {
      assert |ss| - 1 in at;
      forall i | 0 <= i < |ss| ensures ss[i].Return? <==> i == |ss| - 1 {
        if i in at {
          var k :| 0 <= k < |at| && at[k] == i;
        }
      }
    }
  }

  method CountReturns(ss: seq<Statement>) returns (at: seq<nat>)
    ensures forall i :: 0 <= i < |ss| ==> (ss[i].Return? <==> i in at)
    ensures |at| == 1 ==> at[0] < |ss|
    ensures forall k, m :: 0 <= k < m < |at| ==> at[k] != at[m]
    ensures forall k :: 0 <= k < |at| ==> at[k] < |ss|
  {
    at := [];
    for i := 0 to |ss|
      invariant forall j :: 0 <= j < i ==> (ss[j].Return? <==> j in at)
      invariant forall k :: 0 <= k < |at| ==> at[k] < i
      invariant forall k, m :: 0 <= k < m < |at| ==> at[k] != at[m]
    {
      if ss[i].Return? {
        at := at + [i];
      }
    }
  }

  // ---------------------------------------------------------------------
  // Alpha-normal form
  // ---------------------------------------------------------------------

  /** The declared names in order. */
  function Locals(ss: seq<Statement>): seq<string> {
    if ss == [] then []
    else Locals(ss[..|ss| - 1]) + if ss[|ss| - 1].Declare? then [ss[|ss| - 1].target] else []
  }

  function IndexIn(names: seq<string>, name: string): (i: nat)
    requires name in names
    ensures i < |names| && names[i] == name
  {
    if names[0] == name then 0 else 1 + IndexIn(names[1..], name)
  }

  function CanonicalName(locals: seq<string>, name: string): string {
    if name == VALUE then "$value"
    else if name == UNIT then "$unit"
    else if name in locals then "v" + NatText(IndexIn(locals, name))
    else "$invalid:" + name
  }

  function CanonicalNames(locals: seq<string>, names: seq<string>): (r: seq<string>)
    ensures |r| == |names|
  {
    seq(|names|, i requires 0 <= i < |names| => CanonicalName(locals, names[i]))
  }

  function Kind(s: Statement): string {
    match s
    case Declare(_, _) => "declare"
    case Alias(_, _, _) => "alias"
    case Call(_, _, _, _) => "call"
    case Rc(_, _, _) => "rc"
    case Return(_, _) => "return"
  }

  predicate HasTarget(s: Statement) { s.Declare? || s.Alias? || s.Call? }

  predicate HasCallee(s: Statement) { s.Call? || s.Rc? }

  function CanonicalHead(locals: seq<string>, s: Statement): seq<string> {
    [Kind(s)] + (if HasTarget(s) then [CanonicalName(locals, s.target)] else [])
      + (if HasCallee(s) then [s.callee] else [])
  }

  function CanonicalEvent(locals: seq<string>, s: Statement): seq<string> {
    CanonicalHead(locals, s) + CanonicalNames(locals, Args(s))
  }

  /** The normal form of an acceptable list. */
  function Canonical(ss: seq<Statement>): (r: seq<seq<string>>)
    ensures |r| == |ss|
  {
    seq(|ss|, i requires 0 <= i < |ss| => CanonicalEvent(Locals(ss), ss[i]))
  }

  // ---------------------------------------------------------------------
  // Renaming
  // ---------------------------------------------------------------------

  /** A bijection of names that fixes the parameter and the unit constant. */
  ghost predicate Renaming(m: map<string, string>) {
    VALUE in m && m[VALUE] == VALUE && UNIT in m && m[UNIT] == UNIT &&
    forall x, y :: x in m && y in m && m[x] == m[y] ==> x == y
  }

  ghost predicate RenamedStatement(m: map<string, string>, s: Statement, t: Statement) {
    Kind(s) == Kind(t) && |Args(s)| == |Args(t)| &&
    (HasCallee(s) && HasCallee(t) ==> s.callee == t.callee) &&
    (HasTarget(s) && HasTarget(t) ==> s.target in m && t.target == m[s.target]) &&
    forall k :: 0 <= k < |Args(s)| ==> Args(s)[k] in m && Args(t)[k] == m[Args(s)[k]]
  }

  /** `m` maps one list to the other; source offsets are free to differ. */
  ghost predicate Renamed(m: map<string, string>, ss: seq<Statement>, ts: seq<Statement>) {
    |ss| == |ts| && forall i :: 0 <= i < |ss| ==> RenamedStatement(m, ss[i], ts[i])
  }

  // ---------------------------------------------------------------------
  // Facts about declared names
  // ---------------------------------------------------------------------

  ghost predicate Distinct(names: seq<string>) {
    forall i, j :: 0 <= i < j < |names| ==> names[i] != names[j]
  }

  lemma IndexOfDistinct(names: seq<string>, i: nat)
    requires Distinct(names) && i < |names|
    ensures IndexIn(names, names[i]) == i
  {
  }

  /** In an acceptable list the declarations are exactly the first |Locals|
      statements, with distinct names other than the roots. */
  lemma {:induction false} LocalsAreFirst(ss: seq<Statement>, n: nat)
    requires n <= |ss| && forall i :: 0 <= i < |ss| ==> StatementOk(ss, i)
    ensures var locals := Locals(ss[..n]);
      |locals| <= n &&
      (forall i :: 0 <= i < |locals| ==> ss[i].Declare? && ss[i].target == locals[i] && !IsRoot(locals[i])) &&
      (forall i :: |locals| <= i < n ==> !ss[i].Declare?)
  {
    if n > 0 {
      LocalsAreFirst(ss, n - 1);
      assert ss[..n][..n - 1] == ss[..n - 1];
      assert StatementOk(ss, n - 1);
    }
  }

  lemma LocalsFacts(ss: seq<Statement>)
    requires Acceptable(ss)
    ensures var locals := Locals(ss);
      |locals| <= |ss| && Distinct(locals) &&
      (forall i :: 0 <= i < |locals| ==> ss[i].Declare? && ss[i].target == locals[i] && !IsRoot(locals[i])) &&
      (forall i :: |locals| <= i < |ss| ==> !ss[i].Declare?)
  {
    assert ss[..|ss|] == ss;
    LocalsAreFirst(ss, |ss|);
    var locals := Locals(ss);
    forall i, j | 0 <= i < j < |locals| ensures locals[i] != locals[j] {
      assert StatementOk(ss, j);
    }
  }

  /** Every name an acceptable list uses is a root or declared. */
  lemma {:induction false} NamesKnown(ss: seq<Statement>, i: nat)
    requires Acceptable(ss) && i < |ss|
    ensures forall k :: 0 <= k < |Args(ss[i])| ==> IsRoot(Args(ss[i])[k]) || Args(ss[i])[k] in Locals(ss)
    ensures ss[i].Declare? || Assigns(ss[i]) ==> ss[i].target in Locals(ss) && !IsRoot(ss[i].target)
  {
    LocalsFacts(ss);
    assert StatementOk(ss, i);
    forall k | 0 <= k < |Args(ss[i])| && !IsRoot(Args(ss[i])[k]) ensures Args(ss[i])[k] in Locals(ss) {
      var j :| 0 <= j < i && Assigns(ss[j]) && ss[j].target == Args(ss[i])[k];
      assert StatementOk(ss, j);
      DeclaredLocal(ss, j, ss[j].target);
    }
    if Assigns(ss[i]) {
      DeclaredLocal(ss, i, ss[i].target);
    }
  }

  lemma DeclaredLocal(ss: seq<Statement>, i: nat, name: string)
    requires Acceptable(ss) && i <= |ss| && DeclaredBefore(ss, i, name)
    ensures name in Locals(ss) && !IsRoot(name)
  {
    LocalsFacts(ss);
    var j :| 0 <= j < i && ss[j].Declare? && ss[j].target == name;
    assert Locals(ss)[j] == name;
  }

  // ---------------------------------------------------------------------
  // The normal form decides alpha-equivalence
  // ---------------------------------------------------------------------

  /** Known names have equal canonical names exactly when both are the same
      root or both are locals declared at the same place. */
  lemma CanonicalNameEqual(d: seq<string>, e: seq<string>, x: string, y: string)
    requires IsRoot(x) || x in d
    requires IsRoot(y) || y in e
    ensures CanonicalName(d, x) == CanonicalName(e, y) <==>
      if IsRoot(x) || IsRoot(y) then x == y else IndexIn(d, x) == IndexIn(e, y)
  {
    assert "$value"[0] == '$' && "$unit"[0] == '$' && "$value"[1] == 'v' && "$unit"[1] == 'u';
    if !IsRoot(x) && !IsRoot(y) {
      var m, n := IndexIn(d, x), IndexIn(e, y);
      assert ("v" + NatText(m))[1..] == NatText(m) && ("v" + NatText(n))[1..] == NatText(n);
      if CanonicalName(d, x) == CanonicalName(e, y) {
        NatTextInjective(m, n);
      }
    } else if !IsRoot(x) {
      assert ("v" + NatText(IndexIn(d, x)))[0] == 'v';
    } else if !IsRoot(y) {
      assert ("v" + NatText(IndexIn(e, y)))[0] == 'v';
    }
  }

  /** The renaming read off two lists of locals. */
  ghost function Pairing(d: seq<string>, e: seq<string>): map<string, string>
    requires |d| == |e|
  {
    map x | x in (set y | y in d) + {VALUE, UNIT} :: if IsRoot(x) then x else e[IndexIn(d, x)]
  }

  lemma PairingRenames(d: seq<string>, e: seq<string>)
    requires |d| == |e| && Distinct(d) && Distinct(e)
    requires forall i :: 0 <= i < |e| ==> !IsRoot(e[i])
    ensures Renaming(Pairing(d, e))
  {
    var m := Pairing(d, e);
    forall x, y | x in m && y in m && m[x] == m[y] ensures x == y {
      if !IsRoot(x) && !IsRoot(y) {
        assert e[IndexIn(d, x)] == e[IndexIn(d, y)];
      }
    }
  }

  lemma PairingMaps(d: seq<string>, e: seq<string>, x: string, y: string)
    requires |d| == |e| && (IsRoot(x) || x in d) && (IsRoot(y) || y in e)
    requires CanonicalName(d, x) == CanonicalName(e, y)
    ensures x in Pairing(d, e) && Pairing(d, e)[x] == y
  {
    CanonicalNameEqual(d, e, x, y);
  }

  lemma KindDecides(s: Statement, t: Statement)
    ensures Kind(s) == Kind(t) <==>
      s.Declare? == t.Declare? && s.Alias? == t.Alias? && s.Call? == t.Call? && s.Rc? == t.Rc?
  {
    assert "declare"[0] == 'd' && "alias"[0] == 'a' && "call"[0] == 'c' && "rc"[0] == 'r' && "return"[0] == 'r';
    assert |"rc"| == 2 && |"return"| == 6;
  }

  /** The parts of equal normal forms are equal. */
  lemma EventParts(d: seq<string>, e: seq<string>, s: Statement, t: Statement)
    requires CanonicalEvent(d, s) == CanonicalEvent(e, t)
    ensures Kind(s) == Kind(t) && HasTarget(s) == HasTarget(t) && HasCallee(s) == HasCallee(t)
    ensures HasTarget(s) ==> CanonicalName(d, s.target) == CanonicalName(e, t.target)
    ensures HasCallee(s) ==> s.callee == t.callee
    ensures CanonicalNames(d, Args(s)) == CanonicalNames(e, Args(t))
  {
    var u, v := CanonicalEvent(d, s), CanonicalEvent(e, t);
    assert u[0] == Kind(s) && v[0] == Kind(t);
    KindDecides(s, t);
    var n := |CanonicalHead(d, s)|;
    assert n == |CanonicalHead(e, t)|;
    assert u[..n] == CanonicalHead(d, s) && v[..n] == CanonicalHead(e, t);
    assert u[n..] == CanonicalNames(d, Args(s)) && v[n..] == CanonicalNames(e, Args(t));
    if HasTarget(s) {
      assert CanonicalHead(d, s)[1] == CanonicalHead(e, t)[1];
    }
    if HasCallee(s) {
      assert CanonicalHead(d, s)[n - 1] == CanonicalHead(e, t)[n - 1];
    }
  }

  lemma {:induction false} SameKindsSameCount(ss: seq<Statement>, ts: seq<Statement>)
    requires |ss| == |ts| && forall i :: 0 <= i < |ss| ==> ss[i].Declare? == ts[i].Declare?
    ensures |Locals(ss)| == |Locals(ts)|
  {
    if ss != [] {
      SameKindsSameCount(ss[..|ss| - 1], ts[..|ts| - 1]);
    }
  }

  lemma SameLocalCount(ss: seq<Statement>, ts: seq<Statement>)
    requires Canonical(ss) == Canonical(ts)
    ensures |Locals(ss)| == |Locals(ts)| && |ss| == |ts|
  {
    assert |ss| == |Canonical(ss)| == |Canonical(ts)| == |ts|;
    forall i | 0 <= i < |ss| ensures ss[i].Declare? == ts[i].Declare? {
      assert Canonical(ss)[i] == Canonical(ts)[i];
      EventParts(Locals(ss), Locals(ts), ss[i], ts[i]);
      KindDecides(ss[i], ts[i]);
    }
    SameKindsSameCount(ss, ts);
  }

  lemma EqualEventRenamed(ss: seq<Statement>, ts: seq<Statement>, i: nat)
    requires Acceptable(ss) && Acceptable(ts) && i < |ss| == |ts| && |Locals(ss)| == |Locals(ts)|
    requires CanonicalEvent(Locals(ss), ss[i]) == CanonicalEvent(Locals(ts), ts[i])
    ensures RenamedStatement(Pairing(Locals(ss), Locals(ts)), ss[i], ts[i])
  {
    var d, e := Locals(ss), Locals(ts);
    EventParts(d, e, ss[i], ts[i]);
    NamesKnown(ss, i);
    NamesKnown(ts, i);
    if HasTarget(ss[i]) {
      PairingMaps(d, e, ss[i].target, ts[i].target);
    }
    EqualArgsRenamed(d, e, Args(ss[i]), Args(ts[i]));
  }

  lemma EqualArgsRenamed(d: seq<string>, e: seq<string>, args: seq<string>, args': seq<string>)
    requires |d| == |e| && CanonicalNames(d, args) == CanonicalNames(e, args')
    requires forall k :: 0 <= k < |args| ==> IsRoot(args[k]) || args[k] in d
    requires forall k :: 0 <= k < |args'| ==> IsRoot(args'[k]) || args'[k] in e
    ensures |args| == |args'|
    ensures forall k :: 0 <= k < |args| ==> args[k] in Pairing(d, e) && args'[k] == Pairing(d, e)[args[k]]
  {
    assert |args| == |CanonicalNames(d, args)| == |CanonicalNames(e, args')| == |args'|;
    forall k | 0 <= k < |args| ensures args[k] in Pairing(d, e) && args'[k] == Pairing(d, e)[args[k]] {
      assert CanonicalNames(d, args)[k] == CanonicalNames(e, args')[k];
      PairingMaps(d, e, args[k], args'[k]);
    }
  }

  /** Renaming carries the locals of one list to those of the other. */
  lemma RenamedLocals(m: map<string, string>, ss: seq<Statement>, ts: seq<Statement>)
    requires Acceptable(ss) && Acceptable(ts) && Renamed(m, ss, ts)
    ensures |Locals(ss)| == |Locals(ts)|
    ensures forall i :: 0 <= i < |Locals(ss)| ==> Locals(ss)[i] in m && Locals(ts)[i] == m[Locals(ss)[i]]
  {
    LocalsFacts(ss);
    LocalsFacts(ts);
    forall i | 0 <= i < |ss| ensures ss[i].Declare? == ts[i].Declare? {
      assert RenamedStatement(m, ss[i], ts[i]);
      KindDecides(ss[i], ts[i]);
    }
    SameKindsSameCount(ss, ts);
    forall i | 0 <= i < |Locals(ss)| ensures Locals(ss)[i] in m && Locals(ts)[i] == m[Locals(ss)[i]] {
      assert RenamedStatement(m, ss[i], ts[i]);
    }
  }

  lemma RenamedName(m: map<string, string>, d: seq<string>, e: seq<string>, x: string)
    requires Renaming(m) && |d| == |e| && Distinct(d) && Distinct(e)
    requires forall i :: 0 <= i < |d| ==> d[i] in m && e[i] == m[d[i]] && !IsRoot(d[i]) && !IsRoot(e[i])
    requires IsRoot(x) || x in d
    ensures x in m && CanonicalName(d, x) == CanonicalName(e, m[x])
  {
    if !IsRoot(x) {
      var i := IndexIn(d, x);
      IndexOfDistinct(e, i);
    }
  }

  lemma RenamedEventEqual(m: map<string, string>, ss: seq<Statement>, ts: seq<Statement>, i: nat)
    requires Acceptable(ss) && Acceptable(ts) && Renaming(m) && Renamed(m, ss, ts) && i < |ss|
    ensures CanonicalEvent(Locals(ss), ss[i]) == CanonicalEvent(Locals(ts), ts[i])
  {
    var d, e := Locals(ss), Locals(ts);
    LocalsFacts(ss);
    LocalsFacts(ts);
    RenamedLocals(m, ss, ts);
    NamesKnown(ss, i);
    assert RenamedStatement(m, ss[i], ts[i]);
    KindDecides(ss[i], ts[i]);
    forall k | 0 <= k < |Args(ss[i])| ensures CanonicalName(d, Args(ss[i])[k]) == CanonicalName(e, Args(ts[i])[k]) {
      RenamedName(m, d, e, Args(ss[i])[k]);
    }
    assert CanonicalNames(d, Args(ss[i])) == CanonicalNames(e, Args(ts[i]));
    if HasTarget(ss[i]) {
      RenamedName(m, d, e, ss[i].target);
    }
    assert CanonicalHead(d, ss[i]) == CanonicalHead(e, ts[i]);
  }

  /** The normal form is a complete invariant: two accepted lists have the
      same normal form if and only if one is a renaming of the other. */
  lemma CanonicalIffRenamed(ss: seq<Statement>, ts: seq<Statement>)
    requires Acceptable(ss) && Acceptable(ts)
    ensures Canonical(ss) == Canonical(ts) <==> exists m :: Renaming(m) && Renamed(m, ss, ts)
  {
    if Canonical(ss) == Canonical(ts) {
      SameLocalCount(ss, ts);
      LocalsFacts(ss);
      LocalsFacts(ts);
      var m := Pairing(Locals(ss), Locals(ts));
      PairingRenames(Locals(ss), Locals(ts));
      forall i | 0 <= i < |ss| ensures RenamedStatement(m, ss[i], ts[i]) {
        assert Canonical(ss)[i] == Canonical(ts)[i];
        EqualEventRenamed(ss, ts, i);
      }
      assert Renaming(m) && Renamed(m, ss, ts);
    }
    forall m | Renaming(m) && Renamed(m, ss, ts) ensures Canonical(ss) == Canonical(ts) {
      forall i | 0 <= i < |ss| ensures Canonical(ss)[i] == Canonical(ts)[i] {
        RenamedEventEqual(m, ss, ts, i);
      }
    }
  }

  // ---------------------------------------------------------------------
  // What a normal form looks like
  // ---------------------------------------------------------------------

  /** The parameter, the unit constant, or the local declared j-th. */
  ghost predicate NameAs(ss: seq<Statement>, name: string, text: string) {
    if name == "r_value" then text == "$value"
    else if name == "RING_UNIT" then text == "$unit"
    else exists j: nat :: j < |ss| && ss[j].Declare? && ss[j].target == name && text == "v" + NatText(j)
  }

  /** A row names the kind of its statement, then what it binds, what it calls
      and its operands in their order. */
  ghost predicate RowAs(ss: seq<Statement>, s: Statement, row: seq<string>) {
    match s
    case Declare(target, _) => |row| == 2 && row[0] == "declare" && NameAs(ss, target, row[1])
    case Alias(target, arg, _) =>
      |row| == 3 && row[0] == "alias" && NameAs(ss, target, row[1]) && NameAs(ss, arg, row[2])
    case Call(target, callee, args, _) =>
      |row| == 3 + |args| && row[0] == "call" && NameAs(ss, target, row[1]) && row[2] == callee &&
      forall k :: 0 <= k < |args| ==> NameAs(ss, args[k], row[3 + k])
    case Rc(callee, arg, _) => |row| == 3 && row[0] == "rc" && row[1] == callee && NameAs(ss, arg, row[2])
    case Return(arg, _) => |row| == 2 && row[0] == "return" && NameAs(ss, arg, row[1])
  }

  lemma CanonicalNameAs(ss: seq<Statement>, name: string)
    requires Acceptable(ss) && (IsRoot(name) || name in Locals(ss))
    ensures NameAs(ss, name, CanonicalName(Locals(ss), name))
  {
    LocalsFacts(ss);
    if !IsRoot(name) {
      var j := IndexIn(Locals(ss), name);
      assert ss[j].Declare? && ss[j].target == name;
    }
  }

  lemma CanonicalRow(ss: seq<Statement>, i: nat)
    requires Acceptable(ss) && i < |ss|
    ensures RowAs(ss, ss[i], Canonical(ss)[i])
  {
    var s, d := ss[i], Locals(ss);
    NamesKnown(ss, i);
    forall k | 0 <= k < |Args(s)| ensures NameAs(ss, Args(s)[k], CanonicalNames(d, Args(s))[k]) {
      CanonicalNameAs(ss, Args(s)[k]);
    }
    if HasTarget(s) {
      CanonicalNameAs(ss, s.target);
    }
    RowOfParts(ss, s, Canonical(ss)[i], d);
  }

  lemma RowOfParts(ss: seq<Statement>, s: Statement, row: seq<string>, d: seq<string>)
    requires row == CanonicalEvent(d, s)
    requires HasTarget(s) ==> NameAs(ss, s.target, CanonicalName(d, s.target))
    requires forall k :: 0 <= k < |Args(s)| ==> NameAs(ss, Args(s)[k], CanonicalNames(d, Args(s))[k])
    ensures RowAs(ss, s, row)
  {
    var head, operands := CanonicalHead(d, s), CanonicalNames(d, Args(s));
    assert row == head + operands;
    match s {
      case Declare(_, _) =>
        assert row == [head[0], head[1]];
      case Alias(_, arg, _) =>
        assert Args(s)[0] == arg && row == [head[0], head[1], operands[0]];
      case Call(_, _, args, _) =>
        assert row[..3] == [head[0], head[1], head[2]];
        assert forall k :: 0 <= k < |args| ==> row[3 + k] == operands[k];
      case Rc(_, arg, _) =>
        assert Args(s)[0] == arg && row == [head[0], head[1], operands[0]];
      case Return(arg, _) =>
        assert Args(s)[0] == arg && row == [head[0], operands[0]];
    }
  }

  /** The dictionary of local names after `count` declarations. */
  ghost predicate Named(names: map<string, string>, d: seq<string>, count: nat)
    requires count <= |d|
  {
    (forall x :: x in names <==> IsRoot(x) || x in d[..count]) &&
    forall x :: x in names ==> names[x] == CanonicalName(d, x)
  }

  lemma NextName(names: map<string, string>, d: seq<string>, count: nat)
    requires count < |d| && Named(names, d, count) && Distinct(d) && !IsRoot(d[count])
    ensures CanonicalName(d, d[count]) == "v" + NatText(count)
    ensures Named(names[d[count] := "v" + NatText(count)], d, count + 1)
  {
    IndexOfDistinct(d, count);
    assert d[count] in d;
    NameAdded(names, d, count, "v" + NatText(count));
  }

  lemma NameAdded(names: map<string, string>, d: seq<string>, count: nat, name: string)
    requires count < |d| && Named(names, d, count) && name == CanonicalName(d, d[count])
    ensures Named(names[d[count] := name], d, count + 1)
  {
    assert d[..count + 1] == d[..count] + [d[count]];
  }

  /** `canonical_c_probe_events` on an evaluated program: locals are numbered
      in order of declaration, and no error can arise. */
  method CanonicalEvents(program: seq<Event>, ghost ss: seq<Statement>) returns (normalized: seq<seq<string>>)
    requires Acceptable(ss) && |program| == |ss|
    requires forall i :: 0 <= i < |ss| ==> program[i].statement == ss[i]
    ensures normalized == Canonical(ss)
    ensures |normalized| == |ss| && forall i :: 0 <= i < |ss| ==> RowAs(ss, ss[i], normalized[i])
  {
    var names: map<string, string> := map[VALUE := "$value", UNIT := "$unit"];
    normalized := [];
    var count := 0;
    RootNames(names, Locals(ss));
    for i := 0 to |program|
      invariant Naming(names, count, ss, i) && CanonicalSoFar(normalized, ss, i)
    {
      var event;
      event, names, count := NextEvent(program[i].statement, names, count, i, ss);
      normalized := normalized + [event];
    }
    assert normalized == Canonical(ss);
    forall i | 0 <= i < |ss| ensures RowAs(ss, ss[i], normalized[i]) {
      CanonicalRow(ss, i);
    }
  }

  /** The names given before statement i. */
  ghost predicate Naming(names: map<string, string>, count: nat, ss: seq<Statement>, i: nat) {
    count == (if i < |Locals(ss)| then i else |Locals(ss)|) && Named(names, Locals(ss), count)
  }

  ghost predicate CanonicalSoFar(normalized: seq<seq<string>>, ss: seq<Statement>, i: nat) {
    i <= |ss| && normalized == Canonical(ss)[..i]
  }

  lemma RootNames(names: map<string, string>, d: seq<string>)
    requires names == map[VALUE := "$value", UNIT := "$unit"]
    ensures Named(names, d, 0)
  {
  }

  /** One event: a declaration takes the next name, the rest look names up. */
  method NextEvent(s: Statement, names: map<string, string>, count: nat, ghost i: nat, ghost ss: seq<Statement>)
    returns (event: seq<string>, names': map<string, string>, count': nat)
    requires Acceptable(ss) && i < |ss| && s == ss[i]
    requires Naming(names, count, ss, i)
    ensures Naming(names', count', ss, i + 1)
    ensures event == Canonical(ss)[i]
  {
    ghost var d := Locals(ss);
    LocalsFacts(ss);
    NamesKnown(ss, i);
    names', count' := names, count;
    if s.Declare? {
      assert s.target == d[count];
      NextName(names, d, count);
      var canonical := "v" + NatText(count);
      names', count' := names[s.target := canonical], count + 1;
      assert CanonicalEvent(d, s) == ["declare", canonical];
      event := ["declare", canonical];
    } else {
      assert count == |d| && d[..count] == d;
      event := Normalize(s, names, d);
    }
  }

  /** The normalised form of one executable statement. */
  method Normalize(s: Statement, names: map<string, string>, ghost d: seq<string>) returns (event: seq<string>)
    requires !s.Declare? && (HasTarget(s) ==> s.target in names)
    requires forall k :: 0 <= k < |Args(s)| ==> Args(s)[k] in names
    requires forall x :: x in names ==> names[x] == CanonicalName(d, x)
    ensures event == CanonicalEvent(d, s)
  {
    var args := Args(s);
    var operands := seq(|args|, k requires 0 <= k < |args| => names[args[k]]);
    assert operands == CanonicalNames(d, args);
    var head;
    match s {
      case Alias(target, _, _) => head := ["alias", names[target]];
      case Call(target, callee, _, _) => head := ["call", names[target], callee];
      case Rc(callee, _, _) => head := ["rc", callee];
      case Return(_, _) => head := ["return"];
    }
    assert head == CanonicalHead(d, s);
    event := head + operands;
  }

  /** The template verdict does not depend on the choice of local names. */
  lemma VerdictInvariant(ss: seq<Statement>, ts: seq<Statement>, m: map<string, string>, template: seq<seq<string>>)
    requires Acceptable(ss) && Acceptable(ts) && Renaming(m) && Renamed(m, ss, ts)
    ensures Canonical(ss) == template <==> Canonical(ts) == template
  {
    CanonicalIffRenamed(ss, ts);
  }
}
