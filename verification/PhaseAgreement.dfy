/** The producer's traces are what the classifier admits. */
module PhaseAgreement {
  import opened Options
  import opened PhaseRows
  import opened PhaseTrace

  // ---------------------------------------------------------------------
  // Clean runs
  // ---------------------------------------------------------------------

  /** Clock readings of children in order inside a suite. */
  predicate ChildrenFit(cs: seq<Child>, from: int, to: int) {
    if cs == [] then from <= to
    else from <= cs[0].start <= cs[0].end && ChildrenFit(cs[1..], cs[0].end, to)
  }

  predicate SetupFit(ss: seq<Setup>, from: int, to: int) {
    if ss == [] then from <= to
    else from <= ss[0].start <= ss[0].end && SetupFit(ss[1..], ss[0].end, to)
  }

  predicate SuitesFit(ss: seq<Suite>, from: int, to: int) {
    if ss == [] then from <= to
    else
      from <= ss[0].start && ChildrenFit(ss[0].children, ss[0].start, ss[0].end) && SuitesFit(ss[1..], ss[0].end, to)
  }

  function Names(ss: seq<Suite>): (r: seq<string>)
    ensures |r| == |ss|
  {
    seq(|ss|, i requires 0 <= i < |ss| => ss[i].name)
  }

  predicate Distinct(names: seq<string>) {
    forall i, j :: 0 <= i < j < |names| ==> names[i] != names[j]
  }

  function SetupStages(ss: seq<Setup>): (r: seq<string>)
    ensures |r| == |ss|
  {
    seq(|ss|, i requires 0 <= i < |ss| => ss[i].stage)
  }

  predicate ChildrenNamed(cs: seq<Child>) {
    forall i :: 0 <= i < |cs| ==> IsChildStage(cs[i].stage) && cs[i].case_ != ""
  }

  /** A run with a monotone clock, the setup stages of an uncached build, each
      suite once, and no timeout or spawn error. */
  ghost predicate CleanRun(run: Run) {
    (exists mid :: SetupFit(run.setup, run.start, mid) && SuitesFit(run.suites, mid, run.finish)) &&
    SetupStages(run.setup) == ExpectedSetup(Names(run.suites)) &&
    (forall i :: 0 <= i < |run.setup| && run.setup[i].cached ==> run.setup[i].stage == RUNTIME_STAGE) &&
    Distinct(Names(run.suites)) &&
    forall i :: 0 <= i < |run.suites| ==> run.suites[i].name != "" && ChildrenNamed(run.suites[i].children)
  }

  lemma {:induction false} ChildrenWithin(cs: seq<Child>, from: int, to: int)
    requires ChildrenFit(cs, from, to)
    ensures 0 <= ChildTime(cs) <= to - from
  {
    if cs != [] {
      ChildrenWithin(cs[1..], cs[0].end, to);
    }
  }

  lemma {:induction false} SetupWithin(ss: seq<Setup>, from: int, to: int)
    requires SetupFit(ss, from, to)
    ensures 0 <= SetupTime(ss) <= to - from
  {
    if ss != [] {
      SetupWithin(ss[1..], ss[0].end, to);
    }
  }

  lemma {:induction false} SuitesWithin(ss: seq<Suite>, from: int, to: int)
    requires SuitesFit(ss, from, to)
    ensures 0 <= SuiteTime(ss) <= to - from
    ensures forall i :: 0 <= i < |ss| ==>
      ChildrenFit(ss[i].children, ss[i].start, ss[i].end) && 0 <= ChildTime(ss[i].children) <= ss[i].end - ss[i].start
  {
    if ss != [] {
      ChildrenWithin(ss[0].children, ss[0].start, ss[0].end);
      SuitesWithin(ss[1..], ss[0].end, to);
      assert forall i :: 0 < i < |ss| ==> ss[i] == ss[1..][i - 1];
    }
  }

  /** On a clean run no residual is clipped: setup, suites and the runner's
      residual add up to the total, and so do the parts of each suite. */
  lemma ResidualsExact(run: Run)
    requires CleanRun(run)
    ensures run.finish - run.start - SetupTime(run.setup) - SuiteTime(run.suites) >= 0
    ensures SetupTime(run.setup) >= 0 && SuiteTime(run.suites) >= 0
    ensures forall i :: 0 <= i < |run.suites| ==>
      0 <= ChildTime(run.suites[i].children) <= run.suites[i].end - run.suites[i].start
  {
    var mid :| SetupFit(run.setup, run.start, mid) && SuitesFit(run.suites, mid, run.finish);
    SetupWithin(run.setup, run.start, mid);
    SuitesWithin(run.suites, mid, run.finish);
  }

  // ---------------------------------------------------------------------
  // The rows of a clean run are admissible
  // ---------------------------------------------------------------------

  lemma {:induction false} FilterConcat(a: seq<Row>, b: seq<Row>, s: Selection)
    ensures Filter(a + b, s) == Filter(a, s) + Filter(b, s)
  {
    if a == [] {
      assert a + b == b;
    } else {
      assert (a + b)[1..] == a[1..] + b;
      FilterConcat(a[1..], b, s);
      Associative(if Selects(s, a[0]) then [a[0]] else [], Filter(a[1..], s), Filter(b, s));
    }
  }

  lemma {:induction false} FilterAll(a: seq<Row>, s: Selection)
    requires forall i :: 0 <= i < |a| ==> Selects(s, a[i])
    ensures Filter(a, s) == a
  {
    if a != [] {
      FilterAll(a[1..], s);
      assert a == [a[0]] + a[1..];
    }
  }

  lemma {:induction false} FilterNone(a: seq<Row>, s: Selection)
    requires forall i :: 0 <= i < |a| ==> !Selects(s, a[i])
    ensures Filter(a, s) == []
  {
    if a != [] {
      FilterNone(a[1..], s);
    }
  }

  /** What every row of a clean suite looks like. */
  ghost predicate SuiteRowOk(r: Row, s: Suite, sequence: nat) {
    r.suite == Some(s.name) && r.sequence == sequence && r.duration >= 0 && r.complete &&
    (IsChildStage(r.stage) || r.stage == RESIDUAL || r.stage == SUITE_TOTAL) &&
    forall suites :: s.name in suites ==> RowFine(r, suites)
  }

  lemma ChildRowFine(s: Suite, c: Child, sequence: nat)
    requires s.name != "" && c.case_ != "" && IsChildStage(c.stage) && sequence >= 1
    ensures SuiteRowOk(ChildRow(s.name, c, sequence), s, sequence)
  {
  }

  lemma SummaryRowFine(s: Suite, stage: string, sequence: nat, duration: int)
    requires s.name != "" && sequence >= 1 && (stage == RESIDUAL || stage == SUITE_TOTAL)
    ensures SuiteRowOk(SuiteSummary(s.name, stage, sequence, duration), s, sequence)
  {
  }

  lemma SuiteTraceAt(s: Suite, from: nat, i: nat)
    requires s.name != "" && ChildrenNamed(s.children) && i < |s.children| + 2
    ensures SuiteRowOk(SuiteTrace(s, from)[i], s, from + i + 1)
  {
    var n, total := |s.children|, s.end - s.start;
    if i < n {
      ChildTraceAt(s.name, s.children, from, i);
      ChildRowFine(s, s.children[i], from + i + 1);
    } else if i == n {
      SummaryRowFine(s, RESIDUAL, from + i + 1, Max0(total - ChildTime(s.children)));
    } else {
      SummaryRowFine(s, SUITE_TOTAL, from + i + 1, total);
    }
  }

  predicate SuitesNamed(ss: seq<Suite>) {
    forall i :: 0 <= i < |ss| ==> ss[i].name != "" && ChildrenNamed(ss[i].children)
  }

  /** Every row of the suites' part belongs to one of them. */
  lemma {:induction false} SuitesTraceAt(ss: seq<Suite>, from: nat, i: nat) returns (k: nat)
    requires SuitesNamed(ss) && i < |SuitesTrace(ss, from)|
    ensures k < |ss| && SuiteRowOk(SuitesTrace(ss, from)[i], ss[k], from + i + 1)
  {
    var first := SuiteTrace(ss[0], from);
    if i < |first| {
      SuiteTraceAt(ss[0], from, i);
      k := 0;
    } else {
      k := SuitesTraceAt(ss[1..], from + |first|, i - |first|);
      k := k + 1;
    }
  }

  lemma {:induction false} SuiteOrderSame(a: seq<Row>, rows: seq<Row>, name: string)
    requires rows != [] && forall i :: 0 <= i < |rows| ==> rows[i].suite == Some(name)
    requires SuiteOrder(a) == [] || SuiteOrder(a)[|SuiteOrder(a)| - 1] != name
    ensures SuiteOrder(a + rows) == SuiteOrder(a) + [name]
  {
    var n := |rows|;
    assert (a + rows)[..|a + rows| - 1] == a + rows[..n - 1];
    if n > 1 {
      SuiteOrderSame(a, rows[..n - 1], name);
    } else {
      assert a + rows[..0] == a;
    }
  }

  lemma FirstInOrder(a: seq<Row>, s: Suite, from: nat)
    requires s.name != "" && ChildrenNamed(s.children)
    requires SuiteOrder(a) == [] || SuiteOrder(a)[|SuiteOrder(a)| - 1] != s.name
    ensures SuiteOrder(a + SuiteTrace(s, from)) == SuiteOrder(a) + [s.name]
  {
    var rows := SuiteTrace(s, from);
    forall i | 0 <= i < |rows| ensures rows[i].suite == Some(s.name) {
      SuiteTraceAt(s, from, i);
    }
    SuiteOrderSame(a, rows, s.name);
  }

  /** None of the suites repeats the last name of an order. */
  predicate Follows(order: seq<string>, ss: seq<Suite>) {
    order == [] || forall i :: 0 <= i < |ss| ==> order[|order| - 1] != ss[i].name
  }

  lemma FollowsNext(order: seq<string>, ss: seq<Suite>)
    requires ss != [] && Distinct(Names(ss))
    ensures Follows(order + [ss[0].name], ss[1..])
  {
    forall i | 0 <= i < |ss| - 1 ensures ss[1..][i].name != ss[0].name {
      NamesDiffer(ss, 0, i + 1);
    }
  }

  predicate IsSuites(rows: seq<Row>, ss: seq<Suite>, from: nat) {
    rows == SuitesTrace(ss, from)
  }

  lemma {:induction false} SuitesInOrder(a: seq<Row>, ss: seq<Suite>, from: nat, rows: seq<Row>)
    requires SuitesNamed(ss) && Distinct(Names(ss)) && Follows(SuiteOrder(a), ss) && IsSuites(rows, ss, from)
    ensures SuiteOrder(a + rows) == SuiteOrder(a) + Names(ss)
    decreases |ss|
  {
    if ss == [] {
      assert a + rows == a;
      assert SuiteOrder(a) + Names(ss) == SuiteOrder(a);
    } else {
      var first, rest, next := SplitTrace(ss, from, rows);
      FirstInOrder(a, ss[0], from);
      FollowsNext(SuiteOrder(a), ss);
      TailDistinct(ss);
      SuitesInOrder(a + first, ss[1..], next, rest);
      Associative(a, first, rest);
      NamesSplit(SuiteOrder(a), ss);
    }
  }

  lemma SplitTrace(ss: seq<Suite>, from: nat, rows: seq<Row>) returns (first: seq<Row>, rest: seq<Row>, next: nat)
    requires ss != [] && IsSuites(rows, ss, from)
    ensures first == SuiteTrace(ss[0], from) && rows == first + rest && IsSuites(rest, ss[1..], next)
  {
    next := from + |ss[0].children| + 2;
    first, rest := SuiteTrace(ss[0], from), SuitesTrace(ss[1..], next);
  }

  /** The suite order recovered from the suites' rows alone. */
  lemma AllSuitesInOrder(ss: seq<Suite>, from: nat)
    requires SuitesNamed(ss) && Distinct(Names(ss))
    ensures SuiteOrder(SuitesTrace(ss, from)) == Names(ss)
  {
    var rows := SuitesTrace(ss, from);
    SuitesInOrder([], ss, from, rows);
    assert [] + rows == rows;
    assert [] + Names(ss) == Names(ss);
  }

  lemma NamesSplit(before: seq<string>, ss: seq<Suite>)
    requires ss != []
    ensures before + Names(ss) == (before + [ss[0].name]) + Names(ss[1..])
  {
    assert Names(ss) == [ss[0].name] + Names(ss[1..]);
  }

  lemma NamesDiffer(ss: seq<Suite>, i: nat, j: nat)
    requires Distinct(Names(ss)) && i < j < |ss|
    ensures ss[i].name != ss[j].name
  {
    assert Names(ss)[i] != Names(ss)[j];
  }

  lemma TailDistinct(ss: seq<Suite>)
    requires ss != [] && SuitesNamed(ss) && Distinct(Names(ss))
    ensures SuitesNamed(ss[1..]) && Distinct(Names(ss[1..]))
  {
    forall i, j | 0 <= i < j < |ss| - 1 ensures Names(ss[1..])[i] != Names(ss[1..])[j] {
      NamesDiffer(ss, i + 1, j + 1);
    }
  }

  lemma OwnRows(s: Suite, from: nat, name: string)
    requires s.name != "" && ChildrenNamed(s.children)
    ensures Group(SuiteTrace(s, from), name) == if name == s.name then SuiteTrace(s, from) else []
  {
    var rows := SuiteTrace(s, from);
    forall i | 0 <= i < |rows| ensures rows[i].suite == Some(s.name) {
      SuiteTraceAt(s, from, i);
    }
    if name == s.name {
      FilterAll(rows, RowOf(name));
    } else {
      FilterNone(rows, RowOf(name));
    }
  }

  lemma NoRowsOfOthers(ss: seq<Suite>, from: nat, name: string)
    requires SuitesNamed(ss) && forall i :: 0 <= i < |ss| ==> ss[i].name != name
    ensures Group(SuitesTrace(ss, from), name) == []
  {
    var rows := SuitesTrace(ss, from);
    forall i: nat | i < |rows| ensures rows[i].suite != Some(name) {
      var k := SuitesTraceAt(ss, from, i);
    }
    FilterNone(rows, RowOf(name));
  }

  lemma GroupOfFirst(ss: seq<Suite>, from: nat)
    requires SuitesNamed(ss) && Distinct(Names(ss)) && ss != []
    ensures Group(SuitesTrace(ss, from), ss[0].name) == SuiteTrace(ss[0], from)
  {
    var next := from + |ss[0].children| + 2;
    FilterConcat(SuiteTrace(ss[0], from), SuitesTrace(ss[1..], next), RowOf(ss[0].name));
    OwnRows(ss[0], from, ss[0].name);
    TailDistinct(ss);
    forall i | 0 <= i < |ss| - 1 ensures ss[1..][i].name != ss[0].name {
      NamesDiffer(ss, 0, i + 1);
    }
    NoRowsOfOthers(ss[1..], next, ss[0].name);
  }

  lemma GroupOfLater(ss: seq<Suite>, from: nat, k: nat) returns (next: nat)
    requires SuitesNamed(ss) && Distinct(Names(ss)) && 0 < k < |ss|
    ensures Group(SuitesTrace(ss, from), ss[k].name) == Group(SuitesTrace(ss[1..], next), ss[1..][k - 1].name)
  {
    next := from + |ss[0].children| + 2;
    FilterConcat(SuiteTrace(ss[0], from), SuitesTrace(ss[1..], next), RowOf(ss[k].name));
    OwnRows(ss[0], from, ss[k].name);
    NamesDiffer(ss, 0, k);
  }

  /** The rows selected for a suite are exactly what that suite emitted. */
  lemma {:induction false} GroupOfSuite(ss: seq<Suite>, from: nat, k: nat) returns (at: nat)
    requires SuitesNamed(ss) && Distinct(Names(ss)) && k < |ss|
    ensures Group(SuitesTrace(ss, from), ss[k].name) == SuiteTrace(ss[k], at)
  {
    if k == 0 {
      GroupOfFirst(ss, from);
      at := from;
    } else {
      TailDistinct(ss);
      var next := GroupOfLater(ss, from, k);
      at := GroupOfSuite(ss[1..], next, k - 1);
    }
  }

  lemma {:induction false} ChildDurations(name: string, cs: seq<Child>, from: nat, lo: int, hi: int)
    requires ChildrenFit(cs, lo, hi)
    ensures Durations(ChildTrace(name, cs, from)) == ChildTime(cs)
  {
    if cs != [] {
      ChildDurations(name, cs[1..], from + 1, cs[0].end, hi);
    }
  }

  lemma {:induction false} SetupDurations(ss: seq<Setup>, from: nat, lo: int, hi: int)
    requires SetupFit(ss, lo, hi)
    ensures Durations(SetupTrace(ss, from)) == SetupTime(ss)
  {
    if ss != [] {
      SetupDurations(ss[1..], from + 1, ss[0].end, hi);
    }
  }

  lemma SuiteGroupFine(s: Suite, from: nat)
    requires s.name != "" && ChildrenNamed(s.children) && ChildrenFit(s.children, s.start, s.end)
    ensures GroupFine(SuiteTrace(s, from)) && LastDuration(SuiteTrace(s, from)) == s.end - s.start
  {
    var group := SuiteTrace(s, from);
    ChildrenWithin(s.children, s.start, s.end);
    ChildDurations(s.name, s.children, from, s.start, s.end);
    assert group[..|group| - 2] == ChildTrace(s.name, s.children, from);
    forall i | 0 <= i < |group| - 2 ensures !IsSummary(group[i].stage) {
      ChildTraceAt(s.name, s.children, from, i);
      assert group[i] == ChildTrace(s.name, s.children, from)[i];
      assert IsChildStage(s.children[i].stage);
    }
  }

  // ---------------------------------------------------------------------
  // The setup part
  // ---------------------------------------------------------------------

  /** The steps of an uncached build; only the runtime may come from a cache. */
  predicate SetupNamed(ss: seq<Setup>) {
    forall i :: 0 <= i < |ss| ==> IsSetupStage(ss[i].stage) && (ss[i].cached ==> ss[i].stage == RUNTIME_STAGE)
  }

  lemma SetupIsNamed(run: Run)
    requires CleanRun(run)
    ensures SetupNamed(run.setup)
  {
    forall i | 0 <= i < |run.setup| ensures IsSetupStage(run.setup[i].stage) {
      assert SetupStages(run.setup)[i] in ExpectedSetup(Names(run.suites));
    }
  }

  lemma SetupRowFine(s: Setup, sequence: nat, suites: seq<string>)
    requires IsSetupStage(s.stage) && (s.cached ==> s.stage == RUNTIME_STAGE) && sequence >= 1
    ensures RowFine(PreparationRow(s, sequence), suites) && Selects(SetupRow, PreparationRow(s, sequence))
  {
  }

  /** Every setup row is fine, numbered in order, and recognised as setup. */
  ghost predicate SetupPartOk(rows: seq<Row>, ss: seq<Setup>, suites: seq<string>) {
    |rows| == |ss| &&
    forall i :: 0 <= i < |rows| ==>
      RowFine(rows[i], suites) && rows[i].sequence == i + 1 && rows[i].suite.None? && IsSetupStage(rows[i].stage)
  }

  lemma SetupPart(ss: seq<Setup>, suites: seq<string>)
    requires SetupNamed(ss)
    ensures SetupPartOk(SetupTrace(ss, 0), ss, suites)
    ensures Stages(SetupTrace(ss, 0)) == SetupStages(ss)
  {
    var rows := SetupTrace(ss, 0);
    forall i | 0 <= i < |rows|
      ensures RowFine(rows[i], suites) && rows[i].sequence == i + 1 && rows[i].suite.None?
      ensures IsSetupStage(rows[i].stage) && rows[i].stage == ss[i].stage
    {
      SetupTraceAt(ss, 0, i);
      SetupRowFine(ss[i], i + 1, suites);
    }
  }

  /** Every suite row is fine, numbered in order, and of one of the suites. */
  ghost predicate SuitePartOk(rows: seq<Row>, from: nat, suites: seq<string>) {
    forall i :: 0 <= i < |rows| ==>
      RowFine(rows[i], suites) && rows[i].sequence == from + i + 1 && rows[i].suite.Some?
  }

  lemma SuitePart(ss: seq<Suite>, from: nat)
    requires SuitesNamed(ss)
    ensures SuitePartOk(SuitesTrace(ss, from), from, Names(ss))
  {
    var rows, suites := SuitesTrace(ss, from), Names(ss);
    forall i | 0 <= i < |rows|
      ensures RowFine(rows[i], suites) && rows[i].sequence == from + i + 1 && rows[i].suite.Some?
    {
      var k := SuitesTraceAt(ss, from, i);
      assert suites[k] == ss[k].name;
    }
  }

  // ---------------------------------------------------------------------
  // Both parts together
  // ---------------------------------------------------------------------

  /** What the classifier selects from setup rows followed by suite rows. */
  lemma Selected(a: seq<Row>, b: seq<Row>, ss: seq<Setup>, suites: seq<string>)
    requires SetupPartOk(a, ss, suites) && SuitePartOk(b, |a|, suites)
    ensures SetupRows(a + b) == a && SuiteRows(a + b) == b
    ensures forall name :: Group(a + b, name) == Group(b, name)
  {
    FilterConcat(a, b, SetupRow);
    FilterAll(a, SetupRow);
    FilterNone(b, SetupRow);
    FilterConcat(a, b, SuiteRow);
    FilterNone(a, SuiteRow);
    FilterAll(b, SuiteRow);
    forall name ensures Group(a + b, name) == Group(b, name) {
      FilterConcat(a, b, RowOf(name));
      FilterNone(a, RowOf(name));
    }
  }

  lemma PartsInOrder(a: seq<Row>, b: seq<Row>, ss: seq<Setup>, suites: seq<string>)
    requires SetupPartOk(a, ss, suites) && SuitePartOk(b, |a|, suites)
    requires Stages(a) == ExpectedSetup(suites) && SuiteOrder(b) == suites
    ensures OrderFine(a + b, suites)
  {
    Selected(a, b, ss, suites);
  }

  lemma OrderOfRun(run: Run)
    requires CleanRun(run)
    ensures OrderFine(LeadingTrace(run), Names(run.suites))
  {
    var suites, from := Names(run.suites), |run.setup|;
    var a, b := SetupTrace(run.setup, 0), SuitesTrace(run.suites, from);
    SetupIsNamed(run);
    SetupPart(run.setup, suites);
    SuitePart(run.suites, from);
    AllSuitesInOrder(run.suites, from);
    PartsInOrder(a, b, run.setup, suites);
  }

  lemma SelectedOfRun(run: Run)
    requires CleanRun(run)
    ensures SetupRows(LeadingTrace(run)) == SetupTrace(run.setup, 0)
    ensures forall name :: Group(LeadingTrace(run), name) == Group(SuitesTrace(run.suites, |run.setup|), name)
  {
    var suites, from := Names(run.suites), |run.setup|;
    SetupIsNamed(run);
    SetupPart(run.setup, suites);
    SuitePart(run.suites, from);
    Selected(SetupTrace(run.setup, 0), SuitesTrace(run.suites, from), run.setup, suites);
  }

  lemma GroupOfRun(run: Run, k: nat)
    requires CleanRun(run) && k < |run.suites|
    ensures GroupFine(Group(LeadingTrace(run), run.suites[k].name))
    ensures LastDuration(Group(LeadingTrace(run), run.suites[k].name)) == run.suites[k].end - run.suites[k].start
  {
    var mid :| SetupFit(run.setup, run.start, mid) && SuitesFit(run.suites, mid, run.finish);
    SuitesWithin(run.suites, mid, run.finish);
    SelectedOfRun(run);
    var at := GroupOfSuite(run.suites, |run.setup|, k);
    SuiteGroupFine(run.suites[k], at);
  }

  lemma GroupsOfRun(run: Run)
    requires CleanRun(run)
    ensures GroupsFine(LeadingTrace(run), Names(run.suites))
  {
    var suites := Names(run.suites);
    forall s | s in suites ensures GroupFine(Group(LeadingTrace(run), s)) {
      var k: nat :| k < |suites| && suites[k] == s;
      GroupOfRun(run, k);
    }
  }

  lemma {:induction false} TotalsOfRun(run: Run, ss: seq<Suite>)
    requires CleanRun(run) && |ss| <= |run.suites| && ss == run.suites[|run.suites| - |ss|..]
    ensures SuiteTotals(LeadingTrace(run), Names(ss)) == SuiteTime(ss)
    decreases |ss|
  {
    if ss != [] {
      var k := |run.suites| - |ss|;
      assert ss[0] == run.suites[k] && ss[1..] == run.suites[k + 1..];
      GroupOfRun(run, k);
      TotalsOfRun(run, ss[1..]);
      assert Names(ss)[1..] == Names(ss[1..]);
    }
  }

  // ---------------------------------------------------------------------
  // The whole trace
  // ---------------------------------------------------------------------

  lemma RunnerRowFine(stage: string, sequence: nat, duration: int, exitCode: int, suites: seq<string>)
    requires (stage == RESIDUAL || stage == RUNNER_TOTAL) && sequence >= 1
    ensures RowFine(RunnerSummary(stage, sequence, duration, exitCode), suites)
    ensures IsRunnerRow(RunnerSummary(stage, sequence, duration, exitCode), stage)
  {
  }

  /** Every row of a clean run is fine by itself and numbered in order. */
  lemma RowsOfRun(run: Run)
    requires CleanRun(run)
    ensures RowsFine(RunTrace(run), Names(run.suites)) && Contiguous(RunTrace(run))
  {
    var suites, from := Names(run.suites), |run.setup|;
    var a, b, rows := SetupTrace(run.setup, 0), SuitesTrace(run.suites, from), RunTrace(run);
    SetupIsNamed(run);
    SetupPart(run.setup, suites);
    SuitePart(run.suites, from);
    forall i | 0 <= i < |rows| ensures RowFine(rows[i], suites) && rows[i].sequence == i + 1 {
      if i < |a| {
        assert rows[i] == a[i];
      } else if i < |a| + |b| {
        assert rows[i] == b[i - |a|];
      } else {
        RunnerRowFine(rows[i].stage, i + 1, rows[i].duration, run.exitCode, suites);
      }
    }
  }

  lemma AccountedRun(run: Run)
    requires CleanRun(run)
    ensures HasFinalPair(RunTrace(run)) && Body(RunTrace(run)) == LeadingTrace(run)
    ensures Accounted(RunTrace(run), Names(run.suites))
  {
    var rows := RunTrace(run);
    assert Body(rows) == LeadingTrace(run);
    var mid :| SetupFit(run.setup, run.start, mid) && SuitesFit(run.suites, mid, run.finish);
    SetupDurations(run.setup, 0, run.start, mid);
    SelectedOfRun(run);
    assert run.suites[0..] == run.suites;
    TotalsOfRun(run, run.suites);
    ResidualsExact(run);
  }

  /** Producer and classifier agree: a clean run, enclosed by a wall time at
      least its own total, is admitted. */
  lemma CleanRunsAdmissible(run: Run, wall: int)
    requires CleanRun(run) && wall >= run.finish - run.start
    ensures Admissible(RunTrace(run), Names(run.suites), Some(run.exitCode), Some(wall))
  {
    ResidualsExact(run);
    RowsOfRun(run);
    OrderOfRun(run);
    GroupsOfRun(run);
    AccountedRun(run);
  }

  /** And a wall time below the total is never admitted. */
  lemma WallMattersExactly(run: Run, wall: int)
    requires CleanRun(run)
    ensures Admissible(RunTrace(run), Names(run.suites), Some(run.exitCode), Some(wall)) <==>
      wall >= run.finish - run.start
  {
    ResidualsExact(run);
    if wall >= run.finish - run.start {
      CleanRunsAdmissible(run, wall);
    }
  }

  /** What is admitted is not wrong either. */
  lemma AdmissibleIsSound(rows: seq<Row>, suites: seq<string>, exitCode: Option<int>, wall: Option<int>)
    requires Admissible(rows, suites, exitCode, wall)
    ensures TraceSound(rows, suites)
  {
    assert Leading(rows) == Body(rows);
    forall s | s in suites ensures GroupSound(Group(Body(rows), s)) {
      assert GroupFine(Group(Body(rows), s));
    }
  }

  /** The two programs run one after the other: never a hard fault, and none
      at all exactly if the wall time suffices. */
  method ProduceAndClassify(run: Run, wall: int) returns (hard: seq<Fault>, eligibility: seq<Fault>)
    requires CleanRun(run)
    ensures hard == [] && (eligibility == [] <==> wall >= run.finish - run.start)
  {
    var trace := Produce(run);
    WallMattersExactly(run, wall);
    CleanRunsAdmissible(run, run.finish - run.start);
    AdmissibleIsSound(trace.rows, Names(run.suites), Some(run.exitCode), Some(run.finish - run.start));
    hard, eligibility := Classify(trace.rows, Names(run.suites), Some(run.exitCode), Some(wall));
  }
}
