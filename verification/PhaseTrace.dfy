/** The producer of phase-timing traces and its agreement with the classifier. */
module PhaseTrace {
  import opened Options
  import opened PhaseRows

  /** One child process of a suite with its two clock readings. */
  datatype Child = Child(stage: string, case_: string, start: int, end: int, exitCode: int)

  /** A preparation step: a compiler run that succeeded, or a cached runtime. */
  datatype Setup = Setup(stage: string, start: int, end: int, cached: bool)

  datatype Suite = Suite(name: string, start: int, children: seq<Child>, end: int)

  /** A run of the test runner as its clock saw it. */
  datatype Run = Run(start: int, setup: seq<Setup>, suites: seq<Suite>, finish: int, exitCode: int)

  function Max0(n: int): int { if n < 0 then 0 else n }

  // ---------------------------------------------------------------------
  // The rows a run should leave
  // ---------------------------------------------------------------------

  /** `_phase_command_category`. */
  function CommandCategory(stage: string): string {
    if stage == "ring_check" || stage == "ring_build" then "ring"
    else if stage == "run_exe" then "generated-program" else "clang"
  }

  function SubprocessRow(sequence: nat, suite: Option<string>, case_: string, stage: string, duration: int, exitCode: int): Row {
    Row(sequence, suite, Some(case_), stage, Max0(duration), true, true,
        if exitCode == 0 then "success" else "nonzero", Some(exitCode), Some(CommandCategory(stage)))
  }

  function PreparationRow(s: Setup, sequence: nat): Row {
    if s.cached then Row(sequence, None, Some("runner"), s.stage, Max0(s.end - s.start), false, true, "cached", None, None)
    else SubprocessRow(sequence, None, "runner", s.stage, s.end - s.start, 0)
  }

  function SetupTrace(ss: seq<Setup>, from: nat): (r: seq<Row>)
    ensures |r| == |ss|
  {
    if ss == [] then [] else [PreparationRow(ss[0], from + 1)] + SetupTrace(ss[1..], from + 1)
  }

  function ChildRow(name: string, c: Child, sequence: nat): Row {
    SubprocessRow(sequence, Some(name), c.case_, c.stage, c.end - c.start, c.exitCode)
  }

  function ChildTrace(name: string, cs: seq<Child>, from: nat): (r: seq<Row>)
    ensures |r| == |cs|
  {
    if cs == [] then []
    else
      [ChildRow(name, cs[0], from + 1)] + ChildTrace(name, cs[1..], from + 1)
  }

  function ChildTime(cs: seq<Child>): int {
    if cs == [] then 0 else cs[0].end - cs[0].start + ChildTime(cs[1..])
  }

  function SetupTime(ss: seq<Setup>): int {
    if ss == [] then 0 else ss[0].end - ss[0].start + SetupTime(ss[1..])
  }

  function SuiteTime(ss: seq<Suite>): int {
    if ss == [] then 0 else ss[0].end - ss[0].start + SuiteTime(ss[1..])
  }

  function SuiteSummary(name: string, stage: string, sequence: nat, duration: int): Row {
    Row(sequence, Some(name), None, stage, Max0(duration), true, true, "completed", None, None)
  }

  function SuiteTrace(s: Suite, from: nat): (r: seq<Row>)
    ensures |r| == |s.children| + 2
  {
    var n, total := |s.children|, s.end - s.start;
    ChildTrace(s.name, s.children, from) +
    [SuiteSummary(s.name, RESIDUAL, from + n + 1, Max0(total - ChildTime(s.children))),
     SuiteSummary(s.name, SUITE_TOTAL, from + n + 2, total)]
  }

  function SuitesTrace(ss: seq<Suite>, from: nat): seq<Row> {
    if ss == [] then []
    else SuiteTrace(ss[0], from) + SuitesTrace(ss[1..], from + |ss[0].children| + 2)
  }

  function RunnerSummary(stage: string, sequence: nat, duration: int, exitCode: int): Row {
    Row(sequence, None, Some("runner"), stage, Max0(duration), true, true,
        if exitCode == 0 then "success" else "failure", Some(exitCode), None)
  }

  function LeadingTrace(run: Run): seq<Row> {
    SetupTrace(run.setup, 0) + SuitesTrace(run.suites, |run.setup|)
  }

  function RunTrace(run: Run): seq<Row> {
    var body := LeadingTrace(run);
    var total := run.finish - run.start;
    body +
    [RunnerSummary(RESIDUAL, |body| + 1, Max0(total - SetupTime(run.setup) - SuiteTime(run.suites)), run.exitCode),
     RunnerSummary(RUNNER_TOTAL, |body| + 2, total, run.exitCode)]
  }

  // ---------------------------------------------------------------------
  // What the rows tell
  // ---------------------------------------------------------------------

  /** The row of a process that ran to completion: whose it is, how long it
      took and how it ended. */
  predicate TellsOf(r: Row, suite: Option<string>, case_: string, stage: string, start: int, end: int, exitCode: int) {
    r.suite == suite && r.case_ == Some(case_) && r.stage == stage && Lasts(r, start, end) &&
    r.executed && r.complete && r.exitCode == Some(exitCode) &&
    (exitCode == 0 ==> r.outcome == "success") && (exitCode != 0 ==> r.outcome == "nonzero") &&
    r.category == Some(
      match stage
      case "ring_check" => "ring"
      case "ring_build" => "ring"
      case "run_exe" => "generated-program"
      case _ => "clang")
  }

  /** The time between two clock readings, or none if the clock went back. */
  predicate Lasts(r: Row, start: int, end: int) {
    if start <= end then r.duration == end - start else r.duration == 0
  }

  predicate TellsOfSetup(r: Row, s: Setup) {
    if s.cached then
      r.suite == None && r.case_ == Some("runner") && r.stage == s.stage && Lasts(r, s.start, s.end) &&
      !r.executed && r.complete && r.outcome == "cached" && r.exitCode == None && r.category == None
    else TellsOf(r, None, "runner", s.stage, s.start, s.end, 0)
  }

  predicate TellsOfChild(r: Row, s: Suite, c: Child) {
    TellsOf(r, Some(s.name), c.case_, c.stage, c.start, c.end, c.exitCode)
  }

  /** The two rows that close a suite: what its children left of its time, and
      its time. */
  predicate ClosesSuite(residual: Row, total: Row, s: Suite) {
    residual.stage == "orchestration_residual" && total.stage == "suite_total" && Lasts(total, s.start, s.end) &&
    Lasts(residual, s.start + ChildTime(s.children), s.end) &&
    CompletedSuite(residual, s.name) && CompletedSuite(total, s.name)
  }

  predicate CompletedSuite(r: Row, name: string) {
    r.suite == Some(name) && r.case_ == None && r.executed && r.complete &&
    r.outcome == "completed" && r.exitCode == None && r.category == None
  }

  predicate ClosesRun(residual: Row, total: Row, run: Run) {
    residual.stage == "orchestration_residual" && total.stage == "runner_total" && Lasts(total, run.start, run.finish) &&
    Lasts(residual, run.start + SetupTime(run.setup) + SuiteTime(run.suites), run.finish) &&
    FinishedRun(residual, run.exitCode) && FinishedRun(total, run.exitCode)
  }

  predicate FinishedRun(r: Row, exitCode: int) {
    r.suite == None && r.case_ == Some("runner") && r.executed && r.complete &&
    (exitCode == 0 ==> r.outcome == "success") && (exitCode != 0 ==> r.outcome == "failure") &&
    r.exitCode == Some(exitCode) && r.category == None
  }

  /** How many rows the suites before the i-th leave: two more than they have
      children. */
  function RowsBefore(ss: seq<Suite>, i: nat): nat
    requires i <= |ss|
  {
    if i == 0 then 0 else RowsBefore(ss, i - 1) + |ss[i - 1].children| + 2
  }

  /** The rows of a suite: its children in order, then the two that close it. */
  predicate SuiteShown(rows: seq<Row>, s: Suite) {
    var n := |s.children|;
    |rows| == n + 2 && ClosesSuite(rows[n], rows[n + 1], s) &&
    forall j :: 0 <= j < n ==> TellsOfChild(rows[j], s, s.children[j])
  }

  predicate SuitesShown(rows: seq<Row>, from: nat, ss: seq<Suite>) {
    forall i :: 0 <= i < |ss| ==> SuiteShownAt(rows, from + RowsBefore(ss, i), ss[i])
  }

  predicate SuiteShownAt(rows: seq<Row>, at: nat, s: Suite) {
    at + |s.children| + 2 <= |rows| && SuiteShown(rows[at..at + |s.children| + 2], s)
  }

  predicate SetupsShown(rows: seq<Row>, run: Run) {
    |run.setup| <= |rows| && forall i :: 0 <= i < |run.setup| ==> TellsOfSetup(rows[i], run.setup[i])
  }

  predicate EndShown(rows: seq<Row>, run: Run) {
    |rows| == |run.setup| + RowsBefore(run.suites, |run.suites|) + 2 &&
    ClosesRun(rows[|rows| - 2], rows[|rows| - 1], run)
  }

  /** Every step of the run is in the trace at its place, as it happened, and
      nothing else is. */
  predicate Shown(rows: seq<Row>, run: Run) {
    Contiguous(rows) && SetupsShown(rows, run) && SuitesShown(rows, |run.setup|, run.suites) && EndShown(rows, run)
  }

  lemma {:induction false} SetupTraceAt(ss: seq<Setup>, from: nat, i: nat)
    requires i < |ss|
    ensures SetupTrace(ss, from)[i] == PreparationRow(ss[i], from + i + 1)
  {
    if i > 0 {
      SetupTraceAt(ss[1..], from + 1, i - 1);
    }
  }

  lemma {:induction false} ChildTraceAt(name: string, cs: seq<Child>, from: nat, i: nat)
    requires i < |cs|
    ensures ChildTrace(name, cs, from)[i] == ChildRow(name, cs[i], from + i + 1)
  {
    if i > 0 {
      ChildTraceAt(name, cs[1..], from + 1, i - 1);
    }
  }

  lemma {:induction false} RowsBeforeTail(ss: seq<Suite>, i: nat)
    requires 0 < i <= |ss|
    ensures RowsBefore(ss, i) == |ss[0].children| + 2 + RowsBefore(ss[1..], i - 1)
  {
    if i > 1 {
      RowsBeforeTail(ss, i - 1);
    }
  }

  lemma {:induction false} SuitesTraceLength(ss: seq<Suite>, from: nat)
    ensures |SuitesTrace(ss, from)| == RowsBefore(ss, |ss|)
  {
    if ss != [] {
      SuitesTraceLength(ss[1..], from + |ss[0].children| + 2);
      RowsBeforeTail(ss, |ss|);
    }
  }

  lemma OwnTrace(s: Suite, from: nat)
    ensures SuiteShown(SuiteTrace(s, from), s)
  {
    forall j | 0 <= j < |s.children| ensures TellsOfChild(SuiteTrace(s, from)[j], s, s.children[j]) {
      ChildTraceAt(s.name, s.children, from, j);
    }
  }

  lemma OwnNumbered(s: Suite, from: nat, i: nat)
    requires i < |s.children| + 2
    ensures SuiteTrace(s, from)[i].sequence == from + i + 1
  {
    if i < |s.children| {
      ChildTraceAt(s.name, s.children, from, i);
    }
  }

  /** The rows at a place are those a suite leaves. */
  predicate SuiteAt(rows: seq<Row>, at: nat, s: Suite, from: nat) {
    at + |s.children| + 2 <= |rows| && rows[at..at + |s.children| + 2] == SuiteTrace(s, from)
  }

  lemma {:induction false} SuitePartOf(ss: seq<Suite>, from: nat, i: nat, at: nat)
    requires i < |ss| && at == RowsBefore(ss, i)
    ensures SuiteAt(SuitesTrace(ss, from), at, ss[i], from + at)
  {
    var n := |ss[0].children| + 2;
    if i == 0 {
      assert SuitesTrace(ss, from)[..n] == SuiteTrace(ss[0], from);
    } else {
      RowsBeforeTail(ss, i);
      SuitePartOf(ss[1..], from + n, i - 1, at - n);
      SuiteAfter(SuiteTrace(ss[0], from), SuitesTrace(ss[1..], from + n), at - n, ss[i], from + at);
    }
  }

  lemma SuiteAfter(a: seq<Row>, b: seq<Row>, at: nat, s: Suite, from: nat)
    requires SuiteAt(b, at, s, from)
    ensures SuiteAt(a + b, |a| + at, s, from)
  {
    SuiteAmong(a, b, [], at, s, from);
    assert a + b + [] == a + b;
  }

  lemma SuiteAmong(a: seq<Row>, b: seq<Row>, c: seq<Row>, at: nat, s: Suite, from: nat)
    requires SuiteAt(b, at, s, from)
    ensures SuiteAt(a + b + c, |a| + at, s, from)
  {
    var n := |s.children| + 2;
    assert (a + b + c)[|a| + at..|a| + at + n] == b[at..at + n];
  }

  lemma {:induction false} SuitesNumbered(ss: seq<Suite>, from: nat, i: nat)
    requires i < |SuitesTrace(ss, from)|
    ensures SuitesTrace(ss, from)[i].sequence == from + i + 1
  {
    var first := SuiteTrace(ss[0], from);
    if i < |first| {
      OwnNumbered(ss[0], from, i);
    } else {
      SuitesNumbered(ss[1..], from + |first|, i - |first|);
    }
  }

  lemma RunNumbered(run: Run, i: nat)
    requires i < |RunTrace(run)|
    ensures RunTrace(run)[i].sequence == i + 1
  {
    var n, rest := |run.setup|, SuitesTrace(run.suites, |run.setup|);
    if i < n {
      SetupTraceAt(run.setup, 0, i);
    } else if i < n + |rest| {
      SuitesNumbered(run.suites, n, i - n);
    }
  }

  lemma RunShown(run: Run, rows: seq<Row>)
    requires rows == RunTrace(run)
    ensures Shown(rows, run)
  {
    RunIsContiguous(run);
    SetupOfRun(run);
    SuitesOfRun(run);
    EndOfRun(run);
  }

  lemma RunIsContiguous(run: Run)
    ensures Contiguous(RunTrace(run))
  {
    forall i | 0 <= i < |RunTrace(run)| ensures RunTrace(run)[i].sequence == i + 1 {
      RunNumbered(run, i);
    }
  }

  lemma EndOfRun(run: Run)
    ensures EndShown(RunTrace(run), run)
  {
    SuitesTraceLength(run.suites, |run.setup|);
  }

  lemma SetupOfRun(run: Run)
    ensures SetupsShown(RunTrace(run), run)
  {
    forall i | 0 <= i < |run.setup| ensures TellsOfSetup(RunTrace(run)[i], run.setup[i]) {
      SetupTraceAt(run.setup, 0, i);
      assert RunTrace(run)[i] == SetupTrace(run.setup, 0)[i];
    }
  }

  lemma SuitesOfRun(run: Run)
    ensures SuitesShown(RunTrace(run), |run.setup|, run.suites)
  {
    var a, b := SetupTrace(run.setup, 0), SuitesTrace(run.suites, |run.setup|);
    var c := RunTrace(run)[|a + b|..];
    assert RunTrace(run) == a + b + c;
    SuitesAmong(a, run.suites, c);
  }

  lemma SuitesAmong(a: seq<Row>, ss: seq<Suite>, c: seq<Row>)
    ensures SuitesShown(a + SuitesTrace(ss, |a|) + c, |a|, ss)
  {
    var b := SuitesTrace(ss, |a|);
    forall i | 0 <= i < |ss| ensures SuiteShownAt(a + b + c, |a| + RowsBefore(ss, i), ss[i]) {
      SuitePartOf(ss, |a|, i, RowsBefore(ss, i));
      SuiteIsShown(a, b, c, RowsBefore(ss, i), ss[i], |a| + RowsBefore(ss, i));
    }
  }

  lemma SuiteIsShown(a: seq<Row>, b: seq<Row>, c: seq<Row>, at: nat, s: Suite, from: nat)
    requires SuiteAt(b, at, s, from)
    ensures SuiteShownAt(a + b + c, |a| + at, s)
  {
    SuiteAmong(a, b, c, at, s, from);
    OwnTrace(s, from);
  }

  // ---------------------------------------------------------------------
  // The producer
  // ---------------------------------------------------------------------

  datatype SuiteState = SuiteState(name: string, started: int, childDuration: int)

  class PhaseTimingTrace {
    var rows: seq<Row>
    var sequence: nat
    var runnerStarted: int
    var runnerAccounted: int
    var suiteState: Option<SuiteState>
    var finished: bool

    constructor (now: int)
      ensures rows == [] && sequence == 0 && runnerStarted == now && runnerAccounted == 0
      ensures suiteState == None && !finished
    {
      rows, sequence, runnerStarted, runnerAccounted, suiteState, finished := [], 0, now, 0, None, false;
    }

    method Emit(suite: Option<string>, case_: Option<string>, stage: string, duration: int, executed: bool,
                complete: bool, outcome: string, exitCode: Option<int>, category: Option<string>)
      modifies `rows, `sequence
      ensures sequence == old(sequence) + 1
      ensures rows == old(rows) +
        [Row(sequence, suite, case_, stage, Max0(duration), executed, complete, outcome, exitCode, category)]
    {
      sequence := sequence + 1;
      rows := rows + [Row(sequence, suite, case_, stage, Max0(duration), executed, complete, outcome, exitCode, category)];
    }

    /** Time is charged to the suite it was spent in, else to the runner. */
    method AccountChild(suite: Option<string>, duration: int)
      modifies `suiteState, `runnerAccounted
      ensures if old(suiteState).Some? && suite == Some(old(suiteState).value.name) then
          runnerAccounted == old(runnerAccounted) &&
          suiteState == Some(old(suiteState).value.(childDuration := old(suiteState).value.childDuration + duration))
        else runnerAccounted == old(runnerAccounted) + duration && suiteState == old(suiteState)
    {
      if suiteState.Some? && suite == Some(suiteState.value.name) {
        suiteState := Some(suiteState.value.(childDuration := suiteState.value.childDuration + duration));
      } else {
        runnerAccounted := runnerAccounted + duration;
      }
    }

    /** The cached runtime, recorded without running a process. */
    method RecordStage(stage: string, duration: int)
      requires suiteState.None?
      modifies `rows, `sequence, `runnerAccounted, `suiteState
      ensures runnerAccounted == old(runnerAccounted) + duration && sequence == old(sequence) + 1 && suiteState.None?
      ensures rows == old(rows) +
        [Row(sequence, None, Some("runner"), stage, Max0(duration), false, true, "cached", None, None)]
    {
      AccountChild(None, duration);
      Emit(None, Some("runner"), stage, duration, false, true, "cached", None, None);
    }

    /** `run_subprocess` for a child that ran to completion. */
    method RunSubprocess(suite: Option<string>, case_: string, stage: string, start: int, end: int, exitCode: int)
      requires suiteState.Some? ==> suite == Some(suiteState.value.name)
      requires suiteState.None? ==> suite.None?
      modifies `rows, `sequence, `runnerAccounted, `suiteState
      ensures sequence == old(sequence) + 1
      ensures rows == old(rows) + [SubprocessRow(sequence, suite, case_, stage, end - start, exitCode)]
      ensures TellsOf(rows[|old(rows)|], suite, case_, stage, start, end, exitCode)
      ensures old(suiteState).None? ==>
        suiteState.None? && runnerAccounted == old(runnerAccounted) + (end - start)
      ensures old(suiteState).Some? ==>
        runnerAccounted == old(runnerAccounted) &&
        suiteState == Some(old(suiteState).value.(childDuration := old(suiteState).value.childDuration + (end - start)))
    {
      AccountChild(suite, end - start);
      Emit(suite, Some(case_), stage, end - start, true, true,
           if exitCode == 0 then "success" else "nonzero", Some(exitCode), Some(CommandCategory(stage)));
    }

    /** `run_suite` for a callback that completes. */
    method RunSuite(s: Suite)
      requires suiteState.None?
      modifies `rows, `sequence, `runnerAccounted, `suiteState
      ensures suiteState.None? && runnerAccounted == old(runnerAccounted) + (s.end - s.start)
      ensures sequence == old(sequence) + |s.children| + 2
      ensures rows == old(rows) + SuiteTrace(s, old(sequence))
    {
      suiteState := Some(SuiteState(s.name, s.start, 0));
      RunChildren(s.name, s.children);
      var duration := s.end - suiteState.value.started;
      var residual := Max0(duration - suiteState.value.childDuration);
      suiteState := None;
      Emit(Some(s.name), None, RESIDUAL, residual, true, true, "completed", None, None);
      Emit(Some(s.name), None, SUITE_TOTAL, duration, true, true, "completed", None, None);
      runnerAccounted := runnerAccounted + duration;
      assert rows == old(rows) + SuiteTrace(s, old(sequence));
    }

    /** The callback of a suite: its children one after the other. */
    method RunChildren(name: string, cs: seq<Child>)
      requires suiteState.Some? && suiteState.value.name == name
      modifies `rows, `sequence, `runnerAccounted, `suiteState
      ensures runnerAccounted == old(runnerAccounted) && sequence == old(sequence) + |cs|
      ensures suiteState ==
        Some(old(suiteState).value.(childDuration := old(suiteState).value.childDuration + ChildTime(cs)))
      ensures rows == old(rows) + ChildTrace(name, cs, old(sequence))
    {
      ghost var before := suiteState.value;
      for i := 0 to |cs|
        invariant sequence == old(sequence) + i && runnerAccounted == old(runnerAccounted)
        invariant suiteState.Some? && suiteState == Some(before.(childDuration := suiteState.value.childDuration))
        invariant suiteState.value.childDuration + ChildTime(cs[i..]) == before.childDuration + ChildTime(cs)
        invariant ChildrenToCome(rows, name, cs[i..], sequence, old(rows) + ChildTrace(name, cs, old(sequence)))
      {
        ChildTraceStep(rows, name, cs, i, sequence, old(rows) + ChildTrace(name, cs, old(sequence)));
        RunSubprocess(Some(name), cs[i].case_, cs[i].stage, cs[i].start, cs[i].end, cs[i].exitCode);
      }
    }

    /** `finish`, once. */
    method Finish(now: int, exitCode: int)
      modifies this
      ensures finished
      ensures old(finished) ==> rows == old(rows)
      ensures !old(finished) ==>
        rows == old(rows) +
        [RunnerSummary(RESIDUAL, old(sequence) + 1, Max0(now - old(runnerStarted) - old(runnerAccounted)), exitCode),
         RunnerSummary(RUNNER_TOTAL, old(sequence) + 2, now - old(runnerStarted), exitCode)]
    {
      if finished {
        return;
      }
      finished := true;
      var duration := now - runnerStarted;
      var residual := Max0(duration - runnerAccounted);
      var outcome := if exitCode == 0 then "success" else "failure";
      Emit(None, Some("runner"), RESIDUAL, residual, true, true, outcome, Some(exitCode), None);
      Emit(None, Some("runner"), RUNNER_TOTAL, duration, true, true, outcome, Some(exitCode), None);
    }
  }

  /** Rows emitted and children to come make up the whole. */
  ghost predicate ChildrenToCome(rows: seq<Row>, name: string, cs: seq<Child>, from: nat, whole: seq<Row>) {
    rows + ChildTrace(name, cs, from) == whole
  }

  lemma ChildTraceStep(rows: seq<Row>, name: string, cs: seq<Child>, i: nat, from: nat, whole: seq<Row>)
    requires i < |cs| && ChildrenToCome(rows, name, cs[i..], from, whole)
    ensures ChildrenToCome(rows + [ChildRow(name, cs[i], from + 1)], name, cs[i + 1..], from + 1, whole)
    ensures ChildTime(cs[i..]) == cs[i].end - cs[i].start + ChildTime(cs[i + 1..])
  {
    assert cs[i..][1..] == cs[i + 1..];
    Associative(rows, [ChildRow(name, cs[i], from + 1)], ChildTrace(name, cs[i + 1..], from + 1));
  }

  /** Rows emitted and setup steps to come make up the whole. */
  ghost predicate SetupToCome(rows: seq<Row>, ss: seq<Setup>, from: nat, whole: seq<Row>) {
    rows + SetupTrace(ss, from) == whole
  }

  lemma SetupTraceStep(rows: seq<Row>, ss: seq<Setup>, i: nat, from: nat, whole: seq<Row>)
    requires i < |ss| && SetupToCome(rows, ss[i..], from, whole)
    ensures SetupToCome(rows + [PreparationRow(ss[i], from + 1)], ss[i + 1..], from + 1, whole)
    ensures SetupTime(ss[i..]) == ss[i].end - ss[i].start + SetupTime(ss[i + 1..])
  {
    assert ss[i..][1..] == ss[i + 1..];
    Associative(rows, [PreparationRow(ss[i], from + 1)], SetupTrace(ss[i + 1..], from + 1));
  }

  method ProduceSetup(trace: PhaseTimingTrace, ss: seq<Setup>)
    requires trace.suiteState.None? && trace.rows == [] && trace.sequence == 0
    modifies trace
    ensures trace.suiteState.None? && trace.sequence == |ss| && trace.rows == SetupTrace(ss, 0)
    ensures trace.runnerAccounted == old(trace.runnerAccounted) + SetupTime(ss)
    ensures trace.finished == old(trace.finished) && trace.runnerStarted == old(trace.runnerStarted)
  {
    for i := 0 to |ss|
      invariant trace.sequence == i && trace.suiteState.None?
      invariant trace.finished == old(trace.finished) && trace.runnerStarted == old(trace.runnerStarted)
      invariant trace.runnerAccounted + SetupTime(ss[i..]) == old(trace.runnerAccounted) + SetupTime(ss)
      invariant SetupToCome(trace.rows, ss[i..], i, SetupTrace(ss, 0))
    {
      SetupTraceStep(trace.rows, ss, i, i, SetupTrace(ss, 0));
      var s := ss[i];
      if s.cached {
        trace.RecordStage(s.stage, s.end - s.start);
      } else {
        trace.RunSubprocess(None, "runner", s.stage, s.start, s.end, 0);
      }
    }
  }

  method ProduceSuites(trace: PhaseTimingTrace, ss: seq<Suite>)
    requires trace.suiteState.None? && trace.sequence == |trace.rows|
    modifies trace
    ensures trace.suiteState.None? && trace.sequence == |trace.rows|
    ensures trace.rows == old(trace.rows) + SuitesTrace(ss, old(trace.sequence))
    ensures trace.runnerAccounted == old(trace.runnerAccounted) + SuiteTime(ss)
    ensures trace.finished == old(trace.finished) && trace.runnerStarted == old(trace.runnerStarted)
  {
    for i := 0 to |ss|
      invariant trace.suiteState.None? && trace.sequence == |trace.rows|
      invariant trace.finished == old(trace.finished) && trace.runnerStarted == old(trace.runnerStarted)
      invariant trace.runnerAccounted + SuiteTime(ss[i..]) == old(trace.runnerAccounted) + SuiteTime(ss)
      invariant trace.rows + SuitesTrace(ss[i..], trace.sequence) ==
        old(trace.rows) + SuitesTrace(ss, old(trace.sequence))
    {
      SuitesTraceStep(trace.rows, ss, i, trace.sequence);
      trace.RunSuite(ss[i]);
    }
  }

  /** Moving one suite from the trace to come to the rows emitted. */
  lemma SuitesTraceStep(rows: seq<Row>, ss: seq<Suite>, i: nat, from: nat)
    requires i < |ss|
    ensures rows + SuitesTrace(ss[i..], from) ==
      rows + SuiteTrace(ss[i], from) + SuitesTrace(ss[i + 1..], from + |ss[i].children| + 2)
    ensures SuiteTime(ss[i..]) == ss[i].end - ss[i].start + SuiteTime(ss[i + 1..])
  {
    assert ss[i..][1..] == ss[i + 1..];
    Associative(rows, SuiteTrace(ss[i], from), SuitesTrace(ss[i + 1..], from + |ss[i].children| + 2));
  }

  lemma Associative(a: seq<Row>, b: seq<Row>, c: seq<Row>)
    ensures a + (b + c) == (a + b) + c
  {
  }

  /** A whole run of the producer. */
  method Produce(run: Run) returns (trace: PhaseTimingTrace)
    ensures fresh(trace) && trace.rows == RunTrace(run)
    ensures Shown(trace.rows, run)
  {
    trace := new PhaseTimingTrace(run.start);
    ProduceSetup(trace, run.setup);
    ProduceSuites(trace, run.suites);
    trace.Finish(run.finish, run.exitCode);
    RunShown(run, trace.rows);
  }
}
