/** Rows of a phase-timing trace and what the benchmark's classifier demands
    of them. */
module PhaseRows {
  import opened Options

  datatype Row = Row(
    sequence: nat, suite: Option<string>, case_: Option<string>, stage: string, duration: int,
    executed: bool, complete: bool, outcome: string, exitCode: Option<int>, category: Option<string>)

  const COMPILER_STAGES: seq<string> := ["compiler_anchor_compile", "compiler_runtime_compile", "compiler_link"]
  const RUNTIME_STAGE: string := "runtime_prepare"
  const RESIDUAL: string := "orchestration_residual"
  const SUITE_TOTAL: string := "suite_total"
  const RUNNER_TOTAL: string := "runner_total"

  predicate CompilerSuite(suite: string) {
    suite == "e2e" || suite == "golden" || suite == "rc" || suite == "self-compile" || suite == "structural"
  }

  predicate RuntimeSuite(suite: string) { suite == "e2e" || suite == "golden" }

  /** `_runner_expected_setup_stages`. */
  function ExpectedSetup(suites: seq<string>): seq<string> {
    (if exists s :: s in suites && CompilerSuite(s) then COMPILER_STAGES else []) +
    (if exists s :: s in suites && RuntimeSuite(s) then [RUNTIME_STAGE] else [])
  }

  predicate IsSetupStage(stage: string) { stage in COMPILER_STAGES || stage == RUNTIME_STAGE }

  /** The command category a suite child of this stage must carry. */
  function ChildCategory(stage: string): Option<string> {
    if stage == "ring_build" || stage == "ring_check" then Some("ring")
    else if stage == "clang_link" then Some("clang")
    else if stage == "run_exe" then Some("generated-program")
    else None
  }

  predicate IsChildStage(stage: string) { ChildCategory(stage).Some? }

  predicate AllowedStage(stage: string) {
    IsSetupStage(stage) || IsChildStage(stage) || stage == RESIDUAL || stage == SUITE_TOTAL || stage == RUNNER_TOTAL
  }

  /** `_runner_subprocess_outcome_is_valid`. */
  predicate SubprocessOutcomeOk(r: Row) {
    if r.outcome == "success" then r.executed && r.complete && r.exitCode == Some(0)
    else if r.outcome == "nonzero" then r.executed && r.complete && r.exitCode.Some? && r.exitCode.value != 0
    else if r.outcome == "timeout" || r.outcome == "exception" then r.executed && !r.complete && r.exitCode.None?
    else if r.outcome == "spawn-error" then !r.executed && !r.complete && r.exitCode.None?
    else false
  }

  /** `_runner_summary_outcome_is_valid`. */
  predicate SummaryOutcomeOk(r: Row, runner: bool) {
    if !r.executed then false
    else if runner then
      if r.outcome == "success" then r.complete && r.exitCode == Some(0)
      else if r.outcome == "failure" then r.complete && r.exitCode.Some? && r.exitCode.value != 0
      else if r.outcome == "nonzero" then !r.complete && r.exitCode.Some? && r.exitCode.value != 0
      else if r.outcome == "timeout" || r.outcome == "exception" || r.outcome == "interrupted" then
        !r.complete && r.exitCode.None?
      else false
    else if r.outcome == "completed" then r.complete && r.exitCode.None?
    else if r.outcome == "nonzero" then !r.complete && r.exitCode.Some? && r.exitCode.value != 0
    else if r.outcome == "timeout" || r.outcome == "exception" then !r.complete && r.exitCode.None?
    else false
  }

  predicate IsRunnerRow(r: Row, stage: string) {
    r.suite.None? && r.case_ == Some("runner") && r.stage == stage
  }

  /** The checks that decide whether a row may enter the topology checks. */
  predicate TopologySafe(r: Row) {
    (r.suite.Some? ==> r.suite.value != "") && (r.case_.Some? ==> r.case_.value != "") && AllowedStage(r.stage) &&
    (r.category.Some? ==> r.category.value == "ring" || r.category.value == "clang" || r.category.value == "generated-program")
  }

  predicate PlainFieldsOk(r: Row, suites: seq<string>) {
    r.sequence >= 1 && (r.suite.Some? && r.suite.value != "" ==> r.suite.value in suites) &&
    r.duration >= 0 && r.outcome != ""
  }

  /** The stage-by-stage combination rules. */
  predicate CombinationOk(r: Row, suites: seq<string>) {
    if IsSetupStage(r.stage) then
      r.suite.None? && r.case_ == Some("runner") &&
      if r.stage == RUNTIME_STAGE && r.category.None? then
        (r.outcome == "cached" && !r.executed && r.complete && r.exitCode.None?) ||
        (r.outcome == "missing-input" && !r.executed && !r.complete && r.exitCode.None?)
      else r.category == Some("clang") && SubprocessOutcomeOk(r)
    else if IsChildStage(r.stage) then
      r.suite.Some? && r.suite.value in suites && r.case_.Some? && r.case_.value != "" &&
      r.category == ChildCategory(r.stage) && SubprocessOutcomeOk(r)
    else if (r.stage == RESIDUAL || r.stage == SUITE_TOTAL) && r.suite.Some? then
      r.case_.None? && r.category.None? && SummaryOutcomeOk(r, false)
    else if (r.stage == RESIDUAL || r.stage == RUNNER_TOTAL) && r.suite.None? && r.case_ == Some("runner") then
      r.category.None? && SummaryOutcomeOk(r, true)
    else false
  }

  /** Nothing is reported about the row by itself. */
  predicate RowFine(r: Row, suites: seq<string>) {
    TopologySafe(r) && PlainFieldsOk(r, suites) && r.complete && CombinationOk(r, suites)
  }

  // ---------------------------------------------------------------------
  // Topology and accounting
  // ---------------------------------------------------------------------

  /** The selections of rows the classifier makes. */
  datatype Selection = SetupRow | SuiteRow | RowOf(suite: string)

  predicate Selects(s: Selection, r: Row) {
    match s
    case SetupRow => r.suite.None? && IsSetupStage(r.stage)
    case SuiteRow => r.suite.Some?
    case RowOf(suite) => r.suite == Some(suite)
  }

  function Filter(rows: seq<Row>, s: Selection): seq<Row> {
    if rows == [] then [] else (if Selects(s, rows[0]) then [rows[0]] else []) + Filter(rows[1..], s)
  }

  function SetupRows(body: seq<Row>): seq<Row> { Filter(body, SetupRow) }

  function SuiteRows(body: seq<Row>): seq<Row> { Filter(body, SuiteRow) }

  function Group(body: seq<Row>, suite: string): seq<Row> { Filter(body, RowOf(suite)) }

  function Stages(rows: seq<Row>): (r: seq<string>)
    ensures |r| == |rows|
  {
    seq(|rows|, i requires 0 <= i < |rows| => rows[i].stage)
  }

  /** The suites of some suite rows, adjacent repetitions merged. */
  function SuiteOrder(rows: seq<Row>): seq<string> {
    if rows == [] then []
    else
      var before := SuiteOrder(rows[..|rows| - 1]);
      var last := rows[|rows| - 1].suite;
      if last.None? || (before != [] && before[|before| - 1] == last.value) then before else before + [last.value]
  }

  function Durations(rows: seq<Row>): int {
    if rows == [] then 0 else rows[0].duration + Durations(rows[1..])
  }

  predicate Agree(r: Row, s: Row) {
    r.complete == s.complete && r.outcome == s.outcome && r.exitCode == s.exitCode
  }

  predicate IsSummary(stage: string) { stage == RESIDUAL || stage == SUITE_TOTAL || stage == RUNNER_TOTAL }

  predicate HasTail(group: seq<Row>) {
    |group| >= 2 && group[|group| - 2].stage == RESIDUAL && group[|group| - 1].stage == SUITE_TOTAL
  }

  /** No negative duration, so that times can be added up. */
  predicate Timed(rows: seq<Row>) {
    forall i :: 0 <= i < |rows| ==> rows[i].duration >= 0
  }

  /** One suite: children, then a residual and a total that account for them. */
  predicate GroupFine(group: seq<Row>) {
    HasTail(group) &&
    (forall i :: 0 <= i < |group| - 2 ==> !IsSummary(group[i].stage)) &&
    Agree(group[|group| - 2], group[|group| - 1]) &&
    (Timed(group) ==> Durations(group[..|group| - 2]) + group[|group| - 2].duration == group[|group| - 1].duration)
  }

  /** The suite's total can be used for the runner's accounting. */
  predicate GroupCounts(group: seq<Row>) { HasTail(group) && Timed(group) }

  function LastDuration(group: seq<Row>): int {
    if group == [] then 0 else group[|group| - 1].duration
  }

  function SuiteTotals(body: seq<Row>, suites: seq<string>): int {
    if suites == [] then 0 else LastDuration(Group(body, suites[0])) + SuiteTotals(body, suites[1..])
  }

  predicate HasFinalPair(rows: seq<Row>) {
    |rows| >= 2 && IsRunnerRow(rows[|rows| - 2], RESIDUAL) && IsRunnerRow(rows[|rows| - 1], RUNNER_TOTAL)
  }

  predicate SetupFirst(body: seq<Row>) {
    forall i, j :: 0 <= i < j < |body| && body[i].suite.Some? ==> !(body[j].suite.None? && IsSetupStage(body[j].stage))
  }

  /** Setup stages and suites are the expected ones, in order. */
  predicate OrderFine(body: seq<Row>, suites: seq<string>) {
    NoEarlySummary(body) && SetupFirst(body) &&
    Stages(SetupRows(body)) == ExpectedSetup(suites) &&
    SuiteOrder(SuiteRows(body)) == suites
  }

  predicate GroupsFine(body: seq<Row>, suites: seq<string>) {
    forall s :: s in suites ==> GroupFine(Group(body, s))
  }

  predicate RowsFine(rows: seq<Row>, suites: seq<string>) {
    forall i :: 0 <= i < |rows| ==> RowFine(rows[i], suites)
  }

  predicate Contiguous(rows: seq<Row>) {
    forall i :: 0 <= i < |rows| ==> rows[i].sequence == i + 1
  }

  function Body(rows: seq<Row>): seq<Row>
    requires HasFinalPair(rows)
  {
    rows[..|rows| - 2]
  }

  predicate FinalFine(rows: seq<Row>, exitCode: Option<int>, wall: Option<int>)
    requires HasFinalPair(rows)
  {
    var residual, total := rows[|rows| - 2], rows[|rows| - 1];
    Agree(residual, total) && residual.exitCode == exitCode && total.exitCode == exitCode &&
    wall.Some? && total.duration <= wall.value
  }

  /** Setup, suites and the runner's own residual add up to the runner total. */
  predicate Accounted(rows: seq<Row>, suites: seq<string>)
    requires HasFinalPair(rows)
  {
    Durations(SetupRows(Body(rows))) + SuiteTotals(Body(rows), suites) + rows[|rows| - 2].duration ==
      rows[|rows| - 1].duration
  }

  /** What the classifier admits: every row in order, setup first, the suites
      in the expected order, and all the time accounted for. */
  predicate Admissible(rows: seq<Row>, suites: seq<string>, exitCode: Option<int>, wall: Option<int>) {
    RowsFine(rows, suites) && Contiguous(rows) && HasFinalPair(rows) &&
    OrderFine(Body(rows), suites) && GroupsFine(Body(rows), suites) &&
    FinalFine(rows, exitCode, wall) && Accounted(rows, suites)
  }

  // ---------------------------------------------------------------------
  // Wrong traces and unfinished ones
  // ---------------------------------------------------------------------

  /** A row that is at most incomplete. */
  predicate RowSound(r: Row, suites: seq<string>) {
    TopologySafe(r) && PlainFieldsOk(r, suites) && CombinationOk(r, suites)
  }

  /** Prefix test used to tell an incomplete trace from a wrong one. */
  predicate IsPrefix(a: seq<string>, b: seq<string>) { |a| <= |b| && a == b[..|a|] }

  predicate NoEarlySummary(body: seq<Row>) {
    forall i :: 0 <= i < |body| ==> !IsRunnerRow(body[i], RESIDUAL) && !IsRunnerRow(body[i], RUNNER_TOTAL)
  }

  predicate OrderSound(body: seq<Row>, suites: seq<string>) {
    NoEarlySummary(body) && SetupFirst(body) &&
    IsPrefix(Stages(SetupRows(body)), ExpectedSetup(suites)) && IsPrefix(SuiteOrder(SuiteRows(body)), suites)
  }

  predicate GroupSound(group: seq<Row>) {
    HasTail(group) ==>
      (forall i :: 0 <= i < |group| - 2 ==> !IsSummary(group[i].stage)) && Agree(group[|group| - 2], group[|group| - 1])
  }

  predicate GroupsSound(body: seq<Row>, order: seq<string>) {
    forall s :: s in order ==> GroupSound(Group(body, s))
  }

  /** Nothing in the trace is wrong, though it may be unfinished or its times
      may not add up. */
  predicate TraceSound(rows: seq<Row>, suites: seq<string>) {
    (forall i :: 0 <= i < |rows| ==> RowSound(rows[i], suites)) &&
    (rows != [] ==>
      Contiguous(rows) && OrderSound(Leading(rows), suites) &&
      GroupsSound(Leading(rows), SuiteOrder(SuiteRows(Leading(rows)))) &&
      (HasFinalPair(rows) ==> Agree(rows[|rows| - 2], rows[|rows| - 1])))
  }

  /** The rows before the runner's summary, complete or not. */
  function Leading(valid: seq<Row>): seq<Row>
    requires valid != []
  {
    var n := |valid|;
    if HasFinalPair(valid) then valid[..n - 2]
    else if IsRunnerRow(valid[n - 1], RESIDUAL) || IsRunnerRow(valid[n - 1], RUNNER_TOTAL) then valid[..n - 1]
    else valid
  }

  // ---------------------------------------------------------------------
  // The classifier
  // ---------------------------------------------------------------------

  datatype Fault =
    | BadSequence | UnselectedSuite | BadSuite | BadCase | UnknownStage | NegativeDuration | EmptyOutcome
    | UnknownCategory | BadCombination | NotContiguous | FinalPairDisagrees | EarlyRunnerSummary
    | SetupAfterSuite | SetupMismatch | SuiteOrderMismatch | MisplacedSummary | SuitePairDisagrees
    | Incomplete | NoRows | NoFinalPair | ExitCodeDisagrees | SetupIncomplete | SuitesIncomplete
    | NoSuiteTail | SuiteAccounting | RunnerAccounting | AccountingUnavailable | WallUnavailable | WallExceeded

  /** The row loop of `_classify_runner_phase_rows`. */
  method ClassifyRows(rows: seq<Row>, suites: seq<string>)
    returns (hard: seq<Fault>, eligibility: seq<Fault>, valid: seq<Row>)
    ensures hard == [] && eligibility == [] <==> RowsFine(rows, suites)
    ensures hard == [] <==> forall i :: 0 <= i < |rows| ==> RowSound(rows[i], suites)
    ensures hard == [] ==> valid == rows
  {
    hard, eligibility, valid := [], [], [];
    for i := 0 to |rows|
      invariant hard == [] && eligibility == [] <==> forall j :: 0 <= j < i ==> RowFine(rows[j], suites)
      invariant hard == [] <==> forall j :: 0 <= j < i ==> RowSound(rows[j], suites)
      invariant hard == [] ==> valid == rows[..i]
    {
      var h, e := RowFaults(rows[i], suites);
      hard, eligibility := hard + h, eligibility + e;
      if TopologySafe(rows[i]) {
        valid := valid + [rows[i]];
      }
    }
    assert rows[..|rows|] == rows;
  }

  method RowFaults(r: Row, suites: seq<string>) returns (hard: seq<Fault>, eligibility: seq<Fault>)
    ensures hard == [] && eligibility == [] <==> RowFine(r, suites)
    ensures hard == [] <==> RowSound(r, suites)
  {
    hard, eligibility := [], [];
    if r.sequence < 1 {
      hard := hard + [BadSequence];
    }
    if r.suite.Some? && r.suite.value == "" {
      hard := hard + [BadSuite];
    } else if r.suite.Some? && r.suite.value !in suites {
      hard := hard + [UnselectedSuite];
    }
    if r.case_.Some? && r.case_.value == "" {
      hard := hard + [BadCase];
    }
    if !AllowedStage(r.stage) {
      hard := hard + [UnknownStage];
    }
    if r.duration < 0 {
      hard := hard + [NegativeDuration];
    }
    if !r.complete {
      eligibility := eligibility + [Incomplete];
    }
    if r.outcome == "" {
      hard := hard + [EmptyOutcome];
    }
    if r.category.Some? && !(r.category.value == "ring" || r.category.value == "clang" || r.category.value == "generated-program") {
      hard := hard + [UnknownCategory];
    }
    if !TopologySafe(r) {
      return;
    }
    if !CombinationOk(r, suites) {
      hard := hard + [BadCombination];
    }
  }

  /** The checks on setup stages and suite order. */
  method ClassifyOrder(body: seq<Row>, suites: seq<string>) returns (hard: seq<Fault>, eligibility: seq<Fault>)
    ensures hard == [] && eligibility == [] <==> OrderFine(body, suites)
    ensures hard == [] <==> OrderSound(body, suites)
  {
    hard, eligibility := [], [];
    if exists i :: 0 <= i < |body| && (IsRunnerRow(body[i], RESIDUAL) || IsRunnerRow(body[i], RUNNER_TOTAL)) {
      hard := hard + [EarlyRunnerSummary];
    }
    if !SetupFirst(body) {
      hard := hard + [SetupAfterSuite];
    }
    var expected, actual := ExpectedSetup(suites), Stages(SetupRows(body));
    if actual != expected {
      if IsPrefix(actual, expected) {
        eligibility := eligibility + [SetupIncomplete];
      } else {
        hard := hard + [SetupMismatch];
      }
    }
    var order := SuiteOrder(SuiteRows(body));
    if order != suites {
      if IsPrefix(order, suites) {
        eligibility := eligibility + [SuitesIncomplete];
      } else {
        hard := hard + [SuiteOrderMismatch];
      }
    }
  }

  /** The suite loop. */
  method ClassifyGroups(body: seq<Row>, order: seq<string>)
    returns (hard: seq<Fault>, eligibility: seq<Fault>, totals: int, available: bool)
    ensures hard == [] && eligibility == [] <==> GroupsFine(body, order)
    ensures hard == [] <==> GroupsSound(body, order)
    ensures available <==> forall s :: s in order ==> GroupCounts(Group(body, s))
    ensures available ==> totals == SuiteTotals(body, order)
  {
    hard, eligibility, totals, available := [], [], 0, true;
    for i := 0 to |order|
      invariant hard == [] && eligibility == [] <==> forall j :: 0 <= j < i ==> GroupFine(Group(body, order[j]))
      invariant hard == [] <==> forall j :: 0 <= j < i ==> GroupSound(Group(body, order[j]))
      invariant available <==> forall j :: 0 <= j < i ==> GroupCounts(Group(body, order[j]))
      invariant available ==> totals + SuiteTotals(body, order[i..]) == SuiteTotals(body, order)
    {
      assert order[i..][1..] == order[i + 1..];
      var group := Group(body, order[i]);
      var h, e := ClassifyGroup(group);
      hard, eligibility := hard + h, eligibility + e;
      if GroupCounts(group) {
        totals := totals + LastDuration(group);
      } else {
        available := false;
      }
    }
  }

  method ClassifyGroup(group: seq<Row>) returns (hard: seq<Fault>, eligibility: seq<Fault>)
    ensures hard == [] && eligibility == [] <==> GroupFine(group)
    ensures hard == [] <==> GroupSound(group)
  {
    hard, eligibility := [], [];
    if !HasTail(group) {
      eligibility := [NoSuiteTail];
      return;
    }
    var n := |group|;
    if exists k :: 0 <= k < n - 2 && IsSummary(group[k].stage) {
      hard := hard + [MisplacedSummary];
    }
    if !Agree(group[n - 2], group[n - 1]) {
      hard := hard + [SuitePairDisagrees];
    }
    if Timed(group) && Durations(group[..n - 2]) + group[n - 2].duration != group[n - 1].duration {
      eligibility := eligibility + [SuiteAccounting];
    }
  }

  /** The checks on the final residual and total. */
  method ClassifyFinal(rows: seq<Row>, exitCode: Option<int>, wall: Option<int>, setup: seq<Row>, totals: int,
                       available: bool) returns (hard: seq<Fault>, eligibility: seq<Fault>)
    requires HasFinalPair(rows)
    ensures hard == [] && eligibility == [] <==>
      FinalFine(rows, exitCode, wall) && available && Timed(setup) && Timed(rows[|rows| - 2..]) &&
      Durations(setup) + totals + rows[|rows| - 2].duration == rows[|rows| - 1].duration
    ensures hard == [] <==> Agree(rows[|rows| - 2], rows[|rows| - 1])
  {
    hard, eligibility := [], [];
    var residual, total := rows[|rows| - 2], rows[|rows| - 1];
    if !Agree(residual, total) {
      hard := hard + [FinalPairDisagrees];
    }
    if residual.exitCode != exitCode || total.exitCode != exitCode {
      eligibility := eligibility + [ExitCodeDisagrees];
    }
    assert Timed(rows[|rows| - 2..]) <==> residual.duration >= 0 && total.duration >= 0 by {
      assert rows[|rows| - 2..] == [residual, total];
    }
    if available && Timed(setup) && residual.duration >= 0 && total.duration >= 0 {
      if Durations(setup) + totals + residual.duration != total.duration {
        eligibility := eligibility + [RunnerAccounting];
      }
    } else {
      eligibility := eligibility + [AccountingUnavailable];
    }
    if wall.None? {
      eligibility := eligibility + [WallUnavailable];
    } else if total.duration > wall.value {
      eligibility := eligibility + [WallExceeded];
    }
  }

  lemma {:induction false} FilterTimed(rows: seq<Row>, s: Selection)
    requires Timed(rows)
    ensures Timed(Filter(rows, s))
  {
    if rows != [] {
      assert forall i :: 0 <= i < |rows[1..]| ==> rows[1..][i] == rows[i + 1];
      FilterTimed(rows[1..], s);
    }
  }

  /** On fine rows every duration can be used. */
  lemma FineIsTimed(rows: seq<Row>, suites: seq<string>)
    requires RowsFine(rows, suites) && rows != []
    ensures Timed(SetupRows(Leading(rows))) && forall s :: Timed(Group(Leading(rows), s))
    ensures HasFinalPair(rows) ==> Timed(rows[|rows| - 2..])
  {
    var body := Leading(rows);
    assert forall i :: 0 <= i < |body| ==> body[i] == rows[i];
    FilterTimed(body, SetupRow);
    forall s ensures Timed(Group(body, s)) {
      FilterTimed(body, RowOf(s));
    }
  }

  /** `_classify_runner_phase_rows`: silent exactly on admissible traces, and
      without hard faults exactly on sound ones. */
  method Classify(rows: seq<Row>, suites: seq<string>, exitCode: Option<int>, wall: Option<int>)
    returns (hard: seq<Fault>, eligibility: seq<Fault>)
    ensures hard == [] && eligibility == [] <==> Admissible(rows, suites, exitCode, wall)
    ensures hard == [] <==> TraceSound(rows, suites)
  {
    var valid;
    hard, eligibility, valid := ClassifyRows(rows, suites);
    if valid == [] {
      eligibility := eligibility + [NoRows];
      return;
    }
    if !Contiguous(valid) {
      hard := hard + [NotContiguous];
    }
    var body := Leading(valid);
    if RowsFine(rows, suites) {
      FineIsTimed(rows, suites);
    }
    var h1, e1 := ClassifyOrder(body, suites);
    var order := SuiteOrder(SuiteRows(body));
    var h2, e2, totals, available := ClassifyGroups(body, order);
    var h3, e3 := [], [];
    if !HasFinalPair(valid) {
      e3 := [NoFinalPair];
    } else {
      h3, e3 := ClassifyFinal(valid, exitCode, wall, SetupRows(body), totals, available);
    }
    hard, eligibility := hard + h1 + h2 + h3, eligibility + e1 + e2 + e3;
  }
}
