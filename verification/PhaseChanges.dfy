/** What one changed field does to a trace that was admissible: no field can be
    altered without the classifier noticing. */
module PhaseChanges {
  import opened Options
  import opened PhaseRows

  // ---------------------------------------------------------------------
  // Fields that a row by itself gives away
  // ---------------------------------------------------------------------

  /** How each outcome fixes the other fields of a row. */
  lemma OutcomeTable(r: Row, suites: seq<string>)
    requires RowSound(r, suites)
    ensures r.outcome == "success" ==> r.executed && r.complete && r.exitCode == Some(0)
    ensures r.outcome == "nonzero" ==> r.executed && r.exitCode.Some? && r.exitCode.value != 0
    ensures r.outcome == "failure" ==>
      r.executed && r.complete && r.exitCode.Some? && r.exitCode.value != 0 && r.suite == None && r.case_ == Some("runner")
    ensures r.outcome == "completed" ==> r.executed && r.complete && r.exitCode == None && r.suite.Some? && r.case_ == None
    ensures r.outcome in ["timeout", "exception", "interrupted"] ==> r.executed && !r.complete && r.exitCode == None
    ensures r.outcome == "spawn-error" ==> !r.executed && !r.complete && r.exitCode == None
    ensures r.outcome in ["cached", "missing-input"] ==>
      r.stage == "runtime_prepare" && !r.executed && (r.complete <==> r.outcome == "cached") && r.exitCode == None
    ensures r.outcome in ["success", "nonzero", "failure", "completed", "timeout", "exception", "interrupted",
                          "spawn-error", "cached", "missing-input"]
  {
  }

  /** Which stages there are, and whose rows they are on. */
  lemma StageTable(r: Row, suites: seq<string>)
    requires RowSound(r, suites)
    ensures ProcessRow(r) || r.stage == "orchestration_residual" || r.stage == "suite_total" || r.stage == "runner_total"
    ensures r.stage == "ring_build" || r.stage == "ring_check" ==> OfSuite(r, suites) && r.category == Some("ring")
    ensures r.stage == "clang_link" ==> OfSuite(r, suites) && r.category == Some("clang")
    ensures r.stage == "run_exe" ==> OfSuite(r, suites) && r.category == Some("generated-program")
    ensures r.stage == "compiler_anchor_compile" || r.stage == "compiler_runtime_compile" || r.stage == "compiler_link" ==>
      OfRunner(r) && r.category == Some("clang")
    ensures r.stage == "runtime_prepare" ==> OfRunner(r) && (r.category == None || r.category == Some("clang"))
    ensures r.stage == "suite_total" ==> r.suite.Some? && r.suite.value in suites && r.case_ == None && r.category == None
    ensures r.stage == "runner_total" ==> OfRunner(r) && r.category == None
    ensures r.stage == "orchestration_residual" ==>
      r.category == None && (OfRunner(r) || (r.suite.Some? && r.suite.value in suites && r.case_ == None))
  {
  }

  predicate OfSuite(r: Row, suites: seq<string>) {
    r.suite.Some? && r.suite.value in suites && r.case_.Some? && r.case_.value != ""
  }

  predicate OfRunner(r: Row) { r.suite == None && r.case_ == Some("runner") }

  /** Which preparation the selected suites call for. */
  lemma SetupFor(suites: seq<string>)
    ensures ExpectedSetup(suites) ==
      if "e2e" in suites || "golden" in suites then
        ["compiler_anchor_compile", "compiler_runtime_compile", "compiler_link", "runtime_prepare"]
      else if "rc" in suites || "self-compile" in suites || "structural" in suites then
        ["compiler_anchor_compile", "compiler_runtime_compile", "compiler_link"]
      else []
  {
    assert CompilerSuite("e2e") && CompilerSuite("golden") && CompilerSuite("rc") && CompilerSuite("self-compile") &&
      CompilerSuite("structural") && RuntimeSuite("golden");
  }

  /** One of the fields that a fine row cannot lose. */
  predicate OneFieldChanged(a: Row, b: Row) {
    a != b &&
    (b == a.(sequence := b.sequence) || b == a.(executed := b.executed) || b == a.(complete := b.complete) ||
     b == a.(outcome := b.outcome) || b == a.(category := b.category))
  }

  lemma FineRowPinned(a: Row, b: Row, suites: seq<string>)
    requires RowFine(a, suites) && OneFieldChanged(a, b) && a.sequence == b.sequence
    ensures !RowSound(b, suites)
  {
  }

  /** A number, a flag, an outcome or a category changed in one row of an
      admissible trace is a hard fault. */
  lemma OneFieldIsHard(rows: seq<Row>, suites: seq<string>, exitCode: Option<int>, wall: Option<int>, i: nat, r: Row)
    requires Admissible(rows, suites, exitCode, wall) && i < |rows| && OneFieldChanged(rows[i], r)
    ensures !TraceSound(rows[i := r], suites)
  {
    var after := rows[i := r];
    assert after[i] == r;
    if r.sequence == rows[i].sequence {
      FineRowPinned(rows[i], r, suites);
    } else {
      assert after[i].sequence != i + 1;
    }
  }

  // ---------------------------------------------------------------------
  // Durations and exit codes
  // ---------------------------------------------------------------------

  /** The same row with another duration or another exit code. */
  predicate SamePlace(a: Row, b: Row) {
    a.suite == b.suite && a.case_ == b.case_ && a.stage == b.stage && a.sequence == b.sequence
  }

  lemma {:induction false} FilterChanged(rows: seq<Row>, s: Selection, i: nat, r: Row) returns (j: nat)
    requires i < |rows| && SamePlace(rows[i], r) && Selects(s, r)
    ensures j < |Filter(rows, s)| && Filter(rows, s)[j] == rows[i]
    ensures Filter(rows[i := r], s) == Filter(rows, s)[j := r]
  {
    var first := if Selects(s, rows[0]) then [rows[0]] else [];
    if i == 0 {
      j := 0;
      assert rows[0 := r][1..] == rows[1..];
      assert ([rows[0]] + Filter(rows[1..], s))[0 := r] == [r] + Filter(rows[1..], s);
    } else {
      j := FilterChanged(rows[1..], s, i - 1, r);
      assert rows[i := r][1..] == rows[1..][i - 1 := r];
      assert (first + Filter(rows[1..], s))[|first| + j := r] == first + Filter(rows[1..], s)[j := r];
      j := |first| + j;
    }
  }

  lemma {:induction false} FilterUnchanged(rows: seq<Row>, s: Selection, i: nat, r: Row)
    requires i < |rows| && SamePlace(rows[i], r) && !Selects(s, r)
    ensures Filter(rows[i := r], s) == Filter(rows, s)
  {
    if i == 0 {
      assert rows[0 := r][1..] == rows[1..];
    } else {
      FilterUnchanged(rows[1..], s, i - 1, r);
      assert rows[i := r][1..] == rows[1..][i - 1 := r];
    }
  }

  lemma {:induction false} DurationsChanged(rows: seq<Row>, i: nat, r: Row)
    requires i < |rows|
    ensures Durations(rows[i := r]) == Durations(rows) - rows[i].duration + r.duration
  {
    if i == 0 {
      assert rows[0 := r][1..] == rows[1..];
    } else {
      DurationsChanged(rows[1..], i - 1, r);
      assert rows[i := r][1..] == rows[1..][i - 1 := r];
    }
  }

  /** The parts of a suite's time no longer add up. */
  lemma GroupNoticesDuration(group: seq<Row>, j: nat, r: Row)
    requires GroupFine(group) && Timed(group) && j < |group|
    requires SamePlace(group[j], r) && r.duration >= 0 && r.duration != group[j].duration
    ensures !GroupFine(group[j := r])
  {
    var n, after := |group|, group[j := r];
    assert Timed(after);
    if j < n - 2 {
      assert after[..n - 2] == group[..n - 2][j := r];
      DurationsChanged(group[..n - 2], j, r);
    } else {
      assert after[..n - 2] == group[..n - 2];
    }
  }

  lemma {:induction false} TotalsUnchanged(body: seq<Row>, suites: seq<string>, i: nat, r: Row)
    requires i < |body| && SamePlace(body[i], r) && r.suite == None
    ensures SuiteTotals(body[i := r], suites) == SuiteTotals(body, suites)
  {
    if suites != [] {
      FilterUnchanged(body, RowOf(suites[0]), i, r);
      TotalsUnchanged(body, suites[1..], i, r);
    }
  }

  /** Setup, suites and residual no longer add up to the runner total. */
  lemma SetupNoticesDuration(rows: seq<Row>, suites: seq<string>, i: nat, r: Row)
    requires HasFinalPair(rows) && Accounted(rows, suites) && i < |rows| - 2
    requires SamePlace(rows[i], r) && r.duration != rows[i].duration && Selects(SetupRow, r)
    ensures HasFinalPair(rows[i := r]) && !Accounted(rows[i := r], suites)
  {
    var body := Body(rows);
    assert Body(rows[i := r]) == body[i := r];
    var j := FilterChanged(body, SetupRow, i, r);
    DurationsChanged(SetupRows(body), j, r);
    TotalsUnchanged(body, suites, i, r);
  }

  lemma SuiteNoticesDuration(rows: seq<Row>, suites: seq<string>, i: nat, r: Row)
    requires RowsFine(rows, suites) && HasFinalPair(rows) && GroupsFine(Body(rows), suites) && i < |rows| - 2
    requires SamePlace(rows[i], r) && r.duration >= 0 && r.duration != rows[i].duration && r.suite.Some?
    ensures HasFinalPair(rows[i := r]) && !GroupsFine(Body(rows[i := r]), suites)
  {
    var body, name := Body(rows), r.suite.value;
    assert RowFine(rows[i], suites);
    assert Body(rows[i := r]) == body[i := r];
    var j := FilterChanged(body, RowOf(name), i, r);
    FineIsTimed(rows, suites);
    assert Leading(rows) == body;
    GroupNoticesDuration(Group(body, name), j, r);
  }

  /** No duration of an admissible trace can be changed. */
  lemma DurationPinned(rows: seq<Row>, suites: seq<string>, exitCode: Option<int>, wall: Option<int>,
                       i: nat, d: int, exitCode': Option<int>, wall': Option<int>)
    requires Admissible(rows, suites, exitCode, wall) && i < |rows| && d != rows[i].duration
    ensures !Admissible(rows[i := rows[i].(duration := d)], suites, exitCode', wall')
  {
    var r := rows[i].(duration := d);
    var after := rows[i := r];
    assert RowFine(rows[i], suites);
    if d < 0 {
      assert !RowFine(after[i], suites);
    } else if i >= |rows| - 2 {
      assert Body(after) == Body(rows);
    } else if r.suite.Some? {
      SuiteNoticesDuration(rows, suites, i, r);
    } else {
      assert Body(rows)[i] == rows[i];
      assert !IsRunnerRow(Body(rows)[i], RESIDUAL) && !IsRunnerRow(Body(rows)[i], RUNNER_TOTAL);
      SetupNoticesDuration(rows, suites, i, r);
    }
  }

  lemma {:induction false} SameOrder(a: seq<Row>, b: seq<Row>)
    requires |a| == |b| && forall k :: 0 <= k < |a| ==> SamePlace(a[k], b[k])
    ensures SuiteOrder(a) == SuiteOrder(b) && Stages(a) == Stages(b)
  {
    if a != [] {
      SameOrder(a[..|a| - 1], b[..|b| - 1]);
    }
  }

  lemma SelectionChanged(body: seq<Row>, s: Selection, i: nat, r: Row)
    requires i < |body| && SamePlace(body[i], r)
    ensures SuiteOrder(Filter(body[i := r], s)) == SuiteOrder(Filter(body, s))
    ensures Stages(Filter(body[i := r], s)) == Stages(Filter(body, s))
  {
    if Selects(s, r) {
      var j := FilterChanged(body, s, i, r);
      SameOrder(Filter(body, s), Filter(body, s)[j := r]);
    } else {
      FilterUnchanged(body, s, i, r);
    }
  }

  lemma OrderIgnores(body: seq<Row>, suites: seq<string>, i: nat, r: Row)
    requires OrderFine(body, suites) && i < |body| && SamePlace(body[i], r)
    ensures OrderFine(body[i := r], suites)
  {
    var after := body[i := r];
    assert forall k :: 0 <= k < |body| ==> SamePlace(body[k], after[k]);
    SelectionChanged(body, SetupRow, i, r);
    SelectionChanged(body, SuiteRow, i, r);
  }

  /** The residual and total of a suite do not mind a child's exit code. */
  lemma GroupIgnores(body: seq<Row>, s: string, i: nat, r: Row)
    requires GroupFine(Group(body, s)) && i < |body| && SamePlace(body[i], r) && !IsSummary(r.stage)
    ensures GroupSound(Group(body[i := r], s))
  {
    if r.suite == Some(s) {
      var j := FilterChanged(body, RowOf(s), i, r);
    } else {
      FilterUnchanged(body, RowOf(s), i, r);
    }
  }

  predicate ProcessRow(r: Row) { IsSetupStage(r.stage) || IsChildStage(r.stage) }

  lemma ChangedCodeRow(a: Row, code: Option<int>, suites: seq<string>)
    requires RowFine(a, suites) && code != a.exitCode
    ensures RowSound(a.(exitCode := code), suites) <==>
      a.outcome in ["nonzero", "failure"] && code.Some? && code.value != 0
    ensures a.outcome == "nonzero" ==> ProcessRow(a)
    ensures a.outcome == "failure" ==> IsRunnerRow(a, RESIDUAL) || IsRunnerRow(a, RUNNER_TOTAL)
  {
  }

  lemma BodySoundStill(body: seq<Row>, suites: seq<string>, i: nat, r: Row)
    requires OrderFine(body, suites) && GroupsFine(body, suites)
    requires i < |body| && SamePlace(body[i], r) && !IsSummary(r.stage)
    ensures OrderSound(body[i := r], suites)
    ensures GroupsSound(body[i := r], SuiteOrder(SuiteRows(body[i := r])))
  {
    OrderIgnores(body, suites, i, r);
    forall s | s in suites ensures GroupSound(Group(body[i := r], s)) {
      GroupIgnores(body, s, i, r);
    }
  }

  lemma ProcessCodeChanged(rows: seq<Row>, suites: seq<string>, i: nat, r: Row)
    requires RowsFine(rows, suites) && Contiguous(rows) && HasFinalPair(rows) && i < |rows|
    requires OrderFine(Body(rows), suites) && GroupsFine(Body(rows), suites) && Agree(rows[|rows| - 2], rows[|rows| - 1])
    requires SamePlace(rows[i], r) && ProcessRow(r) && RowSound(r, suites)
    ensures TraceSound(rows[i := r], suites)
  {
    assert i < |rows| - 2;
    BodySoundStill(Body(rows), suites, i, r);
    assert rows[i := r][..|rows| - 2] == Body(rows)[i := r];
    SoundStill(rows, suites, i, r, rows[i := r]);
  }

  lemma SoundStill(rows: seq<Row>, suites: seq<string>, i: nat, r: Row, after: seq<Row>)
    requires RowsFine(rows, suites) && Contiguous(rows) && HasFinalPair(rows) && i < |rows| - 2
    requires SamePlace(rows[i], r) && RowSound(r, suites) && after == rows[i := r]
    requires OrderSound(after[..|rows| - 2], suites) && Agree(rows[|rows| - 2], rows[|rows| - 1])
    requires GroupsSound(after[..|rows| - 2], SuiteOrder(SuiteRows(after[..|rows| - 2])))
    ensures TraceSound(after, suites)
  {
    RowsSoundStill(rows, suites, i, r, after);
    SoundByParts(after, after[..|rows| - 2], suites);
  }

  lemma RowsSoundStill(rows: seq<Row>, suites: seq<string>, i: nat, r: Row, after: seq<Row>)
    requires RowsFine(rows, suites) && Contiguous(rows) && i < |rows|
    requires SamePlace(rows[i], r) && RowSound(r, suites) && after == rows[i := r]
    ensures Contiguous(after) && forall k :: 0 <= k < |after| ==> RowSound(after[k], suites)
  {
    forall k | 0 <= k < |after| ensures RowSound(after[k], suites) {
      assert RowFine(rows[k], suites);
    }
  }

  lemma SoundByParts(rows: seq<Row>, body: seq<Row>, suites: seq<string>)
    requires HasFinalPair(rows) && body == Body(rows) && Contiguous(rows)
    requires forall k :: 0 <= k < |rows| ==> RowSound(rows[k], suites)
    requires OrderSound(body, suites) && GroupsSound(body, SuiteOrder(SuiteRows(body)))
    requires Agree(rows[|rows| - 2], rows[|rows| - 1])
    ensures TraceSound(rows, suites)
  {
  }

  /** A changed exit code is a hard fault unless a process that failed is given
      another failing code: the one change that no other row contradicts. */
  lemma ExitCodeChanged(rows: seq<Row>, suites: seq<string>, exitCode: Option<int>, wall: Option<int>,
                        i: nat, code: Option<int>)
    requires Admissible(rows, suites, exitCode, wall) && i < |rows| && code != rows[i].exitCode
    ensures TraceSound(rows[i := rows[i].(exitCode := code)], suites) <==>
      rows[i].outcome == "nonzero" && code.Some? && code.value != 0
  {
    var r := rows[i].(exitCode := code);
    var after := rows[i := r];
    assert RowFine(rows[i], suites);
    ChangedCodeRow(rows[i], code, suites);
    assert i < |rows| - 2 ==> Body(rows)[i] == rows[i];
    if !RowSound(r, suites) {
      assert after[i] == r;
    } else if rows[i].outcome == "nonzero" {
      ProcessCodeChanged(rows, suites, i, r);
    } else {
      assert HasFinalPair(after) && !Agree(after[|rows| - 2], after[|rows| - 1]);
    }
  }
}
