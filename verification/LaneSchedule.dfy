/** The sampling scheduler of the check benchmark (`run_lane`) and the replay
    checker that later accepts or refuses its record lists. */
module LaneSchedule {
  import opened Options

  datatype Policy = DirectShort | Adaptive | FullGate

  const DIRECT_VALID_SAMPLES: nat := 21
  const DIRECT_WARMUPS: nat := 1
  const SHORT_VALID_SAMPLES: nat := 5
  const LONG_VALID_SAMPLES: nat := 3
  const FULL_GATE_VALID_SAMPLES: nat := 3
  const MAX_EXTRA_ATTEMPTS: nat := 2
  const LONG_LANE_THRESHOLD_NS: int := 300 * 1_000_000_000

  datatype Reason =
    | InvocationError | TimedOut | UnexpectedExit | RunnerRuntimeInvalid
    | RunnerSummaryMissing | ArtifactMissing | PhaseTraceInvalid | Warmup
    | MissingExactMetrics | MeasurementErrors | RssIncomplete

  /** What one invocation of the measured program produced. */
  datatype Attempt = Attempt(
    invocationError: bool, timedOut: bool, exitExpected: bool, runtimeErrors: bool,
    summaryExpected: bool, summaryPresent: bool, artifactsMissing: bool, phaseErrors: bool,
    exactMissing: bool, measurementErrors: bool, rssComplete: bool, wallNs: int)

  datatype Record = Record(index: nat, included: bool, reason: Option<Reason>, wallNs: int)

  function Warmups(policy: Policy): nat {
    if policy.DirectShort? then DIRECT_WARMUPS else 0
  }

  /** `derive_invalid_reason`. */
  function DeriveInvalidReason(policy: Policy, index: nat, a: Attempt): Option<Reason> {
    if a.invocationError then Some(InvocationError)
    else if a.timedOut then Some(TimedOut)
    else if !a.exitExpected then Some(UnexpectedExit)
    else if a.runtimeErrors then Some(RunnerRuntimeInvalid)
    else if a.summaryExpected && !a.summaryPresent then Some(RunnerSummaryMissing)
    else if a.artifactsMissing then Some(ArtifactMissing)
    else if a.phaseErrors then Some(PhaseTraceInvalid)
    else if index < Warmups(policy) then Some(Warmup)
    else if a.exactMissing then Some(MissingExactMetrics)
    else if a.measurementErrors then Some(MeasurementErrors)
    else if !a.rssComplete then Some(RssIncomplete)
    else None
  }

  /** `_is_replaceable_measurement_invalid`. */
  predicate Replaceable(r: Option<Reason>) {
    r.Some? && (r.value.RssIncomplete? || r.value.MissingExactMetrics? || r.value.MeasurementErrors?)
  }

  function Execute(policy: Policy, index: nat, a: Attempt): Record {
    var reason := DeriveInvalidReason(policy, index, a);
    Record(index, reason.None?, reason, a.wallNs)
  }

  /** The condition under which `run_lane` breaks off after a record. */
  predicate Fatal(r: Record) {
    r.reason.Some? && !r.reason.value.Warmup? && !Replaceable(r.reason)
  }

  function CountIncluded(rs: seq<Record>): nat {
    if rs == [] then 0 else CountIncluded(rs[..|rs| - 1]) + if rs[|rs| - 1].included then 1 else 0
  }

  function FirstIncluded(rs: seq<Record>): Option<Record> {
    if rs == [] then None else if rs[0].included then Some(rs[0]) else FirstIncluded(rs[1..])
  }

  function AdaptiveTarget(first: Record): nat {
    if first.wallNs >= LONG_LANE_THRESHOLD_NS then LONG_VALID_SAMPLES else SHORT_VALID_SAMPLES
  }

  // ---------------------------------------------------------------------
  // The scheduler
  // ---------------------------------------------------------------------

  /** The number of valid samples a lane with these records is aiming at. */
  function Target(policy: Policy, rs: seq<Record>): nat {
    match policy
    case DirectShort => DIRECT_VALID_SAMPLES
    case FullGate => FULL_GATE_VALID_SAMPLES
    case Adaptive =>
      match FirstIncluded(rs)
      case None => SHORT_VALID_SAMPLES
      case Some(first) => AdaptiveTarget(first)
  }

  ghost predicate Given(source: nat -> Record, rs: seq<Record>, i: nat) {
    i < |rs| ==> rs[i] == source(i)
  }

  /** Each record is what the source gives at its place. */
  ghost predicate From(source: nat -> Record, rs: seq<Record>) {
    forall i: nat {:trigger Given(source, rs, i)} :: Given(source, rs, i)
  }

  lemma FromNext(source: nat -> Record, rs: seq<Record>)
    requires From(source, rs)
    ensures From(source, rs + [source(|rs|)])
  {
    forall i: nat ensures Given(source, rs + [source(|rs|)], i) {
      assert Given(source, rs, i);
    }
  }

  /** The records that executing an oracle's attempts gives. */
  function Executions(policy: Policy, oracle: nat -> Attempt): (source: nat -> Record)
    ensures forall i :: source(i) == Execute(policy, i, oracle(i))
  {
    (i: nat) => Execute(policy, i, oracle(i))
  }

  /** The records after the warm-ups. */
  function Measured(policy: Policy, rs: seq<Record>): seq<Record> {
    if |rs| >= Warmups(policy) then rs[Warmups(policy)..] else []
  }

  predicate EndsFatally(rs: seq<Record>) {
    rs != [] && Fatal(rs[|rs| - 1])
  }

  /** No further invocation follows these records. */
  predicate Stops(policy: Policy, rs: seq<Record>) {
    EndsFatally(rs) ||
    (|rs| >= Warmups(policy) &&
     (CountIncluded(Measured(policy, rs)) >= Target(policy, rs) ||
      |rs| - Warmups(policy) >= Target(policy, rs) + MAX_EXTRA_ATTEMPTS))
  }

  ghost predicate GoesOn(policy: Policy, rs: seq<Record>, m: nat) {
    m < |rs| ==> !Stops(policy, rs[..m])
  }

  ghost predicate RunsThrough(policy: Policy, rs: seq<Record>) {
    forall m {:trigger GoesOn(policy, rs, m)} :: GoesOn(policy, rs, m)
  }

  /** The records of a lane: the invocations stop there and not before. */
  ghost predicate Lane(policy: Policy, source: nat -> Record, rs: seq<Record>) {
    From(source, rs) && RunsThrough(policy, rs) && Stops(policy, rs)
  }

  predicate Complete(policy: Policy, rs: seq<Record>) {
    CountIncluded(Measured(policy, rs)) == Target(policy, rs)
  }

  lemma {:induction false} FirstIncludedAppend(rs: seq<Record>, r: Record)
    ensures FirstIncluded(rs + [r]) ==
      if FirstIncluded(rs).Some? then FirstIncluded(rs) else if r.included then Some(r) else None
  {
    if rs != [] {
      assert (rs + [r])[1..] == rs[1..] + [r];
      FirstIncludedAppend(rs[1..], r);
    } else {
      assert ([] + [r])[1..] == [];
    }
  }

  lemma {:induction false} NoneCounted(rs: seq<Record>)
    ensures CountIncluded(rs) == 0 <==> FirstIncluded(rs).None?
    ensures CountIncluded(rs) <= |rs|
  {
    if rs != [] {
      NoneCounted(rs[..|rs| - 1]);
      assert rs == rs[..|rs| - 1] + [rs[|rs| - 1]];
      FirstIncludedAppend(rs[..|rs| - 1], rs[|rs| - 1]);
    }
  }

  lemma RunsThroughNext(policy: Policy, rs: seq<Record>, r: Record)
    requires RunsThrough(policy, rs) && !Stops(policy, rs)
    ensures RunsThrough(policy, rs + [r])
  {
    forall m: nat ensures GoesOn(policy, rs + [r], m) {
      if m <= |rs| {
        assert GoesOn(policy, rs, m);
        assert (rs + [r])[..m] == if m == |rs| then rs else rs[..m];
      }
    }
  }

  /** What the loop's optional target says about the records so far. */
  ghost predicate Tracks(policy: Policy, rs: seq<Record>, target: Option<nat>) {
    (target.Some? ==> target.value == Target(policy, rs)) &&
    (target.None? <==> policy.Adaptive? && FirstIncluded(rs).None?)
  }

  lemma TracksNext(policy: Policy, rs: seq<Record>, r: Record, target: Option<nat>)
    requires Tracks(policy, rs, target)
    ensures Tracks(policy, rs + [r], if r.included && target.None? then Some(AdaptiveTarget(r)) else target)
  {
    FirstIncludedAppend(rs, r);
  }

  lemma MeasuredNext(policy: Policy, rs: seq<Record>, r: Record)
    ensures CountIncluded(Measured(policy, rs + [r])) ==
      CountIncluded(Measured(policy, rs)) + if r.included && |rs| >= Warmups(policy) then 1 else 0
  {
    if |rs| >= Warmups(policy) {
      assert Measured(policy, rs + [r]) == Measured(policy, rs) + [r];
      assert (Measured(policy, rs) + [r])[..|Measured(policy, rs)|] == Measured(policy, rs);
    } else {
      assert Measured(policy, rs + [r]) == [];
    }
  }

  lemma StillRunning(policy: Policy, rs: seq<Record>, target: Option<nat>)
    requires Tracks(policy, rs, target)
    ensures !Stops(policy, rs) ==> |rs| <= DIRECT_VALID_SAMPLES + MAX_EXTRA_ATTEMPTS
    ensures Target(policy, rs) == if target.Some? then target.value else SHORT_VALID_SAMPLES
  {
  }

  // ---------------------------------------------------------------------
  // When a lane ends, in numbers
  // ---------------------------------------------------------------------

  /** What can be wrong with an attempt, in the order of the checks. */
  function Faults(policy: Policy, index: nat, a: Attempt): (r: seq<(bool, Reason)>)
    ensures |r| == 11
  {
    [(a.invocationError, InvocationError), (a.timedOut, TimedOut), (!a.exitExpected, UnexpectedExit),
     (a.runtimeErrors, RunnerRuntimeInvalid), (a.summaryExpected && !a.summaryPresent, RunnerSummaryMissing),
     (a.artifactsMissing, ArtifactMissing), (a.phaseErrors, PhaseTraceInvalid),
     (policy == DirectShort && index == 0, Warmup), (a.exactMissing, MissingExactMetrics),
     (a.measurementErrors, MeasurementErrors), (!a.rssComplete, RssIncomplete)]
  }

  predicate FirstOf(faults: seq<(bool, Reason)>, k: nat) {
    k < |faults| && faults[k].0 && forall j :: 0 <= j < k ==> !faults[j].0
  }

  /** A record is included exactly when nothing is wrong with its attempt, and
      of several faults the first is named. */
  lemma FirstFault(policy: Policy, index: nat, a: Attempt, r: Record)
    requires r == Execute(policy, index, a)
    ensures r.index == index && r.wallNs == a.wallNs && (r.included <==> r.reason == None)
    ensures r.included <==> forall k :: 0 <= k < 11 ==> !Faults(policy, index, a)[k].0
    ensures forall k: nat :: FirstOf(Faults(policy, index, a), k) ==> r.reason == Some(Faults(policy, index, a)[k].1)
  {
    var fs := Faults(policy, index, a);
    assert r.included <==>
      !fs[0].0 && !fs[1].0 && !fs[2].0 && !fs[3].0 && !fs[4].0 && !fs[5].0 && !fs[6].0 && !fs[7].0 && !fs[8].0 &&
      !fs[9].0 && !fs[10].0;
  }

  /** The first included record of a lane. */
  predicate FirstAt(rs: seq<Record>, i: nat) {
    i < |rs| && rs[i].included && forall j :: 0 <= j < i ==> !rs[j].included
  }

  /** 21 samples of a direct lane and 3 of a full gate; of an adaptive lane 3
      if its first included record took 300 seconds or more, otherwise 5. */
  ghost predicate AimsAt(policy: Policy, rs: seq<Record>, target: nat) {
    match policy
    case DirectShort => target == 21
    case FullGate => target == 3
    case Adaptive =>
      (forall i: nat :: FirstAt(rs, i) ==> target == if rs[i].wallNs >= 300_000_000_000 then 3 else 5) &&
      ((forall i :: 0 <= i < |rs| ==> !rs[i].included) ==> target == 5)
  }

  /** The places of the included records, a direct lane's warm-up aside. */
  function SamplePlaces(policy: Policy, rs: seq<Record>): set<nat> {
    set i: nat | i < |rs| && rs[i].included && (policy == DirectShort ==> i > 0)
  }

  /** All samples taken, or two more attempts than samples wanted. */
  ghost predicate Sampled(policy: Policy, rs: seq<Record>) {
    exists target: nat :: AimsAt(policy, rs, target) &&
      (|SamplePlaces(policy, rs)| >= target || |rs| >= target + 2 + if policy == DirectShort then 1 else 0)
  }

  /** A failure of the measured program or of its runner, which no further
      attempt could make up for. */
  predicate GivesUp(rs: seq<Record>) {
    rs != [] && rs[|rs| - 1].reason.Some? &&
    rs[|rs| - 1].reason.value in
      {InvocationError, TimedOut, UnexpectedExit, RunnerRuntimeInvalid, RunnerSummaryMissing, ArtifactMissing, PhaseTraceInvalid}
  }

  /** The lane ends here: it gives up, or it has its samples and is past the
      warm-up. */
  ghost predicate Ends(policy: Policy, rs: seq<Record>) {
    GivesUp(rs) || ((policy == DirectShort ==> rs != []) && Sampled(policy, rs))
  }

  /** These records and no fewer. */
  ghost predicate EndsJustHere(policy: Policy, rs: seq<Record>) {
    Ends(policy, rs) && forall m :: 0 <= m < |rs| ==> !Ends(policy, rs[..m])
  }

  lemma {:induction false} FirstIncludedAt(rs: seq<Record>)
    ensures forall i: nat :: FirstAt(rs, i) ==> FirstIncluded(rs) == Some(rs[i])
    ensures FirstIncluded(rs).Some? ==> exists i: nat :: FirstAt(rs, i)
    ensures FirstIncluded(rs).None? <==> forall i :: 0 <= i < |rs| ==> !rs[i].included
  {
    if rs != [] {
      FirstIncludedAt(rs[1..]);
      assert forall i :: 0 < i < |rs| ==> rs[i] == rs[1..][i - 1];
      if rs[0].included {
        assert FirstAt(rs, 0);
      } else {
        forall i: nat | FirstAt(rs, i) ensures FirstIncluded(rs) == Some(rs[i]) {
          assert FirstAt(rs[1..], i - 1);
        }
        if FirstIncluded(rs).Some? {
          var i: nat :| FirstAt(rs[1..], i);
          assert FirstAt(rs, i + 1);
        }
      }
    }
  }

  lemma TargetIsAim(policy: Policy, rs: seq<Record>, t: nat)
    ensures AimsAt(policy, rs, t) <==> t == Target(policy, rs)
  {
    FirstIncludedAt(rs);
  }

  lemma {:induction false} CountIsPlaces(rs: seq<Record>)
    ensures CountIncluded(rs) == |set i: nat | i < |rs| && rs[i].included|
  {
    if rs != [] {
      var n := |rs| - 1;
      CountIsPlaces(rs[..n]);
      var before := set i: nat | i < |rs[..n]| && rs[..n][i].included;
      var all := set i: nat | i < |rs| && rs[i].included;
      assert all == if rs[n].included then before + {n} else before;
    }
  }

  lemma MeasuredPlaces(policy: Policy, rs: seq<Record>)
    requires |rs| >= Warmups(policy)
    ensures CountIncluded(Measured(policy, rs)) == |SamplePlaces(policy, rs)|
  {
    var w := Warmups(policy);
    var all := set i: nat | i < |rs| && rs[i].included;
    CountIsPlaces(rs);
    if policy == DirectShort {
      assert rs == rs[..1] + rs[1..];
      CountSplit(rs[..1], rs[1..]);
      assert CountIncluded(rs[..1]) == if rs[0].included then 1 else 0 by {
        assert rs[..1][..0] == [];
      }
      assert SamplePlaces(policy, rs) == if rs[0].included then all - {0} else all;
    } else {
      assert rs[0..] == rs;
      assert SamplePlaces(policy, rs) == all;
    }
  }

  /** The scheduler's two conditions, read in these numbers. */
  lemma StopsMeansEnds(policy: Policy, rs: seq<Record>)
    ensures Stops(policy, rs) <==> Ends(policy, rs)
  {
    var t := Target(policy, rs);
    TargetIsAim(policy, rs, t);
    if |rs| >= Warmups(policy) {
      MeasuredPlaces(policy, rs);
      if Sampled(policy, rs) {
        var t': nat :| AimsAt(policy, rs, t') &&
          (|SamplePlaces(policy, rs)| >= t' || |rs| >= t' + 2 + if policy == DirectShort then 1 else 0);
        TargetIsAim(policy, rs, t');
      }
    }
  }

  lemma LaneInNumbers(policy: Policy, source: nat -> Record, rs: seq<Record>)
    requires Lane(policy, source, rs)
    ensures EndsJustHere(policy, rs) && AimsAt(policy, rs, Target(policy, rs))
    ensures forall i :: 0 <= i < |rs| ==> rs[i] == source(i)
  {
    TargetIsAim(policy, rs, Target(policy, rs));
    StopsMeansEnds(policy, rs);
    forall m | 0 <= m < |rs| ensures !Ends(policy, rs[..m]) {
      assert GoesOn(policy, rs, m);
      StopsMeansEnds(policy, rs[..m]);
    }
    forall i: nat | i < |rs| ensures rs[i] == source(i) {
      assert Given(source, rs, i);
    }
  }

  lemma {:induction false} CountSplit(a: seq<Record>, b: seq<Record>)
    ensures CountIncluded(a + b) == CountIncluded(a) + CountIncluded(b)
  {
    if b == [] {
      assert a + b == a;
    } else {
      assert (a + b)[..|a + b| - 1] == a + b[..|b| - 1];
      CountSplit(a, b[..|b| - 1]);
    }
  }

  /** The counters after one invocation. */
  method Account(policy: Policy, isWarmup: bool, record: Record, valid: nat, measured: nat, target: Option<nat>)
    returns (valid': nat, measured': nat, target': Option<nat>)
    requires target.None? ==> policy.Adaptive? && !isWarmup
    ensures valid' == valid + if record.included && !isWarmup then 1 else 0
    ensures measured' == measured + if isWarmup then 0 else 1
    ensures target' == if record.included && target.None? then Some(AdaptiveTarget(record)) else target
  {
    valid', measured', target' := valid, measured, target;
    if !isWarmup {
      measured' := measured' + 1;
      if record.included {
        valid' := valid' + 1;
        if policy.Adaptive? && target.None? {
          target' := Some(if record.wallNs >= LONG_LANE_THRESHOLD_NS then LONG_VALID_SAMPLES else SHORT_VALID_SAMPLES);
        }
      }
    }
  }

  /** `run_lane`: the loop with its counters.  It ends for every source of
      records. */
  method RunLane(policy: Policy, source: nat -> Record) returns (records: seq<Record>, finalTarget: nat)
    ensures Lane(policy, source, records)
    ensures finalTarget == Target(policy, records)
    ensures EndsJustHere(policy, records) && AimsAt(policy, records, finalTarget)
    ensures forall i :: 0 <= i < |records| ==> records[i] == source(i)
  {
    var warmups := if policy == DirectShort then DIRECT_WARMUPS else 0;
    var target: Option<nat> :=
      match policy
      case DirectShort => Some(DIRECT_VALID_SAMPLES)
      case FullGate => Some(FULL_GATE_VALID_SAMPLES)
      case Adaptive => None;
    records := [];
    var valid, measured, index := 0, 0, 0;
    while true
      invariant index == |records| && From(source, records)
      invariant valid == CountIncluded(Measured(policy, records))
      invariant measured == if index < warmups then 0 else index - warmups
      invariant Tracks(policy, records, target)
      invariant !EndsFatally(records)
      invariant RunsThrough(policy, records)
      decreases DIRECT_VALID_SAMPLES + MAX_EXTRA_ATTEMPTS + 1 - index
    {
      StillRunning(policy, records, target);
      var isWarmup := index < warmups;
      if !isWarmup {
        var provisional := if target.Some? then target.value else SHORT_VALID_SAMPLES;
        if valid >= provisional || measured >= provisional + MAX_EXTRA_ATTEMPTS {
          assert Stops(policy, records);
          break;
        }
      }
      assert !Stops(policy, records);
      var record := source(index);
      FromNext(source, records);
      MeasuredNext(policy, records, record);
      RunsThroughNext(policy, records, record);
      TracksNext(policy, records, record, target);
      records := records + [record];
      valid, measured, target := Account(policy, isWarmup, record, valid, measured, target);
      var reason := record.reason;
      if reason.Some? && !reason.value.Warmup? && !Replaceable(reason) {
        assert EndsFatally(records);
        break;
      }
      index := index + 1;
    }
    StillRunning(policy, records, target);
    finalTarget := if target.Some? then target.value else SHORT_VALID_SAMPLES;
    LaneInNumbers(policy, source, records);
  }

  /** A lane is determined by its source. */
  lemma LaneUnique(policy: Policy, source: nat -> Record, rs: seq<Record>, qs: seq<Record>)
    requires Lane(policy, source, rs) && Lane(policy, source, qs)
    ensures rs == qs
  {
    LaneNotLonger(policy, source, rs, qs);
    LaneNotLonger(policy, source, qs, rs);
    SamePrefix(source, rs, qs);
  }

  lemma LaneNotLonger(policy: Policy, source: nat -> Record, rs: seq<Record>, qs: seq<Record>)
    requires Lane(policy, source, rs) && Lane(policy, source, qs)
    ensures |qs| <= |rs|
  {
    if |rs| <= |qs| {
      SamePrefix(source, rs, qs);
    }
    assert GoesOn(policy, qs, |rs|);
  }

  lemma SamePrefix(source: nat -> Record, rs: seq<Record>, qs: seq<Record>)
    requires From(source, rs) && From(source, qs) && |rs| <= |qs|
    ensures qs[..|rs|] == rs
  {
    forall i: nat | i < |rs| ensures rs[i] == qs[i] {
      assert Given(source, rs, i) && Given(source, qs, i);
    }
  }

  // ---------------------------------------------------------------------
  // The replay checker
  // ---------------------------------------------------------------------

  datatype Verdict =
    | Accepted | NonContiguous | WarmupPolicyMismatch | WarmupPlacement
    | FatalAttempt | TargetMismatch | ContinuedPastTarget | BudgetExceeded

  function Insert(r: Record, rs: seq<Record>): seq<Record> {
    if rs == [] || r.index <= rs[0].index then [r] + rs else [rs[0]] + Insert(r, rs[1..])
  }

  /** `sorted(records, key=index)`, which is stable. */
  function SortByIndex(rs: seq<Record>): seq<Record> {
    if rs == [] then [] else Insert(rs[0], SortByIndex(rs[1..]))
  }

  /** `_expected_target`; `None` stands for its error. */
  function ExpectedTarget(policy: Policy, rs: seq<Record>): Option<nat> {
    match policy
    case DirectShort => Some(DIRECT_VALID_SAMPLES)
    case FullGate => Some(FULL_GATE_VALID_SAMPLES)
    case Adaptive =>
      match FirstIncluded(SortByIndex(rs))
      case None => None
      case Some(first) => Some(AdaptiveTarget(first))
  }

  function WarmupRecords(rs: seq<Record>): seq<Record> {
    if rs == [] then [] else (if rs[0].reason == Some(Warmup) then [rs[0]] else []) + WarmupRecords(rs[1..])
  }

  /** `_validate_lane_schedule`. */
  function Validate(policy: Policy, rs: seq<Record>, target: nat): Verdict {
    var ordered := SortByIndex(rs);
    var warmups := WarmupRecords(ordered);
    var expected := Warmups(policy);
    if exists i :: 0 <= i < |ordered| && ordered[i].index != i then NonContiguous
    else if |warmups| != expected then WarmupPolicyMismatch
    else if warmups != [] && (warmups[0].index != 0 || warmups[0].included) then WarmupPlacement
    else
      MeasuredVerdict(ordered, if expected <= |ordered| then ordered[expected..] else [], target, expected)
  }

  function MeasuredVerdict(ordered: seq<Record>, measured: seq<Record>, target: nat, expected: nat): Verdict {
    if exists r :: r in measured && !r.included && !Replaceable(r.reason) then FatalAttempt
    else if CountIncluded(measured) != target then TargetMismatch
    else if measured == [] || !measured[|measured| - 1].included then ContinuedPastTarget
    else if |ordered| > target + MAX_EXTRA_ATTEMPTS + expected then BudgetExceeded
    else Accepted
  }

  predicate Accepts(policy: Policy, rs: seq<Record>) {
    var target := ExpectedTarget(policy, rs);
    target.Some? && Validate(policy, rs, target.value).Accepted?
  }

  // ---------------------------------------------------------------------
  // Scheduler and checker agree
  // ---------------------------------------------------------------------

  predicate Ascending(rs: seq<Record>, from: nat) {
    forall i {:trigger rs[i]} :: 0 <= i < |rs| ==> rs[i].index == from + i
  }

  lemma {:induction false} SortAscending(rs: seq<Record>, from: nat)
    requires Ascending(rs, from)
    ensures SortByIndex(rs) == rs
  {
    if rs != [] {
      assert forall i :: 0 <= i < |rs[1..]| ==> rs[1..][i] == rs[i + 1];
      SortAscending(rs[1..], from + 1);
      assert Insert(rs[0], rs[1..]) == [rs[0]] + rs[1..];
    }
  }

  lemma {:induction false} FirstIncludedPrefix(rs: seq<Record>, m: nat)
    requires m <= |rs| && FirstIncluded(rs[..m]).Some?
    ensures FirstIncluded(rs) == FirstIncluded(rs[..m])
  {
    if !rs[0].included {
      assert rs[..m][1..] == rs[1..][..m - 1];
      FirstIncludedPrefix(rs[1..], m - 1);
    }
  }

  lemma {:induction false} CountPrefix(rs: seq<Record>, m: nat)
    requires m <= |rs|
    ensures CountIncluded(rs[..m]) <= CountIncluded(rs)
    ensures m < |rs| && rs[|rs| - 1].included ==> CountIncluded(rs[..m]) < CountIncluded(rs)
  {
    assert rs == rs[..m] + rs[m..];
    CountSplit(rs[..m], rs[m..]);
    var tail := rs[m..];
    if m < |rs| && rs[|rs| - 1].included {
      assert tail[|tail| - 1].included;
    }
  }

  // ---------------------------------------------------------------------
  // What the checker accepts
  // ---------------------------------------------------------------------

  /** Exactly the first records of a lane are marked as warm-ups. */
  predicate WarmupsFirst(o: seq<Record>, w: nat) {
    w <= |o| && forall i :: 0 <= i < |o| ==> (o[i].reason == Some(Warmup) <==> i < w)
  }

  /** The measured records: none excluded for good, the target met by the last
      one, within the budget. */
  predicate MeasuredSound(policy: Policy, o: seq<Record>, target: nat)
    requires |o| > Warmups(policy)
  {
    (forall i :: Warmups(policy) <= i < |o| ==> o[i].included || Replaceable(o[i].reason)) &&
    CountIncluded(Measured(policy, o)) == target && o[|o| - 1].included &&
    |o| <= target + MAX_EXTRA_ATTEMPTS + Warmups(policy)
  }

  /** A record list in order, as the checker wants it. An included record may
      carry any reason. */
  predicate WellMade(policy: Policy, o: seq<Record>) {
    var w := Warmups(policy);
    Ascending(o, 0) && WarmupsFirst(o, w) && |o| > w &&
    (forall i :: 0 <= i < w ==> !o[i].included) && MeasuredSound(policy, o, Target(policy, o))
  }

  lemma {:induction false} NoWarmups(rs: seq<Record>)
    ensures WarmupRecords(rs) == [] <==> forall i :: 0 <= i < |rs| ==> rs[i].reason != Some(Warmup)
  {
    if rs != [] {
      NoWarmups(rs[1..]);
      assert forall i :: 0 < i < |rs| ==> rs[i] == rs[1..][i - 1];
    }
  }

  lemma {:induction false} WarmupsAreMembers(rs: seq<Record>)
    ensures forall x :: x in WarmupRecords(rs) ==> x in rs
  {
    if rs != [] {
      WarmupsAreMembers(rs[1..]);
    }
  }

  /** What the checks on warm-up records come to. */
  lemma WarmupReading(o: seq<Record>, w: nat)
    requires Ascending(o, 0) && w <= 1
    ensures (|WarmupRecords(o)| == w && (w == 1 ==> WarmupRecords(o)[0].index == 0)) <==> WarmupsFirst(o, w)
    ensures WarmupsFirst(o, w) && w == 1 ==> WarmupRecords(o)[0] == o[0]
  {
    NoWarmups(o);
    if o != [] && w == 1 {
      NoWarmups(o[1..]);
      assert forall i :: 0 < i < |o| ==> o[i] == o[1..][i - 1];
      if o[0].reason != Some(Warmup) {
        LaterIndices(o);
      }
    }
  }

  lemma LaterIndices(o: seq<Record>)
    requires Ascending(o, 0) && o != []
    ensures forall x :: x in WarmupRecords(o[1..]) ==> x.index > 0
  {
    WarmupsAreMembers(o[1..]);
    forall x | x in o[1..] ensures x.index > 0 {
      var i :| 0 <= i < |o| - 1 && o[1..][i] == x;
      assert o[i + 1].index == i + 1;
    }
  }

  lemma MeasuredReading(policy: Policy, o: seq<Record>)
    requires |o| >= Warmups(policy)
    ensures (exists r :: r in Measured(policy, o) && !r.included && !Replaceable(r.reason)) <==>
      exists i :: Warmups(policy) <= i < |o| && !o[i].included && !Replaceable(o[i].reason)
  {
    var w := Warmups(policy);
    var measured := o[w..];
    forall i | w <= i < |o| ensures o[i] in measured {
      assert measured[i - w] == o[i];
    }
  }

  lemma TargetDefined(policy: Policy, o: seq<Record>)
    ensures CountIncluded(Measured(policy, o)) > 0 ==> FirstIncluded(o).Some?
  {
    var w := Warmups(policy);
    if |o| >= w {
      assert o == o[..w] + o[w..];
      CountSplit(o[..w], o[w..]);
      NoneCounted(o);
    }
  }

  /** The checker, with its sorted copy, sums and comparisons, accepts exactly
      the lists that are well made once in order. */
  lemma AcceptedReading(policy: Policy, rs: seq<Record>)
    ensures Accepts(policy, rs) <==> WellMade(policy, SortByIndex(rs))
  {
    var o := SortByIndex(rs);
    TargetDefined(policy, o);
    if ExpectedTarget(policy, rs).Some? {
      assert ExpectedTarget(policy, rs).value == Target(policy, o);
      VerdictReading(policy, rs, Target(policy, o));
    }
  }

  lemma VerdictReading(policy: Policy, rs: seq<Record>, target: nat)
    ensures var o, w := SortByIndex(rs), Warmups(policy);
      Validate(policy, rs, target).Accepted? <==>
      Ascending(o, 0) && WarmupsFirst(o, w) && |o| > w &&
      (forall i :: 0 <= i < w ==> !o[i].included) && MeasuredSound(policy, o, target)
  {
    var o, w := SortByIndex(rs), Warmups(policy);
    AscendingReading(o);
    if Ascending(o, 0) {
      WarmupReading(o, w);
      if |o| > w {
        MeasuredCase(policy, o, target);
      }
    }
  }

  lemma AscendingReading(o: seq<Record>)
    ensures Ascending(o, 0) <==> !exists i :: 0 <= i < |o| && o[i].index != i
  {
  }

  lemma MeasuredCase(policy: Policy, o: seq<Record>, target: nat)
    requires |o| > Warmups(policy)
    ensures MeasuredVerdict(o, o[Warmups(policy)..], target, Warmups(policy)).Accepted? <==> MeasuredSound(policy, o, target)
  {
    var w := Warmups(policy);
    MeasuredReading(policy, o);
    assert o[w..][|o[w..]| - 1] == o[|o| - 1];
  }

  /** What the checker demands of records in order, in numbers: a direct
      lane's excluded warm-up, then only samples and replaceable failures, as
      many samples as wanted, the last one at the end, and at most two extra
      attempts. */
  predicate InOrder(policy: Policy, o: seq<Record>, target: nat) {
    var w := if policy == DirectShort then 1 else 0;
    w < |o| <= target + 2 + w && o[|o| - 1].included && |SamplePlaces(policy, o)| == target &&
    (forall i :: 0 <= i < |o| ==> o[i].index == i && (o[i].reason == Some(Warmup) <==> i < w)) &&
    (policy == DirectShort ==> !o[0].included) &&
    forall i :: w <= i < |o| && !o[i].included ==>
      o[i].reason in {Some(RssIncomplete), Some(MissingExactMetrics), Some(MeasurementErrors)}
  }

  lemma AcceptedInNumbers(policy: Policy, rs: seq<Record>)
    ensures Accepts(policy, rs) <==>
      exists target: nat :: AimsAt(policy, SortByIndex(rs), target) && InOrder(policy, SortByIndex(rs), target)
  {
    var o := SortByIndex(rs);
    AcceptedReading(policy, rs);
    TargetIsAim(policy, o, Target(policy, o));
    if |o| >= Warmups(policy) {
      MeasuredPlaces(policy, o);
    }
    WellMadeInNumbers(policy, o, Target(policy, o));
    if target: nat :| AimsAt(policy, o, target) && InOrder(policy, o, target) {
      TargetIsAim(policy, o, target);
    }
  }

  lemma WellMadeInNumbers(policy: Policy, o: seq<Record>, target: nat)
    requires |o| >= Warmups(policy) ==> CountIncluded(Measured(policy, o)) == |SamplePlaces(policy, o)|
    requires target == Target(policy, o)
    ensures WellMade(policy, o) <==> InOrder(policy, o, target)
  {
  }

  predicate SortedFrom(rs: seq<Record>, low: int) {
    (forall r :: r in rs ==> low <= r.index) && forall i, j :: 0 <= i < j < |rs| ==> rs[i].index <= rs[j].index
  }

  lemma {:induction false} InsertSorted(r: Record, rs: seq<Record>, low: int)
    requires SortedFrom(rs, low) && low <= r.index
    ensures SortedFrom(Insert(r, rs), low)
  {
    if rs != [] && r.index > rs[0].index {
      assert SortedFrom(rs[1..], rs[0].index);
      InsertSorted(r, rs[1..], rs[0].index);
      assert SortedFrom([rs[0]] + Insert(r, rs[1..]), low);
    }
  }

  lemma {:induction false} InsertSame(r: Record, rs: seq<Record>)
    ensures multiset(Insert(r, rs)) == multiset(rs) + multiset{r}
  {
    if rs != [] && r.index > rs[0].index {
      InsertSame(r, rs[1..]);
      assert rs == [rs[0]] + rs[1..];
    }
  }

  /** The checker looks at the same records, by index. */
  lemma {:induction false} SortMeaning(rs: seq<Record>)
    ensures multiset(SortByIndex(rs)) == multiset(rs)
    ensures forall i, j :: 0 <= i < j < |SortByIndex(rs)| ==> SortByIndex(rs)[i].index <= SortByIndex(rs)[j].index
  {
    if rs != [] {
      SortMeaning(rs[1..]);
      InsertSorted(rs[0], SortByIndex(rs[1..]), 0);
      InsertSame(rs[0], SortByIndex(rs[1..]));
      assert rs == [rs[0]] + rs[1..];
    }
  }

  // ---------------------------------------------------------------------
  // Scheduler and checker agree
  // ---------------------------------------------------------------------

  /** Accepted lists are complete. */
  lemma AcceptedIsComplete(policy: Policy, rs: seq<Record>)
    requires Accepts(policy, rs)
    ensures Complete(policy, SortByIndex(rs))
  {
    AcceptedReading(policy, rs);
  }

  /** Nothing before the last record makes the scheduler break off. */
  predicate NoneFatalEarly(o: seq<Record>) {
    forall i :: 0 <= i < |o| - 1 ==> !Fatal(o[i])
  }

  /** Replaying an accepted record list, given in any order, reproduces it
      exactly if no record before the last has a fatal reason. The checker
      looks for such reasons among excluded records only. */
  lemma ReplayAccepted(policy: Policy, rs: seq<Record>)
    requires Accepts(policy, rs)
    ensures var o := SortByIndex(rs);
      RunsThrough(policy, o) && Stops(policy, o) <==> NoneFatalEarly(o)
  {
    var o := SortByIndex(rs);
    AcceptedReading(policy, rs);
    if NoneFatalEarly(o) {
      forall m: nat ensures GoesOn(policy, o, m) {
        if m < |o| {
          WellMadeGoesOn(policy, o, m);
        }
      }
    }
    if RunsThrough(policy, o) {
      forall i | 0 <= i < |o| - 1 ensures !Fatal(o[i]) {
        assert GoesOn(policy, o, i + 1);
        assert o[..i + 1][i] == o[i];
      }
    }
  }

  lemma WellMadeGoesOn(policy: Policy, o: seq<Record>, m: nat)
    requires WellMade(policy, o) && NoneFatalEarly(o) && m < |o|
    ensures !Stops(policy, o[..m])
  {
    var w, p := Warmups(policy), o[..m];
    assert m > 0 ==> p[m - 1] == o[m - 1];
    if m >= w {
      assert Measured(policy, p) == Measured(policy, o)[..m - w];
      CountPrefix(Measured(policy, o), m - w);
      if policy.Adaptive? {
        assert p[0..] == p;
        NoneCounted(p);
        if FirstIncluded(p).Some? {
          FirstIncludedPrefix(o, m);
        }
      }
    }
  }

  /** The scheduler run on the records of a list. */
  method Replay(policy: Policy, rs: seq<Record>) returns (records: seq<Record>)
    ensures Accepts(policy, rs) ==> (records == SortByIndex(rs) <==> NoneFatalEarly(SortByIndex(rs)))
  {
    var o := SortByIndex(rs);
    var source := (i: nat) => if i < |o| then o[i] else Record(i, false, Some(InvocationError), 0);
    var target;
    records, target := RunLane(policy, source);
    assert From(source, o) by {
      forall i: nat ensures Given(source, o, i) {
      }
    }
    if Accepts(policy, rs) {
      ReplayAccepted(policy, rs);
      if NoneFatalEarly(o) {
        LaneUnique(policy, source, records, o);
      }
    }
  }

  /** The condition is needed: the checker accepts a list whose first record
      is included although it timed out, after which the scheduler stops. */
  lemma AcceptedButNotReplayed()
    ensures var rs := [Record(0, true, Some(TimedOut), 1), Record(1, true, None, 1), Record(2, true, None, 1)];
      Accepts(FullGate, rs) && Stops(FullGate, rs[..1])
  {
    var rs := [Record(0, true, Some(TimedOut), 1), Record(1, true, None, 1), Record(2, true, None, 1)];
    SortAscending(rs, 0);
    assert rs[..2] == [rs[0], rs[1]] && rs[..2][..1] == [rs[0]] && [rs[0]][..0] == [];
    assert CountIncluded([rs[0]]) == 1;
    assert CountIncluded(rs[..2]) == 2;
    assert CountIncluded(rs) == 3;
    assert Measured(FullGate, rs) == rs;
    AcceptedReading(FullGate, rs);
  }

  // ---------------------------------------------------------------------
  // Records of executed attempts
  // ---------------------------------------------------------------------

  /** How a record made by the scheduler looks. */
  lemma ExecutedShape(policy: Policy, oracle: nat -> Attempt, rs: seq<Record>, i: nat)
    requires From(Executions(policy, oracle), rs) && i < |rs|
    ensures rs[i].index == i && (rs[i].included <==> rs[i].reason.None?)
    ensures i < Warmups(policy) ==> !rs[i].included && !Replaceable(rs[i].reason)
    ensures i >= Warmups(policy) ==> rs[i].reason != Some(Warmup)
  {
    assert Given(Executions(policy, oracle), rs, i);
  }

  lemma ExecutedAscending(policy: Policy, oracle: nat -> Attempt, rs: seq<Record>)
    requires From(Executions(policy, oracle), rs)
    ensures Ascending(rs, 0) && SortByIndex(rs) == rs
  {
    forall i | 0 <= i < |rs| ensures rs[i].index == i {
      ExecutedShape(policy, oracle, rs, i);
    }
    SortAscending(rs, 0);
  }

  /** A lane of executed attempts that reached its target is accepted. */
  lemma CompleteIsAccepted(policy: Policy, oracle: nat -> Attempt, rs: seq<Record>)
    requires Lane(policy, Executions(policy, oracle), rs) && Complete(policy, rs)
    ensures Accepts(policy, rs) && ExpectedTarget(policy, rs) == Some(Target(policy, rs))
  {
    ExecutedAscending(policy, oracle, rs);
    TargetDefined(policy, rs);
    LastCompletes(policy, oracle, rs);
    BudgetKept(policy, rs);
    NoFatal(policy, oracle, rs);
    AcceptedReading(policy, rs);
  }

  lemma NoFatal(policy: Policy, oracle: nat -> Attempt, rs: seq<Record>)
    requires Lane(policy, Executions(policy, oracle), rs) && |rs| > Warmups(policy) && rs[|rs| - 1].included
    ensures forall i :: Warmups(policy) <= i < |rs| ==> rs[i].included || Replaceable(rs[i].reason)
    ensures WarmupsFirst(rs, Warmups(policy)) && forall i :: 0 <= i < Warmups(policy) ==> !rs[i].included
  {
    forall i: nat | i < |rs|
      ensures i >= Warmups(policy) ==> rs[i].included || Replaceable(rs[i].reason)
      ensures rs[i].reason == Some(Warmup) <==> i < Warmups(policy)
      ensures i < Warmups(policy) ==> !rs[i].included
    {
      ExecutedShape(policy, oracle, rs, i);
      assert GoesOn(policy, rs, i + 1);
      if i + 1 < |rs| {
        assert rs[..i + 1][i] == rs[i];
      }
    }
  }

  /** The target is met by the last record and not earlier. */
  lemma LastCompletes(policy: Policy, oracle: nat -> Attempt, rs: seq<Record>)
    requires Lane(policy, Executions(policy, oracle), rs) && Complete(policy, rs)
    ensures |rs| > Warmups(policy) && rs[|rs| - 1].included
  {
    assert |rs| <= Warmups(policy) ==> Measured(policy, rs) == [];
    if |rs| > Warmups(policy) {
      var m := |rs| - 1;
      assert rs == rs[..m] + [rs[m]];
      FirstIncludedAppend(rs[..m], rs[m]);
      MeasuredNext(policy, rs[..m], rs[m]);
      assert GoesOn(policy, rs, m);
    }
  }

  lemma BudgetKept(policy: Policy, rs: seq<Record>)
    requires RunsThrough(policy, rs) && |rs| > Warmups(policy) && rs[|rs| - 1].included && Complete(policy, rs)
    ensures |rs| <= Target(policy, rs) + MAX_EXTRA_ATTEMPTS + Warmups(policy)
  {
    var m := |rs| - 1;
    assert GoesOn(policy, rs, m);
    assert rs == rs[..m] + [rs[m]];
    FirstIncludedAppend(rs[..m], rs[m]);
    MeasuredNext(policy, rs[..m], rs[m]);
    if policy.Adaptive? {
      assert rs[0..] == rs && rs[..m][0..] == rs[..m];
      NoneCounted(rs[..m]);
    }
  }

  /** On records of executed attempts the replay reproduces every accepted
      list. */
  lemma AcceptedIsLane(policy: Policy, oracle: nat -> Attempt, rs: seq<Record>)
    requires From(Executions(policy, oracle), SortByIndex(rs)) && Accepts(policy, rs)
    ensures Lane(policy, Executions(policy, oracle), SortByIndex(rs)) && Complete(policy, SortByIndex(rs))
  {
    var o := SortByIndex(rs);
    AcceptedReading(policy, rs);
    forall i: nat | i < |o| - 1 ensures !Fatal(o[i]) {
      ExecutedShape(policy, oracle, o, i);
    }
    ReplayAccepted(policy, rs);
  }
}
