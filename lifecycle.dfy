/** The lifecycle of a test scenario as values: its phases, the outcome of
    each operation, the phases each operation accepts, the escalation of a
    failed check by severity, and the invariant that ties the phase and the
    cursor (current case and step) to the report tree, with one lemma per
    transition showing that the transition keeps it. */
module Lifecycle {
  import opened Common
  import opened Documentation
  import opened Report

  datatype Phase =
    | Undefined
    | NotStarted
    | ReadyForTestCase
    | ReadyForTestStep
    | RunningTestStep
    | ReadyForCleanup
    | CleaningUp
    | Complete

  /** Why an operation was refused. */
  datatype Violation =
    | WrongPhase(phase: Phase)   // the phase was not one the operation accepts
    | UndeclaredCase             // begin_test_case: name not in the documentation
    | CaseAlreadyRun             // begin_test_case: a case of that name is already reported
    | UndeclaredStep             // begin_test_step: name not declared under the current case
    | UndeclaredCheck            // check: name not declared under the current step
    | NoCleanupDocumented        // begin_cleanup without a documented cleanup step
    | CleanupDocumented          // skip_cleanup although a cleanup step is documented
    | AlreadyComplete            // record_execution_error after Complete
    | NoScenarioReport           // record_note before any report exists (a TypeError in Python)

  datatype Outcome = Ok | ProtocolError(violation: Violation) | ScenarioAbort | RunAbort

  /** The operations whose first act is to check the phase. */
  datatype Operation =
    | BeginTestScenario | BeginTestCase | BeginTestStep | EndTestStep | EndTestCase
    | EndTestScenario | GoToCleanup | BeginCleanup | SkipCleanup | EndCleanup
    | RecordNote | RecordQuery | Check

  /** The phases each operation accepts: the argument of its `_expect_phase`. */
  function AllowedPhases(op: Operation): set<Phase>
  {
    match op
    case BeginTestScenario => {NotStarted}
    case BeginTestCase => {ReadyForTestCase}
    case BeginTestStep => {ReadyForTestStep}
    case EndTestStep => {RunningTestStep}
    case EndTestCase => {ReadyForTestStep}
    case EndTestScenario => {ReadyForTestCase}
    case GoToCleanup => {ReadyForTestCase, ReadyForTestStep, RunningTestStep, ReadyForCleanup}
    case BeginCleanup => {ReadyForCleanup}
    case SkipCleanup => {ReadyForCleanup}
    case EndCleanup => {CleaningUp}
    case RecordNote => {NotStarted, ReadyForTestCase, ReadyForTestStep, RunningTestStep, ReadyForCleanup, CleaningUp}
    case RecordQuery => {RunningTestStep, CleaningUp}
    case Check => {RunningTestStep, CleaningUp}
  }

  /** `_expect_phase`: the refusal an operation gives in phase `p`, if any. */
  function ExpectPhase(op: Operation, p: Phase): (o: Outcome)
    ensures o.Ok? <==> p in AllowedPhases(op)
    ensures !o.Ok? ==> o == ProtocolError(WrongPhase(p))
  {
    if p in AllowedPhases(op) then Ok else ProtocolError(WrongPhase(p))
  }

  /** How a recorded failure steers control flow: High abandons the scenario,
      Critical abandons the whole run, every other severity lets the step go on. */
  function Escalation(severity: Severity): (o: Outcome)
    ensures o == ScenarioAbort <==> severity == High
    ensures o == RunAbort <==> severity == Critical
    ensures o == Ok <==> severity != High && severity != Critical
  {
    match severity
    case High => ScenarioAbort
    case Critical => RunAbort
    case _ => Ok
  }

  /** The outcome of begin_cleanup: the phase check, then a documented
      cleanup step is required. */
  function BeginCleanupOutcome(phase: Phase, doc: ScenarioDoc): (o: Outcome)
    ensures o.Ok? <==> phase == ReadyForCleanup && doc.cleanup.Some?
    ensures phase != ReadyForCleanup ==> o == ProtocolError(WrongPhase(phase))
    ensures phase == ReadyForCleanup && doc.cleanup.None? ==> o == ProtocolError(NoCleanupDocumented)
  {
    var o := ExpectPhase(Operation.BeginCleanup, phase);
    if !o.Ok? then o
    else if doc.cleanup.None? then ProtocolError(NoCleanupDocumented)
    else Ok
  }

  /** The outcome of skip_cleanup: the phase check, then no cleanup step may
      be documented. From ReadyForCleanup exactly one of begin_cleanup and
      skip_cleanup succeeds, and which one is decided by the documentation. */
  function SkipCleanupOutcome(phase: Phase, doc: ScenarioDoc): (o: Outcome)
    ensures o.Ok? <==> phase == ReadyForCleanup && doc.cleanup.None?
    ensures o.Ok? <==> (phase == ReadyForCleanup && !BeginCleanupOutcome(phase, doc).Ok?)
    ensures phase != ReadyForCleanup ==> o == ProtocolError(WrongPhase(phase))
    ensures phase == ReadyForCleanup && doc.cleanup.Some? ==> o == ProtocolError(CleanupDocumented)
  {
    var o := ExpectPhase(Operation.SkipCleanup, phase);
    if !o.Ok? then o
    else if doc.cleanup.Some? then ProtocolError(CleanupDocumented)
    else Ok
  }

  /** How the phase agrees with the report tree: an execution error is only
      ever recorded together with the move to Complete, the cleanup step
      report exists in CleaningUp and does not exist before the cleanup began. */
  predicate PhaseAgrees(phase: Phase, hasCleanup: bool, hasError: bool)
  {
    && (hasError ==> phase == Complete)
    && (phase == CleaningUp ==> hasCleanup)
    && (phase == ReadyForTestCase || phase == ReadyForTestStep || phase == RunningTestStep || phase == ReadyForCleanup ==>
          !hasCleanup)
  }

  /** How the cursor (current case and step, and where their reports live)
      agrees with the reported cases: the open case is the last case
      reported, the running step is the last step of that case, and while
      cleaning up the current step is the documented cleanup step. */
  predicate CursorAgrees(doc: ScenarioDoc, phase: Phase, cases: seq<CaseReport>,
                         currentCase: Option<CaseDoc>, caseIndex: Option<nat>,
                         currentStep: Option<StepDoc>, stepLocation: Option<StepLocation>)
  {
    && (phase == ReadyForTestStep || phase == RunningTestStep ==>
          && |cases| > 0
          && caseIndex == Some(|cases| - 1)
          && currentCase.Some?
          && currentCase == FindCase(doc.cases, cases[|cases| - 1].name))
    && (phase == RunningTestStep ==>
          && |cases| > 0
          && currentCase.Some?
          && |cases[|cases| - 1].steps| > 0
          && stepLocation == Some(InCase(|cases| - 1, |cases[|cases| - 1].steps| - 1))
          && currentStep.Some?
          && currentStep == FindStep(currentCase.value.steps, cases[|cases| - 1].steps[|cases[|cases| - 1].steps| - 1].name))
    && (phase == CleaningUp ==>
          stepLocation == Some(InCleanup) && currentStep.Some? && currentStep == doc.cleanup)
  }

  /** Replacing one step report by one of the same name moves no cursor. */
  lemma CursorAfterSetStep(doc: ScenarioDoc, phase: Phase, r: ScenarioReport, currentCase: Option<CaseDoc>,
                           caseIndex: Option<nat>, currentStep: Option<StepDoc>, stepLocation: Option<StepLocation>,
                           loc: StepLocation, s': StepReport)
    requires CursorAgrees(doc, phase, r.cases, currentCase, caseIndex, currentStep, stepLocation)
    requires HasStep(r, loc) && s'.name == StepAt(r, loc).name
    ensures CursorAgrees(doc, phase, SetStepAt(r, loc, s').cases, currentCase, caseIndex, currentStep, stepLocation)
  {
    if |r.cases| > 0 && |r.cases[|r.cases| - 1].steps| > 0 {
      var i := |r.cases| - 1;
      SetStepAtFrame(r, loc, s', InCase(i, |r.cases[i].steps| - 1));
    }
  }

  ghost predicate ValidState(doc: ScenarioDoc, phase: Phase, report: Option<ScenarioReport>,
                             currentCase: Option<CaseDoc>, caseIndex: Option<nat>,
                             currentStep: Option<StepDoc>, stepLocation: Option<StepLocation>)
  {
    && phase != Undefined
    && (report.None? <==> phase == NotStarted)
    && (report.Some? ==>
          && Conforms(doc, report.value.cases, report.value.cleanup)
          && PhaseAgrees(phase, report.value.cleanup.Some?, report.value.executionError.Some?)
          && CursorAgrees(doc, phase, report.value.cases, currentCase, caseIndex, currentStep, stepLocation))
  }

  lemma EndTestStepKeeps(doc: ScenarioDoc, r: ScenarioReport, currentCase: Option<CaseDoc>, caseIndex: Option<nat>,
                         currentStep: Option<StepDoc>, stepLocation: Option<StepLocation>)
    requires ValidState(doc, RunningTestStep, Some(r), currentCase, caseIndex, currentStep, stepLocation)
    requires stepLocation.Some? && HasStep(r, stepLocation.value)
    requires StepDocAt(doc, r, stepLocation.value) == currentStep
    ensures var r' := SetStepAt(r, stepLocation.value, StepAt(r, stepLocation.value).(ended := true));
      ValidState(doc, ReadyForTestStep, Some(r'), currentCase, caseIndex, None, None) && Grows(r, r')
  {
    var loc := stepLocation.value;
    ConformingStepDoc(doc, r, loc);
    RecordingKeepsConforms(doc, r, loc, StepAt(r, loc).(ended := true));
    CursorAfterSetStep(doc, RunningTestStep, r, currentCase, caseIndex, currentStep, stepLocation,
                       loc, StepAt(r, loc).(ended := true));
  }

  /** begin_test_case: appending the report of a documented case whose name
      has not run yet opens that case. */
  lemma BeginTestCaseKeeps(doc: ScenarioDoc, r: ScenarioReport, currentCase: Option<CaseDoc>, caseIndex: Option<nat>,
                           currentStep: Option<StepDoc>, stepLocation: Option<StepLocation>, cd: CaseDoc)
    requires ValidState(doc, ReadyForTestCase, Some(r), currentCase, caseIndex, currentStep, stepLocation)
    requires FindCase(doc.cases, cd.name) == Some(cd) && cd.name !in ReportCaseNames(r)
    ensures var r' := AppendCase(r, NewCaseReport(cd));
      && ValidState(doc, ReadyForTestStep, Some(r'), Some(cd), Some(|r.cases|), currentStep, stepLocation)
      && Grows(r, r')
      && ReportCaseNames(r') == ReportCaseNames(r) + [cd.name]
  {
    var c := NewCaseReport(cd);
    var r' := r.(cases := r.cases + [c]);
    assert forall i :: 0 <= i < |r.cases| ==> r.cases[i].name != cd.name by {
      assert forall i :: 0 <= i < |r.cases| ==> ReportCaseNames(r)[i] in ReportCaseNames(r);
    }
    AppendCaseKeepsConforms(doc, r.cases, r.cleanup, c);
    AppendCaseGrows(r, c);
    assert ReportCaseNames(r') == ReportCaseNames(r) + [cd.name];
  }

  /** begin_test_step: appending an empty report of a step documented under
      the open case to that case's steps makes it the running step. */
  lemma BeginTestStepKeeps(doc: ScenarioDoc, r: ScenarioReport, currentCase: Option<CaseDoc>, caseIndex: Option<nat>,
                           currentStep: Option<StepDoc>, stepLocation: Option<StepLocation>, sd: StepDoc)
    requires ValidState(doc, ReadyForTestStep, Some(r), currentCase, caseIndex, currentStep, stepLocation)
    requires currentCase.Some? && FindStep(currentCase.value.steps, sd.name) == Some(sd)
    ensures |r.cases| > 0
    ensures var r' := AppendStep(r, NewStepReport(sd));
      && ValidState(doc, RunningTestStep, Some(r'), currentCase, caseIndex, Some(sd),
                    Some(InCase(|r.cases| - 1, |r.cases[|r.cases| - 1].steps|)))
      && Grows(r, r')
  {
    var i := |r.cases| - 1;
    var c := r.cases[i];
    var c' := c.(steps := c.steps + [NewStepReport(sd)]);
    assert CaseConforms(doc, c.name, c.steps);
    AppendStepKeepsCaseConforms(doc, c.name, c.steps, sd);
    ReplaceCaseKeepsConforms(doc, r.cases, r.cleanup, i, c');
    AppendStepGrows(c, NewStepReport(sd));
    ReplaceCaseGrows(r, i, c');
  }

  /** Replacing the report of an existing step by a later state of itself
      whose checks are all documented keeps the invariant in any phase, and
      every step report keeps its place and its documentation. */
  lemma RecordingKeeps(doc: ScenarioDoc, phase: Phase, r: ScenarioReport, currentCase: Option<CaseDoc>, caseIndex: Option<nat>,
                       currentStep: Option<StepDoc>, stepLocation: Option<StepLocation>, loc: StepLocation, s': StepReport)
    requires ValidState(doc, phase, Some(r), currentCase, caseIndex, currentStep, stepLocation)
    requires HasStep(r, loc) && StepGrows(StepAt(r, loc), s')
    requires StepDocAt(doc, r, loc).Some? && ChecksDeclared(StepDocAt(doc, r, loc).value, s')
    ensures var r' := SetStepAt(r, loc, s');
      && ValidState(doc, phase, Some(r'), currentCase, caseIndex, currentStep, stepLocation)
      && Grows(r, r')
      && (forall other :: HasStep(r, other) ==> HasStep(r', other) && StepDocAt(doc, r', other) == StepDocAt(doc, r, other))
  {
    RecordingKeepsConforms(doc, r, loc, s');
    CursorAfterSetStep(doc, phase, r, currentCase, caseIndex, currentStep, stepLocation, loc, s');
  }

  /** end_test_case: stamping the open case's end closes it. */
  lemma EndTestCaseKeeps(doc: ScenarioDoc, r: ScenarioReport, currentCase: Option<CaseDoc>, caseIndex: Option<nat>,
                         currentStep: Option<StepDoc>, stepLocation: Option<StepLocation>)
    requires ValidState(doc, ReadyForTestStep, Some(r), currentCase, caseIndex, currentStep, stepLocation)
    ensures caseIndex.Some? && caseIndex.value < |r.cases|
    ensures var r' := EndCase(r, caseIndex.value);
      ValidState(doc, ReadyForTestCase, Some(r'), None, None, currentStep, stepLocation) && Grows(r, r')
  {
    var i := caseIndex.value;
    var c' := r.cases[i].(ended := true);
    assert CaseConforms(doc, r.cases[i].name, r.cases[i].steps);
    ReplaceCaseKeepsConforms(doc, r.cases, r.cleanup, i, c');
    EndCaseGrows(r.cases[i]);
    ReplaceCaseGrows(r, i, c');
  }

  /** What a pending check relies on: the scenario is consistent and the step
      report it writes to exists and documents the check it stands for. */
  ghost predicate HandleBound(doc: ScenarioDoc, phase: Phase, report: Option<ScenarioReport>,
                              currentCase: Option<CaseDoc>, caseIndex: Option<nat>, currentStep: Option<StepDoc>,
                              stepLocation: Option<StepLocation>, target: StepLocation, checkName: string)
  {
    && ValidState(doc, phase, report, currentCase, caseIndex, currentStep, stepLocation)
    && report.Some?
    && HasStep(report.value, target)
    && StepDocAt(doc, report.value, target).Some?
    && FindCheck(StepDocAt(doc, report.value, target).value.checks, checkName).Some?
  }

  /** record_failed: appending a failed check of the bound name keeps the
      scenario consistent and the handle bound, and only grows the report. */
  lemma RecordFailedKeeps(doc: ScenarioDoc, phase: Phase, report: Option<ScenarioReport>, currentCase: Option<CaseDoc>,
                          caseIndex: Option<nat>, currentStep: Option<StepDoc>, stepLocation: Option<StepLocation>,
                          target: StepLocation, f: FailedCheck)
    requires HandleBound(doc, phase, report, currentCase, caseIndex, currentStep, stepLocation, target, f.name)
    ensures report.Some? && HasStep(report.value, target)
    ensures var r' := SetStepAt(report.value, target, AddFailed(StepAt(report.value, target), f));
      && HandleBound(doc, phase, Some(r'), currentCase, caseIndex, currentStep, stepLocation, target, f.name)
      && Grows(report.value, r')
  {
    var r := report.value;
    var s := StepAt(r, target);
    ConformingStepDoc(doc, r, target);
    AppendFailedKeepsDeclared(StepDocAt(doc, r, target).value, s, f);
    RecordingKeeps(doc, phase, r, currentCase, caseIndex, currentStep, stepLocation, target, AddFailed(s, f));
  }


  /** record_passed: the same for a passed check. */
  lemma RecordPassedKeeps(doc: ScenarioDoc, phase: Phase, report: Option<ScenarioReport>, currentCase: Option<CaseDoc>,
                          caseIndex: Option<nat>, currentStep: Option<StepDoc>, stepLocation: Option<StepLocation>,
                          target: StepLocation, p: PassedCheck)
    requires HandleBound(doc, phase, report, currentCase, caseIndex, currentStep, stepLocation, target, p.name)
    ensures report.Some? && HasStep(report.value, target)
    ensures var r' := SetStepAt(report.value, target, AddPassed(StepAt(report.value, target), p));
      && HandleBound(doc, phase, Some(r'), currentCase, caseIndex, currentStep, stepLocation, target, p.name)
      && Grows(report.value, r')
  {
    var r := report.value;
    var s := StepAt(r, target);
    ConformingStepDoc(doc, r, target);
    AppendPassedKeepsDeclared(StepDocAt(doc, r, target).value, s, p);
    RecordingKeeps(doc, phase, r, currentCase, caseIndex, currentStep, stepLocation, target, AddPassed(s, p));
  }


  /** While a step runs (a test step or the cleanup), the cursor names a step
      report that exists and is documented by the current step. */
  lemma OpenStep(doc: ScenarioDoc, phase: Phase, r: ScenarioReport, currentCase: Option<CaseDoc>,
                 caseIndex: Option<nat>, currentStep: Option<StepDoc>, stepLocation: Option<StepLocation>)
    requires ValidState(doc, phase, Some(r), currentCase, caseIndex, currentStep, stepLocation)
    requires phase == RunningTestStep || phase == CleaningUp
    ensures stepLocation.Some? && currentStep.Some? && HasStep(r, stepLocation.value)
    ensures StepDocAt(doc, r, stepLocation.value) == currentStep
  {
  }

  /** record_query: appending a query to the running step keeps the scenario
      consistent and only grows the report. */
  lemma RecordQueryKeeps(doc: ScenarioDoc, phase: Phase, report: Option<ScenarioReport>, currentCase: Option<CaseDoc>,
                         caseIndex: Option<nat>, currentStep: Option<StepDoc>, stepLocation: Option<StepLocation>,
                         q: Query)
    requires ValidState(doc, phase, report, currentCase, caseIndex, currentStep, stepLocation)
    requires phase == RunningTestStep || phase == CleaningUp
    ensures report.Some? && stepLocation.Some? && HasStep(report.value, stepLocation.value)
    ensures var r := report.value;
      var r' := SetStepAt(r, stepLocation.value, AddQuery(StepAt(r, stepLocation.value), q));
      ValidState(doc, phase, Some(r'), currentCase, caseIndex, currentStep, stepLocation) && Grows(r, r')
  {
    var r := report.value;
    OpenStep(doc, phase, r, currentCase, caseIndex, currentStep, stepLocation);
    var loc := stepLocation.value;
    ConformingStepDoc(doc, r, loc);
    RecordingKeeps(doc, phase, r, currentCase, caseIndex, currentStep, stepLocation, loc, AddQuery(StepAt(r, loc), q));
  }

  /** end_cleanup: stamping the cleanup step's end completes the scenario. */
  lemma EndCleanupKeeps(doc: ScenarioDoc, r: ScenarioReport, currentCase: Option<CaseDoc>, caseIndex: Option<nat>,
                        currentStep: Option<StepDoc>, stepLocation: Option<StepLocation>)
    requires ValidState(doc, CleaningUp, Some(r), currentCase, caseIndex, currentStep, stepLocation)
    ensures HasStep(r, InCleanup)
    ensures var r' := SetStepAt(r, InCleanup, StepAt(r, InCleanup).(ended := true));
      ValidState(doc, Complete, Some(r'), currentCase, caseIndex, currentStep, stepLocation) && Grows(r, r')
  {
    OpenStep(doc, CleaningUp, r, currentCase, caseIndex, currentStep, stepLocation);
    ConformingStepDoc(doc, r, InCleanup);
    RecordingKeepsConforms(doc, r, InCleanup, StepAt(r, InCleanup).(ended := true));
  }
}
