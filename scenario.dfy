/** The lifecycle of one test scenario (scenarios/scenario.py): a phase state
    machine whose operations build the report tree, and the pending-check
    handle through which a step records the outcome of one documented check.

    Python exceptions become returned `Outcome`s: `ProtocolError` for every
    RuntimeError the lifecycle raises, `ScenarioAbort` for
    ScenarioCannotContinueError and `RunAbort` for TestRunCannotContinueError.
    Every operation that returns a `ProtocolError` has changed nothing. */
module Scenario {
  import opened Common
  import opened Documentation
  import opened Report
  import opened Lifecycle

  /** The declaration the scenario was made from; `scenarioType` names its type. */
  datatype Declaration = Declaration(scenarioType: string)

  /** The report is unchanged, or it appears, or it grows. */
  ghost predicate ReportGrew(r0: Option<ScenarioReport>, r1: Option<ScenarioReport>)
  {
    r1 == r0 || (r0.Some? ==> r1.Some? && Grows(r0.value, r1.value))
  }

  /** The `on_failed_check` callback: an external observer, modelled by the
      list of failed checks it has been handed, in order. */
  class FailureObserver {
    var seen: seq<FailedCheck>

    constructor ()
      ensures seen == []
    {
      seen := [];
    }

    method Notify(failedCheck: FailedCheck)
      modifies this
      ensures seen == old(seen) + [failedCheck]
    {
      seen := seen + [failedCheck];
    }
  }

  class TestScenario {
    const documentation: ScenarioDoc
    const declaration: Declaration
    var onFailedCheck: FailureObserver?
    var phase: Phase
    var report: Option<ScenarioReport>
    /** `_current_case` and `_case_report` (the index of that case in the report) */
    var currentCase: Option<CaseDoc>
    var caseIndex: Option<nat>
    /** `_current_step` and `_step_report` (where that step report lives) */
    var currentStep: Option<StepDoc>
    var stepLocation: Option<StepLocation>

    /** The scenario's invariant. A report exists exactly when the phase is
        not NotStarted (begin_test_scenario creates it, and so do
        record_execution_error and get_report when called before it);
        it conforms to the documentation; an execution error only appears
        once the scenario is Complete; while a case is open it is the last
        case reported, while a step runs it is the last step of that case,
        and the cleanup step exists exactly from begin_cleanup on. */
    ghost predicate Valid()
      reads this
    {
      ValidState(documentation, phase, report, currentCase, caseIndex, currentStep, stepLocation)
    }

    /** While a step runs, the cursor points at an existing step report whose
        documentation is the current step. */
    lemma CurrentStepDoc()
      requires Valid() && (phase == RunningTestStep || phase == CleaningUp)
      ensures report.Some? && stepLocation.Some? && currentStep.Some?
      ensures HasStep(report.value, stepLocation.value)
      ensures StepDocAt(documentation, report.value, stepLocation.value) == currentStep
    {
      OpenStep(documentation, phase, report.value, currentCase, caseIndex, currentStep, stepLocation);
    }

    /** `TestScenario.__init__`, followed by the factory binding the declaration. */
    constructor (documentation: ScenarioDoc, declaration: Declaration)
      ensures Valid()
      ensures this.documentation == documentation && this.declaration == declaration
      ensures phase == NotStarted && report.None? && onFailedCheck == null
      ensures currentCase.None? && caseIndex.None? && currentStep.None? && stepLocation.None?
    {
      this.documentation := documentation;
      this.declaration := declaration;
      onFailedCheck := null;
      phase := NotStarted;
      report := None;
      currentCase, caseIndex := None, None;
      currentStep, stepLocation := None, None;
    }

    /** Names of the cases reported so far. */
    function CasesRun(): seq<string>
      reads this
    {
      if report.Some? then ReportCaseNames(report.value) else []
    }

    method RecordNote(key: string, message: string) returns (o: Outcome)
      requires Valid()
      modifies this`report
      ensures Valid() && ReportGrew(old(report), report)
      ensures o == if phase !in AllowedPhases(Operation.RecordNote) then ProtocolError(WrongPhase(phase))
                   else if old(report).None? then ProtocolError(NoScenarioReport)
                   else Ok
      ensures o.Ok? ==> report == Some(old(report).value.(notes := old(report).value.notes[key := Note(message)]))
      ensures !o.Ok? ==> report == old(report)
    {
      o := ExpectPhase(Operation.RecordNote, phase);
      if !o.Ok? {
        return;
      }
      if report.None? {
        // `"notes" not in self._scenario_report` with no report yet
        return ProtocolError(NoScenarioReport);
      }
      var r := report.value;
      GrowsOutsideSteps(r, r.(notes := r.notes[key := Note(message)]));
      report := Some(r.(notes := r.notes[key := Note(message)]));
    }

    method BeginTestScenario() returns (o: Outcome)
      requires Valid()
      modifies this`phase, this`report
      ensures Valid() && ReportGrew(old(report), report)
      ensures o == ExpectPhase(Operation.BeginTestScenario, old(phase))
      ensures o.Ok? ==> phase == ReadyForTestCase && report == Some(NewScenarioReport(documentation, declaration.scenarioType))
      ensures !o.Ok? ==> unchanged(this)
    {
      o := ExpectPhase(Operation.BeginTestScenario, phase);
      if !o.Ok? {
        return;
      }
      report := Some(NewScenarioReport(documentation, declaration.scenarioType));
      phase := ReadyForTestCase;
    }

    method BeginTestCase(name: string) returns (o: Outcome)
      requires Valid()
      modifies this`phase, this`report, this`currentCase, this`caseIndex
      ensures Valid() && ReportGrew(old(report), report)
      ensures o == if old(phase) !in AllowedPhases(Operation.BeginTestCase) then ProtocolError(WrongPhase(old(phase)))
                   else if FindCase(documentation.cases, name).None? then ProtocolError(UndeclaredCase)
                   else if name in old(CasesRun()) then ProtocolError(CaseAlreadyRun)
                   else Ok
      ensures o.Ok? ==>
        && phase == ReadyForTestStep
        && currentCase == FindCase(documentation.cases, name)
        && caseIndex == Some(|old(report).value.cases|)
        && report == Some(AppendCase(old(report).value, NewCaseReport(currentCase.value)))
      ensures o.Ok? ==> CasesRun() == old(CasesRun()) + [name]
      ensures !o.Ok? ==> unchanged(this)
    {
      o := ExpectPhase(Operation.BeginTestCase, phase);
      if !o.Ok? {
        return;
      }
      var found := FindCase(documentation.cases, name);
      if found.None? {
        return ProtocolError(UndeclaredCase);
      }
      if name in CasesRun() {
        return ProtocolError(CaseAlreadyRun);
      }
      var r := report.value;
      BeginTestCaseKeeps(documentation, r, currentCase, caseIndex, currentStep, stepLocation, found.value);
      currentCase := found;
      caseIndex := Some(|r.cases|);
      report := Some(AppendCase(r, NewCaseReport(found.value)));
      phase := ReadyForTestStep;
    }

    method BeginTestStep(name: string) returns (o: Outcome)
      requires Valid()
      modifies this`phase, this`report, this`currentStep, this`stepLocation
      ensures Valid() && ReportGrew(old(report), report)
      ensures o == if old(phase) !in AllowedPhases(Operation.BeginTestStep) then ProtocolError(WrongPhase(old(phase)))
                   else if FindStep(currentCase.value.steps, name).None? then ProtocolError(UndeclaredStep)
                   else Ok
      ensures o.Ok? ==>
        var r := old(report).value;
        var i := |r.cases| - 1;
        && phase == RunningTestStep
        && currentStep == FindStep(currentCase.value.steps, name)
        && stepLocation == Some(InCase(i, |r.cases[i].steps|))
        && report == Some(AppendStep(r, NewStepReport(currentStep.value)))
      ensures !o.Ok? ==> unchanged(this)
    {
      o := ExpectPhase(Operation.BeginTestStep, phase);
      if !o.Ok? {
        return;
      }
      var found := FindStep(currentCase.value.steps, name);
      if found.None? {
        return ProtocolError(UndeclaredStep);
      }
      var r := report.value;
      var i := |r.cases| - 1;
      BeginTestStepKeeps(documentation, r, currentCase, caseIndex, currentStep, stepLocation, found.value);
      currentStep := found;
      stepLocation := Some(InCase(i, |r.cases[i].steps|));
      report := Some(AppendStep(r, NewStepReport(found.value)));
      phase := RunningTestStep;
    }

    method RecordQuery(query: Query) returns (o: Outcome)
      requires Valid()
      modifies this`report
      ensures Valid() && ReportGrew(old(report), report)
      ensures o == ExpectPhase(Operation.RecordQuery, phase)
      ensures o.Ok? ==>
        var r := old(report).value;
        report == Some(SetStepAt(r, stepLocation.value, AddQuery(StepAt(r, stepLocation.value), query)))
      ensures !o.Ok? ==> report == old(report)
    {
      o := ExpectPhase(Operation.RecordQuery, phase);
      if !o.Ok? {
        return;
      }
      RecordQueryKeeps(documentation, phase, report, currentCase, caseIndex, currentStep, stepLocation, query);
      var r := report.value;
      report := Some(SetStepAt(r, stepLocation.value, AddQuery(StepAt(r, stepLocation.value), query)));
    }

    /** `check`: a handle for recording the outcome of the documented check
        `name` of the current step, bound to the current step report. */
    method Check(name: string, participants: Option<seq<ParticipantID>>) returns (o: Outcome, handle: PendingCheck?)
      requires Valid()
      ensures o == if phase !in AllowedPhases(Operation.Check) then ProtocolError(WrongPhase(phase))
                   else if FindCheck(currentStep.value.checks, name).None? then ProtocolError(UndeclaredCheck)
                   else Ok
      ensures o.Ok? <==> handle != null
      ensures handle != null ==>
        && fresh(handle) && handle.Valid()
        && handle.scenario == this
        && handle.target == stepLocation.value
        && handle.documentation == FindCheck(currentStep.value.checks, name).value
        && handle.participants == (if participants.Some? then participants.value else [])
        && handle.onFailedCheck == onFailedCheck
        && !handle.outcomeRecorded
    {
      handle := null;
      o := ExpectPhase(Operation.Check, phase);
      if !o.Ok? {
        return;
      }
      CurrentStepDoc();
      var found := FindCheck(currentStep.value.checks, name);
      if found.None? {
        return ProtocolError(UndeclaredCheck), null;
      }
      var ps := if participants.Some? then participants.value else [];
      handle := new PendingCheck(found.value, ps, this, stepLocation.value, onFailedCheck);
    }

    method EndTestStep() returns (o: Outcome)
      requires Valid()
      modifies this`phase, this`report, this`currentStep, this`stepLocation
      ensures Valid() && ReportGrew(old(report), report)
      ensures o == ExpectPhase(Operation.EndTestStep, old(phase))
      ensures o.Ok? ==>
        var r := old(report).value;
        var loc := old(stepLocation).value;
        && phase == ReadyForTestStep && currentStep.None? && stepLocation.None?
        && report == Some(SetStepAt(r, loc, StepAt(r, loc).(ended := true)))
      ensures !o.Ok? ==> unchanged(this)
    {
      o := ExpectPhase(Operation.EndTestStep, phase);
      if !o.Ok? {
        return;
      }
      CurrentStepDoc();
      var r := report.value;
      var loc := stepLocation.value;
      EndTestStepKeeps(documentation, r, currentCase, caseIndex, currentStep, stepLocation);
      var s' := StepAt(r, loc).(ended := true);
      report := Some(SetStepAt(r, loc, s'));
      currentStep, stepLocation := None, None;
      phase := ReadyForTestStep;
    }

    method EndTestCase() returns (o: Outcome)
      requires Valid()
      modifies this`phase, this`report, this`currentCase, this`caseIndex
      ensures Valid() && ReportGrew(old(report), report)
      ensures o == ExpectPhase(Operation.EndTestCase, old(phase))
      ensures o.Ok? ==>
        var r := old(report).value;
        var i := old(caseIndex).value;
        && phase == ReadyForTestCase && currentCase.None? && caseIndex.None?
        && i < |r.cases|
        && report == Some(EndCase(r, i))
      ensures !o.Ok? ==> unchanged(this)
    {
      o := ExpectPhase(Operation.EndTestCase, phase);
      if !o.Ok? {
        return;
      }
      var r := report.value;
      var i := caseIndex.value;
      EndTestCaseKeeps(documentation, r, currentCase, caseIndex, currentStep, stepLocation);
      report := Some(EndCase(r, i));
      currentCase, caseIndex := None, None;
      phase := ReadyForTestCase;
    }

    method EndTestScenario() returns (o: Outcome)
      requires Valid()
      modifies this`phase, this`report
      ensures Valid() && ReportGrew(old(report), report)
      ensures o == ExpectPhase(Operation.EndTestScenario, old(phase))
      ensures o.Ok? ==> phase == ReadyForCleanup && report == Some(old(report).value.(ended := true))
      ensures !o.Ok? ==> unchanged(this)
    {
      o := ExpectPhase(Operation.EndTestScenario, phase);
      if !o.Ok? {
        return;
      }
      GrowsOutsideSteps(report.value, report.value.(ended := true));
      report := Some(report.value.(ended := true));
      phase := ReadyForCleanup;
    }

    /** The escape hatch towards cleanup; from ReadyForCleanup it changes nothing. */
    method GoToCleanup() returns (o: Outcome)
      requires Valid()
      modifies this`phase
      ensures Valid()
      ensures o == ExpectPhase(Operation.GoToCleanup, old(phase))
      ensures o.Ok? ==> phase == ReadyForCleanup
      ensures !o.Ok? ==> phase == old(phase)
    {
      o := ExpectPhase(Operation.GoToCleanup, phase);
      if !o.Ok? {
        return;
      }
      phase := ReadyForCleanup;
    }

    method BeginCleanup() returns (o: Outcome)
      requires Valid()
      modifies this`phase, this`report, this`currentStep, this`stepLocation
      ensures Valid() && ReportGrew(old(report), report)
      ensures o == BeginCleanupOutcome(old(phase), documentation)
      ensures o.Ok? ==>
        && phase == CleaningUp
        && currentStep == documentation.cleanup
        && stepLocation == Some(InCleanup)
        && old(report).value.cleanup.None?
        && report == Some(old(report).value.(cleanup := Some(NewStepReport(documentation.cleanup.value))))
      ensures !o.Ok? ==> unchanged(this)
    {
      o := ExpectPhase(Operation.BeginCleanup, phase);
      if !o.Ok? {
        return;
      }
      if documentation.cleanup.None? {
        return ProtocolError(NoCleanupDocumented);
      }
      currentStep := documentation.cleanup;
      stepLocation := Some(InCleanup);
      var r := report.value;
      GrowsOutsideSteps(r, r.(cleanup := Some(NewStepReport(documentation.cleanup.value))));
      report := Some(r.(cleanup := Some(NewStepReport(documentation.cleanup.value))));
      phase := CleaningUp;
    }

    method SkipCleanup() returns (o: Outcome)
      requires Valid()
      modifies this`phase
      ensures Valid()
      ensures o == SkipCleanupOutcome(old(phase), documentation)
      ensures o.Ok? ==> phase == Complete
      ensures !o.Ok? ==> phase == old(phase)
    {
      o := ExpectPhase(Operation.SkipCleanup, phase);
      if !o.Ok? {
        return;
      }
      if documentation.cleanup.Some? {
        return ProtocolError(CleanupDocumented);
      }
      phase := Complete;
    }

    /** The default `cleanup` of a scenario that needs none. */
    method Cleanup() returns (o: Outcome)
      requires Valid()
      modifies this`phase
      ensures Valid()
      ensures o == SkipCleanupOutcome(old(phase), documentation)
      ensures o.Ok? ==> phase == Complete
      ensures !o.Ok? ==> phase == old(phase)
    {
      o := SkipCleanup();
    }

    method EndCleanup() returns (o: Outcome)
      requires Valid()
      modifies this`phase, this`report
      ensures Valid() && ReportGrew(old(report), report)
      ensures o == ExpectPhase(Operation.EndCleanup, old(phase))
      ensures o.Ok? ==>
        var r := old(report).value;
        && phase == Complete
        && report == Some(SetStepAt(r, InCleanup, StepAt(r, InCleanup).(ended := true)))
      ensures !o.Ok? ==> unchanged(this)
    {
      o := ExpectPhase(Operation.EndCleanup, phase);
      if !o.Ok? {
        return;
      }
      var r := report.value;
      EndCleanupKeeps(documentation, r, currentCase, caseIndex, currentStep, stepLocation);
      report := Some(SetStepAt(r, InCleanup, StepAt(r, InCleanup).(ended := true)));
      phase := Complete;
    }

    /** Attach an execution error and finish the scenario, unsuccessfully. */
    method RecordExecutionError(error: ErrorReport) returns (o: Outcome)
      requires Valid()
      modifies this`phase, this`report
      ensures Valid() && ReportGrew(old(report), report)
      ensures o == if old(phase) == Complete then ProtocolError(AlreadyComplete) else Ok
      ensures o.Ok? ==>
        var r := if old(report).Some? then old(report).value
                 else NewScenarioReport(documentation, declaration.scenarioType);
        && phase == Complete
        && report == Some(r.(executionError := Some(error), successful := Some(false)))
      ensures !o.Ok? ==> unchanged(this)
    {
      if phase == Complete {
        return ProtocolError(AlreadyComplete);
      }
      o := Ok;
      var r := if report.Some? then report.value else NewScenarioReport(documentation, declaration.scenarioType);
      GrowsOutsideSteps(r, r.(executionError := Some(error), successful := Some(false)));
      report := Some(r.(executionError := Some(error), successful := Some(false)));
      phase := Complete;
    }

    /** `get_report`: a scenario that is not Complete and has no execution
        error gets one first; then `successful` is evaluated over the tree. */
    method GetReport() returns (result: ScenarioReport)
      requires Valid()
      modifies this`phase, this`report
      ensures Valid() && ReportGrew(old(report), report)
      ensures phase == Complete && report == Some(result)
      ensures var r := if old(report).Some? then old(report).value
                       else NewScenarioReport(documentation, declaration.scenarioType);
        var error := if r.executionError.Some? then r.executionError
                     else if old(phase) == Complete then None
                     else Some(NotComplete);
        result == r.(executionError := error, successful := result.successful)
      ensures result.successful == Some(Successful(result))
      ensures old(phase) != Complete ==> result.successful == Some(false)
    {
      if report.None? || report.value.executionError.None? {
        if phase != Complete {
          // With no report yet the phase is NotStarted; record_execution_error
          // then creates the report just as `_make_scenario_report` would.
          var _ := RecordExecutionError(NotComplete);
        }
      }
      var r := report.value;
      var successful := EvaluateSuccess(r);
      result := r.(successful := Some(successful));
      GrowsOutsideSteps(r, result);
      report := Some(result);
    }
  }

  /** A scoped handle for recording the outcome of one documented check into
      the step report it was opened in. Leaving the scope (`Exit`) records a
      pass unless an outcome was already recorded. Recording a second outcome
      is not refused: it is appended like the first. */
  class PendingCheck {
    const documentation: CheckDoc
    const participants: seq<ParticipantID>
    const scenario: TestScenario
    const target: StepLocation
    const onFailedCheck: FailureObserver?
    var outcomeRecorded: bool

    /** The scenario is consistent and the step report this handle writes to
        exists and documents this handle's check. */
    ghost predicate Valid()
      reads this, scenario
    {
      HandleBound(scenario.documentation, scenario.phase, scenario.report, scenario.currentCase, scenario.caseIndex,
                  scenario.currentStep, scenario.stepLocation, target, documentation.name)
    }

    constructor (documentation: CheckDoc, participants: seq<ParticipantID>, scenario: TestScenario,
                 target: StepLocation, onFailedCheck: FailureObserver?)
      ensures this.documentation == documentation && this.participants == participants
      ensures this.scenario == scenario && this.target == target && this.onFailedCheck == onFailedCheck
      ensures !outcomeRecorded
    {
      this.documentation := documentation;
      this.participants := participants;
      this.scenario := scenario;
      this.target := target;
      this.onFailedCheck := onFailedCheck;
      outcomeRecorded := false;
    }

    /** The failed check `record_failed` appends, with the handle's
        participants and the documented requirements as defaults. */
    function MakeFailedCheck(summary: string, severity: Severity, details: string,
                             participants: Option<seq<ParticipantID>>, queryTimestamps: Option<seq<string>>,
                             additionalData: Option<string>, requirements: Option<seq<string>>): (f: FailedCheck)
      ensures f.name == documentation.name && f.severity == severity && f.summary == summary && f.details == details
      ensures f.participants == if participants.Some? then participants.value else this.participants
      ensures f.requirements == if requirements.Some? then requirements.value else documentation.applicableRequirements
      ensures f.additionalData == additionalData && f.queryReportTimestamps == queryTimestamps
    {
      FailedCheck(
        documentation.name, documentation.url, summary, details,
        if requirements.Some? then requirements.value else documentation.applicableRequirements,
        severity,
        if participants.Some? then participants.value else this.participants,
        additionalData, queryTimestamps)
    }

    /** The passed check `record_passed` appends, with the same defaults. */
    function MakePassedCheck(participants: Option<seq<ParticipantID>>, requirements: Option<seq<string>>): (p: PassedCheck)
      ensures p.name == documentation.name
      ensures p.participants == if participants.Some? then participants.value else this.participants
      ensures p.requirements == if requirements.Some? then requirements.value else documentation.applicableRequirements
    {
      PassedCheck(
        documentation.name,
        if participants.Some? then participants.value else this.participants,
        if requirements.Some? then requirements.value else documentation.applicableRequirements)
    }

    /** The recording half of `record_failed`: mark the outcome recorded and
        append the failed check to the bound step report. */
    method AppendFailedCheck(f: FailedCheck)
      requires Valid() && f.name == documentation.name
      modifies this`outcomeRecorded, scenario`report
      ensures Valid() && outcomeRecorded
      ensures var r := old(scenario.report).value;
        scenario.report == Some(SetStepAt(r, target, AddFailed(StepAt(r, target), f)))
      ensures ReportGrew(old(scenario.report), scenario.report)
    {
      outcomeRecorded := true;
      RecordFailedKeeps(scenario.documentation, scenario.phase, scenario.report, scenario.currentCase, scenario.caseIndex,
                        scenario.currentStep, scenario.stepLocation, target, f);
      var r := scenario.report.value;
      scenario.report := Some(SetStepAt(r, target, AddFailed(StepAt(r, target), f)));
    }

    /** Append one failed check to the bound step report, hand it to the
        observer, then escalate by severity. */
    method RecordFailed(summary: string, severity: Severity, details: string,
                        participants: Option<seq<ParticipantID>>, queryTimestamps: Option<seq<string>>,
                        additionalData: Option<string>, requirements: Option<seq<string>>) returns (o: Outcome)
      requires Valid()
      modifies this`outcomeRecorded, scenario`report, if onFailedCheck != null then {onFailedCheck} else {}
      ensures Valid() && outcomeRecorded
      ensures var f := MakeFailedCheck(summary, severity, details, participants, queryTimestamps, additionalData, requirements);
        var r := old(scenario.report).value;
        && scenario.report == Some(SetStepAt(r, target, AddFailed(StepAt(r, target), f)))
        && (onFailedCheck != null ==> onFailedCheck.seen == old(onFailedCheck.seen) + [f])
      ensures ReportGrew(old(scenario.report), scenario.report)
      ensures o == Escalation(severity)
    {
      var f := MakeFailedCheck(summary, severity, details, participants, queryTimestamps, additionalData, requirements);
      AppendFailedCheck(f);
      if onFailedCheck != null {
        onFailedCheck.Notify(f);
      }
      o := Escalation(severity);
    }

    /** Append one passed check to the bound step report. */
    method RecordPassed(participants: Option<seq<ParticipantID>>, requirements: Option<seq<string>>)
      requires Valid()
      modifies this`outcomeRecorded, scenario`report
      ensures Valid() && outcomeRecorded
      ensures var r := old(scenario.report).value;
        scenario.report == Some(SetStepAt(r, target, AddPassed(StepAt(r, target), MakePassedCheck(participants, requirements))))
      ensures ReportGrew(old(scenario.report), scenario.report)
    {
      outcomeRecorded := true;
      var p := MakePassedCheck(participants, requirements);
      RecordPassedKeeps(scenario.documentation, scenario.phase, scenario.report, scenario.currentCase, scenario.caseIndex,
                        scenario.currentStep, scenario.stepLocation, target, p);
      var r := scenario.report.value;
      scenario.report := Some(SetStepAt(r, target, AddPassed(StepAt(r, target), p)));
    }

    /** `__exit__`: whatever way the scope ends, a handle with no recorded
        outcome records one pass, and a handle with one records nothing. */
    method Exit()
      requires Valid()
      modifies this`outcomeRecorded, scenario`report
      ensures Valid() && outcomeRecorded
      ensures var r := old(scenario.report).value;
        var s := StepAt(r, target);
        scenario.report == if old(outcomeRecorded) then old(scenario.report)
                           else Some(SetStepAt(r, target, s.(passedChecks := s.passedChecks + [MakePassedCheck(None, None)])))
    {
      if !outcomeRecorded {
        RecordPassed(None, None);
      }
    }
  }
}
