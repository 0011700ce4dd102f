/** The report tree a scenario builds while it runs:
    scenario report -> cases -> steps -> passed and failed checks, plus an
    optional cleanup step beside the cases. Timestamps are not modelled; that
    a report's end time has been stamped is recorded by its `ended` flag. */
module Report {
  import opened Common
  import opened Documentation

  /** Only High and Critical change control flow; Medium is one of the other
      values the severity enumeration offers. */
  datatype Severity = Low | Medium | High | Critical

  type ParticipantID = string

  datatype PassedCheck = PassedCheck(name: string, participants: seq<ParticipantID>, requirements: seq<string>)

  /** `additionalData` is an opaque payload; `queryReportTimestamps` holds the
      query times the caller passed, as opaque text. */
  datatype FailedCheck = FailedCheck(
    name: string,
    documentationUrl: string,
    summary: string,
    details: string,
    requirements: seq<string>,
    severity: Severity,
    participants: seq<ParticipantID>,
    additionalData: Option<string>,
    queryReportTimestamps: Option<seq<string>>)

  /** A record of one network call made by a collaborator; opaque here. */
  datatype Query = Query(payload: string)

  datatype StepReport = StepReport(
    name: string,
    documentationUrl: string,
    passedChecks: seq<PassedCheck>,
    failedChecks: seq<FailedCheck>,
    queries: seq<Query>,
    ended: bool)

  datatype CaseReport = CaseReport(name: string, documentationUrl: string, steps: seq<StepReport>, ended: bool)

  datatype Note = Note(message: string)

  /** What was recorded as the scenario's execution error: the error that
      `get_report` raises for itself when the scenario is not Complete, or an
      exception some driver caught, given by its description. */
  datatype ErrorReport = NotComplete | FromException(description: string)

  datatype ScenarioReport = ScenarioReport(
    name: string,
    scenarioType: string,
    documentationUrl: string,
    cases: seq<CaseReport>,
    notes: map<string, Note>,
    cleanup: Option<StepReport>,
    executionError: Option<ErrorReport>,
    successful: Option<bool>,
    ended: bool)

  /** Where a step report lives in the tree: step `stepIndex` of case
      `caseIndex`, or the cleanup step. Lists are only ever appended to and the
      cleanup step is installed at most once, so a location keeps naming the
      same step report for the whole life of the scenario. */
  datatype StepLocation = InCase(caseIndex: nat, stepIndex: nat) | InCleanup

  function NewStepReport(doc: StepDoc): (s: StepReport)
    ensures s.name == doc.name && s.passedChecks == [] && s.failedChecks == [] && s.queries == [] && !s.ended
  {
    StepReport(doc.name, doc.url, [], [], [], false)
  }

  function NewCaseReport(doc: CaseDoc): (c: CaseReport)
    ensures c.name == doc.name && c.steps == [] && !c.ended
  {
    CaseReport(doc.name, doc.url, [], false)
  }

  /** `_make_scenario_report`: an empty report named after the documentation. */
  function NewScenarioReport(doc: ScenarioDoc, scenarioType: string): (r: ScenarioReport)
    ensures r.name == doc.name && r.scenarioType == scenarioType
    ensures r.cases == [] && r.notes == map[] && r.cleanup.None? && r.executionError.None?
    ensures r.successful.None? && !r.ended
  {
    ScenarioReport(doc.name, scenarioType, doc.url, [], map[], None, None, None, false)
  }

  function ReportCaseNames(r: ScenarioReport): (names: seq<string>)
    ensures |names| == |r.cases| && forall i :: 0 <= i < |r.cases| ==> names[i] == r.cases[i].name
  {
    CaseReportNames(r.cases)
  }

  function CaseReportNames(cases: seq<CaseReport>): (names: seq<string>)
    ensures |names| == |cases| && forall i :: 0 <= i < |cases| ==> names[i] == cases[i].name
  {
    if |cases| == 0 then [] else CaseReportNames(cases[..|cases| - 1]) + [cases[|cases| - 1].name]
  }

  /** `failed_checks.append(...)` on one step report. */
  function AddFailed(s: StepReport, f: FailedCheck): StepReport
  {
    s.(failedChecks := s.failedChecks + [f])
  }

  /** `passed_checks.append(...)` on one step report. */
  function AddPassed(s: StepReport, p: PassedCheck): StepReport
  {
    s.(passedChecks := s.passedChecks + [p])
  }

  /** `queries.append(query)` on one step report. */
  function AddQuery(s: StepReport, q: Query): StepReport
  {
    s.(queries := s.queries + [q])
  }

  /** `cases.append(case_report)` */
  function AppendCase(r: ScenarioReport, c: CaseReport): ScenarioReport
  {
    r.(cases := r.cases + [c])
  }

  /** `_case_report.steps.append(step_report)` on the last case reported. */
  function AppendStep(r: ScenarioReport, s: StepReport): ScenarioReport
    requires |r.cases| > 0
  {
    var i := |r.cases| - 1;
    r.(cases := r.cases[i := r.cases[i].(steps := r.cases[i].steps + [s])])
  }

  /** Stamping the end of case `i`. */
  function EndCase(r: ScenarioReport, i: nat): ScenarioReport
    requires i < |r.cases|
  {
    r.(cases := r.cases[i := r.cases[i].(ended := true)])
  }

  predicate HasStep(r: ScenarioReport, loc: StepLocation)
  {
    match loc
    case InCase(i, j) => i < |r.cases| && j < |r.cases[i].steps|
    case InCleanup => r.cleanup.Some?
  }

  function StepAt(r: ScenarioReport, loc: StepLocation): StepReport
    requires HasStep(r, loc)
  {
    match loc
    case InCase(i, j) => r.cases[i].steps[j]
    case InCleanup => r.cleanup.value
  }

  /** The tree with the step report at `loc` replaced by `s`. */
  function SetStepAt(r: ScenarioReport, loc: StepLocation, s: StepReport): ScenarioReport
    requires HasStep(r, loc)
  {
    match loc
    case InCase(i, j) => r.(cases := r.cases[i := r.cases[i].(steps := r.cases[i].steps[j := s])])
    case InCleanup => r.(cleanup := Some(s))
  }

  /** Replacing one step report leaves every other step report, every case
      name and everything outside the steps as it was. */
  lemma SetStepAtFrame(r: ScenarioReport, loc: StepLocation, s: StepReport, other: StepLocation)
    requires HasStep(r, loc)
    ensures var r' := SetStepAt(r, loc, s);
      && |r'.cases| == |r.cases|
      && (forall i :: 0 <= i < |r.cases| ==> r'.cases[i].name == r.cases[i].name && |r'.cases[i].steps| == |r.cases[i].steps|)
      && r'.executionError == r.executionError && r'.notes == r.notes
      && (HasStep(r', other) <==> HasStep(r, other))
      && (HasStep(r, other) ==> StepAt(r', other) == if other == loc then s else StepAt(r, other))
  {
  }

  // ----- Append-only growth -------------------------------------------------

  /** `s1` extends `s0`: same step, check and query lists only appended to. */
  predicate StepGrows(s0: StepReport, s1: StepReport)
  {
    && s1.name == s0.name
    && s0.passedChecks <= s1.passedChecks
    && s0.failedChecks <= s1.failedChecks
    && s0.queries <= s1.queries
    && (s0.ended ==> s1.ended)
  }

  predicate CaseGrows(c0: CaseReport, c1: CaseReport)
  {
    && c1.name == c0.name
    && |c0.steps| <= |c1.steps|
    && (forall j :: 0 <= j < |c0.steps| ==> StepGrows(c0.steps[j], c1.steps[j]))
    && (c0.ended ==> c1.ended)
  }

  /** `r1` is `r0` after further recording: existing cases, steps and checks
      stay where they are, new ones only come after them, notes are never
      removed and an execution error, once recorded, stays. */
  predicate Grows(r0: ScenarioReport, r1: ScenarioReport)
  {
    && |r0.cases| <= |r1.cases|
    && (forall i :: 0 <= i < |r0.cases| ==> CaseGrows(r0.cases[i], r1.cases[i]))
    && (r0.cleanup.Some? ==> r1.cleanup.Some? && StepGrows(r0.cleanup.value, r1.cleanup.value))
    && r0.notes.Keys <= r1.notes.Keys
    && (r0.executionError.Some? ==> r1.executionError == r0.executionError)
  }

  lemma {:induction false} GrowsTransitive(r0: ScenarioReport, r1: ScenarioReport, r2: ScenarioReport)
    requires Grows(r0, r1) && Grows(r1, r2)
    ensures Grows(r0, r2)
  {
    forall i | 0 <= i < |r0.cases|
      ensures CaseGrows(r0.cases[i], r2.cases[i])
    {
      var c0, c1, c2 := r0.cases[i], r1.cases[i], r2.cases[i];
      assert CaseGrows(c0, c1) && CaseGrows(c1, c2);
      forall j | 0 <= j < |c0.steps|
        ensures StepGrows(c0.steps[j], c2.steps[j])
      {
        assert StepGrows(c0.steps[j], c1.steps[j]) && StepGrows(c1.steps[j], c2.steps[j]);
      }
    }
  }

  /** A change outside the cases and the cleanup step that removes no note
      and replaces no execution error is growth. */
  lemma GrowsOutsideSteps(r0: ScenarioReport, r1: ScenarioReport)
    requires r1.cases == r0.cases && r0.notes.Keys <= r1.notes.Keys
    requires r0.cleanup.Some? ==> r1.cleanup == r0.cleanup
    requires r0.executionError.Some? ==> r1.executionError == r0.executionError
    ensures Grows(r0, r1)
  {
    forall i | 0 <= i < |r0.cases|
      ensures CaseGrows(r0.cases[i], r1.cases[i])
    {
      CaseGrowsReflexive(r0.cases[i]);
    }
  }

  lemma CaseGrowsReflexive(c: CaseReport)
    ensures CaseGrows(c, c)
  {
    forall j | 0 <= j < |c.steps|
      ensures StepGrows(c.steps[j], c.steps[j])
    {
    }
  }

  /** Appending a case is growth. */
  lemma AppendCaseGrows(r: ScenarioReport, c: CaseReport)
    ensures Grows(r, r.(cases := r.cases + [c]))
  {
    var r' := r.(cases := r.cases + [c]);
    forall i | 0 <= i < |r.cases|
      ensures CaseGrows(r.cases[i], r'.cases[i])
    {
      assert r'.cases[i] == r.cases[i];
      CaseGrowsReflexive(r.cases[i]);
    }
  }

  /** Replacing a case by a grown version of itself is growth. */
  lemma ReplaceCaseGrows(r: ScenarioReport, i: nat, c: CaseReport)
    requires i < |r.cases| && CaseGrows(r.cases[i], c)
    ensures Grows(r, r.(cases := r.cases[i := c]))
  {
    var r' := r.(cases := r.cases[i := c]);
    forall k | 0 <= k < |r.cases|
      ensures CaseGrows(r.cases[k], r'.cases[k])
    {
      if k != i {
        CaseGrowsReflexive(r.cases[k]);
      }
    }
  }

  /** Appending a step to a case is growth of the case. */
  lemma AppendStepGrows(c: CaseReport, s: StepReport)
    ensures CaseGrows(c, c.(steps := c.steps + [s]))
  {
    var c' := c.(steps := c.steps + [s]);
    forall j | 0 <= j < |c.steps|
      ensures StepGrows(c.steps[j], c'.steps[j])
    {
      assert c'.steps[j] == c.steps[j];
    }
  }

  /** Stamping a case's end is growth of the case. */
  lemma EndCaseGrows(c: CaseReport)
    ensures CaseGrows(c, c.(ended := true))
  {
    CaseGrowsReflexive(c);
  }

  /** A step that exists keeps existing, under the same name, as the tree grows. */
  lemma GrowsKeepsStep(r0: ScenarioReport, r1: ScenarioReport, loc: StepLocation)
    requires Grows(r0, r1) && HasStep(r0, loc)
    ensures HasStep(r1, loc) && StepGrows(StepAt(r0, loc), StepAt(r1, loc))
  {
    match loc
    case InCase(i, j) =>
      assert CaseGrows(r0.cases[i], r1.cases[i]);
    case InCleanup =>
  }

  /** Over any run of operations, each of which only grows the report, the
      first report grows into the last and every step report that existed
      at the start still exists at the same location, with its checks and
      queries kept: a pending check's target survives whatever the scenario
      does in between. */
  lemma {:induction false} GrowsAlongRun(reports: seq<ScenarioReport>, loc: StepLocation)
    requires |reports| > 0 && HasStep(reports[0], loc)
    requires forall i :: 0 <= i < |reports| - 1 ==> Grows(reports[i], reports[i + 1])
    ensures Grows(reports[0], reports[|reports| - 1])
    ensures HasStep(reports[|reports| - 1], loc) && StepGrows(StepAt(reports[0], loc), StepAt(reports[|reports| - 1], loc))
    decreases |reports|
  {
    if |reports| == 1 {
      GrowsReflexive(reports[0]);
      GrowsKeepsStep(reports[0], reports[0], loc);
    } else {
      var rest := reports[1..];
      forall i | 0 <= i < |rest| - 1
        ensures Grows(rest[i], rest[i + 1])
      {
        assert Grows(reports[i + 1], reports[i + 2]);
      }
      assert Grows(reports[0], rest[0]);
      GrowsKeepsStep(reports[0], rest[0], loc);
      GrowsAlongRun(rest, loc);
      GrowsTransitive(reports[0], rest[0], rest[|rest| - 1]);
      GrowsKeepsStep(reports[0], rest[|rest| - 1], loc);
    }
  }

  lemma GrowsReflexive(r: ScenarioReport)
    ensures Grows(r, r)
  {
    forall i | 0 <= i < |r.cases|
      ensures CaseGrows(r.cases[i], r.cases[i])
    {
      CaseGrowsReflexive(r.cases[i]);
    }
  }

  // ----- Names agree with the documentation ---------------------------------

  /** Every check recorded in `s` is declared by the step documentation `sd`. */
  predicate ChecksDeclared(sd: StepDoc, s: StepReport)
  {
    && (forall k :: 0 <= k < |s.passedChecks| ==> FindCheck(sd.checks, s.passedChecks[k].name).Some?)
    && (forall k :: 0 <= k < |s.failedChecks| ==> FindCheck(sd.checks, s.failedChecks[k].name).Some?)
  }

  /** Recording one more passed check whose name `sd` declares keeps every
      check of the step declared. */
  lemma AppendPassedKeepsDeclared(sd: StepDoc, s: StepReport, p: PassedCheck)
    requires ChecksDeclared(sd, s) && FindCheck(sd.checks, p.name).Some?
    ensures ChecksDeclared(sd, s.(passedChecks := s.passedChecks + [p]))
  {
    var s' := s.(passedChecks := s.passedChecks + [p]);
    assert forall k :: 0 <= k < |s.passedChecks| ==> s'.passedChecks[k] == s.passedChecks[k];
  }

  /** The same for one more failed check. */
  lemma AppendFailedKeepsDeclared(sd: StepDoc, s: StepReport, f: FailedCheck)
    requires ChecksDeclared(sd, s) && FindCheck(sd.checks, f.name).Some?
    ensures ChecksDeclared(sd, s.(failedChecks := s.failedChecks + [f]))
  {
    var s' := s.(failedChecks := s.failedChecks + [f]);
    assert forall k :: 0 <= k < |s.failedChecks| ==> s'.failedChecks[k] == s.failedChecks[k];
  }

  /** The documentation of the step at `loc`, found by name the way the step
      was begun: its case by the case's name, then the step by its name. */
  function StepDocAt(doc: ScenarioDoc, r: ScenarioReport, loc: StepLocation): Option<StepDoc>
    requires HasStep(r, loc)
  {
    match loc
    case InCase(i, j) =>
      (match FindCase(doc.cases, r.cases[i].name)
       case None => None
       case Some(cd) => FindStep(cd.steps, r.cases[i].steps[j].name))
    case InCleanup => doc.cleanup
  }

  /** The step report `s` is declared under the case documentation `cd`,
      and so is every check in it. */
  predicate StepConforms(cd: CaseDoc, s: StepReport)
  {
    match FindStep(cd.steps, s.name)
    case None => false
    case Some(sd) => ChecksDeclared(sd, s)
  }

  /** The case named `name` is documented and so is each of its steps. */
  predicate CaseConforms(doc: ScenarioDoc, name: string, steps: seq<StepReport>)
  {
    match FindCase(doc.cases, name)
    case None => false
    case Some(cd) => forall j :: 0 <= j < |steps| ==> StepConforms(cd, steps[j])
  }

  /** The report tree (its cases and its cleanup step) agrees with the
      documentation: every case, step and check in it is declared, the
      cleanup step is the documented one, and no case name appears twice. */
  predicate Conforms(doc: ScenarioDoc, cases: seq<CaseReport>, cleanup: Option<StepReport>)
  {
    && (forall i :: 0 <= i < |cases| ==> CaseConforms(doc, cases[i].name, cases[i].steps))
    && (forall i, j :: 0 <= i < j < |cases| ==> cases[i].name != cases[j].name)
    && (cleanup.Some? ==>
          doc.cleanup.Some? && cleanup.value.name == doc.cleanup.value.name
          && ChecksDeclared(doc.cleanup.value, cleanup.value))
  }

  /** In a conforming tree, every step report has documentation, and that
      documentation declares every check recorded in it. */
  lemma ConformingStepDoc(doc: ScenarioDoc, r: ScenarioReport, loc: StepLocation)
    requires Conforms(doc, r.cases, r.cleanup) && HasStep(r, loc)
    ensures StepDocAt(doc, r, loc).Some? && ChecksDeclared(StepDocAt(doc, r, loc).value, StepAt(r, loc))
  {
    if loc.InCase? {
      assert CaseConforms(doc, r.cases[loc.caseIndex].name, r.cases[loc.caseIndex].steps);
    }
  }

  /** Replacing a step report by a later state of itself whose checks are all
      declared keeps the tree conforming and keeps the documentation found
      at every location, and the tree has only grown. */
  lemma RecordingKeepsConforms(doc: ScenarioDoc, r: ScenarioReport, loc: StepLocation, s': StepReport)
    requires Conforms(doc, r.cases, r.cleanup) && HasStep(r, loc)
    requires StepGrows(StepAt(r, loc), s')
    requires StepDocAt(doc, r, loc).Some? && ChecksDeclared(StepDocAt(doc, r, loc).value, s')
    ensures var r' := SetStepAt(r, loc, s');
      && Conforms(doc, r'.cases, r'.cleanup)
      && Grows(r, r')
      && r'.cleanup.Some? == r.cleanup.Some?
      && r'.executionError == r.executionError
      && (forall other :: HasStep(r, other) ==> HasStep(r', other) && StepDocAt(doc, r', other) == StepDocAt(doc, r, other))
  {
    var r' := SetStepAt(r, loc, s');
    forall other | HasStep(r, other)
      ensures HasStep(r', other) && StepDocAt(doc, r', other) == StepDocAt(doc, r, other)
    {
      SetStepAtFrame(r, loc, s', other);
    }
    SetStepAtConforms(doc, r, loc, s');
    SetStepAtGrows(r, loc, s');
    SetStepAtFrame(r, loc, s', InCleanup);
  }

  lemma SetStepAtConforms(doc: ScenarioDoc, r: ScenarioReport, loc: StepLocation, s': StepReport)
    requires Conforms(doc, r.cases, r.cleanup) && HasStep(r, loc)
    requires s'.name == StepAt(r, loc).name
    requires StepDocAt(doc, r, loc).Some? && ChecksDeclared(StepDocAt(doc, r, loc).value, s')
    ensures var r' := SetStepAt(r, loc, s'); Conforms(doc, r'.cases, r'.cleanup)
  {
    var r' := SetStepAt(r, loc, s');
    forall i | 0 <= i < |r.cases|
      ensures CaseConforms(doc, r'.cases[i].name, r'.cases[i].steps)
    {
      assert CaseConforms(doc, r.cases[i].name, r.cases[i].steps);
      forall j | 0 <= j < |r.cases[i].steps|
        ensures r'.cases[i].steps[j] == r.cases[i].steps[j] || (loc == InCase(i, j) && r'.cases[i].steps[j] == s')
      {
        SetStepAtFrame(r, loc, s', InCase(i, j));
      }
    }
    SetStepAtFrame(r, loc, s', InCleanup);
  }

  lemma SetStepAtGrows(r: ScenarioReport, loc: StepLocation, s': StepReport)
    requires HasStep(r, loc) && StepGrows(StepAt(r, loc), s')
    ensures Grows(r, SetStepAt(r, loc, s'))
  {
    var r' := SetStepAt(r, loc, s');
    forall i | 0 <= i < |r.cases|
      ensures CaseGrows(r.cases[i], r'.cases[i])
    {
      forall j | 0 <= j < |r.cases[i].steps|
        ensures StepGrows(r.cases[i].steps[j], r'.cases[i].steps[j])
      {
        SetStepAtFrame(r, loc, s', InCase(i, j));
      }
    }
    SetStepAtFrame(r, loc, s', InCleanup);
  }

  /** Adding a documented case whose name has not been used yet keeps the
      tree conforming. */
  lemma AppendCaseKeepsConforms(doc: ScenarioDoc, cases: seq<CaseReport>, cleanup: Option<StepReport>, c: CaseReport)
    requires Conforms(doc, cases, cleanup)
    requires CaseConforms(doc, c.name, c.steps)
    requires forall i :: 0 <= i < |cases| ==> cases[i].name != c.name
    ensures Conforms(doc, cases + [c], cleanup)
  {
    var cases' := cases + [c];
    forall i | 0 <= i < |cases'|
      ensures CaseConforms(doc, cases'[i].name, cases'[i].steps)
    {
      if i < |cases| {
        assert cases'[i] == cases[i];
      }
    }
  }

  /** Replacing case `i` by one with the same name whose steps conform keeps
      the tree conforming. */
  lemma ReplaceCaseKeepsConforms(doc: ScenarioDoc, cases: seq<CaseReport>, cleanup: Option<StepReport>, i: nat, c: CaseReport)
    requires Conforms(doc, cases, cleanup) && i < |cases|
    requires c.name == cases[i].name && CaseConforms(doc, c.name, c.steps)
    ensures Conforms(doc, cases[i := c], cleanup)
  {
    var cases' := cases[i := c];
    forall k | 0 <= k < |cases'|
      ensures CaseConforms(doc, cases'[k].name, cases'[k].steps)
    {
      if k != i {
        assert cases'[k] == cases[k];
      }
    }
  }

  /** Appending a documented, empty step to a conforming case keeps it conforming. */
  lemma AppendStepKeepsCaseConforms(doc: ScenarioDoc, name: string, steps: seq<StepReport>, sd: StepDoc)
    requires CaseConforms(doc, name, steps)
    requires FindCase(doc.cases, name).Some? && FindStep(FindCase(doc.cases, name).value.steps, sd.name) == Some(sd)
    ensures CaseConforms(doc, name, steps + [NewStepReport(sd)])
  {
    var cd := FindCase(doc.cases, name).value;
    var steps' := steps + [NewStepReport(sd)];
    forall j | 0 <= j < |steps'|
      ensures StepConforms(cd, steps'[j])
    {
      if j < |steps| {
        assert steps'[j] == steps[j];
      }
    }
  }

  // ----- Success ------------------------------------------------------------

  predicate StepClean(s: StepReport)
  {
    forall k :: 0 <= k < |s.failedChecks| ==> s.failedChecks[k].severity == Low
  }

  predicate CaseClean(c: CaseReport)
  {
    forall j :: 0 <= j < |c.steps| ==> StepClean(c.steps[j])
  }

  /** What `successful` must be: no execution error, and no failed check
      whose severity is other than Low in any step of any case or in the
      cleanup step. */
  predicate Successful(r: ScenarioReport)
  {
    && r.executionError.None?
    && (forall i :: 0 <= i < |r.cases| ==> CaseClean(r.cases[i]))
    && (r.cleanup.Some? ==> StepClean(r.cleanup.value))
  }

  /** The success evaluation of `get_report`: start from "no execution error"
      and clear the flag for every failed check that is not Low. */
  method EvaluateSuccess(r: ScenarioReport) returns (successful: bool)
    ensures successful == Successful(r)
  {
    successful := r.executionError.None?;
    for i := 0 to |r.cases|
      invariant successful == (r.executionError.None? && forall i' :: 0 <= i' < i ==> CaseClean(r.cases[i']))
    {
      var steps := r.cases[i].steps;
      ghost var before := successful;
      for j := 0 to |steps|
        invariant successful == (before && forall j' :: 0 <= j' < j ==> StepClean(steps[j']))
      {
        var failedChecks := steps[j].failedChecks;
        ghost var beforeStep := successful;
        for k := 0 to |failedChecks|
          invariant successful == (beforeStep && forall k' :: 0 <= k' < k ==> failedChecks[k'].severity == Low)
        {
          if failedChecks[k].severity != Low {
            successful := false;
          }
        }
      }
    }
    if r.cleanup.Some? {
      var failedChecks := r.cleanup.value.failedChecks;
      ghost var before := successful;
      for k := 0 to |failedChecks|
        invariant successful == (before && forall k' :: 0 <= k' < k ==> failedChecks[k'].severity == Low)
      {
        if failedChecks[k].severity != Low {
          successful := false;
        }
      }
    }
  }

  /** Recording a passed check never changes whether the scenario succeeded. */
  lemma {:induction false} PassKeepsSuccess(r: ScenarioReport, loc: StepLocation, p: PassedCheck)
    requires HasStep(r, loc)
    ensures var s := StepAt(r, loc);
      Successful(SetStepAt(r, loc, s.(passedChecks := s.passedChecks + [p]))) == Successful(r)
  {
    var s := StepAt(r, loc);
    var s' := s.(passedChecks := s.passedChecks + [p]);
    assert StepClean(s') == StepClean(s);
    SuccessAfterStepChange(r, loc, s');
  }

  /** After a failed check is recorded, the scenario succeeds exactly when it
      did before and the new failure is Low. */
  lemma {:induction false} FailureDecidesSuccess(r: ScenarioReport, loc: StepLocation, f: FailedCheck)
    requires HasStep(r, loc)
    ensures var s := StepAt(r, loc);
      Successful(SetStepAt(r, loc, s.(failedChecks := s.failedChecks + [f]))) == (Successful(r) && f.severity == Low)
  {
    var s := StepAt(r, loc);
    var s' := s.(failedChecks := s.failedChecks + [f]);
    assert s'.failedChecks[|s.failedChecks|] == f;
    assert StepClean(s') == (StepClean(s) && f.severity == Low) by {
      assert forall k :: 0 <= k < |s.failedChecks| ==> s'.failedChecks[k] == s.failedChecks[k];
    }
    SuccessAfterStepChange(r, loc, s');
  }

  /** Every step other than the one at `loc` is clean and there is no
      execution error. */
  predicate CleanExcept(r: ScenarioReport, loc: StepLocation)
  {
    && r.executionError.None?
    && (forall i, j :: 0 <= i < |r.cases| && 0 <= j < |r.cases[i].steps| && InCase(i, j) != loc ==>
          StepClean(r.cases[i].steps[j]))
    && (r.cleanup.Some? && loc != InCleanup ==> StepClean(r.cleanup.value))
  }

  /** Success splits into the step at `loc` and everything else, and
      replacing that step leaves everything else's part alone. */
  lemma SuccessAfterStepChange(r: ScenarioReport, loc: StepLocation, s': StepReport)
    requires HasStep(r, loc)
    ensures Successful(r) == (CleanExcept(r, loc) && StepClean(StepAt(r, loc)))
    ensures Successful(SetStepAt(r, loc, s')) == (CleanExcept(r, loc) && StepClean(s'))
  {
    var r' := SetStepAt(r, loc, s');
    SetStepAtFrame(r, loc, s', loc);
    assert CleanExcept(r', loc) == CleanExcept(r, loc) by {
      forall i, j | 0 <= i < |r.cases| && 0 <= j < |r.cases[i].steps| && InCase(i, j) != loc
        ensures r'.cases[i].steps[j] == r.cases[i].steps[j]
      {
        SetStepAtFrame(r, loc, s', InCase(i, j));
      }
      if r.cleanup.Some? && loc != InCleanup {
        SetStepAtFrame(r, loc, s', InCleanup);
      }
    }
    forall rr | rr == r || rr == r'
      ensures Successful(rr) == (CleanExcept(rr, loc) && StepClean(StepAt(rr, loc)))
    {
      if Successful(rr) {
        forall i, j | 0 <= i < |rr.cases| && 0 <= j < |rr.cases[i].steps|
          ensures StepClean(rr.cases[i].steps[j])
        {
          assert CaseClean(rr.cases[i]);
        }
      }
    }
  }
}
