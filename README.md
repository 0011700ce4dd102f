# Test-scenario lifecycle of the USS qualifier

This project models the engine in `monitoring/uss_qualifier/scenarios/scenario.py`
that every test scenario of the USS qualifier runs on, and proves properties
of that model in Dafny. It covers:

- **the phase state machine of `TestScenario`** (`NotStarted`, `ReadyForTestCase`,
  `ReadyForTestStep`, `RunningTestStep`, `ReadyForCleanup`, `CleaningUp`,
  `Complete`, plus the never-observed `Undefined`). Every operation first
  checks the phase, through `_expect_phase` except in two places:
  `record_execution_error` only refuses `Complete` and tests for it
  directly, and `get_report` turns `_expect_phase`'s refusal of any phase
  but `Complete` into an execution error instead of raising. An operation
  then checks the names it is given against the scenario's documentation.
  Only then does it change the state.
- **the report tree** the operations build. A scenario report holds a list
  of case reports, each holding a list of step reports, each holding passed
  checks, failed checks and queries. Beside the cases it holds notes, an
  optional cleanup step report, an optional execution error and the
  `successful` flag.
- **`PendingCheck`**: the scoped handle for one documented check.
  - `record_failed` appends a failed check, hands it to the `on_failed_check` observer, and then escalates by severity:
    - High abandons the scenario;
    - Critical abandons the run;
    - any other severity lets the step go on.
  - `record_passed` appends a passed check.
  - Leaving the scope records a pass unless an outcome was already recorded.
- **`get_report`**: it first turns an unfinished scenario into an execution
  error, then folds over the tree to compute `successful`.
- **`make_test_scenario`**: how constructor arguments are resolved from the
  resource pool.
- **`find_test_scenarios`**: the depth-first discovery of scenario classes
  through the scenarios package, ending in a sorted list without repetition.

Python exceptions become returned values of the datatype `Outcome`:

- `ProtocolError(violation)` for each RuntimeError of the lifecycle, and for
  the one AttributeError that stands in for a RuntimeError (see
  `Scenario.TestScenario.Check` under "Left out");
- `ScenarioAbort` for `ScenarioCannotContinueError`;
- `RunAbort` for `TestRunCannotContinueError`.

Every operation that returns a `ProtocolError` has changed nothing.

The code has a few properties that the model keeps:

- **Record notes before the report exists.** `record_note` accepts
  `NotStarted`, but `_scenario_report` is still `None` at that point. The
  code then fails with a TypeError when it tests for `"notes"`. The model
  returns `ProtocolError(NoScenarioReport)` there and changes nothing.
- **A second outcome on one handle.** A second outcome recorded through one
  handle is not refused: a second `record_failed` or `record_passed` is
  appended like the first, and the model does the same.
- **Repeated names resolve to the last declaration.** Cases, steps and checks
  are looked up through dicts built from the documentation lists, so a name
  declared twice resolves to its last declaration.

Modules, one per file:

| file | module | contents |
|---|---|---|
| `common.dfy` | `Common` | `Option` and Python's ordering of `str` |
| `documentation.dfy` | `Documentation` | the documentation tree and its lookups by name |
| `report.dfy` | `Report` | the report tree, edits of it, append-only growth, agreement with the documentation, the success predicate and its evaluation |
| `lifecycle.dfy` | `Lifecycle` | phases, outcomes, the phase table, escalation, the state invariant, one lemma per transition |
| `scenario.dfy` | `Scenario` | the classes `TestScenario`, `PendingCheck` and `FailureObserver` |
| `factory.dfy` | `Factory` | `make_test_scenario` |
| `discovery.dfy` | `Discovery` | `find_test_scenarios` |

State lives in two places:

- **`TestScenario`'s fields.** The phase, the report and the cursor are fields
  updated in place:
  - the cursor is `_current_case`/`_case_report` and `_current_step`/`_step_report`;
  - the report is a datatype value that each operation replaces by its next version;
  - the case and step report *references* of the Python become positions in that tree: a case index, and a `StepLocation`, which is `InCase(i, j)` or `InCleanup`.
- **`PendingCheck`.** It keeps the scenario and the location it writes to.

Every list in the tree is only appended to, and the cleanup step is installed
at most once. A location therefore names the same step report for the whole
life of the scenario, which is what the reference meant.

`TestScenario.Valid()` is the invariant every method keeps:

- a report exists exactly when the phase is not `NotStarted`:
  `begin_test_scenario` creates it, and so do `record_execution_error` and
  `get_report` when called before it;
- every case, step and check in it is documented;
- no case name occurs twice;
- an execution error appears only with `Complete`;
- the cleanup step report exists in `CleaningUp` and not before the cleanup began;
- the open case is the last case reported, and the running step is the last step of that case.

Each method also states that the report only grew:

- cases, steps, checks and queries already present stay where they are;
- notes are never removed;
- an execution error, once recorded, stays.

## Model

| member | source | states |
|---|---|---|
| Common.LessEqReflexive | monitoring/uss_qualifier/scenarios/scenario.py:453 | Python's string order relates every name to itself |
| Common.LessEqAntisymmetric | monitoring/uss_qualifier/scenarios/scenario.py:453 | two names each no greater than the other are equal |
| Common.LessEqTransitive | monitoring/uss_qualifier/scenarios/scenario.py:453 | the string order is transitive |
| Common.LessEqTotal | monitoring/uss_qualifier/scenarios/scenario.py:453 | any two names are comparable |
| Documentation.LastNamed | monitoring/uss_qualifier/scenarios/scenario.py:256-257 | an entry found among the first n has the name asked for (the scan behind every lookup of a case, step or check) |
| Documentation.FindCase | monitoring/uss_qualifier/scenarios/scenario.py:256-257 | the documented case looked up by name carries that name |
| Documentation.FindStep | monitoring/uss_qualifier/scenarios/scenario.py:278-279 | the documented step looked up by name carries that name |
| Documentation.FindCheck | monitoring/uss_qualifier/scenarios/scenario.py:317-318 | the documented check looked up by name carries that name |
| Documentation.LastNamedSpec | monitoring/uss_qualifier/scenarios/scenario.py:256-257 | nothing is found exactly when no entry among the first n has the name; otherwise the result is the last entry with it |
| Documentation.FindCaseSpec | monitoring/uss_qualifier/scenarios/scenario.py:256-257 | a case name is found exactly when some documented case has it, and a repeated name resolves to its last declaration, as in a dict built from the list |
| Documentation.FindStepSpec | monitoring/uss_qualifier/scenarios/scenario.py:278-279 | the same for the steps of the current case |
| Documentation.FindCheckSpec | monitoring/uss_qualifier/scenarios/scenario.py:317-318 | the same for the checks of the current step |
| Report.NewStepReport | monitoring/uss_qualifier/scenarios/scenario.py:285-291 | a new step report is named after its documentation, has no checks or queries and has not ended |
| Report.NewCaseReport | monitoring/uss_qualifier/scenarios/scenario.py:267-272 | a new case report is named after its documentation, has no steps and has not ended |
| Report.NewScenarioReport | monitoring/uss_qualifier/scenarios/scenario.py:211-218 | a new scenario report carries the documentation's name and the declared type; it has no cases, notes, cleanup, error or verdict |
| Report.ReportCaseNames | monitoring/uss_qualifier/scenarios/scenario.py:262 | the list of reported case names, position by position |
| Report.CaseReportNames | monitoring/uss_qualifier/scenarios/scenario.py:262 | the names of a list of case reports, position by position |
| Report.SetStepAtFrame | monitoring/uss_qualifier/scenarios/scenario.py:117 | writing through one step-report reference changes that step report only; case names, list lengths, notes and the execution error stay |
| Report.GrowsTransitive | monitoring/uss_qualifier/scenarios/scenario.py:273 | growth of the report composes over several operations |
| Report.GrowsOutsideSteps | monitoring/uss_qualifier/scenarios/scenario.py:243 | a change outside the cases and cleanup that removes no note and keeps the error is growth |
| Report.CaseGrowsReflexive | monitoring/uss_qualifier/scenarios/scenario.py:273 | a case report grows into itself |
| Report.AppendCaseGrows | monitoring/uss_qualifier/scenarios/scenario.py:273 | appending a case report is growth |
| Report.ReplaceCaseGrows | monitoring/uss_qualifier/scenarios/scenario.py:292 | replacing a case by a grown version of it is growth |
| Report.AppendStepGrows | monitoring/uss_qualifier/scenarios/scenario.py:292 | appending a step to a case report grows the case |
| Report.EndCaseGrows | monitoring/uss_qualifier/scenarios/scenario.py:340 | stamping a case's end grows the case |
| Report.GrowsAlongRun | monitoring/uss_qualifier/scenarios/scenario.py:117-141 | across any run of operations that each grow the report, the first report grows into the last and a step report present at the start is still at the same location with its checks kept, so a pending check's `step_report` stays attached whatever the scenario does before the outcome is recorded |
| Report.GrowsReflexive | monitoring/uss_qualifier/scenarios/scenario.py:117-141 | a report grows into itself, the empty run of operations |
| Report.GrowsKeepsStep | monitoring/uss_qualifier/scenarios/scenario.py:327 | a step report that exists keeps existing, and only grows, as the tree grows, so a handle's target survives |
| Report.AppendPassedKeepsDeclared | monitoring/uss_qualifier/scenarios/scenario.py:141 | appending a passed check of a declared name keeps every check of the step declared |
| Report.AppendFailedKeepsDeclared | monitoring/uss_qualifier/scenarios/scenario.py:117 | appending a failed check of a declared name keeps every check of the step declared |
| Report.ConformingStepDoc | monitoring/uss_qualifier/scenarios/scenario.py:278-284 | in a conforming tree every step report has documentation, and that documentation declares each of its checks |
| Report.RecordingKeepsConforms | monitoring/uss_qualifier/scenarios/scenario.py:117 | writing a later state of a step report whose checks are declared keeps the tree conforming and grown; the cleanup, the error and every location's documentation stay |
| Report.SetStepAtConforms | monitoring/uss_qualifier/scenarios/scenario.py:141 | replacing a step report by a same-named one with declared checks keeps the tree conforming |
| Report.SetStepAtGrows | monitoring/uss_qualifier/scenarios/scenario.py:299 | replacing a step report by a grown version of it is growth of the tree |
| Report.AppendCaseKeepsConforms | monitoring/uss_qualifier/scenarios/scenario.py:262-273 | appending a documented case whose name has not run keeps the tree conforming and its case names distinct |
| Report.ReplaceCaseKeepsConforms | monitoring/uss_qualifier/scenarios/scenario.py:292 | replacing a case by a same-named conforming one keeps the tree conforming |
| Report.AppendStepKeepsCaseConforms | monitoring/uss_qualifier/scenarios/scenario.py:278-292 | appending an empty report of a step declared under the case keeps the case conforming |
| Report.EvaluateSuccess | monitoring/uss_qualifier/scenarios/scenario.py:411-423 | the nested loops compute exactly `Successful`: no execution error and no failed check other than Low in any step of any case or in the cleanup step |
| Report.PassKeepsSuccess | monitoring/uss_qualifier/scenarios/scenario.py:141 | appending a passed check anywhere never changes whether the scenario succeeds |
| Report.FailureDecidesSuccess | monitoring/uss_qualifier/scenarios/scenario.py:117 | after a failed check is appended the scenario succeeds exactly when it did before and the failure is Low |
| Report.SuccessAfterStepChange | monitoring/uss_qualifier/scenarios/scenario.py:415-423 | success splits into the one step being changed and all the rest, and the rest is untouched by the change |
| Lifecycle.ExpectPhase | monitoring/uss_qualifier/scenarios/scenario.py:220-228 | an operation proceeds exactly when the phase is among those it accepts; otherwise the refusal names the phase |
| Lifecycle.Escalation | monitoring/uss_qualifier/scenarios/scenario.py:120-123 | High gives ScenarioAbort, Critical gives RunAbort, each exactly for that severity; every other severity lets the step go on |
| Lifecycle.BeginCleanupOutcome | monitoring/uss_qualifier/scenarios/scenario.py:361-366 | begin_cleanup succeeds exactly in ReadyForCleanup with a documented cleanup step, and each refusal is named |
| Lifecycle.SkipCleanupOutcome | monitoring/uss_qualifier/scenarios/scenario.py:378-384 | skip_cleanup succeeds exactly in ReadyForCleanup without one; from ReadyForCleanup exactly one of begin_cleanup and skip_cleanup succeeds |
| Lifecycle.CursorAfterSetStep | monitoring/uss_qualifier/scenarios/scenario.py:299 | writing into a step report moves neither the open case nor the running step |
| Lifecycle.EndTestStepKeeps | monitoring/uss_qualifier/scenarios/scenario.py:331-336 | stamping the running step's end and clearing the step keeps the invariant in ReadyForTestStep and grows the report |
| Lifecycle.BeginTestCaseKeeps | monitoring/uss_qualifier/scenarios/scenario.py:254-274 | appending the report of a documented case that has not run keeps the invariant in ReadyForTestStep, grows the report and adds exactly that name to the cases run |
| Lifecycle.BeginTestStepKeeps | monitoring/uss_qualifier/scenarios/scenario.py:276-293 | appending an empty report of a declared step to the open case keeps the invariant with that step running as the last one |
| Lifecycle.RecordingKeeps | monitoring/uss_qualifier/scenarios/scenario.py:117 | any later state of an existing step report whose checks are declared keeps the invariant and every location's documentation, in any phase |
| Lifecycle.EndTestCaseKeeps | monitoring/uss_qualifier/scenarios/scenario.py:338-343 | stamping the open case's end and clearing the case keeps the invariant in ReadyForTestCase |
| Lifecycle.RecordFailedKeeps | monitoring/uss_qualifier/scenarios/scenario.py:116-117 | appending a failed check of the handle's check keeps the scenario consistent and the handle bound, and grows the report |
| Lifecycle.RecordPassedKeeps | monitoring/uss_qualifier/scenarios/scenario.py:136-141 | the same for a passed check |
| Lifecycle.OpenStep | monitoring/uss_qualifier/scenarios/scenario.py:316-317 | while a test step or the cleanup runs, `_step_report` exists and is documented by `_current_step` |
| Lifecycle.RecordQueryKeeps | monitoring/uss_qualifier/scenarios/scenario.py:295-299 | appending a query to the running step keeps the invariant and grows the report |
| Lifecycle.EndCleanupKeeps | monitoring/uss_qualifier/scenarios/scenario.py:386-389 | stamping the cleanup step's end keeps the invariant in Complete |
| Scenario.FailureObserver.constructor | monitoring/uss_qualifier/scenarios/scenario.py:154 | a new observer has been handed nothing |
| Scenario.FailureObserver.Notify | monitoring/uss_qualifier/scenarios/scenario.py:118-119 | the observer has been handed exactly one more failed check |
| Scenario.TestScenario.CurrentStepDoc | monitoring/uss_qualifier/scenarios/scenario.py:316-327 | in RunningTestStep and CleaningUp the current step report exists and its documentation is `_current_step` |
| Scenario.TestScenario.constructor | monitoring/uss_qualifier/scenarios/scenario.py:162-164 | a new scenario is consistent, NotStarted, without report, cursor or observer, and bound to its documentation and declaration |
| Scenario.TestScenario.RecordNote | monitoring/uss_qualifier/scenarios/scenario.py:230-247 | refused outside its six phases and without a report; otherwise the note under `key` is set to the message and nothing else changes |
| Scenario.TestScenario.BeginTestScenario | monitoring/uss_qualifier/scenarios/scenario.py:249-252 | only from NotStarted: installs a fresh empty report and moves to ReadyForTestCase |
| Scenario.TestScenario.BeginTestCase | monitoring/uss_qualifier/scenarios/scenario.py:254-274 | refused outside ReadyForTestCase, for an undocumented name and for a name already run, with nothing changed; otherwise exactly one case report of that name is appended, it becomes the open case and the phase is ReadyForTestStep |
| Scenario.TestScenario.BeginTestStep | monitoring/uss_qualifier/scenarios/scenario.py:276-293 | refused outside ReadyForTestStep and for a step not declared under the open case; otherwise exactly one empty step report is appended to the open case and only there, and it runs |
| Scenario.TestScenario.RecordQuery | monitoring/uss_qualifier/scenarios/scenario.py:295-302 | refused outside RunningTestStep and CleaningUp; otherwise the query is appended to the current step report and nothing else changes |
| Scenario.TestScenario.Check | monitoring/uss_qualifier/scenarios/scenario.py:313-329 | refused outside RunningTestStep and CleaningUp and for a check not declared under the current step; otherwise a fresh, unrecorded handle bound to the current step report, the documented check, the given participants (or none) and the scenario's observer |
| Scenario.TestScenario.EndTestStep | monitoring/uss_qualifier/scenarios/scenario.py:331-336 | only from RunningTestStep: the running step report is stamped ended, the step cursor cleared and the phase is ReadyForTestStep |
| Scenario.TestScenario.EndTestCase | monitoring/uss_qualifier/scenarios/scenario.py:338-343 | only from ReadyForTestStep: the open case report is stamped ended, the case cursor cleared and the phase is ReadyForTestCase |
| Scenario.TestScenario.EndTestScenario | monitoring/uss_qualifier/scenarios/scenario.py:345-348 | only from ReadyForTestCase: the report is stamped ended and the phase is ReadyForCleanup |
| Scenario.TestScenario.GoToCleanup | monitoring/uss_qualifier/scenarios/scenario.py:350-359 | from its four phases the phase becomes ReadyForCleanup, so from ReadyForCleanup nothing changes; refused elsewhere |
| Scenario.TestScenario.BeginCleanup | monitoring/uss_qualifier/scenarios/scenario.py:361-376 | only from ReadyForCleanup with a documented cleanup step: a fresh cleanup step report is installed where none was, it is the current step and the phase is CleaningUp |
| Scenario.TestScenario.SkipCleanup | monitoring/uss_qualifier/scenarios/scenario.py:378-384 | only from ReadyForCleanup without a documented cleanup step: the phase becomes Complete |
| Scenario.TestScenario.Cleanup | monitoring/uss_qualifier/scenarios/scenario.py:204-206 | the default cleanup behaves as skip_cleanup |
| Scenario.TestScenario.EndCleanup | monitoring/uss_qualifier/scenarios/scenario.py:386-389 | only from CleaningUp: the cleanup step report is stamped ended and the phase is Complete |
| Scenario.TestScenario.RecordExecutionError | monitoring/uss_qualifier/scenarios/scenario.py:391-400 | refused once Complete; otherwise the report (created if missing) carries the error and `successful == false`, and the phase is Complete |
| Scenario.TestScenario.GetReport | monitoring/uss_qualifier/scenarios/scenario.py:402-425 | the scenario ends Complete; a scenario that was not Complete and had no error gets the not-complete error; the returned report is the stored one with `successful` equal to `Successful` of it, and false whenever the scenario was not Complete |
| Scenario.PendingCheck.constructor | monitoring/uss_qualifier/scenarios/scenario.py:65-75 | a new handle keeps its check, participants, step report and observer and has recorded nothing |
| Scenario.PendingCheck.MakeFailedCheck | monitoring/uss_qualifier/scenarios/scenario.py:94-116 | the failed check carries the handle's check name, the severity, summary and details, the participants given or else the handle's, the requirements given or else the documented ones |
| Scenario.PendingCheck.MakePassedCheck | monitoring/uss_qualifier/scenarios/scenario.py:130-140 | the passed check carries the handle's check name and the same defaults |
| Scenario.PendingCheck.AppendFailedCheck | monitoring/uss_qualifier/scenarios/scenario.py:94-117 | marks the outcome recorded and appends exactly the failed check to the bound step report, keeping the handle bound |
| Scenario.PendingCheck.RecordFailed | monitoring/uss_qualifier/scenarios/scenario.py:84-123 | exactly one failed check is appended to the bound step report, the observer (if any) has been handed that same check, and the outcome is the severity's escalation |
| Scenario.PendingCheck.RecordPassed | monitoring/uss_qualifier/scenarios/scenario.py:125-141 | exactly one passed check with the defaults is appended to the bound step report |
| Scenario.PendingCheck.Exit | monitoring/uss_qualifier/scenarios/scenario.py:80-82 | one passed check is appended exactly when no outcome had been recorded; otherwise the report is untouched |
| Factory.ResolveConstructorArgs | monitoring/uss_qualifier/scenarios/scenario.py:182-192 | fails exactly when some parameter other than `self` is missing from the pool, naming the first such; otherwise the arguments are exactly the parameters other than `self`, each with the pool's resource |
| Factory.MakeTestScenario | monitoring/uss_qualifier/scenarios/scenario.py:166-196 | it succeeds exactly when the type is registered, is a TestScenario subclass and every constructor parameter other than `self` is in the pool; an unknown or non-scenario type and a missing resource fail with nothing constructed; on success a fresh, consistent, NotStarted scenario with the registry's documentation is bound to the declaration |
| Discovery.ClassesOf | monitoring/uss_qualifier/scenarios/scenario.py:448-451 | the names reported from a module's members are exactly the members that are TestScenario subclasses other than TestScenario itself |
| Discovery.ClassesOfSnoc | monitoring/uss_qualifier/scenarios/scenario.py:448-451 | looking at one more member adds it exactly if it is a scenario class |
| Discovery.ClassesInUnion | monitoring/uss_qualifier/scenarios/scenario.py:444-447 | the classes of two groups of modules are the union of each group's |
| Discovery.ClassesInSingle | monitoring/uss_qualifier/scenarios/scenario.py:438 | the classes of a single module are those among its members |
| Discovery.LeastAfterDescent | monitoring/uss_qualifier/scenarios/scenario.py:439-444 | after a descent every module visited lies in every set closed under entering that contains the start |
| Discovery.FoundAfterDescent | monitoring/uss_qualifier/scenarios/scenario.py:444-447 | after a descent the classes found are those of the modules visited and of the members looked at |
| Discovery.FoundAfterMember | monitoring/uss_qualifier/scenarios/scenario.py:448-451 | a member not descended into adds its name exactly if it is a scenario class |
| Discovery.EnteredAfterStep | monitoring/uss_qualifier/scenarios/scenario.py:439-444 | every module entered among the members looked at has been visited |
| Discovery.DescentSplits | monitoring/uss_qualifier/scenarios/scenario.py:436-444 | the modules visited below the start split into those before and those of the descent |
| Discovery.EdgesAfterDescent | monitoring/uss_qualifier/scenarios/scenario.py:439-444 | visiting more modules keeps every earlier edge inside the visited set |
| Discovery.WalkedAfterDescent | monitoring/uss_qualifier/scenarios/scenario.py:439-447 | descending into an unvisited package module keeps the walk's invariant one member further on |
| Discovery.WalkedAfterMember | monitoring/uss_qualifier/scenarios/scenario.py:448-451 | looking at any other member keeps the walk's invariant one member further on |
| Discovery.WalkedAll | monitoring/uss_qualifier/scenarios/scenario.py:438-451 | after the last member the classes found are those of the start and of every module entered, and every edge leaving them ends in a visited module |
| Discovery.FindTestScenarios | monitoring/uss_qualifier/scenarios/scenario.py:431-454 | the visited set grows by the start; exactly the modules reachable from the start without passing through `already_checked` are entered; the result holds exactly their scenario classes and those of the start, sorted by full name and each once |
| Discovery.SortedList | monitoring/uss_qualifier/scenarios/scenario.py:452-453 | the set's names, each once, in ascending order |
| Discovery.ConsSorted | monitoring/uss_qualifier/scenarios/scenario.py:453 | a name no greater than every element of a sorted list can go in front |
| Discovery.Insert | monitoring/uss_qualifier/scenarios/scenario.py:453 | inserting into a sorted list leaves it sorted and holding one more copy of the name |
| Discovery.SortNames | monitoring/uss_qualifier/scenarios/scenario.py:453 | the sort yields a sorted permutation of its input |
| Discovery.SortedHeadBound | monitoring/uss_qualifier/scenarios/scenario.py:453 | a name no greater than a sorted list's head bounds the whole list |
| Discovery.SortedTailBound | monitoring/uss_qualifier/scenarios/scenario.py:453 | the head of a sorted list bounds its tail, which is sorted |
| Discovery.BoundAfterInsert | monitoring/uss_qualifier/scenarios/scenario.py:453 | a lower bound of a list and of a name bounds the list with the name inserted |
| Discovery.DistinctPermutation | monitoring/uss_qualifier/scenarios/scenario.py:452-453 | reordering a list without repetitions keeps it without repetitions and keeps its names |
| Discovery.DistinctCountsOne | monitoring/uss_qualifier/scenarios/scenario.py:452 | a list without repetitions holds each name at most once |
| Discovery.SameLength | monitoring/uss_qualifier/scenarios/scenario.py:452 | two lists without repetitions holding the same names are equally long |
| Discovery.VisitedClosed | monitoring/uss_qualifier/scenarios/scenario.py:438-444 | the modules a walk visited, without `already_checked`, are closed under entering modules not already checked, since every edge leaving them ends in a visited module |
| Discovery.FindTestScenariosDeterministic | monitoring/uss_qualifier/scenarios/scenario.py:431-454 | the walk's contract determines its results: two results allowed for the same graph, module and `already_checked` have the same checked set and the same list |
| Discovery.SortedUnique | monitoring/uss_qualifier/scenarios/scenario.py:452-453 | the result does not depend on the order in which `list(test_scenarios)` lists the set: two sorted lists without repetitions holding the same names are equal |

## Left out

- Timestamps (`datetime.utcnow`, `arrow.utcnow`, `StringBasedDateTime`): only whether an end time has been stamped is kept, as `ended`. The `print` calls and the message text of every exception are left out too; the text depends on caller names from `inspect.stack()`.
- Python reflection is replaced by data:
  - `make_test_scenario` looks the type up in a registry from type name to a class description: whether it subclasses TestScenario, its constructor's parameter names and its documentation. `import_submodules`, `get_module_object_by_name`, `inspect.signature` and `issubclass` are not modelled beyond that.
  - `find_test_scenarios` reads a module graph: for each module name, its members in `getmembers` order.
  - A class is identified by its full name, the sort key the source uses.
- Documentation parsing (`get_documentation`) is not part of this model. The documentation is a constructor argument.
- `run` (abstract) and `me` (a name for messages) are left out. So is `_get_check`, which nothing in the file calls.
- Payloads: query and note payloads are opaque text. The failed check's `additional_data` and query timestamps are opaque too. An absent `queries` list or `notes` dict is not told apart from an empty one.
- Scenario.PendingCheck.RecordFailed: the contract states the final state: the check is appended, the observer has seen it, and the outcome follows from the severity. It does not state the order of these effects. An exception raised inside the observer is not modelled.
- Scenario.TestScenario.RecordNote: the TypeError that the code raises when a note is recorded before any report exists is modelled as the refusal `NoScenarioReport`.
- Discovery.FindTestScenarios: `already_checked` is shared and mutated across the recursion. The model passes it in and hands the updated set back out. The optional default (`None`, meaning empty) is left to the caller.
- Discovery.SortNames: the sort is an insertion sort, not Python's stable sort. Names are distinct (`SortedUnique`), so both give the same list.
- Scenario.TestScenario.Check: when the step is the cleanup step and no case is open, an undeclared check name does not raise the RuntimeError. Building that error's message reads `self._current_case.name` (scenario.py:321), and `_current_case` is `None`, so Python raises an AttributeError. This happens when cleanup is reached through `end_test_case` and `end_test_scenario` (scenario.py:341), or when no case was run. The model returns `ProtocolError(UndeclaredCheck)` in that case too, and changes nothing, as it does for every refusal. When cleanup is reached through `go_to_cleanup` from an open case, `_current_case` is still set and the RuntimeError is raised as modelled.
- Scenario.TestScenario.constructor: it stands for `__init__` (scenario.py:162-164) together with the factory's `scenario.declaration = declaration` (scenario.py:195), and takes the declaration as an argument. `__init__` alone does not bind `declaration`, so a scenario built directly, not through `make_test_scenario`, fails with an AttributeError in `_make_scenario_report` (scenario.py:214) on its first report. The model has no scenario without a declaration and does not capture that failure.
- Factory.MakeTestScenario: the scenario the factory constructs is the base `TestScenario` with the class's documentation. A subclass's own constructor work and its resources are not modelled. The resolved arguments are returned beside it.
- The class-level default phase `Undefined` is never observed once `__init__` has run. The invariant excludes it.
