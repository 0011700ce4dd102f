/** The read-only documentation a scenario is bound to: its cases, each case's
    steps, each step's checks, and an optional cleanup step. Parsing it from
    the scenario's documentation file is not part of this model; it is a
    constructor argument.

    Lookups by name follow the dict comprehensions of scenarios/scenario.py
    (`{c.name: c for c in ...}`): a dict built from a list keeps the LAST
    entry for a repeated key, so a repeated name resolves to its last
    declaration. Every lookup is one scan from the back. */
module Documentation {
  import opened Common

  datatype CheckDoc = CheckDoc(name: string, url: string, applicableRequirements: seq<string>)
  datatype StepDoc = StepDoc(name: string, url: string, checks: seq<CheckDoc>)
  datatype CaseDoc = CaseDoc(name: string, url: string, steps: seq<StepDoc>)
  datatype ScenarioDoc = ScenarioDoc(name: string, url: string, cases: seq<CaseDoc>, cleanup: Option<StepDoc>)

  function CaseName(c: CaseDoc): string { c.name }
  function StepName(s: StepDoc): string { s.name }
  function CheckName(c: CheckDoc): string { c.name }

  /** The entry named `name` among the first `n` of `items`, scanning from
      the back, where `nameOf` gives each entry's name. */
  function LastNamed<T>(items: seq<T>, nameOf: T -> string, name: string, n: nat): (r: Option<T>)
    requires n <= |items|
    ensures r.Some? ==> nameOf(r.value) == name
  {
    if n == 0 then None
    else if nameOf(items[n - 1]) == name then Some(items[n - 1])
    else LastNamed(items, nameOf, name, n - 1)
  }

  /** What the scan finds: nothing exactly when no entry has the name, and
      otherwise the entry at the last index holding the name. */
  lemma {:induction false} LastNamedSpec<T>(items: seq<T>, nameOf: T -> string, name: string, n: nat)
    requires n <= |items|
    ensures LastNamed(items, nameOf, name, n).None? <==> forall i :: 0 <= i < n ==> nameOf(items[i]) != name
    ensures LastNamed(items, nameOf, name, n).Some? ==>
      exists i :: 0 <= i < n && items[i] == LastNamed(items, nameOf, name, n).value
                 && forall j :: i < j < n ==> nameOf(items[j]) != name
  {
    if n > 0 && nameOf(items[n - 1]) != name {
      LastNamedSpec(items, nameOf, name, n - 1);
    }
  }

  /** `{c.name: c for c in documentation.cases}.get(name)` */
  function FindCase(cases: seq<CaseDoc>, name: string): (r: Option<CaseDoc>)
    ensures r.Some? ==> r.value.name == name
  {
    LastNamed(cases, CaseName, name, |cases|)
  }

  /** `{s.name: s for s in current_case.steps}.get(name)` */
  function FindStep(steps: seq<StepDoc>, name: string): (r: Option<StepDoc>)
    ensures r.Some? ==> r.value.name == name
  {
    LastNamed(steps, StepName, name, |steps|)
  }

  /** `{c.name: c for c in current_step.checks}.get(name)` */
  function FindCheck(checks: seq<CheckDoc>, name: string): (r: Option<CheckDoc>)
    ensures r.Some? ==> r.value.name == name
  {
    LastNamed(checks, CheckName, name, |checks|)
  }

  /** A name is found exactly when some documented case carries it, and a
      repeated name resolves to its last declaration. */
  lemma FindCaseSpec(cases: seq<CaseDoc>, name: string)
    ensures FindCase(cases, name).None? <==> forall i :: 0 <= i < |cases| ==> cases[i].name != name
    ensures FindCase(cases, name).Some? ==>
      exists i :: 0 <= i < |cases| && cases[i] == FindCase(cases, name).value
                 && forall j :: i < j < |cases| ==> cases[j].name != name
  {
    LastNamedSpec(cases, CaseName, name, |cases|);
  }

  /** The same for the steps of a case. */
  lemma FindStepSpec(steps: seq<StepDoc>, name: string)
    ensures FindStep(steps, name).None? <==> forall i :: 0 <= i < |steps| ==> steps[i].name != name
    ensures FindStep(steps, name).Some? ==>
      exists i :: 0 <= i < |steps| && steps[i] == FindStep(steps, name).value
                 && forall j :: i < j < |steps| ==> steps[j].name != name
  {
    LastNamedSpec(steps, StepName, name, |steps|);
  }

  /** The same for the checks of a step. */
  lemma FindCheckSpec(checks: seq<CheckDoc>, name: string)
    ensures FindCheck(checks, name).None? <==> forall i :: 0 <= i < |checks| ==> checks[i].name != name
    ensures FindCheck(checks, name).Some? ==>
      exists i :: 0 <= i < |checks| && checks[i] == FindCheck(checks, name).value
                 && forall j :: i < j < |checks| ==> checks[j].name != name
  {
    LastNamedSpec(checks, CheckName, name, |checks|);
  }
}
