/** `TestScenario.make_test_scenario` (scenarios/scenario.py): find the
    declared scenario type, check that it is a test scenario, fill each
    constructor parameter from the resource pool by name, construct the
    scenario and bind the declaration to it.

    Python reflection becomes data: the importable objects are a registry
    from type name to `ScenarioClass`, and a class's constructor signature is
    its list of parameter names. Resources are values of an arbitrary type. */
module Factory {
  import opened Common
  import opened Documentation
  import opened Lifecycle
  import opened Scenario

  /** What reflection tells about one importable object: whether it
      subclasses TestScenario, the parameter names of its `__init__` in
      declaration order, and the documentation its constructor loads. */
  datatype ScenarioClass = ScenarioClass(isTestScenario: bool, parameters: seq<string>, documentation: ScenarioDoc)

  datatype FactoryError =
    | UnknownScenarioType(scenarioType: string)   // get_module_object_by_name finds nothing
    | NotATestScenario(scenarioType: string)      // the NotImplementedError
    | MissingResource(argName: string)            // the ValueError

  datatype Result<+T> = Success(value: T) | Failure(error: FactoryError)

  /** A parameter the resource pool must provide: every one except `self`. */
  predicate Wanted(name: string)
  {
    name != "self"
  }

  /** The loop over the constructor's parameters: skip `self`, fail on the
      first parameter the pool lacks, otherwise take the pool's resource
      under the parameter's name. */
  method ResolveConstructorArgs<R>(parameters: seq<string>, pool: map<string, R>) returns (r: Result<map<string, R>>)
    ensures r.Failure? <==> exists k :: 0 <= k < |parameters| && Wanted(parameters[k]) && parameters[k] !in pool
    ensures r.Failure? ==>
      exists k :: 0 <= k < |parameters| && r.error == MissingResource(parameters[k])
                  && Wanted(parameters[k]) && parameters[k] !in pool
                  && forall j :: 0 <= j < k ==> !Wanted(parameters[j]) || parameters[j] in pool
    ensures r.Success? ==>
      && (forall name :: name in r.value <==> name in parameters && Wanted(name))
      && (forall name :: name in r.value ==> name in pool && r.value[name] == pool[name])
  {
    var args: map<string, R> := map[];
    var i := 0;
    while i < |parameters|
      invariant 0 <= i <= |parameters|
      invariant forall j :: 0 <= j < i ==> !Wanted(parameters[j]) || parameters[j] in pool
      invariant forall name :: name in args <==> name in parameters[..i] && Wanted(name)
      invariant forall name :: name in args ==> name in pool && args[name] == pool[name]
    {
      var name := parameters[i];
      assert parameters[..i + 1] == parameters[..i] + [name];
      if Wanted(name) {
        if name !in pool {
          return Failure(MissingResource(name));
        }
        args := args[name := pool[name]];
      }
      i := i + 1;
    }
    assert parameters[..i] == parameters;
    r := Success(args);
  }

  /** make_test_scenario. On success the scenario is freshly constructed,
      bound to the declaration and not started, and `args` are the resolved
      constructor arguments; on failure nothing is constructed. */
  method MakeTestScenario<R>(declaration: Declaration, registry: map<string, ScenarioClass>, pool: map<string, R>)
    returns (r: Result<map<string, R>>, scenario: TestScenario?)
    ensures declaration.scenarioType !in registry ==> r == Failure(UnknownScenarioType(declaration.scenarioType))
    ensures declaration.scenarioType in registry && !registry[declaration.scenarioType].isTestScenario ==>
      r == Failure(NotATestScenario(declaration.scenarioType))
    ensures r.Failure? && r.error.MissingResource? ==>
      declaration.scenarioType in registry && registry[declaration.scenarioType].isTestScenario
      && r.error.argName in registry[declaration.scenarioType].parameters && r.error.argName !in pool
    ensures r.Success? <==>
      && declaration.scenarioType in registry
      && registry[declaration.scenarioType].isTestScenario
      && forall k :: (0 <= k < |registry[declaration.scenarioType].parameters|
                      && Wanted(registry[declaration.scenarioType].parameters[k]))
                     ==> registry[declaration.scenarioType].parameters[k] in pool
    ensures r.Success? <==> scenario != null
    ensures r.Success? ==>
      var cls := registry[declaration.scenarioType];
      && declaration.scenarioType in registry && cls.isTestScenario
      && (forall name :: name in r.value <==> name in cls.parameters && Wanted(name))
      && (forall name :: name in r.value ==> name in pool && r.value[name] == pool[name])
    ensures scenario != null ==>
      && fresh(scenario) && scenario.Valid()
      && scenario.declaration == declaration
      && scenario.documentation == registry[declaration.scenarioType].documentation
      && scenario.phase == NotStarted && scenario.report.None?
  {
    scenario := null;
    if declaration.scenarioType !in registry {
      return Failure(UnknownScenarioType(declaration.scenarioType)), null;
    }
    var cls := registry[declaration.scenarioType];
    if !cls.isTestScenario {
      return Failure(NotATestScenario(declaration.scenarioType)), null;
    }
    r := ResolveConstructorArgs(cls.parameters, pool);
    if r.Failure? {
      return;
    }
    scenario := new TestScenario(cls.documentation, declaration);
  }
}
