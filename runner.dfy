/**
 * The runner: wires the backends to the glue, compiles a pickle into a test
 * case, runs it between the backends' world set-up and tear-down, and lets
 * step definitions run further steps.
 */
module Runner {
  import opened Gherkin
  import opened Collaborators
  import opened Compilation
  import opened NestedStep

  /** A call the runner makes on a collaborator; backends are named by their position. */
  datatype Call =
    | LoadGlue(backend: nat, gluePaths: seq<string>)
    | SetUnreportedStepExecutor(backend: nat)
    | BuildWorld(backend: nat)
    | RunTestCase(testCase: TestCase, language: string)
    | DisposeWorld(backend: nat)

  /** The calls the constructor makes on the first `backendCount` backends. */
  function WiringCalls(backendCount: nat, gluePaths: seq<string>): seq<Call>
  {
    if backendCount == 0 then []
    else WiringCalls(backendCount - 1, gluePaths)
         + [LoadGlue(backendCount - 1, gluePaths), SetUnreportedStepExecutor(backendCount - 1)]
  }

  /**
   * Every backend first loads the glue and is then handed the runner as its
   * step executor, one backend after the other in collection order.
   */
  lemma {:induction false} WiringOrder(backendCount: nat, gluePaths: seq<string>)
    ensures |WiringCalls(backendCount, gluePaths)| == 2 * backendCount
    ensures forall k :: 0 <= k < |WiringCalls(backendCount, gluePaths)| ==>
      WiringCalls(backendCount, gluePaths)[k]
        == if k % 2 == 0 then LoadGlue(k / 2, gluePaths) else SetUnreportedStepExecutor(k / 2)
  {
    if backendCount > 0 {
      WiringOrder(backendCount - 1, gluePaths);
    }
  }

  /** One call per backend, in collection order. */
  function BuildWorldCalls(backendCount: nat): seq<Call>
  {
    seq(backendCount, i requires 0 <= i < backendCount => BuildWorld(i))
  }

  function DisposeWorldCalls(backendCount: nat): seq<Call>
  {
    seq(backendCount, i requires 0 <= i < backendCount => DisposeWorld(i))
  }

  class Runner {
    const glue: Glue
    const backends: seq<Backend>
    const runtimeOptions: RuntimeOptions
    /** The calls made on the backends and the test cases run so far, oldest first. */
    var calls: seq<Call>

    constructor (glue: Glue, backends: seq<Backend>, runtimeOptions: RuntimeOptions)
      ensures this.glue == glue && this.backends == backends && this.runtimeOptions == runtimeOptions
      ensures calls == WiringCalls(|backends|, runtimeOptions.gluePaths)
    {
      this.glue := glue;
      this.backends := backends;
      this.runtimeOptions := runtimeOptions;
      calls := [];
      new;
      for i := 0 to |backends|
        invariant calls == WiringCalls(i, runtimeOptions.gluePaths)
      {
        calls := calls + [LoadGlue(i, runtimeOptions.gluePaths)];
        calls := calls + [SetUnreportedStepExecutor(i)];
      }
    }

    /**
     * Runs a step from inside a step definition. The step gets a non-empty
     * table, else the doc string, as its one argument. When the glue finds no
     * step definition, the undefined-step error is thrown with a frame naming
     * the feature file and line put in front of the trace it captured.
     */
    method RunUnreportedStep(
      featurePath: string, language: string, stepName: string, line: int,
      dataTableRows: Option<seq<PickleRow>>, docString: Option<string>,
      capturedTrace: seq<StackTraceElement>)
      returns (completion: Completion)
      ensures var step := NestedPickleStep(stepName, dataTableRows, docString);
        match glue.stepDefinitionMatch(featurePath, step)
        case Matched(m) => completion == RanStep(m, language)
        case NoMatch =>
          && completion.ThrewUndefined?
          && completion.error.step == step
          && |completion.error.stackTrace| == |capturedTrace| + 1
          && completion.error.stackTrace[0] == StepDefinitionFrame(featurePath, line)
          && completion.error.stackTrace[1..] == capturedTrace
        case Threw(t) => completion == Propagated(t)
    {
      var arguments: seq<Argument> := [];
      if dataTableRows.Some? && |dataTableRows.value| > 0 {
        arguments := arguments + [PickleTable(dataTableRows.value)];
      } else if docString.Some? {
        arguments := arguments + [PickleString(docString.value)];
      }
      var step := PickleStep(stepName, arguments, []);
      assert step == NestedPickleStep(stepName, dataTableRows, docString);
      match glue.stepDefinitionMatch(featurePath, step)
      case Matched(m) =>
        completion := RanStep(m, language);
      case NoMatch =>
        var newTrace := PrependFrame(StepDefinitionFrame(featurePath, line), capturedTrace);
        completion := ThrewUndefined(UndefinedStepException(step, newTrace));
      case Threw(t) =>
        completion := Propagated(t);
    }

    /** Copies `originalTrace` into a trace one frame longer whose first frame is `frame`. */
    static method PrependFrame(frame: StackTraceElement, originalTrace: seq<StackTraceElement>)
      returns (newTrace: seq<StackTraceElement>)
      ensures |newTrace| == |originalTrace| + 1
      ensures newTrace[0] == frame
      ensures forall i :: 0 <= i < |originalTrace| ==> newTrace[i + 1] == originalTrace[i]
    {
      var trace := new StackTraceElement[|originalTrace| + 1];
      trace[0] := frame;
      for i := 0 to |originalTrace|
        invariant trace[0] == frame
        invariant forall j :: 0 <= j < i ==> trace[j + 1] == originalTrace[j]
      {
        trace[i + 1] := originalTrace[i];
      }
      newTrace := trace[..];
    }

    /** Sets up every backend's world, runs the compiled test case, then disposes every world. */
    method RunPickle(pickle: Pickle, language: string)
      modifies this
      ensures calls == old(calls) + BuildWorldCalls(|backends|)
                       + [RunTestCase(TestCase(CompiledSteps(glue, backends, runtimeOptions, pickle), pickle), language)]
                       + DisposeWorldCalls(|backends|)
    {
      BuildBackendWorlds();
      var testCase := CreateTestCaseForPickle(pickle);
      calls := calls + [RunTestCase(testCase, language)];
      DisposeBackendWorlds();
    }

    /** Compiles `pickle`: Before hooks, then its steps, then After hooks; no hooks in a dry run. */
    method CreateTestCaseForPickle(pickle: Pickle) returns (testCase: TestCase)
      ensures testCase == TestCase(CompiledSteps(glue, backends, runtimeOptions, pickle), pickle)
    {
      var tags: seq<Tag>;
      match pickle.tags {
        case Some(readTags) => tags := readTags;
        case None => tags := [];
      }
      var testSteps: seq<TestStep> := [];
      if !runtimeOptions.dryRun {
        testSteps := AddTestStepsForBeforeHooks(testSteps, tags);
      }
      testSteps := AddTestStepsForPickleSteps(testSteps, pickle);
      if !runtimeOptions.dryRun {
        testSteps := AddTestStepsForAfterHooks(testSteps, tags);
      }
      testCase := TestCase(testSteps, pickle);
    }

    /** Appends one step per pickle step, in order, each with its classified match. */
    method AddTestStepsForPickleSteps(testSteps: seq<TestStep>, pickle: Pickle) returns (extended: seq<TestStep>)
      ensures extended == testSteps + PickleTestSteps(glue, backends, runtimeOptions, pickle)
    {
      extended := testSteps;
      ghost var all := PickleTestSteps(glue, backends, runtimeOptions, pickle);
      for i := 0 to |pickle.steps|
        invariant extended == testSteps + all[..i]
      {
        var step := pickle.steps[i];
        var stepMatch := MatchPickleStep(pickle, step);
        assert all[..i + 1] == all[..i] + [PickleTestStep(step, stepMatch)];
        extended := extended + [PickleTestStep(step, stepMatch)];
      }
      assert all[..|pickle.steps|] == all;
    }

    /**
     * Looks `step` up in the glue with the path of the pickle's first location
     * and classifies the outcome; every thrown exception becomes a match.
     */
    method MatchPickleStep(pickle: Pickle, step: PickleStep) returns (stepMatch: StepMatch)
      ensures stepMatch == MatchFor(glue, backends, runtimeOptions, pickle, step)
    {
      var lookup: Lookup;
      if |pickle.locations| == 0 {
        lookup := Threw(IndexOutOfBoundsException);
      } else {
        lookup := glue.stepDefinitionMatch(pickle.locations[0].path, step);
      }
      match lookup
      case Matched(m) =>
        stepMatch := Defined(m);
      case NoMatch =>
        var snippets: seq<string> := [];
        for i := 0 to |backends|
          invariant snippets == Snippets(step, backends[..i], runtimeOptions.snippetType)
        {
          assert backends[..i + 1][..i] == backends[..i];
          var snippet := backends[i].getSnippet(step, KeywordPlaceholder, runtimeOptions.snippetType);
          if snippet.Some? {
            snippets := snippets + [snippet.value];
          }
        }
        assert backends[..|backends|] == backends;
        stepMatch := Undefined(step, snippets);
      case Threw(t) =>
        if t.AmbiguousStepDefinitionsException? {
          stepMatch := Ambiguous(step, t);
        } else {
          stepMatch := FailedInstantiation(step, t);
        }
    }

    method AddTestStepsForBeforeHooks(testSteps: seq<TestStep>, tags: seq<Tag>) returns (extended: seq<TestStep>)
      ensures extended == testSteps + HookSteps(glue.beforeHooks, tags, Before)
    {
      extended := AddTestStepsForHooks(testSteps, tags, glue.beforeHooks, Before);
    }

    method AddTestStepsForAfterHooks(testSteps: seq<TestStep>, tags: seq<Tag>) returns (extended: seq<TestStep>)
      ensures extended == testSteps + HookSteps(glue.afterHooks, tags, After)
    {
      extended := AddTestStepsForHooks(testSteps, tags, glue.afterHooks, After);
    }

    /** Appends an unskippable step for every hook that matches `tags`, in registration order. */
    static method AddTestStepsForHooks(testSteps: seq<TestStep>, tags: seq<Tag>, hooks: seq<HookDefinition>, hookType: HookType)
      returns (extended: seq<TestStep>)
      ensures extended == testSteps + HookSteps(hooks, tags, hookType)
    {
      extended := testSteps;
      for i := 0 to |hooks|
        invariant extended == testSteps + HookSteps(hooks[..i], tags, hookType)
      {
        assert hooks[..i + 1][..i] == hooks[..i];
        if hooks[i].matches(tags) {
          extended := extended + [UnskipableStep(hookType, hooks[i])];
        }
      }
      assert hooks[..|hooks|] == hooks;
    }

    method BuildBackendWorlds()
      modifies this
      ensures calls == old(calls) + BuildWorldCalls(|backends|)
    {
      for i := 0 to |backends|
        invariant calls == old(calls) + BuildWorldCalls(i)
      {
        calls := calls + [BuildWorld(i)];
      }
    }

    method DisposeBackendWorlds()
      modifies this
      ensures calls == old(calls) + DisposeWorldCalls(|backends|)
    {
      for i := 0 to |backends|
        invariant calls == old(calls) + DisposeWorldCalls(i)
      {
        calls := calls + [DisposeWorld(i)];
      }
    }
  }
}
