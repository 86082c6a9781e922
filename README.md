# Cucumber-JVM runner: compiling and running one pickle

This project models the core of cucumber-jvm's `Runner`. The runner takes one
compiled Gherkin scenario (a *pickle*) and turns it into a test case. That test
case holds:

- the Before hooks whose tag expression matches the pickle's tags;
- one test step per pickle step, each carrying the outcome of looking the step
  up in the glue;
- the After hooks whose tag expression matches.

In a dry run the hooks are left out. Each glue lookup ends as exactly one of
four matches, and none of them makes compilation fail:

- a step definition was found;
- undefined, carrying the snippets the backends suggest;
- ambiguous;
- failed instantiation.

The runner also lets step definitions run a further step while a scenario is
executing. That nested step gets at most one argument: a non-empty data
table, else the doc string, else none. When no step definition matches it, the runner throws an
undefined-step error. A synthetic `StepDefinition` frame at the front of that
error's stack trace names the feature file and line.

Modules:

- `Gherkin` (gherkin.dfy): pickles, steps, arguments, tags and locations.
- `Collaborators` (collaborators.dfy): the glue, hooks, backends and run
  options, reduced to what the runner observes of them.
  - The glue lookup is a total function returning a match, null (`NoMatch`)
    or a thrown exception.
  - A hook's `matches` is a predicate on tags.
  - A backend's `getSnippet` returns a string or null.
- `Compilation` (compilation.dfy): the specification of compilation and the
  lemmas about it.
  - `CompiledSteps`, `HookSteps`, `PickleTestSteps` and `Classify` define it.
  - `Snippets` gives the snippets of an undefined step.
  - Stable selection is stated independently of those functions: a strictly
    increasing index witness picks out exactly the kept elements.
- `NestedStep` (nested_step.dfy): the argument rule, the synthetic frame and the
  outcomes of a nested step.
- `Runner` (runner.dfy): class `Runner`.
  - Its methods do what the Java methods do: loops that append to the test-step
    list and to the snippet list, and an array copy of the stack trace.
  - Each method is proved against the functions above.
  - The calls made on the backends (`loadGlue`, `setUnreportedStepExecutor`,
    `buildWorld`, `disposeWorld`) and the running of the test case are kept, in
    order, in the field `calls`.

Behaviour of `Runner.java` worth stating explicitly:

- Only a `null` glue result is an undefined nested step. An exception thrown by
  the glue, ambiguity included, propagates unchanged (`Propagated`).
- `runPickle` has no `try`/`finally`, so world disposal is modelled only for a
  run that completes. Nothing here claims that disposal happens after a failure.
- The feature path for a pickle step's lookup is read as `getLocations().get(0)`
  inside the `try`. A pickle with no location therefore gets a failed-instantiation
  match caused by `IndexOutOfBoundsException`, not a compilation failure.

## Model

| member | source | states |
|---|---|---|
| `Compilation.Classify` | core/src/main/java/cucumber/runner/Runner.java:120-138 | a lookup is Defined iff the glue returned a match, Undefined (with the backends' snippets) iff it returned null, Ambiguous iff it threw AmbiguousStepDefinitionsException, FailedInstantiation (with the cause) iff it threw anything else |
| `Compilation.SnippetsAreNonNullInBackendOrder` | core/src/main/java/cucumber/runner/Runner.java:123-131 | the snippets of an undefined step are exactly the non-null `getSnippet` results asked with "**KEYWORD**", in backend order |
| `Compilation.HookSelectionIsStableFilter` | core/src/main/java/cucumber/runner/Runner.java:150-157 | the selected hook steps are exactly the hooks whose `matches(tags)` holds, in registration order, each wrapped as an unskippable step of the given hook type |
| `Compilation.HookStepsAreUnskipable` | core/src/main/java/cucumber/runner/Runner.java:151-155 | every selected hook step is an UnskipableStep of the requested hook type, and there are no more of them than hooks |
| `Compilation.RegistrationOrderIsKept` | core/src/main/java/cucumber/runner/Runner.java:151-155 | two matching hooks are selected in the order they were registered, not re-sorted (an instance of the general stable-filter statement `HookSelectionIsStableFilter`) |
| `Compilation.DryRunCompilesOnlyPickleSteps` | core/src/main/java/cucumber/runner/Runner.java:106-113 | in a dry run the test case has exactly one step per pickle step, in order, with its classified match, and no hook step |
| `Compilation.FullRunLayout` | core/src/main/java/cucumber/runner/Runner.java:106-115 | outside a dry run the test case is the N selected Before hooks, then the pickle steps in order, then the M selected After hooks, of length N + steps + M |
| `Compilation.UnreadableTagsCompileAsNoTags` | core/src/main/java/cucumber/runner/Runner.java:97-105 | a pickle whose tags cannot be read compiles to the same steps as one with an empty tag list |
| `NestedStep.NestedArgumentPrecedence` | core/src/main/java/cucumber/runner/Runner.java:57-63 | a nested step has at most one argument: the table iff rows are present and non-empty, else the doc string iff present, else none |
| `Runner.WiringOrder` | core/src/main/java/cucumber/runner/Runner.java:47-50 | the constructor's calls alternate loadGlue(i) and setUnreportedStepExecutor(i), backend by backend in collection order |
| `Runner.Runner.constructor` | core/src/main/java/cucumber/runner/Runner.java:41-52 | keeps glue, backends and options, and makes exactly the wiring calls on every backend |
| `Runner.Runner.RunUnreportedStep` | core/src/main/java/cucumber/runner/Runner.java:56-78 | looks up the step built from the argument rule; a found match is run with the language; null throws an undefined-step error on that step whose trace is the synthetic frame followed by the captured trace; a thrown exception propagates unchanged |
| `Runner.Runner.PrependFrame` | core/src/main/java/cucumber/runner/Runner.java:69-73 | the new trace is one frame longer, its frame 0 is the given frame and frames 1..n are the original frames in order |
| `Runner.Runner.RunPickle` | core/src/main/java/cucumber/runner/Runner.java:80-85 | builds every backend's world in order, then runs the compiled test case, then disposes every world in order |
| `Runner.Runner.CreateTestCaseForPickle` | core/src/main/java/cucumber/runner/Runner.java:96-116 | returns the test case of the pickle whose steps are the compiled steps (hooks only outside a dry run, unreadable tags as none) |
| `Runner.Runner.AddTestStepsForPickleSteps` | core/src/main/java/cucumber/runner/Runner.java:118-140 | appends one step per pickle step, in order, each with the match of its lookup |
| `Runner.Runner.MatchPickleStep` | core/src/main/java/cucumber/runner/Runner.java:120-137 | the match of one step is the classification of the lookup made with the path of the pickle's first location, with snippets collected from every backend |
| `Runner.Runner.AddTestStepsForBeforeHooks` | core/src/main/java/cucumber/runner/Runner.java:142-144 | appends the selected Before hooks of the glue |
| `Runner.Runner.AddTestStepsForAfterHooks` | core/src/main/java/cucumber/runner/Runner.java:146-148 | appends the selected After hooks of the glue |
| `Runner.Runner.AddTestStepsForHooks` | core/src/main/java/cucumber/runner/Runner.java:150-157 | appends the hook steps of the matching hooks, leaving the steps already there in place |
| `Runner.Runner.BuildBackendWorlds` | core/src/main/java/cucumber/runner/Runner.java:159-165 | calls buildWorld on every backend, in collection order |
| `Runner.Runner.DisposeBackendWorlds` | core/src/main/java/cucumber/runner/Runner.java:167-171 | calls disposeWorld on every backend, in collection order |

## Left out

- Reading the tags reflectively (`getDeclaredField`, `setAccessible`): the pickle has an optional `tags` field, and a failed read is `None`.
- What `loadGlue` and `buildWorld` put into the glue: the glue is a fixed lookup. So step definitions that a backend registers while building its world are not modelled.
- How `Glue.stepDefinitionMatch` matches step text and how hook tag expressions are evaluated: both are opaque functions. A hook's `matches` never throws here; in the source it is called outside any `try`, so a throwing tag expression would abort compilation.
- Runner.Runner.MatchPickleStep: a `getSnippet` call that throws is not modelled. The source would classify such a step as a failed instantiation, because the snippet loop is inside the `try`. Here `getSnippet` returns a string or null.
- How snippets are generated: only the returned string or null is kept. The naming convention is the run options' snippet type.
- `TestCase.run`, `match.runStep`, the event bus and the stop watch: these are execution and reporting. Running a test case is one recorded call, and running a nested step's match is the `RanStep` outcome. A failure thrown by the step itself is not modelled.
- `runtimeOptions.getPlugins()`, `getGlue` and `reportStepDefinitions`: side effects of plugin creation, and plain delegation.
- Capture of the JVM stack trace: the trace captured when the undefined-step error is created is a parameter.
- The runner object passed to `setUnreportedStepExecutor`: the call records which backend received the executor, not the reference.
- Java `null` for the feature path or step text, and 32-bit wrap-around of the line number.
- Concurrency across scenarios.
