/**
 * The runner's collaborators, reduced to what the runner observes of them:
 * the glue (step definitions and hooks), the backends and the run options.
 */
module Collaborators {
  import opened Gherkin

  datatype HookType = Before | After

  /** A registered hook; `matches` is its tag expression evaluated on a scenario's tags. */
  datatype HookDefinition = HookDefinition(location: string, matches: seq<Tag> -> bool)

  /** The single step definition the glue found, with the arguments captured from the step text. */
  datatype StepDefinitionMatch = StepDefinitionMatch(definition: string, capturedArguments: seq<string>)

  /** What a glue lookup (or the code around it) can throw. */
  datatype Throwable =
    | AmbiguousStepDefinitionsException(candidates: seq<string>)
    | IndexOutOfBoundsException
    | OtherThrowable(description: string)

  /** The outcome of one glue lookup: a match, null, or a thrown exception. */
  datatype Lookup =
    | Matched(stepMatch: StepDefinitionMatch)
    | NoMatch
    | Threw(thrown: Throwable)

  /**
   * The glue as the runner uses it: an opaque step-definition lookup by feature
   * path and step, and the Before and After hooks in registration order.
   */
  datatype Glue = Glue(
    stepDefinitionMatch: (string, PickleStep) -> Lookup,
    beforeHooks: seq<HookDefinition>,
    afterHooks: seq<HookDefinition>)

  /** The function-name convention a backend uses when it writes a snippet. */
  datatype SnippetType = Underscore | Camelcase

  /** A language backend; `getSnippet` returns the suggested step-definition code, or null. */
  datatype Backend = Backend(name: string, getSnippet: (PickleStep, string, SnippetType) -> Option<string>)

  datatype RuntimeOptions = RuntimeOptions(dryRun: bool, snippetType: SnippetType, gluePaths: seq<string>)
}
