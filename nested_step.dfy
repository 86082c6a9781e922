/**
 * A step run from inside a step definition ("unreported" step): how its
 * argument is chosen and what its failure looks like when nothing matches.
 */
module NestedStep {
  import opened Gherkin
  import opened Collaborators

  /** One frame of a Java stack trace. */
  datatype StackTraceElement = StackTraceElement(declaringClass: string, methodName: string, fileName: string, lineNumber: int)

  /** The error thrown for a nested step that no step definition matches. */
  datatype UndefinedStepException = UndefinedStepException(step: PickleStep, stackTrace: seq<StackTraceElement>)

  /** How a nested step invocation ends. */
  datatype Completion =
      /** `runStep(language, null)` was invoked on the match; whatever it does is its own. */
    | RanStep(stepMatch: StepDefinitionMatch, language: string)
      /** No step definition matched: the undefined-step error is thrown. */
    | ThrewUndefined(error: UndefinedStepException)
      /** The glue lookup threw; the exception propagates unchanged. */
    | Propagated(cause: Throwable)

  /** The synthetic frame that points an undefined nested step back at the feature file and line. */
  function StepDefinitionFrame(featurePath: string, line: int): StackTraceElement
  {
    StackTraceElement("\U{273D}", "StepDefinition", featurePath, line)
  }

  /** The argument list of a nested step: a non-empty data table, else a doc string, else nothing. */
  function NestedArguments(dataTableRows: Option<seq<PickleRow>>, docString: Option<string>): seq<Argument>
  {
    if dataTableRows.Some? && |dataTableRows.value| > 0 then [PickleTable(dataTableRows.value)]
    else if docString.Some? then [PickleString(docString.value)]
    else []
  }

  /** The step a nested invocation looks up; it has no location. */
  function NestedPickleStep(stepName: string, dataTableRows: Option<seq<PickleRow>>, docString: Option<string>): PickleStep
  {
    PickleStep(stepName, NestedArguments(dataTableRows, docString), [])
  }

  /**
   * A nested step has at most one argument. A non-empty table wins over a doc
   * string, a doc string is used only when there is no non-empty table, and
   * a step without either has no argument.
   */
  lemma NestedArgumentPrecedence(dataTableRows: Option<seq<PickleRow>>, docString: Option<string>)
    ensures var args := NestedArguments(dataTableRows, docString);
            var hasTable := dataTableRows.Some? && |dataTableRows.value| > 0;
            && |args| <= 1
            && (hasTable <==> exists rows :: PickleTable(rows) in args)
            && (hasTable ==> args == [PickleTable(dataTableRows.value)])
            && (!hasTable && docString.Some? <==> exists content :: PickleString(content) in args)
            && (!hasTable && docString.Some? ==> args == [PickleString(docString.value)])
            && (args == [] <==> !hasTable && docString.None?)
  {
    var args := NestedArguments(dataTableRows, docString);
    if dataTableRows.Some? && |dataTableRows.value| > 0 {
      assert PickleTable(dataTableRows.value) in args;
    } else if docString.Some? {
      assert PickleString(docString.value) in args;
    }
  }
}
