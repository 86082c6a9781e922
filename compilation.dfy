/**
 * Compilation of one pickle into a test case: the step list the runner builds,
 * how each step's glue lookup is classified, and which hooks are selected.
 * The functions here are the specification the methods of `Runner.Runner` are
 * proved against; the lemmas state what the compiled test case looks like.
 */
module Compilation {
  import opened Gherkin
  import opened Collaborators

  /** The keyword placeholder handed to every backend when it is asked for a snippet. */
  const KeywordPlaceholder: string := "**KEYWORD**"

  /** The match a pickle step is compiled with: exactly one of four outcomes. */
  datatype StepMatch =
    | Defined(stepMatch: StepDefinitionMatch)
    | Undefined(step: PickleStep, snippets: seq<string>)
    | Ambiguous(step: PickleStep, cause: Throwable)
    | FailedInstantiation(step: PickleStep, cause: Throwable)

  /** A step of a test case: a pickle step with its match, or an unskippable hook step. */
  datatype TestStep =
    | PickleTestStep(step: PickleStep, definitionMatch: StepMatch)
    | UnskipableStep(hookType: HookType, hook: HookDefinition)

  datatype TestCase = TestCase(testSteps: seq<TestStep>, pickle: Pickle)

  /** The pickle's tags; tags that could not be read count as no tags. */
  function TagsOf(pickle: Pickle): seq<Tag>
  {
    match pickle.tags
    case Some(tags) => tags
    case None => []
  }

  /**
   * The glue lookup for a pickle step, made with the path of the pickle's first
   * location. Reading that location throws when the pickle has none.
   */
  function LookupPickleStep(glue: Glue, pickle: Pickle, step: PickleStep): Lookup
  {
    if |pickle.locations| == 0 then Threw(IndexOutOfBoundsException)
    else glue.stepDefinitionMatch(pickle.locations[0].path, step)
  }

  /** What `backend` suggests for `step` when asked with the keyword placeholder; None stands for null. */
  function SnippetOf(backend: Backend, step: PickleStep, snippetType: SnippetType): Option<string>
  {
    backend.getSnippet(step, KeywordPlaceholder, snippetType)
  }

  /** The snippets the backends suggest for `step`, in backend order, nulls dropped. */
  function Snippets(step: PickleStep, backends: seq<Backend>, snippetType: SnippetType): seq<string>
    decreases |backends|
  {
    if backends == [] then []
    else
      var earlier := Snippets(step, backends[..|backends| - 1], snippetType);
      var suggested := SnippetOf(backends[|backends| - 1], step, snippetType);
      if suggested.Some? then earlier + [suggested.value] else earlier
  }

  /**
   * Classifies the outcome of a lookup. Every outcome, including every thrown
   * one, becomes a match: nothing escapes compilation.
   */
  function Classify(lookup: Lookup, step: PickleStep, backends: seq<Backend>, snippetType: SnippetType): (r: StepMatch)
    ensures r.Defined? <==> lookup.Matched?
    ensures r.Defined? ==> r.stepMatch == lookup.stepMatch
    ensures r.Undefined? <==> lookup.NoMatch?
    ensures r.Undefined? ==> r.step == step && r.snippets == Snippets(step, backends, snippetType)
    ensures r.Ambiguous? <==> lookup.Threw? && lookup.thrown.AmbiguousStepDefinitionsException?
    ensures r.FailedInstantiation? <==> lookup.Threw? && !lookup.thrown.AmbiguousStepDefinitionsException?
    ensures r.Ambiguous? || r.FailedInstantiation? ==> r.step == step && r.cause == lookup.thrown
  {
    match lookup
    case Matched(m) => Defined(m)
    case NoMatch => Undefined(step, Snippets(step, backends, snippetType))
    case Threw(t) =>
      if t.AmbiguousStepDefinitionsException? then Ambiguous(step, t) else FailedInstantiation(step, t)
  }

  /** The match a step of `pickle` is compiled with. */
  function MatchFor(glue: Glue, backends: seq<Backend>, options: RuntimeOptions, pickle: Pickle, step: PickleStep): StepMatch
  {
    Classify(LookupPickleStep(glue, pickle, step), step, backends, options.snippetType)
  }

  /** One test step per pickle step, in the pickle's order. */
  function PickleTestSteps(glue: Glue, backends: seq<Backend>, options: RuntimeOptions, pickle: Pickle): seq<TestStep>
  {
    seq(|pickle.steps|, i requires 0 <= i < |pickle.steps| =>
      PickleTestStep(pickle.steps[i], MatchFor(glue, backends, options, pickle, pickle.steps[i])))
  }

  /** The hooks whose tag expression matches `tags`, each wrapped as an unskippable step. */
  function HookSteps(hooks: seq<HookDefinition>, tags: seq<Tag>, hookType: HookType): seq<TestStep>
    decreases |hooks|
  {
    if hooks == [] then []
    else
      var earlier := HookSteps(hooks[..|hooks| - 1], tags, hookType);
      var last := hooks[|hooks| - 1];
      if last.matches(tags) then earlier + [UnskipableStep(hookType, last)] else earlier
  }

  /** The steps of the test case compiled for `pickle`. */
  function CompiledSteps(glue: Glue, backends: seq<Backend>, options: RuntimeOptions, pickle: Pickle): seq<TestStep>
  {
    var tags := TagsOf(pickle);
    (if options.dryRun then [] else HookSteps(glue.beforeHooks, tags, Before))
    + PickleTestSteps(glue, backends, options, pickle)
    + (if options.dryRun then [] else HookSteps(glue.afterHooks, tags, After))
  }

  /**
   * `selected` keeps exactly the hooks that match `tags`, in registration order:
   * `idx` lists the positions of the kept hooks, strictly increasing.
   */
  ghost predicate IsStableHookSelection(
    idx: seq<nat>, hooks: seq<HookDefinition>, tags: seq<Tag>, hookType: HookType, selected: seq<TestStep>)
  {
    && |idx| == |selected|
    && (forall a, b :: 0 <= a < b < |idx| ==> idx[a] < idx[b])
    && (forall k :: 0 <= k < |idx| ==> idx[k] < |hooks| && selected[k] == UnskipableStep(hookType, hooks[idx[k]]))
    && (forall j :: 0 <= j < |hooks| ==> (hooks[j].matches(tags) <==> j in idx))
  }

  /** Extending the hooks by one extends a stable selection by that hook exactly when it matches. */
  lemma ExtendHookSelection(
    idx: seq<nat>, earlier: seq<HookDefinition>, hook: HookDefinition, tags: seq<Tag>, hookType: HookType, selected: seq<TestStep>)
    requires IsStableHookSelection(idx, earlier, tags, hookType, selected)
    ensures hook.matches(tags) ==>
      IsStableHookSelection(idx + [|earlier|], earlier + [hook], tags, hookType, selected + [UnskipableStep(hookType, hook)])
    ensures !hook.matches(tags) ==> IsStableHookSelection(idx, earlier + [hook], tags, hookType, selected)
  {
    var n, hooks := |earlier|, earlier + [hook];
    assert forall k :: 0 <= k < |idx| ==> idx[k] < n;
    if hook.matches(tags) {
      var idx', selected' := idx + [n], selected + [UnskipableStep(hookType, hook)];
      forall j | 0 <= j < |hooks| ensures hooks[j].matches(tags) <==> j in idx' {
        if j < n {
          assert j in idx' <==> j in idx;
        }
      }
      forall k | 0 <= k < |idx'| ensures idx'[k] < |hooks| && selected'[k] == UnskipableStep(hookType, hooks[idx'[k]]) {
        if k < |idx| {
          assert hooks[idx[k]] == earlier[idx[k]];
        }
      }
    } else {
      assert n !in idx;
      forall k | 0 <= k < |idx| ensures idx[k] < |hooks| && selected[k] == UnskipableStep(hookType, hooks[idx[k]]) {
        assert hooks[idx[k]] == earlier[idx[k]];
      }
    }
  }

  /** Hook selection is a stable filter on `matches(tags)`. */
  lemma {:induction false} HookSelectionIsStableFilter(hooks: seq<HookDefinition>, tags: seq<Tag>, hookType: HookType)
    ensures exists idx :: IsStableHookSelection(idx, hooks, tags, hookType, HookSteps(hooks, tags, hookType))
    decreases |hooks|
  {
    if hooks == [] {
      var none: seq<nat> := [];
      assert IsStableHookSelection(none, hooks, tags, hookType, HookSteps(hooks, tags, hookType));
    } else {
      var n := |hooks| - 1;
      var earlier := hooks[..n];
      assert hooks == earlier + [hooks[n]];
      HookSelectionIsStableFilter(earlier, tags, hookType);
      var idx: seq<nat> :| IsStableHookSelection(idx, earlier, tags, hookType, HookSteps(earlier, tags, hookType));
      ExtendHookSelection(idx, earlier, hooks[n], tags, hookType, HookSteps(earlier, tags, hookType));
      if hooks[n].matches(tags) {
        assert IsStableHookSelection(idx + [n], hooks, tags, hookType, HookSteps(hooks, tags, hookType));
      } else {
        assert IsStableHookSelection(idx, hooks, tags, hookType, HookSteps(hooks, tags, hookType));
      }
    }
  }

  /** Every selected hook step is an unskippable step of the given hook type. */
  lemma {:induction false} HookStepsAreUnskipable(hooks: seq<HookDefinition>, tags: seq<Tag>, hookType: HookType)
    ensures forall k :: 0 <= k < |HookSteps(hooks, tags, hookType)| ==>
      HookSteps(hooks, tags, hookType)[k].UnskipableStep? && HookSteps(hooks, tags, hookType)[k].hookType == hookType
    ensures |HookSteps(hooks, tags, hookType)| <= |hooks|
    decreases |hooks|
  {
    if hooks != [] {
      HookStepsAreUnskipable(hooks[..|hooks| - 1], tags, hookType);
    }
  }

  /** Two hooks that both match are selected in registration order, not re-sorted. */
  lemma RegistrationOrderIsKept(first: HookDefinition, second: HookDefinition, tags: seq<Tag>, hookType: HookType)
    requires first.matches(tags) && second.matches(tags)
    ensures HookSteps([first, second], tags, hookType) == [UnskipableStep(hookType, first), UnskipableStep(hookType, second)]
  {
    assert [first, second][..1] == [first];
    assert [first][..0] == [];
    assert HookSteps([first], tags, hookType) == [UnskipableStep(hookType, first)];
  }

  /**
   * `snippets` holds exactly the non-null snippets of the backends, in backend
   * order: `idx` lists the positions of the backends that returned one.
   */
  ghost predicate IsStableSnippetSelection(
    idx: seq<nat>, step: PickleStep, backends: seq<Backend>, snippetType: SnippetType, snippets: seq<string>)
  {
    && |idx| == |snippets|
    && (forall a, b :: 0 <= a < b < |idx| ==> idx[a] < idx[b])
    && (forall k :: 0 <= k < |idx| ==>
          idx[k] < |backends| && SnippetOf(backends[idx[k]], step, snippetType) == Some(snippets[k]))
    && (forall j :: 0 <= j < |backends| ==>
          (SnippetOf(backends[j], step, snippetType).Some? <==> j in idx))
  }

  /** Extending the backends by one extends a stable snippet selection by its snippet, if it has one. */
  lemma ExtendSnippetSelection(
    idx: seq<nat>, step: PickleStep, earlier: seq<Backend>, backend: Backend, snippetType: SnippetType, snippets: seq<string>)
    requires IsStableSnippetSelection(idx, step, earlier, snippetType, snippets)
    ensures SnippetOf(backend, step, snippetType).Some? ==>
      IsStableSnippetSelection(idx + [|earlier|], step, earlier + [backend], snippetType,
                               snippets + [SnippetOf(backend, step, snippetType).value])
    ensures SnippetOf(backend, step, snippetType).None? ==>
      IsStableSnippetSelection(idx, step, earlier + [backend], snippetType, snippets)
  {
    var n, backends := |earlier|, earlier + [backend];
    assert forall k :: 0 <= k < |idx| ==> idx[k] < n;
    var suggested := SnippetOf(backend, step, snippetType);
    if suggested.Some? {
      var idx', snippets' := idx + [n], snippets + [suggested.value];
      forall j | 0 <= j < |backends| ensures SnippetOf(backends[j], step, snippetType).Some? <==> j in idx' {
        if j < n {
          assert j in idx' <==> j in idx;
        }
      }
      forall k | 0 <= k < |idx'|
        ensures idx'[k] < |backends| && SnippetOf(backends[idx'[k]], step, snippetType) == Some(snippets'[k])
      {
        if k < |idx| {
          assert backends[idx[k]] == earlier[idx[k]];
        }
      }
    } else {
      assert n !in idx;
      forall k | 0 <= k < |idx|
        ensures idx[k] < |backends| && SnippetOf(backends[idx[k]], step, snippetType) == Some(snippets[k])
      {
        assert backends[idx[k]] == earlier[idx[k]];
      }
    }
  }

  /** The snippets of an undefined step are the non-null backend suggestions, in backend order. */
  lemma {:induction false} SnippetsAreNonNullInBackendOrder(step: PickleStep, backends: seq<Backend>, snippetType: SnippetType)
    ensures exists idx :: IsStableSnippetSelection(idx, step, backends, snippetType, Snippets(step, backends, snippetType))
    decreases |backends|
  {
    if backends == [] {
      var none: seq<nat> := [];
      assert IsStableSnippetSelection(none, step, backends, snippetType, Snippets(step, backends, snippetType));
    } else {
      var n := |backends| - 1;
      var earlier := backends[..n];
      assert backends == earlier + [backends[n]];
      SnippetsAreNonNullInBackendOrder(step, earlier, snippetType);
      var idx: seq<nat> :| IsStableSnippetSelection(idx, step, earlier, snippetType, Snippets(step, earlier, snippetType));
      ExtendSnippetSelection(idx, step, earlier, backends[n], snippetType, Snippets(step, earlier, snippetType));
      if SnippetOf(backends[n], step, snippetType).Some? {
        assert IsStableSnippetSelection(idx + [n], step, backends, snippetType, Snippets(step, backends, snippetType));
      } else {
        assert IsStableSnippetSelection(idx, step, backends, snippetType, Snippets(step, backends, snippetType));
      }
    }
  }

  /** In a dry run the test case holds one step per pickle step, in order, and no hook step. */
  lemma DryRunCompilesOnlyPickleSteps(glue: Glue, backends: seq<Backend>, options: RuntimeOptions, pickle: Pickle)
    requires options.dryRun
    ensures |CompiledSteps(glue, backends, options, pickle)| == |pickle.steps|
    ensures forall i :: 0 <= i < |pickle.steps| ==>
      CompiledSteps(glue, backends, options, pickle)[i]
        == PickleTestStep(pickle.steps[i], MatchFor(glue, backends, options, pickle, pickle.steps[i]))
  {
  }

  /**
   * Outside a dry run the test case is the selected Before hooks, then the
   * pickle steps in order, then the selected After hooks.
   */
  lemma FullRunLayout(glue: Glue, backends: seq<Backend>, options: RuntimeOptions, pickle: Pickle)
    requires !options.dryRun
    ensures var compiled := CompiledSteps(glue, backends, options, pickle);
            var before := HookSteps(glue.beforeHooks, TagsOf(pickle), Before);
            var after := HookSteps(glue.afterHooks, TagsOf(pickle), After);
            var n, s := |before|, |pickle.steps|;
            && |compiled| == n + s + |after|
            && compiled[..n] == before
            && (forall i :: 0 <= i < s ==>
                  compiled[n + i] == PickleTestStep(pickle.steps[i], MatchFor(glue, backends, options, pickle, pickle.steps[i])))
            && compiled[n + s..] == after
            && (forall i :: 0 <= i < n ==> compiled[i].UnskipableStep? && compiled[i].hookType == Before)
            && (forall i :: n + s <= i < |compiled| ==> compiled[i].UnskipableStep? && compiled[i].hookType == After)
  {
    var tags := TagsOf(pickle);
    HookStepsAreUnskipable(glue.beforeHooks, tags, Before);
    HookStepsAreUnskipable(glue.afterHooks, tags, After);
    var compiled := CompiledSteps(glue, backends, options, pickle);
    var before := HookSteps(glue.beforeHooks, tags, Before);
    var after := HookSteps(glue.afterHooks, tags, After);
    var middle := PickleTestSteps(glue, backends, options, pickle);
    assert compiled == before + middle + after;
    var n, s := |before|, |pickle.steps|;
    assert forall i :: n + s <= i < |compiled| ==> compiled[i] == after[i - n - s];
  }

  /** A pickle whose tags cannot be read compiles exactly like one with no tags. */
  lemma UnreadableTagsCompileAsNoTags(glue: Glue, backends: seq<Backend>, options: RuntimeOptions, pickle: Pickle)
    requires pickle.tags.None?
    ensures CompiledSteps(glue, backends, options, pickle)
         == CompiledSteps(glue, backends, options, pickle.(tags := Some([])))
  {
    var tagged := pickle.(tags := Some([]));
    assert TagsOf(pickle) == TagsOf(tagged);
    assert PickleTestSteps(glue, backends, options, pickle) == PickleTestSteps(glue, backends, options, tagged);
  }
}
