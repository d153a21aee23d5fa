/**
 * The agent's action/result ledger (`AgentHistory`, `AgentHistoryList`).
 *
 * A ledger is an ordered sequence of entries, each holding the model's
 * decision (if any), the result of executing it and the browser state seen.
 * Its queries are projections, filters and last-entry reads; the filters use
 * Python truthiness, so an empty string is dropped exactly like `None`.
 */
module AgentViews {
  import opened Base
  import opened DomViews
  import opened HistoryTreeProcessor

  /** `ActionResult`: `is_done` defaults to `False`, the other optionals to `None`. */
  datatype ActionResult = ActionResult(
    isDone: Option<bool>,
    extractedContent: Option<string>,
    error: Option<string>,
    includeInMemory: bool)

  /** `AgentBrain` (the source spells its first field `valuation_previous_goal`). */
  datatype AgentBrain = AgentBrain(valuationPreviousGoal: string, memory: string, nextGoal: string)

  /** One key of an action's `model_dump(exclude_none=True)`: the action's name and parameters. */
  datatype ActionCall = ActionCall(name: string, params: seq<(string, string)>)

  /** A dumped action: its keys in field order, so the first key of the dump is `action[0].name`. */
  type ActionDump = seq<ActionCall>

  datatype AgentOutput = AgentOutput(currentState: AgentBrain, action: ActionDump)

  /** The part of `BrowserStateHistory` the ledger reads. */
  datatype BrowserStateHistory = BrowserStateHistory(
    url: Option<string>,
    screenshot: Option<string>,
    interactedElement: seq<Option<DOMHistoryElement>>)

  datatype AgentHistory = AgentHistory(
    modelOutput: Option<AgentOutput>,
    result: ActionResult,
    state: BrowserStateHistory)

  /*
   * AgentHistory.get_interacted_element
   */

  /**
   * `get_interacted_element`. `index` is what `action.get_index()` returned;
   * the test is truthiness, so index `0` counts as "no element". An index
   * absent from the selector map raises `KeyError`.
   */
  function GetInteractedElement(index: Option<int>, selectorMap: map<int, Located>): (r: Result<Option<DOMHistoryElement>>)
    requires forall i :: i in selectorMap ==> selectorMap[i].node.Element?
    ensures (index.None? || index == Some(0)) ==> r == Ok(None)
    ensures index.Some? && index.value != 0 && index.value !in selectorMap ==> r == Err(KeyError)
    ensures index.Some? && index.value != 0 && index.value in selectorMap ==>
              r == Ok(Some(ConvertDomElementToHistoryElement(selectorMap[index.value])))
  {
    if index.Some? && index.value != 0 then
      if index.value in selectorMap then Ok(Some(ConvertDomElementToHistoryElement(selectorMap[index.value])))
      else Err(KeyError)
    else Ok(None)
  }

  /** The recorded element matches the selected live element under every hash function. */
  lemma InteractedElementMatchesSelection(H: Hasher, index: Option<int>, selectorMap: map<int, Located>)
    requires forall i :: i in selectorMap ==> selectorMap[i].node.Element?
    requires GetInteractedElement(index, selectorMap).Ok?
    requires GetInteractedElement(index, selectorMap).value.Some?
    ensures index.Some? && index.value in selectorMap
    ensures CompareHistoryElementAndDomElement(
              H, GetInteractedElement(index, selectorMap).value.value, selectorMap[index.value])
  {
    SelfMatch(H, selectorMap[index.value]);
  }

  /*
   * AgentHistoryList queries.
   */

  function Last(history: seq<AgentHistory>): AgentHistory
    requires |history| > 0
  {
    history[|history| - 1]
  }

  /** `last_action`: the last entry's action, if that entry has a model output. */
  function LastAction(history: seq<AgentHistory>): (r: Option<ActionDump>)
    ensures r.Some? <==> |history| > 0 && Last(history).modelOutput.Some?
    ensures r.Some? ==> r.value == Last(history).modelOutput.value.action
  {
    if |history| > 0 && Last(history).modelOutput.Some? then Some(Last(history).modelOutput.value.action)
    else None
  }

  function ErrorOf(h: AgentHistory): Option<string>
  {
    if Truthy(h.result.error) then h.result.error else None
  }

  /** `errors`: every non-empty error, in entry order. */
  function Errors(history: seq<AgentHistory>): (r: seq<string>)
    ensures |r| <= |history|
    ensures forall e :: e in r <==>
              exists i :: 0 <= i < |history| && Truthy(history[i].result.error) && history[i].result.error.value == e
    ensures forall e :: e in r ==> |e| > 0
  {
    FilterMap(history, ErrorOf)
  }

  /** `has_errors`: some entry carries a non-empty error. */
  function HasErrors(history: seq<AgentHistory>): (r: bool)
    ensures r <==> exists i :: 0 <= i < |history| && Truthy(history[i].result.error)
  {
    var errs := Errors(history);
    assert forall i :: 0 <= i < |history| && Truthy(history[i].result.error) ==> history[i].result.error.value in errs;
    assert |errs| > 0 ==> errs[0] in errs;
    |errs| > 0
  }

  /** `final_result`: the last entry's extracted content, unless it is missing or empty. */
  function FinalResult(history: seq<AgentHistory>): (r: Option<string>)
    ensures r.Some? <==> |history| > 0 && Truthy(Last(history).result.extractedContent)
    ensures r.Some? ==> r.value == Last(history).result.extractedContent.value && |r.value| > 0
  {
    if |history| > 0 && Truthy(Last(history).result.extractedContent) then Last(history).result.extractedContent
    else None
  }

  /** `is_done`: only the last entry's flag counts; `None` is falsy. */
  function IsDone(history: seq<AgentHistory>): (r: bool)
    ensures r <==> |history| > 0 && Last(history).result.isDone == Some(true)
  {
    if |history| > 0 && Last(history).result.isDone.Some? && Last(history).result.isDone.value then true
    else false
  }

  /** Earlier entries never affect `is_done`, `final_result` or `last_action`. */
  lemma {:induction false} LastEntryQueriesIgnoreEarlierEntries(earlier: seq<AgentHistory>, e: AgentHistory)
    ensures IsDone(earlier + [e]) == IsDone([e])
    ensures FinalResult(earlier + [e]) == FinalResult([e])
    ensures LastAction(earlier + [e]) == LastAction([e])
    ensures !IsDone([]) && FinalResult([]).None? && LastAction([]).None?
  {
    assert Last(earlier + [e]) == e;
    assert Last([e]) == e;
  }

  function UrlOf(h: AgentHistory): Option<string>
  {
    if Truthy(h.state.url) then h.state.url else None
  }

  function ScreenshotOf(h: AgentHistory): Option<string>
  {
    if Truthy(h.state.screenshot) then h.state.screenshot else None
  }

  function ExtractedContentOf(h: AgentHistory): Option<string>
  {
    if Truthy(h.result.extractedContent) then h.result.extractedContent else None
  }

  /** `urls`: the non-empty URLs in entry order (despite the "unique" docstring, repeats are kept). */
  function Urls(history: seq<AgentHistory>): (r: seq<string>)
    ensures forall u :: u in r <==>
              exists i :: 0 <= i < |history| && Truthy(history[i].state.url) && history[i].state.url.value == u
    ensures forall u :: u in r ==> |u| > 0
  {
    FilterMap(history, UrlOf)
  }

  /** `screenshots`: the non-empty screenshots in entry order. */
  function Screenshots(history: seq<AgentHistory>): (r: seq<string>)
    ensures forall s :: s in r <==>
              exists i :: 0 <= i < |history| && Truthy(history[i].state.screenshot) && history[i].state.screenshot.value == s
    ensures forall s :: s in r ==> |s| > 0
  {
    FilterMap(history, ScreenshotOf)
  }

  /** `extracted_content`: the non-empty extracted contents in entry order. */
  function ExtractedContent(history: seq<AgentHistory>): (r: seq<string>)
    ensures forall c :: c in r <==>
              exists i :: 0 <= i < |history| && Truthy(history[i].result.extractedContent)
                          && history[i].result.extractedContent.value == c
    ensures forall c :: c in r ==> |c| > 0
  {
    FilterMap(history, ExtractedContentOf)
  }

  /** When every entry has a URL, `urls` lists them all, one per entry, repeats included. */
  lemma UrlsKeepRepeats(history: seq<AgentHistory>)
    requires forall i :: 0 <= i < |history| ==> Truthy(history[i].state.url)
    ensures |Urls(history)| == |history|
    ensures forall i :: 0 <= i < |history| ==> Urls(history)[i] == history[i].state.url.value
  {
    FilterMapKeepsAll(history, UrlOf);
  }

  function OutputOf(h: AgentHistory): Option<AgentOutput>
  {
    h.modelOutput
  }

  function ThoughtOf(h: AgentHistory): Option<AgentBrain>
  {
    if h.modelOutput.Some? then Some(h.modelOutput.value.currentState) else None
  }

  function ActionOf(h: AgentHistory): Option<ActionDump>
  {
    if h.modelOutput.Some? then Some(h.modelOutput.value.action) else None
  }

  /** `model_outputs`: one per entry that has a model output, in entry order. */
  function ModelOutputs(history: seq<AgentHistory>): (r: seq<AgentOutput>)
    ensures forall o :: o in r <==> exists i :: 0 <= i < |history| && history[i].modelOutput == Some(o)
  {
    FilterMap(history, OutputOf)
  }

  /** `model_thoughts`: the brain state of each model output. */
  function ModelThoughts(history: seq<AgentHistory>): (r: seq<AgentBrain>)
    ensures |r| <= |history|
  {
    FilterMap(history, ThoughtOf)
  }

  /** `model_actions`: the dumped action of each model output. */
  function ModelActions(history: seq<AgentHistory>): (r: seq<ActionDump>)
    ensures |r| <= |history|
  {
    FilterMap(history, ActionOf)
  }

  /** Truthiness of an `ActionResult`: a pydantic model defines neither `__bool__` nor `__len__`, so it is always truthy. */
  predicate ResultTruthy(result: ActionResult)
  {
    true
  }

  function ResultOf(h: AgentHistory): Option<ActionResult>
  {
    if ResultTruthy(h.result) then Some(h.result) else None
  }

  /** `action_results`: the truthy results in entry order; the truthiness filter drops none of them. */
  function ActionResults(history: seq<AgentHistory>): (r: seq<ActionResult>)
    ensures |r| == |history|
    ensures forall i :: 0 <= i < |history| ==> r[i] == history[i].result
  {
    FilterMapKeepsAll(history, ResultOf);
    FilterMap(history, ResultOf)
  }

  /** Outputs, thoughts and actions line up: item `i` of each comes from the same entry. */
  lemma {:induction false} ModelProjectionsAlign(history: seq<AgentHistory>)
    ensures |ModelThoughts(history)| == |ModelOutputs(history)| == |ModelActions(history)|
    ensures forall i :: 0 <= i < |ModelOutputs(history)| ==>
              && ModelThoughts(history)[i] == ModelOutputs(history)[i].currentState
              && ModelActions(history)[i] == ModelOutputs(history)[i].action
  {
    if |history| > 0 {
      ModelProjectionsAlign(history[1..]);
    }
  }

  /**
   * Append-only ordering: appending an entry to the ledger appends that
   * entry's contribution, if any, to every projection and changes nothing
   * before it.
   */
  lemma ProjectionsOfAppendedEntry(history: seq<AgentHistory>, e: AgentHistory)
    ensures Errors(history + [e]) == Errors(history) + (if Truthy(e.result.error) then [e.result.error.value] else [])
    ensures Urls(history + [e]) == Urls(history) + (if Truthy(e.state.url) then [e.state.url.value] else [])
    ensures Screenshots(history + [e])
            == Screenshots(history) + (if Truthy(e.state.screenshot) then [e.state.screenshot.value] else [])
    ensures ExtractedContent(history + [e])
            == ExtractedContent(history)
               + (if Truthy(e.result.extractedContent) then [e.result.extractedContent.value] else [])
    ensures ModelOutputs(history + [e])
            == ModelOutputs(history) + (if e.modelOutput.Some? then [e.modelOutput.value] else [])
    ensures ModelActions(history + [e])
            == ModelActions(history) + (if e.modelOutput.Some? then [e.modelOutput.value.action] else [])
  {
    AppendOne(history, e, ErrorOf);
    AppendOne(history, e, UrlOf);
    AppendOne(history, e, ScreenshotOf);
    AppendOne(history, e, ExtractedContentOf);
    AppendOne(history, e, OutputOf);
    AppendOne(history, e, ActionOf);
  }

  lemma AppendOne<U(!new)>(history: seq<AgentHistory>, e: AgentHistory, f: AgentHistory -> Option<U>)
    ensures FilterMap(history + [e], f) == FilterMap(history, f) + (if f(e).Some? then [f(e).value] else [])
  {
    FilterMapAppend(history, [e], f);
    assert FilterMap([e], f) == (if f(e).Some? then [f(e).value] else []) + FilterMap([], f);
  }

  /*
   * Action names and filtering.
   */

  /** The first key of every action, in order; `IndexError` on an action with no keys. */
  function FirstKeys(actions: seq<ActionDump>): (r: Result<seq<string>>)
    ensures r.Ok? <==> forall i :: 0 <= i < |actions| ==> |actions[i]| > 0
    ensures r.Err? ==> r.error == IndexError
    ensures r.Ok? ==> |r.value| == |actions| && forall i :: 0 <= i < |actions| ==> r.value[i] == actions[i][0].name
  {
    if |actions| == 0 then Ok([])
    else if |actions[0]| == 0 then Err(IndexError)
    else
      match FirstKeys(actions[1..])
      case Err(e) => Err(e)
      case Ok(names) => Ok([actions[0][0].name] + names)
  }

  /** `action_names`: the first key of every model action, in order. */
  function ActionNames(history: seq<AgentHistory>): (r: Result<seq<string>>)
    ensures r.Ok? <==> forall i :: 0 <= i < |ModelActions(history)| ==> |ModelActions(history)[i]| > 0
    ensures r.Ok? ==> |r.value| == |ModelActions(history)|
    ensures r.Ok? ==> forall i :: 0 <= i < |r.value| ==> r.value[i] == ModelActions(history)[i][0].name
  {
    FirstKeys(ModelActions(history))
  }

  /** How many entries of `include` equal `name`. */
  function Occurrences(includeNames: seq<string>, name: string): (n: nat)
    ensures n <= |includeNames|
    ensures n > 0 <==> name in includeNames
  {
    if |includeNames| == 0 then 0
    else (if includeNames[0] == name then 1 else 0) + Occurrences(includeNames[1..], name)
  }

  function Repeat<T>(x: T, n: nat): (r: seq<T>)
    ensures |r| == n
    ensures forall i :: 0 <= i < n ==> r[i] == x
  {
    if n == 0 then [] else [x] + Repeat(x, n - 1)
  }

  /**
   * The double loop of `model_actions_filtered` over the given outputs: each
   * output is appended once per entry of `include` equal to its first key.
   * The first key is read on every inner iteration, so an output with no
   * keys raises `IndexError` unless `include` is empty.
   */
  function FilterActions(outputs: seq<ActionDump>, includeNames: seq<string>): (r: Result<seq<ActionDump>>)
    ensures r.Ok? <==> |includeNames| == 0 || forall i :: 0 <= i < |outputs| ==> |outputs[i]| > 0
    ensures r.Ok? ==> forall a: ActionDump :: a in r.value ==> a in outputs && |a| > 0 && a[0].name in includeNames
    ensures r.Err? ==> r.error == IndexError
  {
    if |outputs| == 0 then Ok([])
    else if |includeNames| > 0 && |outputs[0]| == 0 then Err(IndexError)
    else
      var copies := if |includeNames| == 0 then 0 else Occurrences(includeNames, outputs[0][0].name);
      match FilterActions(outputs[1..], includeNames)
      case Err(e) => Err(e)
      case Ok(rest) => Ok(Repeat(outputs[0], copies) + rest)
  }

  /** `model_actions_filtered(include)`. */
  function ModelActionsFiltered(history: seq<AgentHistory>, includeNames: seq<string>): (r: Result<seq<ActionDump>>)
    ensures r.Ok? ==> forall a: ActionDump :: a in r.value ==> a in ModelActions(history) && |a| > 0 && a[0].name in includeNames
  {
    FilterActions(ModelActions(history), includeNames)
  }

  predicate NoDuplicates(includeNames: seq<string>)
  {
    forall i, j :: 0 <= i < j < |includeNames| ==> includeNames[i] != includeNames[j]
  }

  lemma {:induction false} OccurrencesWithoutDuplicates(includeNames: seq<string>, name: string)
    requires NoDuplicates(includeNames)
    ensures Occurrences(includeNames, name) == if name in includeNames then 1 else 0
  {
    if |includeNames| > 0 {
      assert NoDuplicates(includeNames[1..]);
      OccurrencesWithoutDuplicates(includeNames[1..], name);
      if includeNames[0] == name {
        assert name !in includeNames[1..];
      }
    }
  }

  /** Keep an action when its first key is in `include`. */
  function KeepIfIncluded(includeNames: seq<string>): ActionDump -> Option<ActionDump>
  {
    (a: ActionDump) => if |a| > 0 && a[0].name in includeNames then Some(a) else None
  }

  /**
   * With no repeated names in `include`, filtering keeps each action whose
   * first key is included exactly once, in order: the order-preserving
   * sublist of the outputs.
   */
  lemma {:induction false} FilterActionsIsSublist(outputs: seq<ActionDump>, includeNames: seq<string>)
    requires NoDuplicates(includeNames)
    requires FilterActions(outputs, includeNames).Ok?
    ensures FilterActions(outputs, includeNames).value == FilterMap(outputs, KeepIfIncluded(includeNames))
  {
    if |outputs| > 0 {
      var a := outputs[0];
      var kept := match KeepIfIncluded(includeNames)(a) case Some(u) => [u] case None => [];
      FilterActionsIsSublist(outputs[1..], includeNames);
      if |includeNames| > 0 {
        OccurrencesWithoutDuplicates(includeNames, a[0].name);
        assert Repeat(a, Occurrences(includeNames, a[0].name)) == kept;
      } else {
        assert kept == [];
      }
    }
  }

  /*
   * Normalisation inside `load_from_file`.
   */

  /** A value as `json.load` produces it, plus the validated output the loop writes back. */
  datatype RawValue =
    | Null
    | Bool(b: bool)
    | Number(n: int)
    | Str(s: string)
    | List(items: seq<RawValue>)
    | Object(fields: seq<(string, RawValue)>)
    | Validated(output: AgentOutput)

  /** Python truthiness; a pydantic model instance is always truthy. */
  predicate IsTruthy(v: RawValue)
  {
    match v
    case Null => false
    case Bool(b) => b
    case Number(n) => n != 0
    case Str(s) => |s| > 0
    case List(items) => |items| > 0
    case Object(fields) => |fields| > 0
    case Validated(_) => true
  }

  /** One element of the loaded `history` list: its `model_output`, `result` and `state` keys. */
  datatype RawEntry = RawEntry(modelOutput: RawValue, result: RawValue, state: seq<(string, RawValue)>)

  const InteractedElementKey := "interacted_element"

  predicate HasKey(fields: seq<(string, RawValue)>, key: string)
  {
    exists i :: 0 <= i < |fields| && fields[i].0 == key
  }

  /** The `model_output` half of the loop body; `validate` is `output_model.model_validate`. */
  function NormalizeModelOutput(validate: RawValue -> Option<AgentOutput>, v: RawValue): (r: Result<RawValue>)
    ensures !IsTruthy(v) ==> r == Ok(v)
    ensures IsTruthy(v) && !v.Object? ==> r == Ok(Null)
    ensures IsTruthy(v) && v.Object? && validate(v).Some? ==> r == Ok(Validated(validate(v).value))
    ensures r.Err? <==> IsTruthy(v) && v.Object? && validate(v).None?
  {
    if IsTruthy(v) then
      if v.Object? then
        match validate(v)
        case Some(o) => Ok(Validated(o))
        case None => Err(ValidationError)
      else Ok(Null)
    else Ok(v)
  }

  /** The `state` half: add `interacted_element: None` when the key is missing (dicts append new keys). */
  function NormalizeState(state: seq<(string, RawValue)>): (r: seq<(string, RawValue)>)
    ensures HasKey(r, InteractedElementKey)
    ensures HasKey(state, InteractedElementKey) ==> r == state
    ensures !HasKey(state, InteractedElementKey) ==> r == state + [(InteractedElementKey, Null)]
  {
    if HasKey(state, InteractedElementKey) then state
    else
      var r := state + [(InteractedElementKey, Null)];
      assert r[|state|].0 == InteractedElementKey;
      r
  }

  /** The loop body for one entry; `result` is never touched. */
  function NormalizeEntry(validate: RawValue -> Option<AgentOutput>, e: RawEntry): (r: Result<RawEntry>)
    ensures r.Err? <==> NormalizeModelOutput(validate, e.modelOutput).Err?
    ensures r.Ok? ==> && r.value.result == e.result
                      && r.value.modelOutput == NormalizeModelOutput(validate, e.modelOutput).value
                      && r.value.state == NormalizeState(e.state)
  {
    match NormalizeModelOutput(validate, e.modelOutput)
    case Err(err) => Err(err)
    case Ok(out) => Ok(RawEntry(out, e.result, NormalizeState(e.state)))
  }

  /** The whole loop: the first failed validation propagates; otherwise every entry is normalised in place. */
  method NormalizeHistory(validate: RawValue -> Option<AgentOutput>, entries: seq<RawEntry>)
    returns (r: Result<seq<RawEntry>>)
    ensures r.Ok? <==> forall i :: 0 <= i < |entries| ==> NormalizeEntry(validate, entries[i]).Ok?
    ensures r.Err? ==> r.error == ValidationError
    ensures r.Ok? ==> |r.value| == |entries|
    ensures r.Ok? ==> forall i :: 0 <= i < |entries| ==> r.value[i] == NormalizeEntry(validate, entries[i]).value
    ensures r.Ok? ==> forall i :: 0 <= i < |entries| ==>
              && r.value[i].result == entries[i].result
              && HasKey(r.value[i].state, InteractedElementKey)
              && (IsTruthy(entries[i].modelOutput) ==> r.value[i].modelOutput.Validated? || r.value[i].modelOutput.Null?)
              && (!IsTruthy(entries[i].modelOutput) ==> r.value[i].modelOutput == entries[i].modelOutput)
  {
    var done: seq<RawEntry> := [];
    var i := 0;
    while i < |entries|
      invariant 0 <= i <= |entries|
      invariant |done| == i
      invariant forall k :: 0 <= k < i ==> NormalizeEntry(validate, entries[k]).Ok?
      invariant forall k :: 0 <= k < i ==> done[k] == NormalizeEntry(validate, entries[k]).value
    {
      var step := NormalizeEntry(validate, entries[i]);
      if step.Err? {
        return Err(step.error);
      }
      done := done + [step.value];
      i := i + 1;
    }
    r := Ok(done);
  }

  /** Adding the missing `interacted_element` key is idempotent. */
  lemma NormalizeStateIdempotent(state: seq<(string, RawValue)>)
    ensures NormalizeState(NormalizeState(state)) == NormalizeState(state)
  {
  }

  /**
   * The loop body is idempotent on every entry whose `model_output` is not a
   * non-empty object.
   */
  lemma NormalizeEntryIdempotent(validate: RawValue -> Option<AgentOutput>, e: RawEntry)
    requires !(IsTruthy(e.modelOutput) && e.modelOutput.Object?)
    ensures NormalizeEntry(validate, e).Ok?
    ensures NormalizeEntry(validate, NormalizeEntry(validate, e).value) == NormalizeEntry(validate, e)
  {
  }

  /**
   * ...but not on an entry whose `model_output` object validates: the first
   * pass stores a validated model, which is truthy and not a dict, so a
   * second pass would replace it by `None`. The source runs the loop once,
   * on freshly parsed JSON, where this cannot happen.
   */
  lemma NormalizeEntryNotIdempotentOnValidated(validate: RawValue -> Option<AgentOutput>, e: RawEntry)
    requires IsTruthy(e.modelOutput) && e.modelOutput.Object? && validate(e.modelOutput).Some?
    ensures NormalizeEntry(validate, e).Ok?
    ensures NormalizeEntry(validate, NormalizeEntry(validate, e).value).Ok?
    ensures NormalizeEntry(validate, NormalizeEntry(validate, e).value).value.modelOutput == Null
    ensures NormalizeEntry(validate, e).value.modelOutput != Null
  {
  }
}
