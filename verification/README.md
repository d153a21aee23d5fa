# Element history matching, agent ledger and key rotation — a Dafny model

This project models three sequential pieces of the `browser_use` agent:

- **Element identity and history matching** (`HistoryTreeProcessor`, in
  `history_tree_processor.dfy`, over the tree of `dom_views.dfy`). When an
  action targets a DOM element, the element is recorded as a tree-independent
  `DOMHistoryElement`. It is fingerprinted by two digests: one of its tag-name
  branch path joined with `/`, and one of its attributes rendered as
  `key=value` pairs with no separator, in insertion order. The snapshot is
  found again in a later render by a pre-order, depth-first search over the
  interactable elements, meaning those with a highlight index.
- **The action/result ledger** (`AgentViews`, in `agent_views.dfy`). These are
  the queries of `AgentHistoryList`, `AgentHistory.get_interacted_element`, and
  the normalisation loop of `load_from_file`.
- **Round-robin API-key rotation** (`ApiManager`, in `api_manager.dfy`).
  `APIKeyManager` is modelled as a two-field state machine.

`base.dfy` holds the shared vocabulary (`Base`). It has `Option` and a `Result`
carrying the Python exception raised (`IndexError`, `KeyError`,
`ValidationError`). It has Python truthiness of optional strings. It has
`FilterMap`, the order-preserving filter that every filtering query of the
ledger amounts to.

Modelling choices:

- The live tree is an immutable datatype. The `parent` back-pointer is
  replaced by `Located(ancestors, node)`, which carries the tag names from the
  root down to the parent. The search builds these as it descends.
- The branch path keeps the source's quirk. `_get_parent_branch_path` pushes
  the *current* element and stops at the node without a parent. So the path
  ends with the element's own tag and never contains the root's tag
  (`BranchPath(ancestors, tag) == (ancestors + [tag])[1..]`).
- SHA-256, together with UTF-8 encoding and hex rendering, is the parameter
  `H: string -> string` of every hashing function. Every property holds for
  every `H`. Collision-freedom of `H` is assumed only by the lemmas that say
  so in their `requires`.
- Python exceptions are `Err` results, not preconditions. This covers indexing
  an empty key list, `selector_map[index]` with a missing index,
  taking the first key of an action with no keys, and a `model_output` that
  fails validation.
- A pydantic model instance has no `__len__`/`__bool__`, so it is always
  truthy. `if h.model_output` therefore means "is not `None`", and
  `if h.result` always holds.

Notes on the code's own behaviour, measured against its names and docstrings:

- Despite its name, `_get_parent_branch_path` includes the element's own tag
  and excludes the root's tag.
- `load_from_file` lets a `ValidationError` from `model_validate` on a
  `model_output` dict propagate. It does not degrade the entry to
  `model_output = None`.
- Searching a tree for the snapshot of one of its own elements returns the
  *first* element in document order with the same fingerprint. That need not
  be the element snapshotted (`FoundElementNeedNotBeTheSnapshotted`).
- `urls()` keeps repeated URLs, although its docstring says "unique".
- The normalisation step of `load_from_file` is not idempotent in general. A
  validated output is truthy and not a dict, so a second pass would set it to
  `None` (`NormalizeEntryNotIdempotentOnValidated`). It is idempotent on every
  other entry and on the `interacted_element` part. The source runs the loop
  only once, on freshly parsed JSON.

## Model

| member | source | states |
|---|---|---|
| HistoryTreeProcessor.GetParentBranchPath | browser_use/dom/history_tree_processor.py:109-119 | The upward walk and reversal give `(ancestors + [tag])[1..]`. The path is empty at the root. Its length equals the number of parent hops. Its last entry is the element's own tag, and the root's tag is never in it. |
| HistoryTreeProcessor.ConvertDomElementToHistoryElement | browser_use/dom/history_tree_processor.py:47-56 | The snapshot copies tag name, xpath, highlight index, attributes and shadow-root flag unchanged. Its branch path has one entry per parent hop and ends with the element's own tag. |
| HistoryTreeProcessor.Join | browser_use/dom/history_tree_processor.py:121-124 | Joining no parts gives the empty string. Otherwise the joined string starts with the first part. |
| HistoryTreeProcessor.SplitJoin | browser_use/dom/history_tree_processor.py:121-124 | Splitting the joined string on the separator gives back the parts, provided no part contains the separator. |
| HistoryTreeProcessor.JoinPathInjective | browser_use/dom/history_tree_processor.py:121-124 | Two branch paths of tag names (non-empty, free of `/`) give the same `/`-joined string exactly when they are equal. |
| HistoryTreeProcessor.ParentBranchPathHashSeparatesPaths | browser_use/dom/history_tree_processor.py:121-124 | With a collision-free `H`, two branch paths of tag names get the same digest exactly when they are equal. |
| HistoryTreeProcessor.AttributesString | browser_use/dom/history_tree_processor.py:126-129 | The attribute string is empty exactly when there are no attributes. Otherwise it starts with the first `key=value`. |
| HistoryTreeProcessor.AttributesStringAppend | browser_use/dom/history_tree_processor.py:126-129 | Rendering a concatenation is rendering each part in turn. The renderings follow insertion order, with no separator between attributes. |
| HistoryTreeProcessor.DifferentAttributesCanRenderAlike | browser_use/dom/history_tree_processor.py:126-129 | Keys may contain `=`, so the attribute string is not injective. `a=` then `a=a=` renders the same as `a=a=` then `a=`, so the two lists share a digest whatever `H` is. |
| HistoryTreeProcessor.AttributesHashSeparatesStrings | browser_use/dom/history_tree_processor.py:126-129 | With a collision-free `H`, two attribute lists get the same digest exactly when they render to the same string. |
| HistoryTreeProcessor.HashDomHistoryElementSeparates | browser_use/dom/history_tree_processor.py:91-98 | With a collision-free `H`, two snapshots get the same fingerprint exactly when their branch paths are equal and their attributes render alike. No other field takes part. |
| HistoryTreeProcessor.HashDomElement | browser_use/dom/history_tree_processor.py:100-107 | A live element's fingerprint is the fingerprint of its own snapshot. |
| HistoryTreeProcessor.CompareHistoryElementAndDomElement | browser_use/dom/history_tree_processor.py:80-107 | The comparison holds exactly when both the branch-path digest and the attribute digest are equal. |
| HistoryTreeProcessor.SelfMatch | browser_use/dom/history_tree_processor.py:47-107 | A snapshot always matches, and has the same fingerprint as, the element it was taken from, whatever the hash function. |
| HistoryTreeProcessor.CompareIgnoresOtherFields | browser_use/dom/history_tree_processor.py:81-107 | xpath, highlight index, shadow-root flag and children never change the comparison. Only the branch path and the attributes do. |
| HistoryTreeProcessor.ProcessNode | browser_use/dom/history_tree_processor.py:66-76 | Any node returned is an element with a highlight index whose fingerprint is the target. |
| HistoryTreeProcessor.ProcessChildren | browser_use/dom/history_tree_processor.py:71-75 | The loop over the children skips text nodes. Any node returned is an interactable element with the target fingerprint. |
| HistoryTreeProcessor.ProcessNodeIsFirstMatch | browser_use/dom/history_tree_processor.py:66-78 | The recursive search equals the independent reference: the first matching element of the tree's pre-order element sequence. |
| HistoryTreeProcessor.FindHistoryElementInTree | browser_use/dom/history_tree_processor.py:58-78 | The searched tree carries its own ancestors, so a subtree is searched with the branch paths it has in the page. The result is the first match in document order. When present, it is an element of the tree with a highlight index and the snapshot's fingerprint. It is `None` exactly when no interactable element matches. |
| HistoryTreeProcessor.SubtreeRootIsFoundInPlace | browser_use/dom/history_tree_processor.py:58-78 | Searching a subtree whose root is interactable, from the root's real position under any ancestors, finds the root itself for its own snapshot. |
| HistoryTreeProcessor.FindReturnsFirstInDocumentOrder | browser_use/dom/history_tree_processor.py:66-78 | Every element before the result in pre-order fails to match. |
| HistoryTreeProcessor.NotFoundWhenNothingMatches | browser_use/dom/history_tree_processor.py:66-78 | Absence: when no interactable element shares both digests with the snapshot, the search reports `None`. |
| HistoryTreeProcessor.SnapshotIsFoundInSameTree | browser_use/dom/history_tree_processor.py:47-78 | Snapshotting an interactable element of a tree, at any position in the page, and searching that tree always succeeds. The result has that element's fingerprint. |
| HistoryTreeProcessor.FoundElementNeedNotBeTheSnapshotted | browser_use/dom/history_tree_processor.py:66-78 | Take two interactable siblings with equal tag and attributes. The snapshot of the second is found as the first. |
| HistoryTreeProcessor.MovedElementIsNotFound | browser_use/dom/history_tree_processor.py:109-124 | A button under `html > div > form` records the path `div/form/button`. Once a `section` is inserted above the form, a collision-free hash no longer finds it. |
| HistoryTreeProcessor.ChangingOneValueChangesAttributesString | browser_use/dom/history_tree_processor.py:126-129 | With the keys fixed, changing any single attribute value changes the `key=value` concatenation. |
| HistoryTreeProcessor.ChangingOneValueBreaksMatch | browser_use/dom/history_tree_processor.py:81-129 | With a collision-free hash, a snapshot no longer matches an element once one attribute value changes. |
| HistoryTreeProcessor.ReorderingAttributesChangesAttributesString | browser_use/dom/history_tree_processor.py:126-129 | Attributes are rendered in insertion order, not sorted: `id=go` before `type=submit` renders differently from the reverse order. |
| AgentViews.GetInteractedElement | browser_use/agent/views.py:69-78 | No element when the index is `None` or `0` (truthiness). `KeyError` when the index is not in the selector map. Otherwise the snapshot of the selected element. |
| AgentViews.InteractedElementMatchesSelection | browser_use/agent/views.py:69-78 | A recorded interacted element matches the selected live element under every hash function. |
| AgentViews.LastAction | browser_use/agent/views.py:147-151 | The result is present exactly when the ledger is non-empty and its last entry has a model output. It is then that entry's action. |
| AgentViews.Errors | browser_use/agent/views.py:153-155 | Holds exactly the non-empty `result.error` values of the entries, all non-empty, never more than the entry count. |
| AgentViews.HasErrors | browser_use/agent/views.py:169-171 | True exactly when some entry carries a non-empty error. |
| AgentViews.FinalResult | browser_use/agent/views.py:157-161 | The last entry's extracted content when it is non-empty. `None` for an empty ledger or missing or empty content. |
| AgentViews.IsDone | browser_use/agent/views.py:163-167 | True exactly when the ledger is non-empty and the last entry's `is_done` is `True`. |
| AgentViews.LastEntryQueriesIgnoreEarlierEntries | browser_use/agent/views.py:147-167 | `is_done`, `final_result` and `last_action` depend on the last entry only, and are false or `None` on an empty ledger. |
| AgentViews.Urls | browser_use/agent/views.py:173-175 | Holds exactly the non-empty URLs of the entries, all non-empty. |
| AgentViews.UrlsKeepRepeats | browser_use/agent/views.py:173-175 | When every entry has a URL, `urls()` has one item per entry in entry order, repeats included. No deduplication happens. |
| AgentViews.Screenshots | browser_use/agent/views.py:177-179 | Holds exactly the non-empty screenshots of the entries, all non-empty. |
| AgentViews.ExtractedContent | browser_use/agent/views.py:209-211 | Holds exactly the non-empty extracted contents of the entries, all non-empty. |
| AgentViews.ModelOutputs | browser_use/agent/views.py:189-191 | Holds exactly the model outputs present in the entries. |
| AgentViews.ModelThoughts | browser_use/agent/views.py:185-187 | At most one thought per entry. |
| AgentViews.ModelActions | browser_use/agent/views.py:193-203 | At most one dumped action per entry. |
| AgentViews.ModelProjectionsAlign | browser_use/agent/views.py:185-203 | `model_thoughts`, `model_outputs` and `model_actions` have equal length. Item `i` of the first and last are the brain state and the action of output `i`. |
| AgentViews.ActionResults | browser_use/agent/views.py:205-207 | The truthiness filter drops no result, because a pydantic model is always truthy. So there is exactly one result per entry, in entry order. |
| AgentViews.ProjectionsOfAppendedEntry | browser_use/agent/views.py:153-211 | Appending an entry appends its contribution, if any, to `errors`, `urls`, `screenshots`, `extracted_content`, `model_outputs` and `model_actions`. Nothing before it changes, so order is preserved. |
| AgentViews.FirstKeys | browser_use/agent/views.py:181-183 | Succeeds exactly when every action has a key. Item `i` is then the first key of action `i`. Otherwise it raises `IndexError`. |
| AgentViews.ActionNames | browser_use/agent/views.py:181-183 | `action_names` has the length of `model_actions`. Item `i` is the first key of action `i`. It fails exactly when some action has no key. |
| AgentViews.FilterActions | browser_use/agent/views.py:213-221 | Every action kept is one of the outputs, and its first key is in `include`. It raises `IndexError` exactly when `include` is non-empty and some output has no key. |
| AgentViews.ModelActionsFiltered | browser_use/agent/views.py:213-221 | Every action returned is a model action whose first key is in `include`. |
| AgentViews.FilterActionsIsSublist | browser_use/agent/views.py:213-221 | When `include` has no repeats, the result is the order-preserving sublist of the outputs whose first key is in `include`. |
| AgentViews.NormalizeModelOutput | browser_use/agent/views.py:137-141 | A falsy `model_output` is kept. A truthy non-dict becomes `None`. A non-empty dict is replaced by its validated model, or raises `ValidationError`. |
| AgentViews.NormalizeState | browser_use/agent/views.py:142-143 | A missing `interacted_element` key is added with value `None` at the end. A state that has the key is unchanged. |
| AgentViews.NormalizeEntry | browser_use/agent/views.py:136-143 | Fails exactly when validation fails. Otherwise `result` is untouched and both halves are applied. |
| AgentViews.NormalizeHistory | browser_use/agent/views.py:136-143 | The loop succeeds exactly when every entry does, and a failure is `ValidationError`. Output entry `i` is exactly the loop body applied to input entry `i`. Its `result` is unchanged, its state has an `interacted_element` key, and its output is the validated model or `None` where the input was truthy. |
| AgentViews.NormalizeStateIdempotent | browser_use/agent/views.py:142-143 | Adding the missing `interacted_element` key twice is the same as once. |
| AgentViews.NormalizeEntryIdempotent | browser_use/agent/views.py:136-143 | The loop body is idempotent on every entry whose `model_output` is not a non-empty dict. |
| AgentViews.NormalizeEntryNotIdempotentOnValidated | browser_use/agent/views.py:136-143 | On an entry whose dict validates, a second pass replaces the validated model by `None`. |
| ApiManager.NewAPIKeyManager | browser_use/agent/api_manager.py:6-9 | A new manager keeps the key list and starts at index 0, which is a valid state. |
| ApiManager.GetNextKey | browser_use/agent/api_manager.py:11-15 | It returns the key at the index as it was before the call, keeps the list, and advances the index by one modulo the list length. The index stays in `[0, len)`. An out-of-range index, which includes any index on an empty list, raises `IndexError`. |
| ApiManager.Calls | browser_use/agent/api_manager.py:11-15 | From a valid state over a non-empty list, every call succeeds. Call `j` returns the key at the index reached after `j` earlier calls (`Advance`, built from `Next`). After `k` calls the index is `Advance(start, k)` and the list is unchanged. On an empty list the first call fails. |
| ApiManager.NextIsIncrementModulo | browser_use/agent/api_manager.py:14 | On a valid index, the source's `(i + 1) % len` is the next index, wrapping to 0 after the last key (`Next`). |
| ApiManager.AdvanceIsAddition | browser_use/agent/api_manager.py:14 | `j` calls starting at a valid index `i` end at `(i + j) % len`. |
| ApiManager.AdvanceFullRound | browser_use/agent/api_manager.py:14 | `len` calls starting at a valid index come back to it. |
| ApiManager.FreshManagerCyclesThroughKeys | browser_use/agent/api_manager.py:8-15 | Call `j` (from 0) of a fresh manager returns `apiKeys[j % len]`. After `k` calls the index is `k % len`. |
| ApiManager.FullRoundRestoresState | browser_use/agent/api_manager.py:11-15 | After one call per key, the manager is back in the state it started from. |
| ApiManager.GlobalManagerFirstCallFails | browser_use/agent/api_manager.py:13-22 | The global manager is built from the shipped empty key list, so its first call raises `IndexError`. |

## Left out

- SHA-256 is not modelled. It is the function parameter `H`. Nothing is proved about its collisions, and a collision-free `H` is an explicit hypothesis where needed.
- ChangingOneValueBreaksMatch: assumes `H` has no collisions. With a real digest, the changed attribute string only makes a match overwhelmingly unlikely.
- MovedElementIsNotFound: same hypothesis as above, for the branch-path digest.
- FindHistoryElementInTree: `process_node` recurses once per tree level, so in the source a DOM deeper than Python's recursion limit raises `RecursionError`. The model's recursion has no depth limit.
- GlobalManagerFirstCallFails: the manager keeps the caller's list by reference, so the global manager shares the module-level `CHAT_API_KEYS`. The model holds the key list as an immutable value, so the lemma holds only while nobody appends to that list.
- ParentBranchPathHashSeparatesPaths: assumes a collision-free `H`. With SHA-256, equal digests imply equal paths only up to a collision.
- AttributesHashSeparatesStrings: assumes a collision-free `H`, for the same reason.
- HashDomHistoryElementSeparates: assumes a collision-free `H`, for the same reason.
- `_text_hash` is left out. It relies on `get_all_text_till_next_clickable_element`, whose file `browser_use/dom/views.py` is not part of this model, and nothing calls it.
- `DOMHistoryElement.to_dict`, `save_to_file`, both `model_dump` methods, and the JSON reading and final `model_validate` of `load_from_file` are left out. They are file I/O and pydantic serialisation.
- Validating a `model_output` dict against the caller's schema is the parameter `validate`. A rejection raises `ValidationError` and is not degraded.
- In `load_from_file`, each loaded entry is taken to have `model_output` and `state` keys, with `state` a dict. The `KeyError`/`TypeError` on malformed files is not modelled.
- `AgentOutput.type_with_custom_actions` is left out. It builds a pydantic model at run time.
- `AgentError.format_error` is left out. It depends on traceback formatting and on exception types from openai and pydantic.
- `ActionModel.get_index` is the `index` parameter of `GetInteractedElement`, and `BrowserStateHistory` is reduced to the fields the ledger reads. Their files are not part of this model.
- `AgentHistoryList.__str__`/`__repr__` are left out. They only format text.
- The `threading.Lock` of `APIKeyManager` is left out. Each call is modelled as one atomic step, and concurrent interleavings are not modelled.
- The Azure endpoint and model-name constants of `api_manager.py` are left out. They are configuration strings nothing here reads.
- Highlight indices in the tree are `nat`. The source types them as `Optional[int]`, but they are never negative.
