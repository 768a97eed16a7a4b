# A-Translator overlay engine, modelled in Dafny

A-Translator is a userscript that lays a user-supplied phrase dictionary over the live,
self-mutating interface of a web application and can take the overlay off again exactly.
This project models its engine, the `core` object of `userscript/a-translator.user.js`,
and the pure helpers that build a dictionary on the import and save paths:

- `Strings` — the string primitives the engine relies on: `trim` (the ECMAScript whitespace
  and line-terminator set), ASCII `toLowerCase`, `indexOf`, `replace` with a string pattern
  (both literally and with JavaScript's `$` substitution templates) and `split("\n")`.
- `Json` — what `JSON.parse` produces, as far as the engine looks at it (truthiness and
  `String(v)`), and plain objects as sequences of own entries with JavaScript's property
  assignment (`o[k] = v`, where a `__proto__` key reaches the inherited accessor) and spread
  (`{...a, ...b}`, which defines own properties).
- `Dictionary` — the three dictionary builders: `loadDictFromStorage`, the cleaning, counting
  and merging of `importDictFromJsonText`, and the save button's `key = translation` parser
  with the editor's entry counter. Each is "which pair does this item contribute" followed by a
  last-wins collection.
- `Translator` — `translateString`, `_attrKey`, and what `translateTextNode`,
  `restoreTextNode`, `translateAttributes` and `restoreAttributes` do to one node, as pure
  functions over a node's value and its recorded original.
- `Document` — the page: text nodes and elements as abstract identities, a `Dom` class holding
  every `nodeValue`, attribute and `dataset`, the subtrees a scan walks and the mutation
  records the observer receives.
- `Engine` — the `core` object as a class `Core` whose fields mirror the source's (`dict`,
  `enabled`, `textOrig`, `touchedText`, `touchedEls`, `mutatingText`, `obs`, `isApplying`,
  `applyScheduled`) and whose methods update them in place, with `localStorage` as a `Store`
  class. Each loop of the source is a `for` loop proved against a pure pass predicate.
- `Editor` — `importDictFromJsonText`, the save button and `updateEntryCount`, as loops
  that build the object the `Dictionary` functions describe and hand it to the engine.

Deferred callbacks are explicit steps: the `setTimeout` of `scheduleApplyTouched` is
`RunScheduledApply`, the one of `enable` is `RunScheduledScan`, and the microtask of
`setText` is `ClearMark`. A `Core` keeps ghost counts of queued reapply and scan timers.
Its invariant says the reapply count is 1 exactly when `applyScheduled` is set, so at most
one reapply is ever pending.

The central guarantees are these. An original is recorded once and never overwritten.
Every translation is computed from that original, so any sequence of translates followed
by a restore gives the original back exactly, and translating twice is translating once.
`disable` and `applyTouched` show every touched node as its original or as its
translation, and release the `isApplying` guard. An observer batch only adds originals
and translations. It skips nodes the engine has just written itself.

Three behaviours of the code worth noting:

- A text node passed straight to `scanTranslate` (an added text node in a `childList`
  record) is not translated. The `TreeWalker`'s `nextNode` never yields its root, so the
  scan visits only the descendants of the root.
- `loadDictFromStorage` drops a pair when the raw key is empty or the value is falsy. A key
  made only of whitespace is not dropped but stored under the empty key. Values are kept untrimmed on this path, while
  the import and save paths trim them.
- The import and save paths build their objects by assignment on `{}`. A key that normalises
  to `__proto__` goes to the accessor `Object.prototype` provides and is never stored: the
  line `__proto__ = x` saves `{}`, and importing `{"__proto__": "x"}` in replace mode stores
  `{}` and reports a count of 0.

## Model

| member | source | states |
|---|---|---|
| `Strings.Trim` | userscript/a-translator.user.js:125 | `trim` returns the span between the leading and trailing whitespace. The result is empty exactly when the input is all whitespace, and otherwise starts and ends with a non-space. |
| `Strings.TrimIdempotent` | userscript/a-translator.user.js:125 | Trimming a trimmed string changes nothing. |
| `Strings.JsReplaceLiteral` | userscript/a-translator.user.js:129 | `s.replace(p, rep)` with no `$` in `rep` is the literal replacement of the first occurrence. |
| `Strings.JoinSplit` | userscript/a-translator.user.js:892 | Joining the pieces of `split("\n")` with line feeds gives the text back. |
| `Translator.FirstOccurrenceOfTrim` | userscript/a-translator.user.js:125-129 | The first occurrence of the trimmed text is right after the leading whitespace. |
| `Translator.TranslateStringSpec` | userscript/a-translator.user.js:124-130 | No match exactly when the text is all whitespace or its lower-cased trim has no non-empty translation. On a hit the result is the leading whitespace, the translation and the trailing whitespace. |
| `Translator.TranslatedIsNonEmpty` | userscript/a-translator.user.js:151 | A hit is never the empty string, so `if (replaced)` tests for a hit. |
| `Translator.AsWrittenAgreesWithoutDollar` | userscript/a-translator.user.js:129 | The code's `replace` and the literal replacement agree whenever no translation holds a `$`. |
| `Translator.DollarInTranslationCounterexample` | userscript/a-translator.user.js:129 | With the stored translation `Prix $$`, the code shows `Prix $`, while the literal replacement shows `Prix $$`. |
| `Translator.ExactMatchExample` | userscript/a-translator.user.js:124-130 | `{"hello": "Bonjour"}` turns `" Hello "` into `" Bonjour "`. |
| `Translator.AttrTrimExample` | userscript/a-translator.user.js:176-178 | `{"hello": "Bonjour"}` turns `title="Hello"` into `title="Bonjour"`. |
| `Translator.CellNoDrift` | userscript/a-translator.user.js:139-153 | After any sequence of translations, a translation gives what one translation of the first state gives: no drift. |
| `Translator.CellOriginalKept` | userscript/a-translator.user.js:143-148 | A text node's original is the first value seen and is never overwritten. |
| `Translator.CellRoundTrip` | userscript/a-translator.user.js:139-158 | After any sequence of translations, `restoreTextNode` shows the recorded original exactly. |
| `Translator.TranslateCellIdempotent` | userscript/a-translator.user.js:139-153 | Translating a text node twice with one dictionary is translating it once. |
| `Translator.TrackedKeys` | userscript/a-translator.user.js:160-163 | `_attrKey` maps `title`, `aria-label`, `placeholder` to `atOrigTitle`, `atOrigAriaLabel`, `atOrigPlaceholder`. |
| `Translator.KeyOfDash` | userscript/a-translator.user.js:160-163 | `_attrKey` drops the dash of `x-cy` and capitalises `c` and the first letter. |
| `Translator.TrackedIndependent` | userscript/a-translator.user.js:166 | The three attributes are distinct and have distinct stash keys. |
| `Translator.TranslateSlotSpec` | userscript/a-translator.user.js:167-180 | An absent or empty attribute is untouched. Otherwise the original is stashed only if none is, a stash is never overwritten, and the attribute shows the trimmed translation of the stash. |
| `Translator.SlotRoundTrip` | userscript/a-translator.user.js:165-191 | Once an original is stashed, any translations under any dictionaries followed by a restore show that original again. |
| `Translator.TranslateSlotIdempotent` | userscript/a-translator.user.js:165-181 | Translating one attribute twice with one dictionary is translating it once. |
| `Translator.RestoreSlotSpec` | userscript/a-translator.user.js:184-191 | A restore writes back the stash when there is one and otherwise leaves the attribute alone. |
| `Translator.TranslateElemSpec` | userscript/a-translator.user.js:165-182 | `translateAttributes` treats each of the three attributes as the one-attribute rule says. |
| `Translator.RestoreElemSpec` | userscript/a-translator.user.js:184-192 | `restoreAttributes` writes back the stash of each of the three attributes. |
| `Translator.ElemFrame` | userscript/a-translator.user.js:165-192 | Only the three attributes and their three stash keys are ever written. |
| `Translator.ElemRoundTrip` | userscript/a-translator.user.js:165-192 | After `translateAttributes`, `restoreAttributes` shows every stashed or non-empty attribute's original. |
| `Translator.TranslateElemIdempotent` | userscript/a-translator.user.js:165-182 | `translateAttributes` twice with one dictionary is `translateAttributes` once. |
| `Translator.ReappliedIdempotent` | userscript/a-translator.user.js:206-221 | A second `applyTouched` with nothing changed in between leaves every element as it is. |
| `Json.SetSpec` | userscript/a-translator.user.js:437 | `o[k] = v` updates the object's map at `k` and makes `k` an own key, except that assigning a `__proto__` the object does not own changes nothing. Keys stay distinct. |
| `Json.DefineSpec` | userscript/a-translator.user.js:451 | A spread defines each own property: the map is updated at `k`, `__proto__` included, and keys stay distinct. |
| `Json.SpreadSpec` | userscript/a-translator.user.js:451 | `{...a, ...b}` is the map of `a` overridden by the map of `b`. |
| `Dictionary.CollectLastWins` | userscript/a-translator.user.js:115-119 | A key is in the built map exactly when some item contributes it, with the value of the last item that does. |
| `Dictionary.LoadDictSpec` | userscript/a-translator.user.js:107-122 | The live dictionary holds a key exactly when some entry with a non-empty key and truthy value normalises to it. It holds `String(v)` of the last such entry, untrimmed. Every key is trimmed and lower-cased. |
| `Dictionary.BuildSpec` | userscript/a-translator.user.js:1031-1044 | An object built by assignment has distinct keys and holds the last-wins map of its pairs, less any `__proto__` key. |
| `Dictionary.CleanSpec` | userscript/a-translator.user.js:432-438 | Every cleaned key is non-empty, trimmed and lower-cased. Every cleaned value is a non-empty trimmed string. |
| `Dictionary.CountNewSpec` | userscript/a-translator.user.js:442-446 | The merge count is the number of cleaned keys that the stored object lacks. |
| `Dictionary.ImportRejects` | userscript/a-translator.user.js:419-430 | Unparseable text fails with "Invalid JSON". A non-object value fails with "JSON must be an object". Either failure stores nothing. |
| `Dictionary.MergedObject` | userscript/a-translator.user.js:451 | `{...current, ...cleaned}` holds `current` overridden by `cleaned`, under the keys of both. |
| `Dictionary.ImportMerge` | userscript/a-translator.user.js:440-457 | A merge stores `current` overridden by `cleaned` and reports the number of keys that are new to `current`. |
| `Dictionary.ImportReplace` | userscript/a-translator.user.js:447-457 | A replace stores `cleaned` and reports its number of keys. |
| `Dictionary.EntryLineParses` | userscript/a-translator.user.js:891-903 | The entry counter counts exactly the lines for which the save handler parses a pair. |
| `Dictionary.ParseLineSpec` | userscript/a-translator.user.js:1033-1043 | A parsed pair has a non-empty, trimmed, lower-cased key with no `=`, and a non-empty trimmed translation. |
| `Dictionary.ParseLineRoundTrip` | userscript/a-translator.user.js:1036-1041 | The line `key = translation` of a normal pair parses back to that pair. |
| `Dictionary.CountedBound` | userscript/a-translator.user.js:891-904 | For the text the counter counts (no search filter active), the saved object never has more keys than the counter shows. |
| `Dictionary.SaveObjectSpec` | userscript/a-translator.user.js:1031-1044 | The save path stores a key exactly when some line defines it and it is not `__proto__`, with the translation of the last such line. |
| `Dictionary.SaveProtoLine` | userscript/a-translator.user.js:1043 | The line `__proto__ = x` parses to a pair but saves `{}`. |
| `Dictionary.ImportProtoOnly` | userscript/a-translator.user.js:432-449 | Importing `{"__proto__": v}` in replace mode stores `{}` and reports a count of 0. |
| `Engine.FlagRoundTrip` | userscript/a-translator.user.js:44-62 | The saved flag reads back as the state it was saved from, and an absent flag reads as enabled. |
| `Engine.ScanObserved` | userscript/a-translator.user.js:194-204 | A scan only adds originals, from live values, and only keeps or translates nodes. |
| `Engine.ObservedTrans` | userscript/a-translator.user.js:242-250 | Two handled records in a row are within what one may do, because translation is idempotent. |
| `Engine.ScanSettled` | userscript/a-translator.user.js:194-204 | After a scan every visited element is its own translation, every visited text node shows the translation of its original, and every node it marked is one of those. |
| `Engine.HandledKept` | userscript/a-translator.user.js:240-250 | A record once handled stays handled whatever the callback does afterwards. |
| `Engine.BatchStep` | userscript/a-translator.user.js:240-250 | Handling one more record keeps the earlier ones handled. A text record skipped because of a mark set earlier in the batch is settled all the same. |
| `Engine.Core.constructor` | userscript/a-translator.user.js:31-42 | The initial `core`: enabled, empty caches, no observer, nothing pending. |
| `Engine.Core.LoadEnabledFromStorage` | userscript/a-translator.user.js:44-56 | `enabled` becomes true for an absent flag, and otherwise true exactly for `"1"` or `"true"`. |
| `Engine.Core.SaveEnabledToStorage` | userscript/a-translator.user.js:58-62 | The flag stored is `"1"` or `"0"`. |
| `Engine.Core.LoadDictFromStorage` | userscript/a-translator.user.js:107-122 | The live dictionary becomes the load-path map of the stored object, and the returned count is its size. |
| `Engine.Core.ApplyTranslations` | userscript/a-translator.user.js:389-393 | Both stored entries are reloaded and a reapply is pending. |
| `Engine.Core.SetText` | userscript/a-translator.user.js:132-137 | A node is written and marked only when its value changes. An equal value leaves node and marks unchanged. |
| `Engine.Core.ClearMark` | userscript/a-translator.user.js:136 | The microtask removes the node's self-write mark. |
| `Engine.Core.TranslateTextNode` | userscript/a-translator.user.js:139-153 | The first call records the live value as the original. Every call shows the translation of the original, or the original on a miss, and marks the node if it changed. |
| `Engine.Core.RestoreTextNode` | userscript/a-translator.user.js:155-158 | A node with a recorded original shows it again. Any other node is left alone. |
| `Engine.Core.TranslateAttributes` | userscript/a-translator.user.js:165-182 | The element becomes `TranslateElem` of itself. It joins `touchedEls` when an original is stashed now. |
| `Engine.Core.RestoreAttributes` | userscript/a-translator.user.js:184-192 | The element becomes `RestoreElem` of itself. |
| `Engine.Core.ScanTranslate` | userscript/a-translator.user.js:194-204 | When disabled, nothing changes. Otherwise every element of the subtree is translated, then every text node in document order, and new originals join the touched sequences. |
| `Engine.Core.ApplyTouched` | userscript/a-translator.user.js:206-221 | Every touched node shows its translation when enabled with a non-empty dictionary, and its original otherwise. Nothing else changes and the guard is released. |
| `Engine.Core.ScheduleApplyTouched` | userscript/a-translator.user.js:223-231 | A reapply is pending afterwards, and never more than one. |
| `Engine.Core.RunScheduledApply` | userscript/a-translator.user.js:227-230 | The flag is cleared before `applyTouched` runs, so a later request queues a new run. |
| `Engine.Core.EnsureObserver` | userscript/a-translator.user.js:233-258 | The observer is connected once enabled and a body exists, and stays connected. |
| `Engine.Core.Disable` | userscript/a-translator.user.js:72-88 | The flag `"0"` is stored and the observer is detached. Every touched node shows its original and the guard is released. |
| `Engine.Core.Enable` | userscript/a-translator.user.js:90-105 | The flag `"1"` is stored, the dictionary is reloaded and the observer connected. A scan is queued when the dictionary is non-empty and a body exists; otherwise a reapply is pending. |
| `Engine.Core.SetEnabled` | userscript/a-translator.user.js:64-105 | A no-op when `!!v` is the current state. Enabling stores `"1"`, reloads the dictionary, connects the observer, leaves the page and marks alone, and queues a scan (non-empty dictionary and a body) or else a reapply. Disabling stores `"0"`, detaches the observer and shows every touched node as its original. Returns the new state `!!v`. |
| `Engine.Core.RunScheduledScan` | userscript/a-translator.user.js:98-101 | The timer scans the body only if the engine is still enabled. |
| `Engine.Core.HandleMutation` | userscript/a-translator.user.js:242-250 | A text change on a node the engine just wrote changes nothing. Any other text change on an existing node leaves it showing the translation of its original. Every element and text node of every added subtree is left translated. Every node marked meanwhile is translated. |
| `Engine.Core.OnMutations` | userscript/a-translator.user.js:237-251 | The batch is ignored when disabled, while applying or with an empty dictionary. Otherwise every record is handled as `HandleMutation` says, measured against the state before the batch, and the batch only adds originals and translations. |
| `Editor.CleanEntries` | userscript/a-translator.user.js:432-438 | The loop builds exactly the cleaned object. |
| `Editor.CountAdded` | userscript/a-translator.user.js:442-446 | The loop counts the cleaned keys that the stored object lacks. |
| `Editor.ImportDictFromJsonText` | userscript/a-translator.user.js:416-458 | On failure the store and the engine are unchanged. On success the store takes the merged or replacing object, the engine reloads the dictionary and the enabled flag, and a reapply is pending. |
| `Editor.ParseEditorLine` | userscript/a-translator.user.js:1033-1043 | One line gives the pair that the save handler assigns, if any. |
| `Editor.ParseEditorText` | userscript/a-translator.user.js:1031-1044 | The loop builds exactly the saved object. |
| `Editor.SaveEditorText` | userscript/a-translator.user.js:1027-1047 | The save button stores the parsed object, the engine reloads the dictionary and the enabled flag, and a reapply is pending. |
| `Editor.IsEntryLine` | userscript/a-translator.user.js:892-903 | One line counts when it has a non-empty key and translation around its first `=`. |
| `Editor.CountEntries` | userscript/a-translator.user.js:891-904 | The loop counts the entry lines of the editor text. |

## Left out

- `localStorage`, `JSON.parse` and `JSON.stringify` are not modelled. The store holds the parsed object (None when absent or unparseable, both read as `{}`). An import receives what `JSON.parse` made of the text.
- A stored dictionary that parses to something other than an object (an array, a string or `null`) is not modelled. `Object.entries` on it is read as no entries.
- The real `MutationObserver`, `setTimeout` and `queueMicrotask` are not modelled. Callbacks are explicit steps that the environment calls, and no ordering of the task queue is modelled.
- The `isApplying` guard of the observer callback is modelled, but it never fires in the model. `applyTouched` and `disable` run to completion between two steps, so the guard is always released when a batch arrives.
- `WeakMap` and `WeakSet` are ordinary maps and sets. Garbage collection is not modelled.
- DOM traversal (`querySelectorAll`, `TreeWalker`) is a given sequence of elements and text nodes in document order, so the model does not check that it matches a real tree.
- `toLowerCase` and `toUpperCase` are ASCII only. Unicode case mapping is not modelled.
- `uninstall`, the `window.__AlchemyTranslateCore__` singleton lookup, `exportDict`, reading a file, and all editor and button UI are not modelled. They are environment effects and presentation.
- `console` logging on the import path is not modelled.
- Comments and other non-text character-data nodes are not told apart from text nodes. A `characterData` record on a comment under the body is handled as one on a text node (its target is a `TextNode` identity), which is what the callback does with it; only the scan's tree walker skips them.
- The editor's search filter is not modelled. With a filter active, the save button parses the full text while the counter counts the filtered view, so the bound of `Dictionary.CountedBound` holds only when both read the same text.
- `Json.Set`: JavaScript lists integer-like keys (`"1"`, `"42"`) first, in ascending order, before the other keys in insertion order. The model keeps insertion order for every key, so the order of keys (not their set or values) differs for such keys.
- `Engine.Core.TranslateTextNode` inserts the translation literally, as the corrected `translateString` of the Findings table does. The code's `replace` expands `$` patterns in it.
- `Engine.Core.TranslateAttributes` inserts the translation literally as well, for the same reason.

## Findings

| source | as written | input that shows it | evidently intended | confidence | as-written member | corrected member |
|---|---|---|---|---|---|---|
| userscript/a-translator.user.js:129 | `s.replace(trimmed, t)` reads the translation `t` as a substitution template, so `$$`, `$&`, `` $` `` and `$'` in it are expanded | dictionary `{"price": "Prix $$"}` and text `Price`: the page shows `Prix $` | the stored translation inserted literally, here `Prix $$` | not executed; medium | `Translator.DollarInTranslationCounterexample` | `Translator.TranslateStringSpec` |
