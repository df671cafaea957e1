# web-auto-filler, modelled in Dafny

web-auto-filler is a browser extension that fills in and selects form fields
automatically. The user keeps, per web site, a list of rules. A rule has a
name, an enabled flag and a trigger mode (automatic or manual). It also has a
list of conditions ("the element found by this locator equals / does not
equal / contains this target") and a list of actions ("write this value into
the element found by this locator").

The content script runs in every page. It evaluates the automatic rules once
when it starts, and again 500 ms after the last change to the page (a
debounce). It stops for good once the extension context has gone away. The
popup edits the rule list and a persisted draft of the rule being edited.

This project models the content script's rule engine and the popup's
list and draft editing:

- `JsStrings`: ECMAScript `trim` and `includes`.
- `Dom`: a page as a sequence of element records in document order. It covers locator
  resolution, reading an element's value, and the guarded write of
  `setElementValue` as functions. CSS and XPath engines are uninterpreted
  parameters.
- `Comparator`: `compareValues`.
- `Rules`: the rule records.
- `Evaluation`: the meaning of a condition, an action, a rule and a whole
  pass as functions over the page. The lemmas about passes live here.
- `PageModel`: the `Page` class, whose `dom` is updated in place by
  `SetElementValue` and `ProcessRule`. Every dispatched event is recorded in a
  ghost log. `SetElementValue` is proved to do what `Dom.AfterWrite` and
  `Dom.WriteEvents` say, and the other methods what `Evaluation` says.
- `Scheduler`: the observer, debounce timer and "context invalidated" flag as
  an abstract state machine with phases Idle, Pending and Invalidated.
- `ContentScript`: the `Monitor` class, which holds the rules and the
  scheduler state. Its methods are proved against `Evaluation.Pass` and
  `Scheduler.Step`.
- `Popup`: the `Editor` class. It holds the viewed site's rules and the draft,
  with the picker-result, copy, edit, save, delete and add operations.

A few JavaScript behaviours are kept on purpose:

- `getElementValue` returns a fresh record for a SELECT, so the strict `===`
  guard of `setElementValue` never skips a write to a SELECT. Every write to a
  SELECT dispatches a `change` event, even when nothing changes
  (`Dom.SelectWriteAlwaysSignals`). So "writing twice notifies once" holds
  only for non-SELECT elements (`Dom.TextWriteIdempotent`). A SELECT's state is
  idempotent but its notification is not (`Dom.SelectWriteIdempotent`). The
  model follows the code here: a repeated write to a SELECT is not silent.
- Text inputs and text areas dispatch `input` then `change`. A SELECT
  dispatches only `change`. Any other element dispatches nothing.
- A SELECT's `value` is derived from its options and its selected index, as
  in HTML. Assigning it selects the first option with that value, or none.

## Model

| member | source | states |
|---|---|---|
| JsStrings.Trim | content.js:115-117 | `String(x).trim()` leaves no leading or trailing white space |
| JsStrings.TrimIsSlice | content.js:115-117 | what `trim` keeps is the contiguous run of its input that starts right after the leading white space, and everything after that run is white space |
| JsStrings.TrimFixedPoints | content.js:115-117 | a string is its own trim exactly when it neither starts nor ends with white space |
| JsStrings.TrimIdempotent | content.js:115-117 | trimming twice is trimming once |
| JsStrings.IndexOf | content.js:120 | the search used by `includes` returns the first position at or after `from` where the target occurs, or none when it occurs nowhere there |
| JsStrings.IncludesIsSubstring | content.js:120 | `includes` holds exactly when the target occurs at some position |
| JsStrings.IncludesItself | content.js:118-120 | every string includes itself |
| Dom.FindFrom | content.js:83-85 | the lookup returns the first position at or after the start, in document order, whose element answers the query, or none when no later element does |
| Dom.Find | content.js:83-85 | `getElementById` and `querySelector` return the first answering element in document order, or none |
| Dom.JsString | content.js:115 | `String(v)`: a string converts to itself, any record to "[object Object]" |
| Dom.StrictEquals | content.js:134 | `===` between the freshly read value and the value to write: two values are strictly equal exactly when they are the same string, never when either is a record |
| Dom.QuerySelector | content.js:84-85 | a selector that parses finds the first element in document order that matches it, or nothing when none does; a selector that does not parse finds nothing |
| Dom.Locate | content.js:80-93 | a located element exists and was asked for with a non-empty value; an id lookup finds an element with that id; a plain name lookup finds an element with that name; an unknown locator type finds nothing |
| Dom.LocateByIdIsFirst | content.js:83 | the id strategy returns position i exactly when i is the first element in document order carrying the id (and the id is not empty) |
| Dom.LocateByNameIsFirst | content.js:84 | for a value that needs no quoting, the name strategy returns position i exactly when i is the first element in document order carrying that name (and the name is not empty) |
| Dom.LocateIsFailSoft | content.js:81-92 | a query that does not parse, or an id nobody carries, resolves to nothing instead of failing |
| Dom.Read | content.js:95-102 | a SELECT reads as a record of its value and its selected option's text (empty when none is selected); an INPUT or TEXTAREA reads its value; any other element reads its text |
| Dom.Unwrap | content.js:133 | a SELECT record is reduced to its value part; anything else is written as it is |
| Dom.FindOptionFrom | content.js:140-144 | the option scan returns the first option at or after the start that has the value (or strictly equal text) asked for, or none |
| Dom.IndexOfValue | content.js:140 | assigning a SELECT's value selects the first option with that value, or -1 when there is none |
| Dom.IndexOfText | content.js:142-144 | the fallback scan finds the first option whose text strictly equals the value, or none |
| Dom.SelectWritten | content.js:140-145 | a write to a SELECT changes only its selected index, which stays within its options or -1 |
| Dom.AfterWrite | content.js:132-149 | a write identical to the current value changes nothing; INPUT and TEXTAREA change only their value, SELECT only its selection, other elements only their text; a non-SELECT always reads back the written string |
| Dom.WriteEvents | content.js:134-148 | a write dispatches events only on its own element, none when identical to the current value, and none for an element other than INPUT, TEXTAREA or SELECT |
| Dom.TextWriteSignals | content.js:135-138 | an INPUT or TEXTAREA whose value differs from the one written dispatches `input` and then `change` on itself |
| Dom.SelectWriteAlwaysSignals | content.js:96-146 | for a SELECT the strict-equality guard never holds, so every write dispatches exactly one `change` event |
| Dom.TextWriteIdempotent | content.js:134-138 | writing the same string twice to a non-SELECT element leaves the state of the first write and dispatches nothing the second time |
| Dom.SelectWriteIdempotent | content.js:139-146 | writing the same value twice to a SELECT ends in the state of the first write |
| Dom.SelectWriteChoosesOption | content.js:140-145 | a write of s leaves selected the first option with value s, failing that (s not empty) the first option with text s, failing that nothing |
| Comparator.CheckSingle | content.js:115-122 | `checkSingle`: an unknown operator never holds; `contains` holds whenever the trimmed string is the target itself |
| Comparator.Compare | content.js:114-130 | `compareValues`: an unknown operator never holds; a SELECT record is `not_equals` only if its value differs (AND), and `equals`/`contains` as soon as its value matches (OR) |
| Comparator.ComparePlain | content.js:114-122 | on a plain value, `equals` is equality of the trimmed strings, `not_equals` its negation, `contains` a substring test, and an unknown operator false |
| Comparator.UnknownOperatorFails | content.js:121 | an unknown operator never holds, for plain and SELECT values alike |
| Comparator.NotEqualsNegatesEquals | content.js:118-128 | for every value, plain or SELECT, `not_equals` holds exactly when `equals` does not |
| Comparator.DualMatchesEitherPart | content.js:123-127 | a SELECT satisfies `equals` or `contains` exactly when its value or its caption does |
| Comparator.DualNotEqualsNeedsBothParts | content.js:123-126 | a SELECT satisfies `not_equals` exactly when neither its value nor its caption equals the target |
| Comparator.EqualsImpliesContains | content.js:118-128 | whatever equals a target also contains it |
| Comparator.CompareIgnoresPadding | content.js:115-117 | for a plain string value and a string target, surrounding white space on either side never changes the outcome |
| Comparator.SelectLabelExample | content.js:123-128 | a SELECT with value "v1" and caption "Label A" is not `not_equals "Label A"`, is `equals "Label A"` and `contains "Lab"` |
| Evaluation.TargetValue | content.js:104-112 | a target is never a SELECT record; a static or unspecified target is passed through as stored; a control reference yields a string: "" for a string or a reference that finds nothing, and for a found element the SELECT's plain value or the element's read value |
| Evaluation.ConditionHolds | content.js:55-60 | a condition whose element is not found fails; a found one holds exactly when the element's read value compares true against the target obtained on the same page |
| Evaluation.AllConditionsHold | content.js:54-63 | the conditions tested in order: a failing first condition fails the rule, and when the rule holds every condition found its element |
| Evaluation.AllConditionsHoldEach | content.js:54-63 | the in-order test that stops at the first failing condition holds exactly when every condition holds |
| Evaluation.UnresolvedConditionFailsRule | content.js:56-57 | a condition whose element is missing fails the whole rule |
| Evaluation.RunAction | content.js:67-71 | an action whose element is missing changes nothing; a found element becomes what `Dom.AfterWrite` makes of it with the value `getTargetValue` yields at that moment, with the events of `Dom.WriteEvents`, and no other element changes |
| Evaluation.RunActions | content.js:66-72 | actions in order keep the page's length and every element's shape, and dispatch events only on existing elements |
| Evaluation.RunActionsAppend | content.js:66-72 | running two lists of actions one after the other is running their concatenation, with the second list's events after the first's |
| Evaluation.RuleEffect | content.js:64-77 | a rule whose conditions do not all hold changes nothing and dispatches nothing; one whose conditions all hold runs exactly its actions, in order |
| Evaluation.WrittenValueMatches | content.js:132-145 | after a string is written to an element, an `equals` condition on that string holds there, for a SELECT when some option carries it as value or label |
| Evaluation.Eligible | content.js:34-35 | a disabled rule never takes part in a pass and an enabled automatic one always does; an unforced pass skips every manual rule; a forced pass takes exactly the enabled rules |
| Evaluation.Pass | content.js:32-37 | a pass keeps the rule list's and the page's length and counts at most one match per rule |
| Evaluation.PassOnlySetsLastMatched | content.js:33-36 | a pass changes no rule other than through `lastMatched`, and leaves disabled and skipped manual rules untouched |
| Evaluation.PassCountsMatches | content.js:32-36 | the count is the number of eligible rules that came out matched |
| Evaluation.PassPrefix | content.js:33 | the rules are evaluated in list order: the outcome for the first j rules does not depend on the later ones |
| Evaluation.PassEvaluatesInOrder | content.js:33-36 | each eligible rule, manual ones included in a forced pass, is judged on the page as the earlier rules left it |
| Evaluation.PassWithoutEligibleRules | content.js:34-35 | a pass with no enabled rule (or only manual ones, unforced) counts 0 and changes nothing |
| Evaluation.ZipConditionForUS | content.js:55-60 | with "US" selected, `equals "US"` on the country holds |
| Evaluation.CanadaIsNotUS | content.js:123-127 | a SELECT showing value "CA" and caption "Canada" is not `equals "US"` |
| Evaluation.ZipConditionForCA | content.js:55-60 | with "CA" selected, `equals "US"` on the country fails |
| Evaluation.ZipActionForUS | content.js:67-71 | the static "00000" action writes the zip INPUT and dispatches `input` then `change` on it |
| Evaluation.ZipRuleFiresForUS | content.js:53-73 | with "US" selected, an `equals "US"` rule on the country fills the zip field and dispatches `input` then `change` on it |
| Evaluation.ZipRuleIdleForCA | content.js:54-63 | with "CA" selected the same rule does not match and changes nothing |
| PageModel.Page.SetElementValue | content.js:132-150 | the element becomes `AfterWrite` of its old state, no other element changes, and the `WriteEvents` are appended to the event log |
| PageModel.Page.PerformAction | content.js:67-71 | one action writes exactly what `RunAction` says, or nothing when its element is missing, and logs its events |
| PageModel.Page.RunActionList | content.js:66-72 | the actions run in order, each on the page the previous ones left, with exactly the writes and events of `RunActions` |
| PageModel.Page.EvaluateCondition | content.js:55-60 | one condition holds exactly when its element is found and its read value compares true against the target obtained now |
| PageModel.Page.CheckConditions | content.js:54-63 | the loop that stops at the first failing condition reports whether all conditions hold |
| PageModel.Page.ProcessRule | content.js:53-78 | the result is whether all conditions hold; `lastMatched` is set to the result; the page changes by the actions, as `RuleEffect` says, exactly when matched |
| ContentScript.Monitor.EvaluateOne | content.js:33-36 | one turn of the loop passes over an ineligible rule and processes an eligible one, so that the pass now covers one more rule |
| ContentScript.Monitor.EvaluateRules | content.js:32-37 | the count, the rules with their new `lastMatched`, the page and the events are exactly those of `Pass` |
| ContentScript.Monitor.CheckAndExecuteAll | content.js:30-51 | once invalidated nothing happens and 0 is returned; otherwise a `Pass` runs, one report is made, and a report lost to an invalidated context latches the invalidated state and disconnects the observer |
| ContentScript.Monitor.StartMonitoring | content.js:18-28 | unless invalidated, an automatic pass runs, exactly as `Pass` says, with one report when delivered, and the observer is connected, as `Step` with `Start` prescribes; once invalidated nothing changes |
| ContentScript.Monitor.Init | content.js:6-16 | rules found in storage replace the list and monitoring starts, with the pass and the report of `StartMonitoring`; nothing at all changes when none are found |
| ContentScript.Monitor.OnMutation | content.js:22-26 | a mutation re-arms the single timer, or disconnects the observer once invalidated, as `Step` with `Mutation` prescribes |
| ContentScript.Monitor.OnTimerFires | content.js:25 | the timer firing runs one automatic pass, exactly as `Pass` says, with one report when delivered, as `Step` with `TimerFires` prescribes; once invalidated the rules, page, log and reports stay as they were |
| Scheduler.AfterPass | content.js:38-48 | a pass keeps the timer; it invalidates exactly when the report met an invalidated context, and then the observer is disconnected; any other outcome leaves the state as it was |
| Scheduler.Step | content.js:18-51 | a pass runs only in a valid context; invalidation is never undone; a mutation never runs a pass |
| Scheduler.MutationMakesPending | content.js:22-26 | Idle or Pending goes to Pending on a mutation seen by the observer, and no pass runs |
| Scheduler.TimerEndsPending | content.js:24-25 | Pending goes to Idle on the timer firing, or to Invalidated when the report met an invalidated context, and exactly that pass runs |
| Scheduler.InvalidatedAbsorbs | content.js:19-31 | Invalidated stays Invalidated under every signal, and no pass runs |
| Scheduler.Run | content.js:18-28 | a trace of signals runs at most one pass per signal |
| Scheduler.RunAppend | content.js:18-28 | running two traces in a row is running their concatenation |
| Scheduler.MutationsOnlyArm | content.js:24-25 | while observing, any number of mutations runs no pass and only arms the timer |
| Scheduler.MutationsCoalesce | content.js:24-25 | a burst of mutations followed by the timer firing runs exactly one pass |
| Scheduler.InvalidatedIsTerminal | content.js:19-31 | once invalidated, no later signal runs a pass or clears the flag |
| Scheduler.InvalidatedStopsObserving | content.js:23 | once invalidated, the observer is disconnected after the next mutation at the latest |
| Scheduler.InvalidatedStaysDisconnected | content.js:19-23 | once invalidated and disconnected, the observer is never reconnected |
| Popup.CopyOf | popup.js:155-157 | the copy is the same rule with " (Copy)" appended to its name and `lastMatched` false |
| Popup.FromForm | popup.js:317-321 | the name, enabled flag and trigger mode come from the form, and the conditions, actions and `lastMatched` are kept |
| Popup.Splice | popup.js:352 | `splice(i, 1)` with i in range removes exactly element i and keeps the order of the rest; past the end it removes nothing; a negative start counts from the end |
| Popup.SpliceRemovesOne | popup.js:352 | the removal takes away exactly one occurrence of the removed rule and keeps every other rule |
| Popup.DeleteUndoesCopy | popup.js:154-158 | deleting the copy just appended gives back the list as it was before copying |
| Popup.Editor.ApplyPickerResult | popup.js:323-331 | without a pending request nothing changes; otherwise only the requested condition's locator, action's locator or action's value becomes the picked locator, and the request is cleared; a row index past its list leaves the draft as it was |
| Popup.Editor.CopyRule | popup.js:154-160 | the list grows by exactly one, the copy of the rule, and every earlier rule is unchanged |
| Popup.Editor.StartEdit | popup.js:173-183 | the draft is for the viewed site, new exactly when the index is -1, and starts from a new rule (enabled, automatic, no conditions or actions) or from the indexed rule, with no picker request |
| Popup.Editor.SaveFinalRule | popup.js:336-341 | the rule with the form's fields is appended when new, and otherwise replaces the rule at the draft's index, leaving the length and every other rule unchanged; the draft is closed |
| Popup.Editor.DeleteRule | popup.js:350-356 | a confirmed deletion of an existing rule removes exactly the element at the draft's index and keeps the order of the rest; a new draft is only closed; an unconfirmed deletion changes nothing |
| Popup.Editor.AddCondition | popup.js:358-362 | the form's fields are taken in and exactly one condition is appended: an empty locator, `equals`, an empty target |
| Popup.Editor.AddAction | popup.js:364-368 | the form's fields are taken in and exactly one action is appended: an empty locator and an empty static value |

## Left out

- Storage and messaging through `chrome.storage`, `chrome.runtime` and `chrome.tabs`
  are foreign asynchronous I/O and are not modelled. This covers the badge message,
  `storage.local.set` of the rules, `loadRules`, `saveCurrentRules`, `runRule` and
  `runAllRules`. Reporting a pass is an outcome parameter: delivered, lost to an
  invalidated context, or failed otherwise. The stored rules are an optional
  parameter of `Init`.
- The messages `executeAllRules` and `executeSpecificRule` are direct calls to
  `CheckAndExecuteAll` with `forceRun` set and to `Page.ProcessRule`. Their
  replies are not modelled.
- The `MutationObserver` and the timer are a state machine without time. The
  500 ms delay is not modelled. A timer that fires is one that saw no further
  mutation.
- Real CSS-selector and XPath engines belong to the browser. They are parameters:
  whether a query parses, and which elements match. A name lookup whose value
  needs no quoting is resolved as "first element with that name". A value with
  a quote, a backslash, a line break or a NUL (which the CSS parser reads as
  U+FFFD) goes to the uninterpreted selector engine like any other selector.
- The page is a flat sequence of element records, not a tree, so the three lines below hold only for that flat page.
- Dom.Read: reads an element's own text. In the browser `innerText` also includes its descendants' text (content.js:101).
- Dom.AfterWrite: changes only the written record. In the browser writing `innerText` replaces the element's children (content.js:148), which removes elements from the page.
- Evaluation.RunActions: keeps the number of elements and each element's tag and options, like `Evaluation.RunAction`. With a tree this fails for a write to a non-form element that has children.
- Rules are typed records: every rule has a list of conditions and a list of
  actions, and every operand is a string or a locator. The source stores any
  imported JSON array as a site's rules (popup.js:387 checks only that it is an
  array), and a malformed stored rule makes it throw in the middle of a pass.
  The four lines below hold only for well-formed rules.
- Evaluation.AllConditionsHold: a stored rule without a `conditions` array throws at content.js:55 instead of failing.
- Evaluation.RunActions: a matched rule without an `actions` array throws at content.js:66, and an action whose value is `null` throws at content.js:133.
- Dom.AfterWrite: a `null` value to write is not representable; the source throws reading `null.isSelect` (content.js:133).
- ContentScript.Monitor.EvaluateRules: a throw from a malformed rule aborts `checkAndExecuteAll` before the report (content.js:38), leaving the earlier rules' writes done and unreported; on the first run it also aborts `startMonitoring` before the observer is created (content.js:21-27). The model always completes the pass.
- Strings are sequences of Unicode scalar values. JavaScript strings are UTF-16
  code units and can hold an unpaired surrogate (from a page's input, say),
  which the model cannot represent; `trim`, `includes` and `===` treat such a
  code unit like any other non-space character.
- Page scripts that listen to the dispatched `input` and `change` events run
  outside this code. The model assumes they do not change the page.
- The browser's sanitisation of values assigned to inputs and its rendering of
  `innerText` are not modelled. The written string is read back as written.
- The element picker UI and `generateSelector` (content.js:152-216), and
  background.js (badge text) are not modelled. The picker's result enters the
  model as the locator given to `ApplyPickerResult`.
- The popup's rendering, view switching, per-row editing handlers (popup.js:201-304),
  domain list and JSON import and export are not modelled.
- The JSON deep copy of a rule is the identity on rule records. A rule stored
  without `lastMatched` reads it as false.
- Popup.Editor.CopyRule: requires an index within the list, which is where the rendered buttons point. Out of range, the JavaScript throws.
- Popup.Editor.StartEdit: requires -1 or an index within the list, the only values the buttons pass.
- Popup.Editor.SaveFinalRule: requires an existing draft's index to lie within the list. An index past the end of a reloaded list would make JavaScript grow the array with holes, and that case is not modelled.
