# Headless select controller in Dafny

This project models `useHeadlessSelect`, a headless select-widget controller. The controller keeps four
state cells:

- `isOpen`: whether the option list is shown;
- `search`: the text typed into the search input;
- `selectedItem`: the committed choice, or none;
- `highlightedIndex`: the keyboard or pointer candidate in the filtered list, with -1 meaning no highlight.

`filteredItems` is derived from these cells. It holds the items whose lower-cased `itemToString`
contains the lower-cased search text, in their original order.

The transitions are `open`, `close`, `toggle`, `selectItem` and `setSearch`. An option's mouse-enter
handler sets the highlight. The search input's key handler handles ArrowDown, ArrowUp,
Enter and Escape. The prop getters return attribute records.

Modules:

- `Wrappers`: `Option`, which stands for `T | null` (and for `undefined`, see below).
- `Text`: ASCII lower-casing and the substring test `includes`. `ContainsIff` proves the
  substring test equal to a reference definition by offsets.
- `Filtering`: `Filter`, which is `filteredItems`. Its lemmas show that it keeps exactly the
  matching items, with their multiplicities, as a subsequence. `FilterUnique` proves that these
  facts determine the result. Other lemmas cover the empty search, case-insensitivity,
  idempotence and narrowing.
- `SelectMachine`: the four cells as a `State` value, each transition as a pure function, and
  the key policy `KeyDown`. Lemmas cover runs of key presses and the two invariants a select
  widget is expected to keep. `HighlightInRange`: the highlight is -1 or an index of the
  filtered list. `ClosedUnhighlighted`: a closed list has no highlight.
- `HeadlessSelect`: the class `SelectController`. It has the four cells plus `items` and
  `itemToString` as fields. Each transition method is proved to perform the matching
  `SelectMachine` step on its fields, and to leave `items` and `itemToString` alone.
- `Samples`: the sample list of `index.ts` and scenarios over it.

The model follows the code as written, including five places where it is weaker than one might
expect:

- `toggle` only flips `isOpen`. Closing by toggle keeps the highlight, so `ClosedUnhighlighted` fails
  (`ToggleClosedKeepsHighlight`).
- `setSearch` writes only `search`. A highlight can be stranded past the end of the new, shorter
  filtered list (`SearchStrandsHighlight`).
- ArrowUp computes `max(i - 1, 0)`. On an empty list, from an index of at most 1, it highlights
  index 0, which does not exist (`ArrowUpOnEmptyList`); a stale index `i >= 2` goes to `i - 1`.
  It clamps only from below. From more than one past the end, one press still leaves the
  highlight out of range (`ArrowUpKeepsStaleHighlight`). From exactly one past the end of a
  non-empty list, one press brings it back (`ArrowUpRecoversFromEnd`). On a non-empty list,
  enough presses reach index 0 (`ArrowUpPresses`); on an empty list no number of presses brings
  the highlight into range. Navigation keeps the index in `[-1, length - 1]` only over a
  non-empty filtered list (`RunKeepsHighlightInRange`).
- ArrowDown computes `min(i + 1, length - 1)`. On an empty list it sends every index `>= -2` to
  -1, so -1 stays -1.
- Enter checks only `highlightedIndex >= 0` before reading
  `filteredItems[highlightedIndex]`. When the index is past the end, JavaScript reads
  `undefined` and `selectItem(undefined)` runs. The model chooses a guard: that case
  commits `None` (no selection) and closes with highlight -1. It does not use a precondition
  (`KeyDown`, `SelectController.OnKeyDown`).

## Model

| member | source | states |
|---|---|---|
| `Text.LowerChar` | useHeadlessSelect.ts:43-44 | the result is never an ASCII capital; capitals move 32 code points up, to their small letter, everything else is unchanged |
| `Text.Lower` | useHeadlessSelect.ts:43-44 | same length as the input, each position holds `LowerChar` of the input's character, and no ASCII capital is left |
| `Text.LowerIdempotent` | useHeadlessSelect.ts:44 | lower-casing twice is the same as once |
| `Text.LowerConcat` | useHeadlessSelect.ts:44 | lower-casing distributes over concatenation |
| `Text.Contains` | useHeadlessSelect.ts:44 | `includes`: true when the needle is a prefix of the haystack, and only when the needle is no longer than the haystack; `ContainsIff` ties it to the offset definition |
| `Text.ContainsIff` | useHeadlessSelect.ts:44 | `includes` is true exactly when some offset of the haystack holds the needle |
| `Text.MissingCharNotContained` | useHeadlessSelect.ts:44 | a needle with a character the haystack lacks is not included |
| `Text.EmptyIsContained` | useHeadlessSelect.ts:44 | the empty string is included in every string |
| `Text.ContainsPrefixOfNeedle` | useHeadlessSelect.ts:44 | a string that includes `a + b` includes `a` |
| `Filtering.Matches` | useHeadlessSelect.ts:42-44 | the filter callback holds exactly when some offset of the lower-cased projection holds the lower-cased search text |
| `Filtering.Filter` | useHeadlessSelect.ts:40-46 | never longer than `items`; every kept item is an item of `items` and passes the case-insensitive substring test |
| `Filtering.FilterKeepsMatches` | useHeadlessSelect.ts:41-45 | an item is in the filtered list exactly when it is in `items` and passes the test (both directions) |
| `Filtering.FilterCount` | useHeadlessSelect.ts:41-45 | a matching value occurs as often as in `items`; a non-matching one never occurs |
| `Filtering.FilterIsSubsequence` | useHeadlessSelect.ts:41 | the filtered list is a subsequence of `items`: the kept items stay in their original relative order |
| `Filtering.FilterUnique` | useHeadlessSelect.ts:40-46 | any subsequence of `items` with the multiplicities of `FilterCount` equals the filtered list |
| `Filtering.FilterEmptySearch` | useHeadlessSelect.ts:41-45 | with search `""` the filtered list is `items` unchanged |
| `Filtering.FilterIgnoresSearchCase` | useHeadlessSelect.ts:44 | lower-casing the search text first gives the same filtered list |
| `Filtering.FilterIdempotent` | useHeadlessSelect.ts:41-45 | filtering the filtered list again with the same search changes nothing |
| `Filtering.FilterNarrows` | useHeadlessSelect.ts:40-46 | extending the search text gives a subsequence of the previous filtered list |
| `Filtering.FilterSingleMatch` | useHeadlessSelect.ts:41-45 | a list in which exactly one item passes the test filters down to that item alone |
| `Filtering.FilterNoMatch` | useHeadlessSelect.ts:41-45 | a list in which no item passes the test filters down to the empty list |
| `Filtering.FilterConcat` | useHeadlessSelect.ts:41 | filtering distributes over concatenation of item lists |
| `Samples.SampleSearchAn` | index.ts:2-6 | on the sample list with the identity projection, search "an" leaves exactly `["Banana"]` |
| `SelectMachine.Initial` | useHeadlessSelect.ts:35-38 | the first state is closed, with empty search, highlight -1 and the initial selection |
| `SelectMachine.Opened` | useHeadlessSelect.ts:48 | `open` sets `isOpen` and leaves search, selection and highlight unchanged |
| `SelectMachine.Closed` | useHeadlessSelect.ts:49-52 | `close` clears `isOpen`, sets highlight -1 (so `ClosedUnhighlighted` holds), and keeps search and selection |
| `SelectMachine.Toggled` | useHeadlessSelect.ts:53 | `toggle` flips `isOpen` and changes nothing else, not even the highlight |
| `SelectMachine.Committed` | useHeadlessSelect.ts:55-58 | `selectItem` records the item, closes, sets highlight -1 and keeps the search |
| `SelectMachine.WithSearch` | useHeadlessSelect.ts:36 | `setSearch` writes the search text only; open flag, selection and highlight are unchanged |
| `SelectMachine.Hovered` | useHeadlessSelect.ts:110 | mouse-enter sets the highlight to the given index, unchecked, and nothing else |
| `SelectMachine.ArrowDownIndex` | useHeadlessSelect.ts:66-68 | the new index is one further but never past `length - 1`; on an empty list it is -1; from `>= -1` on a non-empty list it is a valid index |
| `SelectMachine.ArrowUpIndex` | useHeadlessSelect.ts:73 | the new index is one back and never below 0, even from -1 |
| `SelectMachine.KeyDown` | useHeadlessSelect.ts:60-86 | closed: nothing changes; `preventDefault` exactly for ArrowDown/ArrowUp while open; other keys: nothing changes; Escape acts as `close`; arrows move only the highlight; Enter: no-op at highlight < 0, commits the highlighted filtered item when in range, commits none and closes when past the end |
| `SelectMachine.ToggleTwice` | useHeadlessSelect.ts:53 | toggling twice restores the state exactly |
| `SelectMachine.ToggleClosedKeepsHighlight` | useHeadlessSelect.ts:53 | toggling an open, highlighted list shut leaves a closed list with a highlight (`ClosedUnhighlighted` fails) |
| `SelectMachine.KeyDownKeepsClosedUnhighlighted` | useHeadlessSelect.ts:60-86 | every key press keeps `ClosedUnhighlighted` |
| `SelectMachine.KeyDownKeepsHighlightInRange` | useHeadlessSelect.ts:60-86 | over a non-empty filtered list every key press keeps `HighlightInRange` |
| `SelectMachine.ArrowUpOnEmptyList` | useHeadlessSelect.ts:71-74 | ArrowUp on an open empty list from index at most 1 gives 0, which breaks `HighlightInRange` |
| `SelectMachine.ArrowUpKeepsStaleHighlight` | useHeadlessSelect.ts:71-74 | one ArrowUp from an index more than one past the end only decrements it, and the result is still out of range |
| `SelectMachine.ArrowUpRecoversFromEnd` | useHeadlessSelect.ts:71-74 | one ArrowUp from exactly one past the end of a non-empty list lands on the last item |
| `SelectMachine.RunKeepsClosedUnhighlighted` | useHeadlessSelect.ts:60-86 | any sequence of key presses over any filtered list keeps `ClosedUnhighlighted` |
| `SelectMachine.RunKeepsHighlightInRange` | useHeadlessSelect.ts:60-86 | any sequence of key presses over a non-empty filtered list keeps `HighlightInRange` |
| `SelectMachine.ArrowDownPresses` | useHeadlessSelect.ts:64-68 | `n > 0` ArrowDown presses on an open list give `min(i + n, length - 1)` and change nothing else |
| `SelectMachine.ArrowDownPressesFromNone` | useHeadlessSelect.ts:64-68 | from no highlight, `n` ArrowDown presses give `min(n, length) - 1` |
| `SelectMachine.ArrowUpPresses` | useHeadlessSelect.ts:71-74 | `n > 0` ArrowUp presses on an open list give `max(i - n, 0)` and change nothing else |
| `HeadlessSelect.SelectController.constructor` | useHeadlessSelect.ts:26-38 | stores `items` and `itemToString` and starts in `Initial(initialSelectedItem)` |
| `HeadlessSelect.SelectController.FilteredItems` | useHeadlessSelect.ts:40-46 | `filteredItems` is `Filter` of the current `items`, `itemToString` and search (so `FilterKeepsMatches` and `FilterUnique` apply), a subsequence of `items` no longer than it, holding only matching items, and equal to `items` under the empty search |
| `HeadlessSelect.SelectController.Rerender` | useHeadlessSelect.ts:26-33 | a later hook call replaces `items` and `itemToString` and keeps all four state cells |
| `HeadlessSelect.SelectController.Open` | useHeadlessSelect.ts:48 | the new state is `Opened` of the old one; `items` and `itemToString` are unchanged |
| `HeadlessSelect.SelectController.Close` | useHeadlessSelect.ts:49-52 | the new state is `Closed` of the old one; `items` and `itemToString` are unchanged |
| `HeadlessSelect.SelectController.Toggle` | useHeadlessSelect.ts:53 | the new state is `Toggled` of the old one; `items` and `itemToString` are unchanged |
| `HeadlessSelect.SelectController.SelectItem` | useHeadlessSelect.ts:55-58 | the new state is `Committed(old, Some(item))`; `items` and `itemToString` are unchanged |
| `HeadlessSelect.SelectController.SetSearch` | useHeadlessSelect.ts:96-97 | the new state is `WithSearch(old, value)`, and `filteredItems` is now the filter under `value` |
| `HeadlessSelect.SelectController.MouseEnterOption` | useHeadlessSelect.ts:110 | the new state is `Hovered(old, index)`; `items` and `itemToString` are unchanged |
| `HeadlessSelect.SelectController.OnKeyDown` | useHeadlessSelect.ts:60-86 | the new state and the returned `preventDefault` flag are exactly `KeyDown` of the old state and the old filtered list |
| `HeadlessSelect.SelectController.GetTriggerProps` | useHeadlessSelect.ts:88-92 | `aria-expanded` equals `isOpen`; `aria-haspopup` is `"listbox"` |
| `HeadlessSelect.SelectController.GetInputProps` | useHeadlessSelect.ts:94-100 | `value` is the current search text; `aria-autocomplete` is `"list"` |
| `HeadlessSelect.SelectController.GetListboxProps` | useHeadlessSelect.ts:102-104 | the role is `"listbox"` |
| `HeadlessSelect.SelectController.GetOptionProps` | useHeadlessSelect.ts:106-112 | role `"option"`, key is the index, and `aria-selected` is true exactly when the item is the selection |
| `HeadlessSelect.EnterCommitsListedItem` | useHeadlessSelect.ts:76-80 | Enter on an in-range highlight selects an item of `items` that passes the filter, and closes with highlight -1 |
| `Samples.SearchStrandsHighlight` | useHeadlessSelect.ts:76-80 | on the sample list, highlight 4 is valid under search `""`; after `setSearch("an")` it is not, and Enter then selects none and closes |

## Left out

- React hook machinery is left out: `useState`, `useMemo`, `useCallback` and their dependency arrays. Each event is one sequential step on the object's fields.
- The closure `selectItem` captures at the first render behaves the same, because the state setters never change identity.
- DOM and React events are left out. `e.key` is the `Key` datatype, with every unrecognised key as `Other`. `e.preventDefault()` is the boolean `OnKeyDown` returns. `e.target.value` is the argument of `SetSearch`.
- Prop records hold only their plain attributes. Their handlers are the controller's methods. The trigger's `onClick` is `Toggle`, the input's `onChange` is `SetSearch`, and its `onKeyDown` is `OnKeyDown`. An option's `onMouseEnter` is `MouseEnterOption` and its `onClick` is `SelectItem`.
- The default projection `String(item)` is not modelled. `itemToString` is always an explicit function argument.
- `toLowerCase` is modelled on ASCII letters only. Other characters are left as they are, with no Unicode case mapping.
- `Text.Lower`: agrees with `toLowerCase` only on ASCII input, because full Unicode case mapping is out of scope.
- `None` stands for both `null` (no selection, the default initial selection) and `undefined` (what a stale Enter stores). JavaScript can tell the two apart with `selectedItem === null`; the model cannot.
- JavaScript's `===` on items is modelled as Dafny value equality. Two distinct objects with equal contents count as the same item here.
- Indices are unbounded integers. JavaScript numbers are doubles, which is irrelevant at list sizes.
- `examples/countryselect.tsx` is a rendering-only consumer and is not modelled.
- `index.ts` contributes only its sample item list, used in `SampleSearchAn`, `SearchStrandsHighlight` and `SampleSession`.
