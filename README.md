# CustomAutocomplete, modelled in Dafny

`autocomplete.js` defines one widget, `CustomAutocomplete`. It is bound to a text input.
It keeps a fixed list of candidate strings. On every keystroke it shows, in a panel under
the input, the candidates whose lower-cased text contains the lower-cased input. The user
picks a row with the arrow keys and Enter, or with the mouse.

This project models the state machine under the DOM code:

- `text_match.dfy` (module `TextMatch`): `toLowerCase`, restricted to ASCII letters, and
  `String.prototype.includes` as a left-to-right scan. It proves the scan equal to "occurs
  at some position".
- `suggestion_filter.dfy` (module `SuggestionFilter`): the filter of lines 63-65 as a
  function, with lemmas. The view is exactly the matching candidates in candidate order.
  Each string keeps its multiplicity. An empty input keeps everything. A new input whose
  lower-cased form contains the old lower-cased input only narrows the view. Under the
  model's ASCII lower-casing this covers characters appended at the end. Inserting a
  character inside the input can bring a row back.
- `widget_config.dfy` (module `WidgetConfig`): the options object and its merge over the
  defaults `showLabel = true` and `label = 'Suggestions'`.
- `autocomplete.dfy` (module `Autocomplete`): the class `CustomAutocomplete` with its state.
  The state is the candidate list, the rendered rows (each row's text and whether it is
  marked `active`/`aria-selected`), `activeIndex`, the panel's `show` class (`visible`) and
  the input's `value`. Each event handler is a method. The object invariant `Valid()` says
  four things:
  - `-1 <= activeIndex < |rows|`;
  - the panel is never visible with no rows;
  - `activeIndex` is -1 while the panel is hidden (a row's `active` mark can remain);
  - the rows are the filtered view of the last typed text (no rows before the first
    input event).
- `scenarios.dfy` (module `Scenarios`): client code that drives the widget through its
  contracts. It covers a short case-insensitive filter vector, an insertion that brings a
  row back, a focus / type / arrow /
  Enter / Escape session, and hiding twice.

Event handlers are methods called directly. An input event is `HandleInput(text)`, where
`text` is the input's new value. A key is the string of `KeyboardEvent.key`.
`HandleKeyDown` returns whether `preventDefault` was called.

Three behaviours of the code are easy to miss, and the model keeps them as written:

- Escape hides the panel but does not call `preventDefault` (lines 172-174). Only
  ArrowDown, ArrowUp and Enter do.
- `hideDropdown` resets `activeIndex` to -1 but does not re-apply the highlighting
  (lines 184-187). After Enter, a row click or Escape, a row can therefore stay marked
  while `activeIndex` is -1. The contracts of `RowClick`, `HandleKeyDown` and
  `HideDropdown` state the marks exactly as the code leaves them.
- Enter and a row click re-locate the committed text with `findIndex` (lines 131-133).
  With duplicate candidates, the row marked is the first row with that text, not the row
  that was chosen.

## Model

| member | source | states |
|---|---|---|
| `TextMatch.Lower` | autocomplete.js:59 | lower-casing keeps the length, maps each 'A'..'Z' to its lower-case letter, keeps every other character, and leaves no upper-case letter |
| `TextMatch.Contains` | autocomplete.js:64 | `includes` as a scan over start positions; it never succeeds when the needle is longer than the text (`ContainsIff` gives its exact meaning) |
| `TextMatch.ContainsIff` | autocomplete.js:64 | the `includes` scan succeeds exactly when the needle occurs at some position of the text |
| `TextMatch.ContainsEmpty` | autocomplete.js:64 | every text includes the empty string |
| `TextMatch.ContainsTrans` | autocomplete.js:64 | `includes` is transitive: a text that includes `t` includes everything `t` includes |
| `SuggestionFilter.Matches` | autocomplete.js:63-64 | the filter callback on one candidate: an input longer than the candidate never matches, and the empty input always matches |
| `SuggestionFilter.MatchesIff` | autocomplete.js:63-64 | a candidate matches exactly when the lower-cased input occurs at some position of the lower-cased candidate |
| `SuggestionFilter.Filter` | autocomplete.js:63-65 | the view is no longer than the candidate list and every entry matches the lower-cased input |
| `SuggestionFilter.FilterExact` | autocomplete.js:63-65 | the view is exactly the candidates at the matching positions, in increasing position order, with nothing else |
| `SuggestionFilter.FilterCount` | autocomplete.js:63-65 | each string occurs in the view as often as in the candidates when it matches and never otherwise; so a string is in the view iff it is a matching candidate |
| `SuggestionFilter.FilterKeepsAll` | autocomplete.js:63-65 | when every candidate matches, the view is the whole candidate list |
| `SuggestionFilter.FilterEmptyInput` | autocomplete.js:59-65 | an empty input keeps every candidate, in order |
| `SuggestionFilter.FilterRefines` | autocomplete.js:58-65 | when the new lower-cased input contains the old one, the new view equals the old view filtered again, so such an edit never brings back a row |
| `SuggestionFilter.FilterNarrows` | autocomplete.js:58-65 | under the model's ASCII lower-casing, after characters are appended at the end of the input, the new view equals the old view filtered again |
| `Scenarios.InsertionCanRestore` | autocomplete.js:58-65 | inserting a character inside the input can bring a row back: the candidate "abc" is hidden by "ac" and shown by "abc" |
| `WidgetConfig.CandidatesOf` | autocomplete.js:5 | the candidate list is the supplied `suggestions`, or empty when none is supplied |
| `WidgetConfig.Merge` | autocomplete.js:8-12 | each supplied option overrides its default; an absent `showLabel` is true and an absent `label` is 'Suggestions' |
| `WidgetConfig.Heading` | autocomplete.js:29-34 | the panel has a heading row iff `showLabel` is set, and the heading shows the configured label |
| `Autocomplete.FindIndex` | autocomplete.js:131-133 | the result is -1 when no row shows the text; otherwise it is a row that shows the text, and no earlier row does |
| `Autocomplete.StepDown` | autocomplete.js:152 | ArrowDown never passes the last row, advances by one row before it, stays on the last row, and from -1 or any row lands on a row |
| `Autocomplete.StepUp` | autocomplete.js:158 | ArrowUp never goes below 0, goes back one row from row 2 or later, and lands on row 0 from row 1, row 0 or -1 |
| `Autocomplete.PressDownClamps` | autocomplete.js:150-154 | after k ArrowDown presses the index is min(index + k, rows - 1): repeated presses stay on the last row |
| `Autocomplete.PressUpClamps` | autocomplete.js:156-160 | after k ≥ 1 ArrowUp presses the index is max(index - k, 0): from -1 the first press gives 0, and the index never returns to -1 |
| `Autocomplete.CustomAutocomplete.constructor` | autocomplete.js:3-15 | the candidates and configuration come from the options merged over the defaults; no row is rendered, nothing is active, and the panel is hidden |
| `Autocomplete.CustomAutocomplete.RenderSuggestions` | autocomplete.js:73-124 | the rows become one unmarked row per entry of the view, in order |
| `Autocomplete.CustomAutocomplete.HighlightActive` | autocomplete.js:137-144 | row texts are unchanged; exactly the row at `activeIndex` is marked, and no row when it is -1 |
| `Autocomplete.CustomAutocomplete.HandleInput` | autocomplete.js:58-71 | the rows become the filtered view of the lower-cased text, all unmarked; `activeIndex` is -1; the panel is visible iff the view is non-empty; the invariant holds |
| `Autocomplete.CustomAutocomplete.SelectSuggestion` | autocomplete.js:126-135 | called while the panel is shown: the input takes the text; `activeIndex` is the first row showing it (or -1), and exactly that row is marked |
| `Autocomplete.CustomAutocomplete.ShowDropdown` | autocomplete.js:178-182 | the panel becomes visible only when at least one row is rendered; nothing else changes |
| `Autocomplete.CustomAutocomplete.HideDropdown` | autocomplete.js:184-187 | from any state the panel is hidden and `activeIndex` is -1; rows, marks and value are unchanged, so hiding again changes nothing |
| `Autocomplete.CustomAutocomplete.HandleBlur` | autocomplete.js:189-194 | blur hides the panel and clears `activeIndex` |
| `Autocomplete.CustomAutocomplete.HandleClickOutside` | autocomplete.js:196-200 | a click outside both the panel and the input hides the panel and clears `activeIndex`; any other click changes nothing |
| `Autocomplete.CustomAutocomplete.RowMouseEnter` | autocomplete.js:117-120 | hovering a row of the shown panel makes it the active row and the only marked row |
| `Autocomplete.CustomAutocomplete.RowClick` | autocomplete.js:111-114 | clicking a row of the shown panel sets the input to that row's text, which is a candidate; the panel is hidden and `activeIndex` is -1 |
| `Autocomplete.CustomAutocomplete.RowIsCandidate` | autocomplete.js:63-67 | every rendered row shows one of the candidates |
| `Autocomplete.CustomAutocomplete.HandleKeyDown` | autocomplete.js:146-176 | when hidden, every key changes nothing. When visible: ArrowDown and ArrowUp move `activeIndex` by `StepDown`/`StepUp` and mark it; Enter with an active row commits that row's text (a candidate), hides the panel and resets `activeIndex`, and does nothing when no row is active; Escape hides and leaves `activeIndex` at -1 from any state, shown or hidden; any other key changes nothing; only the arrows and Enter prevent the default action |

## Left out

- DOM construction and layout are not modelled (lines 22-43, 77-108). This covers element creation, class names, the SVG icons, placing the panel after the input, and clearing `innerHTML`. The model keeps only what they decide: the heading row and the rows' texts and marks.
- Listener registration and `bind` are not modelled (lines 45-56). Each handler is a method that a caller invokes directly.
- `input.focus()` inside `selectSuggestion` is not modelled (line 128). In a browser it can fire the focus listener, which calls `showDropdown`. In every call path the code then hides the panel, so the end state is the same.
- Autocomplete.CustomAutocomplete.HandleBlur: hides at once instead of after the 200 ms timer (lines 189-194). Timers are not modelled. In a browser every mouse click on a row blurs the input first, and the delay exists so that the click still lands (line 190). The model represents that whole sequence as `RowClick` alone, without the preceding blur. Its end state is the same as the code's blur, click and deferred hide: the value is set, the panel is hidden, `activeIndex` is -1 and the marks are on the `FindIndex` row.
- `dropdown.contains(e.target)` and the comparison with the input (line 197) are not modelled. They become the two booleans passed to `HandleClickOutside`.
- TextMatch.Lower: lower-cases only ASCII 'A'..'Z', not the full Unicode `toLowerCase` mapping. Under full Unicode, lower-casing can change a string's length.
- SuggestionFilter.FilterRefines: the view narrows only when the new lower-cased input contains the old one (typing at either end). An insertion inside the input can bring a row back, as `Scenarios.InsertionCanRestore` shows with "ac" then "abc".
- SuggestionFilter.FilterNarrows: holds only for the ASCII lower-casing of the model. Unicode `toLowerCase` depends on context (a final capital sigma lower-cases to 'ς', otherwise to 'σ'), so lower-casing does not distribute over concatenation, and `LowerAppend`, on which this lemma rests, fails. Example: with the candidate "ασα", typing "ΑΣ" gives the needle "ας" and an empty view; typing one more "Α" gives "ασα" and brings the candidate back.
- JavaScript truthiness in the options is not modelled. The model does not cover a falsy non-array `suggestions`, a non-boolean `showLabel`, or a property that is present with the value `undefined`, which the spread at line 11 copies over the default. An absent option is `None`.
- Construction on a selector that matches no element is not modelled. The code then fails at line 42 when it reads `parentNode` of `null`. The model assumes the input exists.
- The page bootstrap with the e-mail sample is not modelled (lines 203-210). The scenarios use a short literal vector for the filter and a session that works for any candidate list with three matches.
