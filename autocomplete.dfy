/** The state machine of the `CustomAutocomplete` widget (autocomplete.js): the fixed
    candidate list, the rendered rows, the active index, the panel's visibility and the
    input's text, with one method per event handler. */
module Autocomplete {
  import opened TextMatch
  import opened SuggestionFilter
  import opened WidgetConfig

  /** One `<li>` of the suggestions list: its text and whether it carries the `active`
      class (its `aria-selected` attribute is always set to the same value). */
  datatype Row = Row(text: string, active: bool)

  /** The texts of the rendered rows, in order. */
  function Texts(rows: seq<Row>): (texts: seq<string>)
    ensures |texts| == |rows|
    ensures forall i :: 0 <= i < |rows| ==> texts[i] == rows[i].text
  {
    if rows == [] then [] else [rows[0].text] + Texts(rows[1..])
  }

  /** The row at `index` is marked and no other row is (none at all when `index` is -1). */
  predicate MarkedExactly(rows: seq<Row>, index: int) {
    forall i :: 0 <= i < |rows| ==> rows[i].active == (i == index)
  }

  /** `Array.from(rows).findIndex(row => row.text === text)`: the first row showing
      `text`, or -1 when no row does. */
  function FindIndex(rows: seq<Row>, text: string): (r: int)
    ensures -1 <= r < |rows|
    ensures 0 <= r ==> rows[r].text == text
    ensures forall j :: 0 <= j < |rows| && (r == -1 || j < r) ==> rows[j].text != text
  {
    if rows == [] then -1
    else if rows[0].text == text then 0
    else
      var k := FindIndex(rows[1..], text);
      if k == -1 then -1 else k + 1
  }

  function Min(a: int, b: int): (r: int) { if a <= b then a else b }
  function Max(a: int, b: int): (r: int) { if a >= b then a else b }

  /** ArrowDown: `Math.min(activeIndex + 1, rowCount - 1)`. */
  function StepDown(index: int, rowCount: int): (r: int)
    ensures r <= rowCount - 1
    ensures index < rowCount - 1 ==> r == index + 1
    ensures index == rowCount - 1 ==> r == index
    ensures -1 <= index && 0 < rowCount ==> 0 <= r
  {
    Min(index + 1, rowCount - 1)
  }

  /** ArrowUp: `Math.max(activeIndex - 1, 0)`. */
  function StepUp(index: int): (r: int)
    ensures 0 <= r
    ensures 1 <= index ==> r == index - 1
    ensures index <= 1 ==> r == 0
  {
    Max(index - 1, 0)
  }

  /** The active index after `presses` ArrowDown presses. */
  function PressDown(index: int, rowCount: int, presses: nat): (r: int)
    decreases presses
  {
    if presses == 0 then index else PressDown(StepDown(index, rowCount), rowCount, presses - 1)
  }

  /** The active index after `presses` ArrowUp presses. */
  function PressUp(index: int, presses: nat): (r: int)
    decreases presses
  {
    if presses == 0 then index else PressUp(StepUp(index), presses - 1)
  }

  /** Repeated ArrowDown presses advance one row each and then stay on the last row. */
  lemma {:induction false} PressDownClamps(index: int, rowCount: int, presses: nat)
    requires -1 <= index < rowCount
    ensures PressDown(index, rowCount, presses) == Min(index + presses, rowCount - 1)
    decreases presses
  {
    if presses > 0 {
      PressDownClamps(StepDown(index, rowCount), rowCount, presses - 1);
    }
  }

  /** Repeated ArrowUp presses go back one row each and then stay on the first row; from
      "no row active" (-1) the first press lands on row 0, never back on -1. */
  lemma {:induction false} PressUpClamps(index: int, presses: nat)
    requires -1 <= index
    ensures PressUp(index, presses) == if presses == 0 then index else Max(index - presses, 0)
    decreases presses
  {
    if presses > 0 {
      PressUpClamps(StepUp(index), presses - 1);
    }
  }

  class CustomAutocomplete {
    /** The candidate list, fixed at construction. */
    const suggestions: seq<string>
    /** The merged configuration and the heading row it produces. */
    const config: Config
    const heading: Option<string>

    /** The children of the suggestions list. */
    var rows: seq<Row>
    var activeIndex: int
    /** Whether the panel carries the `show` class. */
    var visible: bool
    /** The input element's value. */
    var value: string

    /** The input text the rows were last filtered for; `None` before the first input event. */
    ghost var query: Option<string>

    /** The rows are the filtered view of the last input, the active index is -1 or a row,
        the panel is never shown empty, and `activeIndex` is -1 while it is hidden (a row's
        `active` mark can remain, since hiding does not re-apply the highlighting). */
    ghost predicate Valid()
      reads this
    {
      -1 <= activeIndex < |rows| &&
      (visible ==> |rows| > 0) &&
      (!visible ==> activeIndex == -1) &&
      match query
      case None => rows == []
      case Some(q) => Texts(rows) == Filter(suggestions, Lower(q))
    }

    /** `new CustomAutocomplete(selector, options)` on an input whose value is `initialValue`:
        no row is rendered yet and the panel is hidden. */
    constructor (options: Options, initialValue: string)
      ensures Valid()
      ensures suggestions == CandidatesOf(options)
      ensures config == Merge(options) && heading == Heading(config)
      ensures rows == [] && activeIndex == -1 && !visible && value == initialValue
    {
      suggestions := CandidatesOf(options);
      activeIndex := -1;
      config := Merge(options);
      heading := Heading(Merge(options));
      rows := [];
      visible := false;
      value := initialValue;
      query := None;
    }

    /** `renderSuggestions`: replaces the rows by one unmarked row per entry of `view`. */
    method RenderSuggestions(view: seq<string>)
      modifies this`rows
      ensures Texts(rows) == view && MarkedExactly(rows, -1)
    {
      rows := [];
      var i := 0;
      while i < |view|
        invariant 0 <= i <= |view|
        invariant Texts(rows) == view[..i]
        invariant MarkedExactly(rows, -1)
      {
        rows := rows + [Row(view[i], false)];
        i := i + 1;
      }
    }

    /** `highlightActive`: marks the row at the active index and clears every other row. */
    method HighlightActive()
      modifies this`rows
      ensures Texts(rows) == Texts(old(rows))
      ensures MarkedExactly(rows, activeIndex)
    {
      var i := 0;
      while i < |rows|
        invariant 0 <= i <= |rows|
        invariant Texts(rows) == Texts(old(rows))
        invariant forall j :: 0 <= j < i ==> rows[j].active == (j == activeIndex)
      {
        rows := rows[i := Row(rows[i].text, i == activeIndex)];
        i := i + 1;
      }
    }

    /** `handleInput` after the user changed the input's text to `text`: the rows become the
        filtered view, nothing is active, and the panel shows exactly when a row matches. */
    method HandleInput(text: string)
      requires Valid()
      modifies this
      ensures Valid()
      ensures value == text && query == Some(text)
      ensures Texts(rows) == Filter(suggestions, Lower(text)) && MarkedExactly(rows, -1)
      ensures activeIndex == -1
      ensures visible <==> |Filter(suggestions, Lower(text))| > 0
    {
      value := text;
      var needle := Lower(text);
      activeIndex := -1;
      var filtered := Filter(suggestions, needle);
      RenderSuggestions(filtered);
      visible := |filtered| > 0;
      query := Some(text);
    }

    /** `selectSuggestion`: the input takes the text, and the first row showing that text
        (if any) becomes the active, marked row. */
    method SelectSuggestion(suggestion: string)
      requires Valid()
      requires visible
      modifies this
      ensures Valid()
      ensures value == suggestion
      ensures activeIndex == FindIndex(old(rows), suggestion)
      ensures Texts(rows) == Texts(old(rows)) && MarkedExactly(rows, activeIndex)
      ensures visible == old(visible) && query == old(query)
    {
      value := suggestion;
      activeIndex := FindIndex(rows, suggestion);
      HighlightActive();
    }

    /** `showDropdown` (on focus): shows the panel only when some row is rendered. */
    method ShowDropdown()
      requires Valid()
      modifies this
      ensures Valid()
      ensures visible == (old(visible) || |rows| > 0)
      ensures rows == old(rows) && activeIndex == old(activeIndex)
      ensures value == old(value) && query == old(query)
    {
      if |rows| > 0 {
        visible := true;
      }
    }

    /** `hideDropdown`: hides the panel and clears the active index; the rows keep their
        marks. */
    method HideDropdown()
      requires Valid()
      modifies this
      ensures Valid()
      ensures !visible && activeIndex == -1
      ensures rows == old(rows) && value == old(value) && query == old(query)
    {
      visible := false;
      activeIndex := -1;
    }

    /** `handleBlur`, with the deferred hide taken as immediate. */
    method HandleBlur()
      requires Valid()
      modifies this
      ensures Valid()
      ensures !visible && activeIndex == -1
      ensures rows == old(rows) && value == old(value) && query == old(query)
    {
      HideDropdown();
    }

    /** `handleClickOutside`: a click hides the panel unless its target lies inside the
        panel or is the input itself. */
    method HandleClickOutside(targetInPanel: bool, targetIsInput: bool)
      requires Valid()
      modifies this
      ensures Valid()
      ensures !targetInPanel && !targetIsInput ==> !visible && activeIndex == -1
      ensures targetInPanel || targetIsInput ==>
                visible == old(visible) && activeIndex == old(activeIndex)
      ensures rows == old(rows) && value == old(value) && query == old(query)
    {
      if !targetInPanel && !targetIsInput {
        HideDropdown();
      }
    }

    /** The `mouseenter` listener of the row at `index`, which the pointer can reach only
        while the panel is shown: that row becomes the active one. */
    method RowMouseEnter(index: int)
      requires Valid()
      requires visible
      requires 0 <= index < |rows|
      modifies this
      ensures Valid()
      ensures activeIndex == index
      ensures Texts(rows) == Texts(old(rows)) && MarkedExactly(rows, index)
      ensures visible == old(visible) && value == old(value) && query == old(query)
    {
      activeIndex := index;
      HighlightActive();
    }

    /** The `click` listener of the row at `index`, reachable only while the panel is shown:
        commits that row's text to the input and hides the panel. */
    method RowClick(index: int)
      requires Valid()
      requires visible
      requires 0 <= index < |rows|
      modifies this
      ensures Valid()
      ensures value == old(rows)[index].text && value in suggestions
      ensures !visible && activeIndex == -1
      ensures Texts(rows) == Texts(old(rows)) && MarkedExactly(rows, FindIndex(old(rows), value))
      ensures query == old(query)
    {
      RowIsCandidate(index);
      SelectSuggestion(rows[index].text);
      HideDropdown();
    }

    /** Every rendered row shows one of the candidates. */
    lemma RowIsCandidate(index: int)
      requires Valid()
      requires 0 <= index < |rows|
      ensures rows[index].text in suggestions
    {
      var q := query.value;
      assert Texts(rows)[index] == rows[index].text;
      FilterCount(suggestions, Lower(q), rows[index].text);
    }

    /** `handleKeyDown`: ignored while the panel is hidden; otherwise ArrowDown and ArrowUp
        move the active index with clamping, Enter commits the active row (if any) and
        hides the panel, Escape hides the panel, and every other key does nothing.
        `prevented` tells whether the key's default action was suppressed. */
    method HandleKeyDown(key: string) returns (prevented: bool)
      requires Valid()
      modifies this
      ensures Valid()
      ensures !old(visible) ==> !prevented && unchanged(this)
      ensures old(visible) && key !in ["ArrowDown", "ArrowUp", "Enter", "Escape"] ==>
                !prevented && unchanged(this)
      ensures old(visible) && key == "ArrowDown" ==>
                prevented && activeIndex == StepDown(old(activeIndex), |old(rows)|) &&
                visible && value == old(value) && query == old(query) &&
                Texts(rows) == Texts(old(rows)) && MarkedExactly(rows, activeIndex)
      ensures old(visible) && key == "ArrowUp" ==>
                prevented && activeIndex == StepUp(old(activeIndex)) &&
                visible && value == old(value) && query == old(query) &&
                Texts(rows) == Texts(old(rows)) && MarkedExactly(rows, activeIndex)
      ensures old(visible) && key == "Enter" && old(activeIndex) < 0 ==>
                prevented && unchanged(this)
      ensures old(visible) && key == "Enter" && 0 <= old(activeIndex) ==>
                prevented && value == old(rows)[old(activeIndex)].text && value in suggestions &&
                !visible && activeIndex == -1 && query == old(query) &&
                Texts(rows) == Texts(old(rows)) && MarkedExactly(rows, FindIndex(old(rows), value))
      ensures key == "Escape" ==> !visible && activeIndex == -1
      ensures old(visible) && key == "Escape" ==>
                !prevented && !visible && activeIndex == -1 &&
                rows == old(rows) && value == old(value) && query == old(query)
    {
      prevented := false;
      if !visible {
        return;
      }
      if key == "ArrowDown" {
        prevented := true;
        activeIndex := StepDown(activeIndex, |rows|);
        HighlightActive();
      } else if key == "ArrowUp" {
        prevented := true;
        activeIndex := StepUp(activeIndex);
        HighlightActive();
      } else if key == "Enter" {
        prevented := true;
        if activeIndex >= 0 {
          RowIsCandidate(activeIndex);
          var selected := rows[activeIndex].text;
          SelectSuggestion(selected);
          HideDropdown();
        }
      } else if key == "Escape" {
        HideDropdown();
      }
    }
  }
}
