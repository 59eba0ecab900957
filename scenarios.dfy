/** Client sessions that exercise the widget through its contracts alone. */
module Scenarios {
  import opened TextMatch
  import opened SuggestionFilter
  import opened WidgetConfig
  import opened Autocomplete

  /** Typing "B" keeps, in order, the candidates containing a 'b' in either case. */
  lemma FilterIgnoresCase()
    ensures Filter(["ab", "Bc", "cd"], Lower("B")) == ["ab", "Bc"]
  {
    assert Lower("B") == "b";
    assert Matches("ab", "b") by {
      assert OccursAt("ab", "b", 1);
      ContainsIff("ab", "b");
    }
    assert Matches("Bc", "b") by {
      assert Lower("Bc") == "bc" && OccursAt("bc", "b", 0);
      ContainsIff("bc", "b");
    }
    assert !Matches("cd", "b") by {
      assert Lower("cd") == "cd";
      if Matches("cd", "b") {
        ContainsFirst("cd", "b");
      }
    }
  }

  /** Inserting a character inside the input can bring a row back: "ac" hides the
      candidate "abc", and "abc" shows it again. */
  lemma InsertionCanRestore()
    ensures Filter(["abc"], Lower("ac")) == []
    ensures Filter(["abc"], Lower("abc")) == ["abc"]
  {
    assert Lower("ac") == "ac" && Lower("abc") == "abc";
    assert !Matches("abc", "ac");
    assert Matches("abc", "abc") by {
      assert OccursAt("abc", "abc", 0);
      ContainsIff("abc", "abc");
    }
  }

  /** Focus before any typing shows nothing; typing a text that three candidates match shows
      three rows; four ArrowDown presses stop on the last row; ArrowUp then Enter commits the
      middle row and hides the panel; Escape on the hidden panel does nothing. */
  method Session(candidates: seq<string>, text: string)
    requires |Filter(candidates, Lower(text))| == 3
  {
    var w := new CustomAutocomplete(Options(Some(candidates), None, Some("Email Suggestions")), "");
    assert w.config == Config(true, "Email Suggestions") && w.heading == Some("Email Suggestions");
    w.ShowDropdown();
    assert !w.visible;

    w.HandleInput(text);
    var view := Filter(candidates, Lower(text));
    assert Texts(w.rows) == view && w.visible && w.activeIndex == -1;

    var prevented := w.HandleKeyDown("ArrowDown");
    prevented := w.HandleKeyDown("ArrowDown");
    prevented := w.HandleKeyDown("ArrowDown");
    prevented := w.HandleKeyDown("ArrowDown");
    assert w.activeIndex == 2 && w.visible && prevented;

    prevented := w.HandleKeyDown("ArrowUp");
    assert w.activeIndex == 1;
    prevented := w.HandleKeyDown("Enter");
    assert w.value == view[1] && w.value in candidates;
    assert !w.visible && w.activeIndex == -1;

    prevented := w.HandleKeyDown("Escape");
    assert w.value == view[1] && !prevented;
  }

  /** Escape leaves the panel hidden with `activeIndex` at -1, whether it was shown or not. */
  method EscapeFromAnyState(w: CustomAutocomplete)
    requires w.Valid()
    modifies w
  {
    var prevented := w.HandleKeyDown("Escape");
    assert !w.visible && w.activeIndex == -1 && !prevented;
  }

  /** Hiding twice leaves the same state as hiding once. */
  method HideTwice(w: CustomAutocomplete)
    requires w.Valid()
    modifies w
  {
    w.HideDropdown();
    var rows, value := w.rows, w.value;
    w.HideDropdown();
    assert w.rows == rows && w.value == value && !w.visible && w.activeIndex == -1;
  }
}
