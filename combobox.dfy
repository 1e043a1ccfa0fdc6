/** `ComboboxAutocomplete`: a text input over a list of options. Typing
    hides the options whose text does not contain the query, a keyboard
    cursor walks the shown options, and choosing one fills the input and
    the hidden input and emits a change event. */
module Comboboxes {
  import opened JsText

  /** An option `li`: its `data-value` (None when the attribute is absent)
      and its `data-text`. */
  datatype ComboOption = ComboOption(value: Option<string>, text: string)

  /** The `detail` of a `combobox-change` event; None stands for an
      `undefined` field. */
  datatype Selection = Selection(value: Option<string>, text: Option<string>)

  datatype Key = ArrowDown | ArrowUp | Enter | Escape | OtherKey

  /** What an `li` in the list is: the option at an index of the option
      list, or the "No results found" placeholder. */
  datatype Target = OptionAt(index: nat) | Placeholder

  /** Assigning a possibly `undefined` value to an input's `value`. */
  function DomString(v: Option<string>): string {
    if v.Some? then v.value else "undefined"
  }

  /** The `hidden` flag of every option after `filterOptions(query)`: none
      for an empty query, otherwise those whose lower-cased text does not
      contain the query. */
  function HiddenFor(options: seq<ComboOption>, query: string): (hidden: seq<bool>)
    ensures |hidden| == |options|
  {
    if query == "" then seq(|options|, _ => false)
    else seq(|options|, j requires 0 <= j < |options| => !Includes(ToLower(options[j].text), query))
  }

  /** Typing `typed` shows exactly the options whose lower-cased text holds
      the lower-cased input; an empty input matches every option, so one
      rule covers both branches of the source. */
  lemma ShownIffMatches(options: seq<ComboOption>, typed: string, j: nat)
    requires j < |options|
    ensures !HiddenFor(options, ToLower(typed))[j] <==> Includes(ToLower(options[j].text), ToLower(typed))
  {
    if ToLower(typed) == "" {
      IncludesEmpty(ToLower(options[j].text));
    }
  }

  /** The indices of the shown options, in list order. */
  function VisibleIndices(hidden: seq<bool>): (r: seq<nat>)
    ensures forall k :: 0 <= k < |r| ==> r[k] < |hidden| && !hidden[r[k]]
    ensures forall j :: 0 <= j < |hidden| && !hidden[j] ==> j in r
    ensures forall a, b :: 0 <= a < b < |r| ==> r[a] < r[b]
    ensures |r| <= |hidden|
  {
    if hidden == [] then []
    else
      var init := VisibleIndices(hidden[..|hidden| - 1]);
      if hidden[|hidden| - 1] then init else init + [|hidden| - 1]
  }

  /** No option is shown exactly when every option is hidden. */
  lemma NoneVisibleIffAllHidden(hidden: seq<bool>)
    ensures |VisibleIndices(hidden)| == 0 <==> forall j :: 0 <= j < |hidden| ==> hidden[j]
  {
    if |VisibleIndices(hidden)| > 0 {
      assert !hidden[VisibleIndices(hidden)[0]];
    }
  }

  /** The new cursor after a key: ArrowDown moves down but not past the
      last of `n` shown entries, ArrowUp moves up but not above -1 (nothing
      highlighted); other keys leave it. */
  function Cursor(key: Key, i: int, n: nat): (r: int)
    requires -1 <= i < n || i == -1
    ensures -1 <= r < n || r == -1
    ensures key == ArrowDown && i + 1 < n ==> r == i + 1
    ensures key == ArrowUp && i >= 0 ==> r == i - 1
    ensures key != ArrowDown && key != ArrowUp ==> r == i
  {
    match key
    case ArrowDown => if i + 1 < n - 1 then i + 1 else n - 1
    case ArrowUp => if i - 1 > -1 then i - 1 else -1
    case _ => i
  }

  /** ArrowUp undoes an ArrowDown that moved, and ArrowDown undoes an
      ArrowUp that left a highlighted entry. */
  lemma CursorRoundTrip(i: int, n: nat)
    requires -1 <= i < n
    ensures i + 1 < n ==> Cursor(ArrowUp, Cursor(ArrowDown, i, n), n) == i
    ensures i >= 0 ==> Cursor(ArrowDown, Cursor(ArrowUp, i, n), n) == i
  {
  }

  /** Repeated ArrowDown stops at the last shown entry; with nothing shown
      the cursor stays at -1. */
  lemma CursorSaturates(i: int, n: nat)
    requires -1 <= i < n || i == -1
    ensures Cursor(ArrowDown, i, n) == if n == 0 then -1 else if i + 1 < n then i + 1 else n - 1
  {
  }

  /** What the source's keydown handler walks: every `li` without the
      `hidden` class, which includes the placeholder when it is there. */
  function KeyTargetsAsWritten(hidden: seq<bool>, placeholder: bool): (r: seq<Target>)
    ensures |r| == |VisibleIndices(hidden)| + if placeholder then 1 else 0
    ensures forall k :: 0 <= k < |VisibleIndices(hidden)| ==> r[k] == OptionAt(VisibleIndices(hidden)[k])
    ensures placeholder ==> r[|r| - 1] == Placeholder
  {
    seq(|VisibleIndices(hidden)|, k requires 0 <= k < |VisibleIndices(hidden)| => OptionAt(VisibleIndices(hidden)[k]))
      + if placeholder then [Placeholder] else []
  }

  /** What the keyboard should walk: the shown options only, the very list
      `updateSelectedOption` highlights from. */
  function KeyTargets(hidden: seq<bool>): (r: seq<Target>)
    ensures |r| == |VisibleIndices(hidden)|
    ensures forall k :: 0 <= k < |r| ==> r[k] == OptionAt(VisibleIndices(hidden)[k])
  {
    seq(|VisibleIndices(hidden)|, k requires 0 <= k < |VisibleIndices(hidden)| => OptionAt(VisibleIndices(hidden)[k]))
  }

  /** The event a chosen entry emits; the placeholder has no `data-value`
      and no `data-text`. */
  function SelectionOf(options: seq<ComboOption>, t: Target): (s: Selection)
    requires t.OptionAt? ==> t.index < |options|
    ensures t.OptionAt? ==> s.value == options[t.index].value
    ensures t.OptionAt? ==> s.text == Some(options[t.index].text)
    ensures t.Placeholder? ==> s == Selection(None, None)
  {
    if t.OptionAt? then Selection(options[t.index].value, Some(options[t.index].text))
    else Selection(None, None)
  }

  /** Whether the placeholder is in the list after filtering with a
      non-empty query, as written: the count of shown `li`s includes the
      placeholder itself, so an existing placeholder counts as a result
      and is removed. */
  function PlaceholderAfterFilterAsWritten(hidden: seq<bool>, had: bool): (r: bool)
    ensures r ==> |VisibleIndices(hidden)| == 0
  {
    var shown := |VisibleIndices(hidden)| + if had then 1 else 0;
    if shown == 0 && !had then true
    else if shown > 0 then false
    else had
  }

  /** The placeholder is there exactly when no option is shown. */
  function PlaceholderAfterFilter(hidden: seq<bool>): (r: bool)
    ensures r <==> forall j :: 0 <= j < |hidden| ==> hidden[j]
  {
    NoneVisibleIffAllHidden(hidden);
    |VisibleIndices(hidden)| == 0
  }

  /** With the one option "a", neither "x" nor "xy" matches it. */
  lemma {:induction false} NothingMatchesX()
    ensures HiddenFor([ComboOption(Some("a"), "a")], "x") == [true]
    ensures HiddenFor([ComboOption(Some("a"), "a")], "xy") == [true]
  {
    assert ToLower("a") == "a";
    assert "a"[0..1][0] != "x"[0];
    assert !OccursAt("a", "x", 0);
  }

  /** With one option "a", typing "x" and then "xy" matches nothing both
      times, yet as written the placeholder appears after "x" and vanishes
      after "xy"; the corrected rule keeps it. */
  lemma PlaceholderFlickersAsWritten()
    ensures var h := HiddenFor([ComboOption(Some("a"), "a")], "x");
      var h2 := HiddenFor([ComboOption(Some("a"), "a")], "xy");
      && PlaceholderAfterFilterAsWritten(h, false)
      && !PlaceholderAfterFilterAsWritten(h2, PlaceholderAfterFilterAsWritten(h, false))
      && PlaceholderAfterFilter(h) && PlaceholderAfterFilter(h2)
  {
    NothingMatchesX();
    assert VisibleIndices([true]) == [];
  }

  /** As written, once "x" leaves only the placeholder shown, ArrowDown
      moves the cursor onto it and Enter chooses it, emitting an event
      with neither value nor text. With the corrected list the cursor
      stays at -1 and Enter does nothing. */
  lemma EnterSelectsPlaceholderAsWritten()
    ensures var options := [ComboOption(Some("a"), "a")];
      var h := HiddenFor(options, "x");
      var targets := KeyTargetsAsWritten(h, PlaceholderAfterFilter(h));
      var i := Cursor(ArrowDown, -1, |targets|);
      && i == 0 && targets[i] == Placeholder
      && SelectionOf(options, targets[i]) == Selection(None, None)
      && Cursor(ArrowDown, -1, |KeyTargets(h)|) == -1
  {
    NothingMatchesX();
    assert VisibleIndices([true]) == [];
  }

  /** Every entry the corrected keyboard list can reach is a shown option,
      the same entry `updateSelectedOption` highlights for that cursor. */
  lemma KeyTargetsAreShownOptions(hidden: seq<bool>, i: int)
    requires 0 <= i < |KeyTargets(hidden)|
    ensures KeyTargets(hidden)[i].OptionAt?
    ensures KeyTargets(hidden)[i].index < |hidden| && !hidden[KeyTargets(hidden)[i].index]
  {
  }

  /** The widget's state: which options are hidden, whether the placeholder
      is in the list, whether the list is open, the cursor, the two inputs'
      values and the change events emitted so far. */
  class Combobox {
    const options: seq<ComboOption>
    var hidden: seq<bool>
    var placeholder: bool
    var isOpen: bool
    var selectedIndex: int
    var inputValue: string
    var hiddenValue: string
    var changes: seq<Selection>

    /** The cursor is -1 or a shown option, and -1 while the list is
        closed; the placeholder is only there when no option is shown. */
    predicate Valid()
      reads this
    {
      && |hidden| == |options|
      && (selectedIndex == -1 || 0 <= selectedIndex < |VisibleIndices(hidden)|)
      && (!isOpen ==> selectedIndex == -1)
      && (placeholder ==> |VisibleIndices(hidden)| == 0)
    }

    constructor (options: seq<ComboOption>, inputValue: string, hiddenValue: string)
      ensures Valid()
      ensures this.options == options && this.inputValue == inputValue && this.hiddenValue == hiddenValue
      ensures hidden == HiddenFor(options, "") && !placeholder && !isOpen && selectedIndex == -1 && changes == []
    {
      this.options := options;
      this.inputValue := inputValue;
      this.hiddenValue := hiddenValue;
      hidden := HiddenFor(options, "");
      placeholder := false;
      isOpen := false;
      selectedIndex := -1;
      changes := [];
    }

    /** `showAllOptions` then `openDropdown`. */
    method Focus()
      requires Valid()
      modifies this
      ensures Valid()
      ensures hidden == HiddenFor(options, "") && !placeholder && isOpen
      ensures selectedIndex == old(selectedIndex)
      ensures inputValue == old(inputValue) && hiddenValue == old(hiddenValue) && changes == old(changes)
    {
      AllShown(HiddenFor(options, ""));
      hidden := HiddenFor(options, "");
      placeholder := false;
      isOpen := true;
    }

    /** The `input` event with the input now holding `typed`: filter by the
        lower-cased text, clear the cursor, and clear the hidden input when
        the query is empty. */
    method Input(typed: string)
      requires Valid()
      modifies this
      ensures Valid()
      ensures inputValue == typed && hidden == HiddenFor(options, ToLower(typed))
      ensures placeholder == (ToLower(typed) != "" && PlaceholderAfterFilter(hidden))
      ensures selectedIndex == -1 && isOpen == old(isOpen)
      ensures hiddenValue == if ToLower(typed) == "" then "" else old(hiddenValue)
      ensures changes == old(changes)
    {
      inputValue := typed;
      var query := ToLower(typed);
      hidden := HiddenFor(options, query);
      placeholder := query != "" && PlaceholderAfterFilter(hidden);
      selectedIndex := -1;
      if query == "" {
        hiddenValue := "";
      }
    }

    /** `closeDropdown`. */
    method Close()
      requires Valid()
      modifies this`isOpen, this`selectedIndex
      ensures Valid() && !isOpen && selectedIndex == -1
    {
      isOpen := false;
      selectedIndex := -1;
    }

    /** `selectOption` on the option at `j`. */
    method Select(j: nat)
      requires Valid() && j < |options|
      modifies this
      ensures Valid()
      ensures inputValue == options[j].text && hiddenValue == DomString(options[j].value)
      ensures !isOpen && selectedIndex == -1
      ensures changes == old(changes) + [SelectionOf(options, OptionAt(j))]
      ensures hidden == old(hidden) && placeholder == old(placeholder)
    {
      inputValue := options[j].text;
      hiddenValue := DomString(options[j].value);
      Close();
      changes := changes + [SelectionOf(options, OptionAt(j))];
    }

    /** The `keydown` handler, walking the shown options. Nothing happens
        while the list is closed. */
    method KeyDown(key: Key)
      requires Valid()
      modifies this
      ensures Valid()
      ensures hidden == old(hidden) && placeholder == old(placeholder)
      ensures !old(isOpen) ==> unchanged(this)
      ensures old(isOpen) && (key == ArrowDown || key == ArrowUp) ==>
        selectedIndex == Cursor(key, old(selectedIndex), |KeyTargets(old(hidden))|) && isOpen
        && changes == old(changes) && inputValue == old(inputValue) && hiddenValue == old(hiddenValue)
      ensures old(isOpen) && key == Enter && old(selectedIndex) >= 0 ==>
        var t := KeyTargets(old(hidden))[old(selectedIndex)];
        t.index < |options| && inputValue == options[t.index].text && hiddenValue == DomString(options[t.index].value)
        && changes == old(changes) + [SelectionOf(options, t)]
        && !isOpen && selectedIndex == -1
      ensures old(isOpen) && key == Enter && old(selectedIndex) < 0 ==> unchanged(this)
      ensures old(isOpen) && key == Escape ==>
        !isOpen && selectedIndex == -1
        && changes == old(changes) && inputValue == old(inputValue) && hiddenValue == old(hiddenValue)
      ensures old(isOpen) && key == OtherKey ==> unchanged(this)
    {
      if !isOpen {
        return;
      }
      var targets := KeyTargets(hidden);
      match key
      case ArrowDown => selectedIndex := Cursor(key, selectedIndex, |targets|);
      case ArrowUp => selectedIndex := Cursor(key, selectedIndex, |targets|);
      case Enter =>
        if selectedIndex >= 0 {
          Select(targets[selectedIndex].index);
        }
      case Escape => Close();
      case OtherKey =>
    }

    /** A click on the option at `j`: chosen unless it is hidden. */
    method ClickOption(j: nat)
      requires Valid() && j < |options|
      modifies this
      ensures Valid()
      ensures old(hidden)[j] ==> unchanged(this)
      ensures !old(hidden)[j] ==>
        inputValue == options[j].text && hiddenValue == DomString(options[j].value)
        && changes == old(changes) + [SelectionOf(options, OptionAt(j))]
        && !isOpen && selectedIndex == -1 && hidden == old(hidden) && placeholder == old(placeholder)
    {
      if !hidden[j] {
        Select(j);
      }
    }

    /** A click anywhere outside the widget closes the list. */
    method ClickOutside()
      requires Valid()
      modifies this
      ensures Valid() && !isOpen && selectedIndex == -1
      ensures hidden == old(hidden) && placeholder == old(placeholder) && changes == old(changes)
      ensures inputValue == old(inputValue) && hiddenValue == old(hiddenValue)
    {
      Close();
    }
  }

  /** With nothing hidden every option is shown. */
  lemma {:induction false} AllShown(h: seq<bool>)
    requires forall k :: 0 <= k < |h| ==> !h[k]
    ensures VisibleIndices(h) == seq(|h|, k => k)
  {
    if h != [] {
      AllShown(h[..|h| - 1]);
    }
  }
}
