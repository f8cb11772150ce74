/**
 * What the combo box's tests pin down, stated over every state the box can be
 * in rather than over the tests' particular items.
 */
module ComboBoxProperties {
  import opened Optional
  import opened ComboItems
  import opened VirtualWindow
  import opened ComboBoxModel

  /**
   * A closed box opens on ArrowDown or ArrowUp, focusing the row of the item
   * its value names, or no row (with the list at the top) when none does.
   */
  lemma ArrowKeysOpenClosedBox(s: ComboState)
    requires Valid(s) && !s.isOpen
    ensures var d := ArrowDown(s);
      d.isOpen && d.focusedIndex == IndexOfValue(s.value, s.Filtered()) && d.value == s.value
    ensures var u := ArrowUp(s);
      u.isOpen && u.focusedIndex == IndexOfValue(s.value, s.Filtered()) && u.value == s.value
    ensures ArrowDown(s).focusedIndex == -1 ==> ArrowDown(s).firstVisibleIndex == 0
  {
  }

  /**
   * In an open list ArrowDown moves the focus one row down (to the first row
   * from none) and ArrowUp one row up (to the last row from none), both
   * stopping at the ends of the filtered view and writing the focused label
   * into the input.
   */
  lemma ArrowKeysMoveFocus(s: ComboState)
    requires Valid(s) && s.isOpen && |s.Filtered()| > 0
    ensures var d := ArrowDown(s);
      && d.focusedIndex == (if s.focusedIndex == |s.Filtered()| - 1 then s.focusedIndex else s.focusedIndex + 1)
      && d.inputText == Label(s.Filtered()[d.focusedIndex])
      && d.value == s.value && d.selectedItem == s.selectedItem && d.isOpen
    ensures var u := ArrowUp(s);
      && u.focusedIndex == (if s.focusedIndex == -1 then |s.Filtered()| - 1
                            else if s.focusedIndex == 0 then 0 else s.focusedIndex - 1)
      && u.inputText == Label(s.Filtered()[u.focusedIndex])
      && u.value == s.value && u.selectedItem == s.selectedItem && u.isOpen
  {
  }

  /** Navigating an open list with no matching items changes nothing. */
  lemma ArrowKeysOnEmptyViewAreNoOps(s: ComboState)
    requires Valid(s) && s.isOpen && |s.Filtered()| == 0
    ensures ArrowDown(s) == s && ArrowUp(s) == s
  {
  }

  /**
   * After a key moves the focus to row i of an open list, the window has
   * scrolled the least distance that shows row i.
   */
  lemma NavigationScrollsMinimally(s: ComboState)
    requires Valid(s) && s.isOpen && |s.Filtered()| > 0
    ensures forall r :: r == ArrowDown(s) || r == ArrowUp(s) ==>
      && r.firstVisibleIndex <= r.focusedIndex <= r.firstVisibleIndex + r.capacity - 1
      && r.firstVisibleIndex == ScrollIntoView(s.firstVisibleIndex, s.capacity, |s.Filtered()|, r.focusedIndex)
  {
  }

  /**
   * Escape never changes the committed value or the selected item. In an
   * open list (auto-open enabled) a focused row only loses its focus, the list
   * stays open and the input goes back to the typed filter, or to the committed
   * value when nothing was typed; with no focused row the list closes and the
   * input shows the committed value.
   */
  lemma {:induction false} EscapeTwoStages(s: ComboState)
    requires Valid(s)
    ensures Escape(s).value == s.value && Escape(s).selectedItem == s.selectedItem
    ensures Escape(s).customValueSetEvents == s.customValueSetEvents
    ensures s.isOpen && !s.autoOpenDisabled && s.focusedIndex >= 0 ==>
      && Escape(s).isOpen && Escape(s).focusedIndex == -1
      && Escape(s).inputText == RevertInput(s).inputText
    ensures s.isOpen && !s.autoOpenDisabled && s.focusedIndex == -1 ==>
      !Escape(s).isOpen && Escape(s).inputText == RevertInputToValue(s).inputText
  {
  }

  /** What the input goes back to: the filter, else the custom value, else the selected item's label. */
  lemma RevertedInputText(s: ComboState)
    ensures RevertInput(s).inputText ==
      if s.filterText != "" then s.filterText
      else if s.allowCustomValue && s.selectedItem.None? then s.value
      else if s.selectedItem.Some? then Label(s.selectedItem.value)
      else ""
  {
  }

  /** Enter on a focused row commits that row's item and closes the list. */
  lemma EnterSelectsFocusedItem(s: ComboState)
    requires Valid(s) && s.isOpen && s.focusedIndex >= 0
    ensures var it := s.Filtered()[s.focusedIndex];
      var r := Enter(s);
      && !r.isOpen && r.selectedItem == Some(it) && r.value == ValueOf(it) && r.inputText == Label(it)
      && r.customValueSetEvents == s.customValueSetEvents
  {
  }

  /**
   * Enter on an empty input clears the selection and the value, when custom
   * values are allowed or a known item was selected.
   */
  lemma EnterOnEmptyInputClears(s: ComboState)
    requires Valid(s) && s.isOpen && s.focusedIndex == -1 && s.inputText == ""
    requires (s.items.Some? && s.selectedItem.Some?) || s.allowCustomValue
    requires IndexOfValue("", s.AllItems()) == -1
    ensures var r := Enter(s);
      !r.isOpen && r.value == "" && r.selectedItem.None? && r.customValueSetEvents == s.customValueSetEvents
  {
  }

  /**
   * Enter on an empty input with nothing selected and no custom values closes
   * the list and leaves the value and the selection as they were: clearing an
   * absent selection is no change.
   */
  lemma EnterOnEmptyInputWithoutSelection(s: ComboState)
    requires Valid(s) && s.isOpen && s.focusedIndex == -1 && s.inputText == ""
    requires s.selectedItem.None? && !s.allowCustomValue
    ensures var r := Enter(s);
      && !r.isOpen && r.value == s.value && r.selectedItem.None?
      && r.selectedItemChanges == s.selectedItemChanges && r.customValueSetEvents == s.customValueSetEvents
  {
  }

  /**
   * Enter on typed text that focuses no row: without custom values nothing
   * happens (the value stays and the list stays open); with custom values and
   * no item labelled so, one `custom-value-set` event fires and, unless vetoed,
   * the text becomes the value; the list closes either way.
   */
  lemma EnterOnUnmatchedText(s: ComboState)
    requires Valid(s) && s.focusedIndex == -1 && s.inputText != ""
    ensures !s.allowCustomValue ==> Enter(s) == s
    ensures s.allowCustomValue && s.isOpen && |MatchedByLabel(s.Filtered(), s.inputText)| == 0 ==>
      var r := Enter(s);
      && !r.isOpen && r.customValueSetEvents == s.customValueSetEvents + 1
      && r.value == (if s.vetoCustomValue then s.value else s.inputText)
  {
  }

  /**
   * Typed text that is exactly an item's label (ignoring case) focuses that
   * item's row, so Enter commits the item and shows its label.
   */
  lemma {:induction false} TypedLabelIsSelectedOnEnter(s: ComboState, text: string)
    requires Valid(s) && s.isOpen && IndexOfLabel(text, FilterItems(s.AllItems(), text)) >= 0
    ensures var t := Input(s, text);
      var it := FilterItems(s.AllItems(), text)[IndexOfLabel(text, FilterItems(s.AllItems(), text))];
      var r := Enter(t);
      && t.focusedIndex >= 0
      && !r.isOpen && r.selectedItem == Some(it) && r.value == ValueOf(it) && r.inputText == Label(it)
  {
    var t := Input(s, text);
    assert t.Filtered() == FilterItems(s.AllItems(), text);
    EnterSelectsFocusedItem(t);
  }

  /**
   * With auto-open disabled the box stays closed while typing; Enter or focus
   * loss then commits the item whose label the text names ignoring case, and
   * the input is normalised to that label.
   */
  lemma {:induction false} AutoOpenDisabledCommitsLabelMatch(s: ComboState, text: string)
    requires Valid(s) && s.autoOpenDisabled && !s.isOpen && IndexOfLabel(text, FilterItems(s.AllItems(), text)) >= 0
    ensures var t := Input(s, text);
      var it := FilterItems(s.AllItems(), text)[IndexOfLabel(text, FilterItems(s.AllItems(), text))];
      && !t.isOpen
      && Enter(t).value == ValueOf(it) && Enter(t).inputText == Label(it) && Enter(t).selectedItem == Some(it)
      && FocusOut(t).value == ValueOf(it) && FocusOut(t).inputText == Label(it)
  {
    var t := Input(s, text);
    assert t.Filtered() == FilterItems(s.AllItems(), text);
  }

  /**
   * With auto-open disabled and no custom values, text that names no item
   * leaves the value alone; Enter keeps the text in the input, focus loss puts
   * the committed value back, and Escape reverts the input to the committed label.
   */
  lemma {:induction false} AutoOpenDisabledRejectsUnmatched(s: ComboState, text: string)
    requires Valid(s) && s.autoOpenDisabled && !s.isOpen && !s.allowCustomValue && s.selectedItem.None?
    requires text != "" && |MatchedByLabel(FilterItems(s.AllItems(), text), text)| == 0
    ensures var t := Input(s, text);
      && Enter(t).value == s.value && Enter(t).inputText == text
      && FocusOut(t).value == s.value && FocusOut(t).inputText == s.value
      && (s.value != text ==> Escape(t).inputText == "" && Escape(t).value == s.value)
  {
    var t := Input(s, text);
    assert t.Filtered() == FilterItems(s.AllItems(), text);
  }

  /**
   * With auto-open disabled, Escape after typing text other than the value
   * puts the committed value back into the input, leaves the value and the
   * selection as they were, and keeps the list closed.
   */
  lemma {:induction false} AutoOpenDisabledEscapeReverts(s: ComboState, text: string)
    requires Valid(s) && s.autoOpenDisabled && !s.isOpen && text != "" && text != s.value
    ensures var e := Escape(Input(s, text));
      && e.value == s.value && e.selectedItem == s.selectedItem && !e.isOpen
      && e.inputText == RevertInputToValue(s).inputText
  {
    var t := Input(s, text);
    assert t.value == s.value && t.selectedItem == s.selectedItem && t.inputText == text;
  }

  /** A new box has the empty value, no items and no selection. */
  lemma Defaults(capacity: int)
    requires capacity >= 1
    ensures var s := Initial(capacity);
      s.value == "" && s.items.None? && s.selectedItem.None? && s.AllItems() == [] && s.focusedIndex == -1
  {
  }

  /** Assigning undefined items leaves an empty list; pushing grows the list by the item. */
  lemma ResetAndPushItems(s: ComboState, x: Item)
    requires Valid(s)
    ensures SetItems(s, None).AllItems() == []
    ensures var e := SetItems(s, Some([]));
      PushItem(e, x).AllItems() == [x]
  {
  }

  /**
   * A value set before the items resolves to the first item committing it
   * once items are assigned: that item becomes the selected item, the input
   * shows its label, and the focus is on its row.
   */
  lemma {:induction false} ValueResolvesWhenItemsArrive(s: ComboState, xs: seq<Item>)
    requires Valid(s) && s.filterText == "" && IndexOfValue(s.value, xs) >= 0
    ensures var r := SetItems(s, Some(xs));
      var i := IndexOfValue(s.value, xs);
      && r.value == s.value && r.selectedItem == Some(xs[i]) && r.focusedIndex == i
      && (s.selectedItem != Some(xs[i]) ==> r.inputText == Label(xs[i]))
  {
    EmptyFilterKeepsAll(xs);
  }

  /** The same resolution happens when the matching item is pushed. */
  lemma {:induction false} ValueResolvesWhenItemPushed(s: ComboState, x: Item)
    requires Valid(s) && s.items.Some? && s.filterText == ""
    requires IndexOfValue(s.value, s.AllItems()) == -1 && ValueOf(x) == s.value
    ensures var r := PushItem(s, x);
      r.selectedItem == Some(x) && r.focusedIndex == |s.AllItems()| && r.value == s.value
  {
    var xs := s.AllItems() + [x];
    IndexOfValueAppend(s.value, s.AllItems(), x);
    EmptyFilterKeepsAll(xs);
  }

  lemma {:induction false} IndexOfValueAppend(v: string, xs: seq<Item>, x: Item)
    requires IndexOfValue(v, xs) == -1 && ValueOf(x) == v
    ensures IndexOfValue(v, xs + [x]) == |xs|
  {
    if |xs| > 0 {
      assert (xs + [x])[1..] == xs[1..] + [x];
      IndexOfValueAppend(v, xs[1..], x);
    }
  }

  /**
   * Setting a value: one an item commits selects that item; otherwise the
   * selection becomes none with exactly one notification, and the value is
   * kept only when custom values are allowed (or no items are known yet),
   * else it is emptied.
   */
  lemma SetValueOutcome(s: ComboState, v: string)
    requires Valid(s) && v != s.value
    ensures var r := SetValue(s, Some(v));
      var i := IndexOfValue(v, s.AllItems());
      && (i >= 0 ==> r.value == v && r.selectedItem == Some(s.AllItems()[i]))
      && (i == -1 ==> r.selectedItem.None? && r.selectedItemChanges == s.selectedItemChanges + 1)
      && (i == -1 && (s.allowCustomValue || s.items.None?) ==> r.value == v)
      && (i == -1 && !s.allowCustomValue && s.items.Some? ==> r.value == "")
  {
  }

  /** Assigning the current value changes nothing (a property set to its own value). */
  lemma SetSameValueIsNoOp(s: ComboState)
    ensures SetValue(s, Some(s.value)) == s
  {
  }

  /** Assigning a new selected item writes its value and label into the box. */
  lemma SetSelectedItemWritesValue(s: ComboState, it: Item)
    requires Valid(s) && s.selectedItem != Some(it)
    ensures var r := SetSelectedItem(s, Some(it));
      r.value == ValueOf(it) && r.inputText == Label(it) && r.selectedItem == Some(it)
  {
  }

  /** A null or undefined value, or `_clear`, leaves no selected item, and the list closed stays closed. */
  lemma NullValueAndClearDeselect(s: ComboState)
    requires Valid(s) && IndexOfValue("", s.AllItems()) == -1
    ensures SetValue(s, None).selectedItem.None?
    ensures Clear(s).selectedItem.None? && Clear(s).isOpen == s.isOpen
  {
  }

  /**
   * `custom-value-set` fires on a commit exactly when no row is focused, the
   * input is not empty, custom values are allowed and no filtered item is
   * labelled like the input; and at most once.
   */
  lemma CustomValueSetFiresExactly(s: ComboState)
    requires Valid(s)
    ensures Commit(s).customValueSetEvents == s.customValueSetEvents +
      (if s.focusedIndex == -1 && s.inputText != "" && s.allowCustomValue
          && |MatchedByLabel(s.Filtered(), s.inputText)| == 0 then 1 else 0)
  {
  }

  /** Clicking an item never fires `custom-value-set`; it commits the clicked item. */
  lemma ClickNeverFiresCustomValueSet(s: ComboState, i: int)
    requires Valid(s) && s.isOpen && 0 <= i < |s.Filtered()|
    ensures var r := ClickItem(s, i);
      r.customValueSetEvents == s.customValueSetEvents && r.selectedItem == Some(s.Filtered()[i])
      && r.value == ValueOf(s.Filtered()[i])
  {
  }

  /**
   * With custom values allowed, closing with no focus on text that is an
   * item's label keeps the earlier custom value and shows it again, without
   * firing `custom-value-set`.
   */
  lemma CloseOnLabelKeepsCustomValue(s: ComboState)
    requires Valid(s) && s.isOpen && s.allowCustomValue && s.focusedIndex == -1 && s.selectedItem.None?
    requires s.inputText != "" && |MatchedByLabel(s.Filtered(), s.inputText)| > 0
    ensures var r := Close(s);
      r.value == s.value && r.inputText == s.value && r.customValueSetEvents == s.customValueSetEvents
  {
  }

  /** Closing a closed box and opening an open one change nothing. */
  lemma OpenCloseIdempotent(s: ComboState)
    requires Valid(s)
    ensures s.isOpen ==> Open(s) == s
    ensures !s.isOpen ==> Close(s) == s
  {
  }
}
