/**
 * The combo box's selection and keyboard state machine as transitions on a
 * snapshot of its state. Each transition is one event the box handles (a key,
 * typed text, focus loss, or an assignment to one of its properties); the
 * class in module ComboBoxElement performs them in place and is proved to
 * agree with them.
 */
module ComboBoxModel {
  import opened Optional
  import opened ComboItems
  import opened VirtualWindow

  datatype ComboState = ComboState(
    items: Option<seq<Item>>,      // `undefined` until assigned
    value: string,                 // the committed value
    selectedItem: Option<Item>,    // the item the value resolves to, if any
    isOpen: bool,
    focusedIndex: int,             // index into the filtered view, -1 for none
    inputText: string,             // what the input element shows
    filterText: string,
    allowCustomValue: bool,
    autoOpenDisabled: bool,
    firstVisibleIndex: int,
    capacity: int,                 // rows the viewport shows, measured by the host
    vetoCustomValue: bool,         // a `custom-value-set` listener prevents the default
    customValueSetEvents: nat,     // `custom-value-set` events dispatched
    selectedItemChanges: nat)      // selected-item-change notifications
  {
    function AllItems(): seq<Item>
    {
      if items.Some? then items.value else []
    }

    /** The items the list shows and the keys navigate: those matching the filter text. */
    function Filtered(): seq<Item>
    {
      FilterItems(AllItems(), filterText)
    }
  }

  /**
   * The state every transition keeps: a positive capacity, a focused index that
   * is -1 or a row of the filtered view, a window that can be scrolled to, and a
   * selected item that commits the value.
   */
  predicate Valid(s: ComboState)
  {
    && s.capacity >= 1
    && -1 <= s.focusedIndex < |s.Filtered()|
    && 0 <= s.firstVisibleIndex <= MaxFirst(|s.Filtered()|, s.capacity)
    && (s.selectedItem.Some? ==> s.value == ValueOf(s.selectedItem.value))
  }

  /** A freshly created box: no items, empty value, closed. */
  function Initial(capacity: int): (s: ComboState)
    requires capacity >= 1
    ensures Valid(s) && s.items.None? && s.value == "" && s.selectedItem.None? && !s.isOpen
  {
    ComboState(None, "", None, false, -1, "", "", false, false, 0, capacity, false, 0, 0)
  }

  /** The configuration and the collection, which selection and navigation never change. */
  predicate SameSetup(a: ComboState, b: ComboState)
  {
    a.items == b.items && a.allowCustomValue == b.allowCustomValue && a.autoOpenDisabled == b.autoOpenDisabled
    && a.capacity == b.capacity && a.vetoCustomValue == b.vetoCustomValue
  }

  function Min(a: int, b: int): int { if a <= b then a else b }
  function Max(a: int, b: int): int { if a >= b then a else b }

  /**
   * What a change of the selected item does to the rest of the state: a
   * selected item writes its value and label; no selected item, once items are
   * known, empties a value that custom values cannot keep and shows the value.
   * With items known the focus moves to the selected item's row.
   */
  function SelectedItemEffects(s: ComboState): (r: ComboState)
    ensures SameSetup(r, s) && r.filterText == s.filterText && r.isOpen == s.isOpen
    ensures r.selectedItem == s.selectedItem && r.firstVisibleIndex == s.firstVisibleIndex
    ensures r.customValueSetEvents == s.customValueSetEvents && r.selectedItemChanges == s.selectedItemChanges
    ensures r.selectedItem.Some? ==> r.value == ValueOf(r.selectedItem.value) && r.inputText == Label(r.selectedItem.value)
    ensures r.selectedItem.None? && s.items.Some? && !s.allowCustomValue ==> r.value == "" && r.inputText == ""
    ensures r.selectedItem.None? && (s.items.None? || s.allowCustomValue) ==> r.value == s.value
    ensures s.items.Some? ==>
      r.focusedIndex == (if r.selectedItem.Some? then IndexOfItem(r.selectedItem.value, r.Filtered()) else -1)
    ensures s.items.None? ==> r.focusedIndex == s.focusedIndex
  {
    var s1 :=
      match s.selectedItem
      case Some(it) => s.(value := ValueOf(it), inputText := Label(it))
      case None =>
        if s.items.Some? then
          var v := if s.allowCustomValue then s.value else "";
          s.(value := v, inputText := v)
        else s;
    if s1.items.Some? then
      s1.(focusedIndex := if s1.selectedItem.Some? then IndexOfItem(s1.selectedItem.value, s1.Filtered()) else -1)
    else s1
  }

  /**
   * Assigning the `selectedItem` property: a new item (or none) notifies once
   * and takes effect; assigning the current one changes nothing.
   */
  function SetSelectedItem(s: ComboState, item: Option<Item>): (r: ComboState)
    ensures SameSetup(r, s) && r.filterText == s.filterText && r.isOpen == s.isOpen
    ensures r.selectedItem == item && r.firstVisibleIndex == s.firstVisibleIndex
    ensures r.customValueSetEvents == s.customValueSetEvents
    ensures r.selectedItemChanges == s.selectedItemChanges + (if item == s.selectedItem then 0 else 1)
    ensures item.Some? && item != s.selectedItem ==> r.value == ValueOf(item.value) && r.inputText == Label(item.value)
    ensures Valid(s) ==> Valid(r)
  {
    if item == s.selectedItem then s
    else SelectedItemEffects(s.(selectedItem := item, selectedItemChanges := s.selectedItemChanges + 1))
  }

  /**
   * Assigning the `value` property. A value equal to the current one changes
   * nothing. `None` (null or undefined) clears the selection. Otherwise the
   * value resolves to the first item committing it; with no such item the
   * selection becomes none (notifying once even when it already was none), and
   * the value is emptied unless custom values are allowed or no items are known.
   */
  function SetValue(s: ComboState, v: Option<string>): (r: ComboState)
    ensures SameSetup(r, s) && r.filterText == s.filterText && r.isOpen == s.isOpen
    ensures r.firstVisibleIndex == s.firstVisibleIndex && r.customValueSetEvents == s.customValueSetEvents
    ensures Valid(s) ==> Valid(r)
    ensures v.Some? && v.value != s.value && IndexOfValue(v.value, s.AllItems()) == -1 ==> r.selectedItem.None?
  {
    match v
    case None => SetSelectedItem(s.(value := ""), None)
    case Some(x) =>
      if x == s.value then s
      else
        var s1 := s.(value := x);
        var i := IndexOfValue(x, s1.AllItems());
        if i >= 0 then SetSelectedItem(s1, Some(s1.AllItems()[i]))
        else
          var s2 := SelectedItemEffects(s1.(selectedItem := None, selectedItemChanges := s1.selectedItemChanges + 1));
          if s2.allowCustomValue then s2.(inputText := s2.value) else s2
  }

  /** Re-resolves the value against a new or grown collection (`items` assigned or pushed to). */
  function ItemsChanged(s: ComboState): (r: ComboState)
    requires s.capacity >= 1 && (s.selectedItem.Some? ==> s.value == ValueOf(s.selectedItem.value))
    ensures Valid(r)
    ensures SameSetup(r, s) && r.filterText == s.filterText && r.isOpen == s.isOpen && r.value == s.value
    ensures r.focusedIndex == IndexOfValue(s.value, r.Filtered())
  {
    var i := IndexOfValue(s.value, s.AllItems());
    var s1 := if i >= 0 then SetSelectedItem(s, Some(s.AllItems()[i])) else s;
    s1.(focusedIndex := IndexOfValue(s1.value, s1.Filtered()),
        firstVisibleIndex := ClampFirst(s1.firstVisibleIndex, |s1.Filtered()|, s1.capacity))
  }

  /** Assigning the `items` property; `None` stands for `undefined`. */
  function SetItems(s: ComboState, items: Option<seq<Item>>): (r: ComboState)
    requires Valid(s)
    ensures Valid(r) && r.items == items && r.AllItems() == (if items.Some? then items.value else [])
  {
    ItemsChanged(s.(items := items))
  }

  /** `push('items', x)`: appends to the assigned collection. */
  function PushItem(s: ComboState, x: Item): (r: ComboState)
    requires Valid(s) && s.items.Some?
    ensures Valid(r) && r.AllItems() == s.AllItems() + [x]
  {
    ItemsChanged(s.(items := Some(s.items.value + [x])))
  }

  /** The filter text changed: the focus follows the typed label while open, else the value. */
  function FilterChanged(s: ComboState, f: string): (r: ComboState)
    requires s.capacity >= 1 && 0 <= s.firstVisibleIndex && (s.selectedItem.Some? ==> s.value == ValueOf(s.selectedItem.value))
    ensures Valid(r)
    ensures SameSetup(r, s) && r.filterText == f && r.isOpen == s.isOpen
    ensures r.value == s.value && r.selectedItem == s.selectedItem && r.inputText == s.inputText
    ensures r.customValueSetEvents == s.customValueSetEvents && r.selectedItemChanges == s.selectedItemChanges
    ensures r.focusedIndex ==
      if s.isOpen || s.autoOpenDisabled then IndexOfLabel(f, r.Filtered()) else IndexOfValue(s.value, r.Filtered())
    ensures r.focusedIndex >= 0 ==> r.firstVisibleIndex <= r.focusedIndex <= r.firstVisibleIndex + r.capacity - 1
  {
    var s1 := s.(filterText := f);
    var n := |s1.Filtered()|;
    var fi := if s1.isOpen || s1.autoOpenDisabled then IndexOfLabel(f, s1.Filtered()) else IndexOfValue(s1.value, s1.Filtered());
    var first := ClampFirst(s1.firstVisibleIndex, n, s1.capacity);
    s1.(focusedIndex := fi, firstVisibleIndex := if fi >= 0 then ScrollIntoView(first, s1.capacity, n, fi) else first)
  }

  /**
   * Opening the list focuses the row of the item the value names, scrolled
   * into view, or no row with the list scrolled to the top.
   */
  function Open(s: ComboState): (r: ComboState)
    requires Valid(s)
    ensures Valid(r) && r.isOpen
    ensures SameSetup(r, s) && r.filterText == s.filterText && r.inputText == s.inputText
    ensures r.value == s.value && r.selectedItem == s.selectedItem
    ensures r.customValueSetEvents == s.customValueSetEvents && r.selectedItemChanges == s.selectedItemChanges
    ensures !s.isOpen ==> r.focusedIndex == IndexOfValue(s.value, s.Filtered())
    ensures !s.isOpen && r.focusedIndex == -1 ==> r.firstVisibleIndex == 0
    ensures r.focusedIndex >= 0 && !s.isOpen ==> r.firstVisibleIndex <= r.focusedIndex <= r.firstVisibleIndex + r.capacity - 1
    ensures s.isOpen ==> r == s
  {
    if s.isOpen then s
    else
      var fi := IndexOfValue(s.value, s.Filtered());
      s.(isOpen := true, focusedIndex := fi,
         firstVisibleIndex := if fi >= 0 then ScrollIntoView(s.firstVisibleIndex, s.capacity, |s.Filtered()|, fi) else 0)
  }

  /**
   * Committing what the input holds, when the list closes or on Enter and
   * focus loss with the list closed: a focused row is selected; empty input
   * clears the selection (and the value); text that no item's label matches
   * becomes a custom value when those are allowed, after a `custom-value-set`
   * event that a listener may veto; with the list closed and no custom values,
   * text naming an item's label selects that item; anything else puts the
   * committed value back into the input. The filter is then cleared.
   */
  function Commit(s: ComboState): (r: ComboState)
    requires Valid(s)
    ensures Valid(r) && SameSetup(r, s) && r.isOpen == s.isOpen && r.filterText == ""
  {
    FilterChanged(CommitInput(s), "")
  }

  /** The commit's effect on the selection, the value and the input, before the filter is cleared. */
  function CommitInput(s: ComboState): (r: ComboState)
    requires Valid(s)
    ensures Valid(r) && SameSetup(r, s) && r.isOpen == s.isOpen
  {
    var f := s.Filtered();
    if s.focusedIndex >= 0 then
      var it := f[s.focusedIndex];
      SetSelectedItem(s, Some(it)).(inputText := Label(it))
    else if s.inputText == "" then
      var c := SetSelectedItem(s, None);
      if c.allowCustomValue then SetValue(c, Some("")) else c
    else
      var matched := MatchedByLabel(f, s.inputText);
      if s.allowCustomValue && |matched| == 0 then
        var e := s.(customValueSetEvents := s.customValueSetEvents + 1);
        if e.vetoCustomValue then e else SetValue(e, Some(s.inputText))
      else if !s.allowCustomValue && !s.isOpen && |matched| > 0 then
        SetValue(s, Some(ValueOf(matched[0])))
      else
        s.(inputText := if s.selectedItem.Some? then Label(s.selectedItem.value) else s.value)
  }

  /** Closing the list commits; closing a closed list changes nothing. */
  function Close(s: ComboState): (r: ComboState)
    requires Valid(s)
    ensures Valid(r) && !r.isOpen && SameSetup(r, s)
    ensures !s.isOpen ==> r == s
  {
    if !s.isOpen then s else Commit(s.(isOpen := false))
  }

  /** Moving the focus to row `i` writes its label into the input and scrolls it into view. */
  function Navigate(s: ComboState, i: int): (r: ComboState)
    requires Valid(s) && -1 <= i < |s.Filtered()|
    ensures Valid(r) && r.focusedIndex == i
    ensures i >= 0 ==> r.inputText == Label(s.Filtered()[i])
    ensures i >= 0 ==> r.firstVisibleIndex <= i <= r.firstVisibleIndex + r.capacity - 1
    ensures i < 0 ==> r == s.(focusedIndex := i)
    ensures i >= 0 ==> r == s.(focusedIndex := i, inputText := Label(s.Filtered()[i]), firstVisibleIndex := r.firstVisibleIndex)
  {
    if i < 0 then s.(focusedIndex := i)
    else
      s.(focusedIndex := i, inputText := Label(s.Filtered()[i]),
         firstVisibleIndex := ScrollIntoView(s.firstVisibleIndex, s.capacity, |s.Filtered()|, i))
  }

  /** ArrowDown opens a closed list; in an open one it focuses the next row, stopping at the last. */
  function ArrowDown(s: ComboState): (r: ComboState)
    requires Valid(s)
    ensures Valid(r)
  {
    if !s.isOpen then Open(s)
    else Navigate(s, Min(|s.Filtered()| - 1, s.focusedIndex + 1))
  }

  /** ArrowUp opens a closed list; in an open one it focuses the previous row (the last from none), stopping at the first. */
  function ArrowUp(s: ComboState): (r: ComboState)
    requires Valid(s)
    ensures Valid(r)
  {
    if !s.isOpen then Open(s)
    else Navigate(s, if s.focusedIndex > -1 then Max(0, s.focusedIndex - 1) else |s.Filtered()| - 1)
  }

  /**
   * Enter: without custom values, text that focuses no row is refused and
   * nothing happens; otherwise an open list closes (committing) and a closed one commits.
   */
  function Enter(s: ComboState): (r: ComboState)
    requires Valid(s)
    ensures Valid(r)
  {
    if !s.allowCustomValue && s.inputText != "" && s.focusedIndex < 0 then s
    else if s.isOpen then Close(s)
    else Commit(s)
  }

  /** The input shows the committed value: the custom value, or the selected item's label. */
  function RevertInputToValue(s: ComboState): (r: ComboState)
  {
    if s.allowCustomValue && s.selectedItem.None? then s.(inputText := s.value)
    else s.(inputText := if s.selectedItem.Some? then Label(s.selectedItem.value) else "")
  }

  /** The input shows the typed filter again, or the committed value when nothing was typed. */
  function RevertInput(s: ComboState): (r: ComboState)
  {
    if s.filterText != "" then s.(inputText := s.filterText) else RevertInputToValue(s)
  }

  /** Cancelling: the input shows the committed value and the list closes without committing. */
  function Cancel(s: ComboState): (r: ComboState)
    requires Valid(s)
    ensures Valid(r) && !r.isOpen && r.value == s.value && r.selectedItem == s.selectedItem
  {
    FilterChanged(RevertInputToValue(s).(isOpen := false), "")
  }

  /**
   * Escape. With the list open, a focused row only loses focus and the input
   * reverts to the typed text; with no focus the edit is cancelled and the list
   * closes. With auto-open disabled, an open list or an uncommitted edit is
   * cancelled. Nothing else happens.
   */
  function Escape(s: ComboState): (r: ComboState)
    requires Valid(s)
    ensures Valid(r)
  {
    if s.autoOpenDisabled then
      if s.isOpen || (s.value != s.inputText && |s.inputText| > 0) then Cancel(s.(focusedIndex := -1)) else s
    else if s.isOpen then
      if s.focusedIndex > -1 then RevertInput(s.(focusedIndex := -1)) else Cancel(s)
    else s
  }

  /** Typed text: the input shows it, the list opens unless auto-open is disabled, and the filter follows it. */
  function Input(s: ComboState, text: string): (r: ComboState)
    requires Valid(s)
    ensures Valid(r) && r.inputText == text && r.filterText == text
    ensures r.isOpen == (s.isOpen || !s.autoOpenDisabled)
  {
    var s1 := s.(inputText := text);
    var s2 := if !s1.isOpen && !s1.autoOpenDisabled then Open(s1) else s1;
    FilterChanged(s2, text)
  }

  /** Focus leaving the box closes an open list, or commits the input of a closed one. */
  function FocusOut(s: ComboState): (r: ComboState)
    requires Valid(s)
    ensures Valid(r) && !r.isOpen
  {
    if s.isOpen then Close(s) else Commit(s)
  }

  /** `_clear`: no selected item, and an empty value when custom values are allowed. */
  function Clear(s: ComboState): (r: ComboState)
    requires Valid(s)
    ensures Valid(r) && r.isOpen == s.isOpen
    ensures IndexOfValue("", s.AllItems()) == -1 ==> r.selectedItem.None?
  {
    var s1 := SetSelectedItem(s, None);
    if s1.allowCustomValue then SetValue(s1, Some("")) else s1
  }

  /** Clicking row `i` of the open list focuses it and closes the list, committing it. */
  function ClickItem(s: ComboState, i: int): (r: ComboState)
    requires Valid(s) && s.isOpen && 0 <= i < |s.Filtered()|
    ensures Valid(r) && !r.isOpen
  {
    Close(s.(focusedIndex := i))
  }
}
