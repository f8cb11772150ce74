/**
 * The combo box element: its selection, filter and keyboard state held in
 * fields that its event handlers update in place. Every handler is proved to
 * leave the element in the state the matching transition of module
 * ComboBoxModel computes from the state before the event.
 */
module ComboBoxElement {
  import opened Optional
  import opened ComboItems
  import opened VirtualWindow
  import M = ComboBoxModel

  class ComboBox {
    var items: Option<seq<Item>>
    var value: string
    var selectedItem: Option<Item>
    var isOpen: bool
    var focusedIndex: int
    var inputText: string
    var filterText: string
    var allowCustomValue: bool
    var autoOpenDisabled: bool
    var firstVisibleIndex: int
    var capacity: int
    var vetoCustomValue: bool
    var customValueSetEvents: nat
    var selectedItemChanges: nat

    /** A snapshot of the fields. */
    function State(): M.ComboState
      reads this
    {
      M.ComboState(items, value, selectedItem, isOpen, focusedIndex, inputText, filterText,
                   allowCustomValue, autoOpenDisabled, firstVisibleIndex, capacity,
                   vetoCustomValue, customValueSetEvents, selectedItemChanges)
    }

    /** A new element whose viewport shows `capacity` rows. */
    constructor (capacity: int)
      requires capacity >= 1
      ensures State() == M.Initial(capacity)
    {
      items := None;
      value := "";
      selectedItem := None;
      isOpen := false;
      focusedIndex := -1;
      inputText := "";
      filterText := "";
      allowCustomValue := false;
      autoOpenDisabled := false;
      firstVisibleIndex := 0;
      this.capacity := capacity;
      vetoCustomValue := false;
      customValueSetEvents := 0;
      selectedItemChanges := 0;
    }

    method SelectedItemEffects()
      modifies this
      ensures State() == M.SelectedItemEffects(old(State()))
    {
      match selectedItem {
        case Some(it) =>
          value := ValueOf(it);
          inputText := Label(it);
        case None =>
          if items.Some? {
            var v := if allowCustomValue then value else "";
            value := v;
            inputText := v;
          }
      }
      if items.Some? {
        focusedIndex := if selectedItem.Some? then IndexOfItem(selectedItem.value, State().Filtered()) else -1;
      }
    }

    /** Assigning the `selectedItem` property. */
    method SetSelectedItem(item: Option<Item>)
      modifies this
      ensures State() == M.SetSelectedItem(old(State()), item)
    {
      if item == selectedItem {
        return;
      }
      selectedItem := item;
      selectedItemChanges := selectedItemChanges + 1;
      SelectedItemEffects();
    }

    /** Assigning the `value` property; `None` stands for null or undefined. */
    method SetValue(v: Option<string>)
      modifies this
      ensures State() == M.SetValue(old(State()), v)
    {
      match v
      case None =>
        value := "";
        SetSelectedItem(None);
      case Some(x) =>
        if x == value {
          return;
        }
        value := x;
        var all := State().AllItems();
        var i := IndexOfValue(x, all);
        if i >= 0 {
          SetSelectedItem(Some(all[i]));
        } else {
          selectedItem := None;
          selectedItemChanges := selectedItemChanges + 1;
          SelectedItemEffects();
          if allowCustomValue {
            inputText := value;
          }
        }
    }

    method ItemsChanged()
      requires capacity >= 1 && (selectedItem.Some? ==> value == ValueOf(selectedItem.value))
      modifies this
      ensures State() == M.ItemsChanged(old(State()))
    {
      var all := State().AllItems();
      var i := IndexOfValue(value, all);
      if i >= 0 {
        SetSelectedItem(Some(all[i]));
      }
      var f := State().Filtered();
      focusedIndex := IndexOfValue(value, f);
      firstVisibleIndex := ClampFirst(firstVisibleIndex, |f|, capacity);
    }

    /** Assigning the `items` property; `None` stands for undefined. */
    method SetItems(xs: Option<seq<Item>>)
      requires M.Valid(State())
      modifies this
      ensures State() == M.SetItems(old(State()), xs)
    {
      items := xs;
      ItemsChanged();
    }

    /** `push('items', x)` on an assigned collection. */
    method PushItem(x: Item)
      requires M.Valid(State()) && items.Some?
      modifies this
      ensures State() == M.PushItem(old(State()), x)
    {
      items := Some(items.value + [x]);
      ItemsChanged();
    }

    method FilterChanged(f: string)
      requires capacity >= 1 && 0 <= firstVisibleIndex && (selectedItem.Some? ==> value == ValueOf(selectedItem.value))
      modifies this
      ensures State() == M.FilterChanged(old(State()), f)
    {
      filterText := f;
      var view := State().Filtered();
      var fi := if isOpen || autoOpenDisabled then IndexOfLabel(f, view) else IndexOfValue(value, view);
      var first := ClampFirst(firstVisibleIndex, |view|, capacity);
      focusedIndex := fi;
      firstVisibleIndex := if fi >= 0 then ScrollIntoView(first, capacity, |view|, fi) else first;
    }

    /** Opening the list. */
    method Open()
      requires M.Valid(State())
      modifies this
      ensures State() == M.Open(old(State()))
    {
      if isOpen {
        return;
      }
      var view := State().Filtered();
      var fi := IndexOfValue(value, view);
      isOpen := true;
      focusedIndex := fi;
      firstVisibleIndex := if fi >= 0 then ScrollIntoView(firstVisibleIndex, capacity, |view|, fi) else 0;
    }

    /** Committing what the input holds, then clearing the filter. */
    method Commit()
      requires M.Valid(State())
      modifies this
      ensures State() == M.Commit(old(State()))
    {
      CommitInput();
      FilterChanged("");
    }

    method CommitInput()
      requires M.Valid(State())
      modifies this
      ensures State() == M.CommitInput(old(State()))
    {
      ghost var s := State();
      var view := State().Filtered();
      if focusedIndex >= 0 {
        var it := view[focusedIndex];
        SetSelectedItem(Some(it));
        inputText := Label(it);
        assert State() == M.SetSelectedItem(s, Some(it)).(inputText := Label(it));
      } else if inputText == "" {
        CommitEmpty();
      } else {
        CommitTyped();
      }
    }

    method CommitEmpty()
      requires M.Valid(State()) && focusedIndex < 0 && inputText == ""
      modifies this
      ensures State() == M.CommitInput(old(State()))
    {
      SetSelectedItem(None);
      if allowCustomValue {
        SetValue(Some(""));
      }
    }

    method CommitTyped()
      requires M.Valid(State()) && focusedIndex < 0 && inputText != ""
      modifies this
      ensures State() == M.CommitInput(old(State()))
    {
      var matched := MatchedByLabel(State().Filtered(), inputText);
      if allowCustomValue && |matched| == 0 {
        customValueSetEvents := customValueSetEvents + 1;
        if !vetoCustomValue {
          SetValue(Some(inputText));
        }
      } else if !allowCustomValue && !isOpen && |matched| > 0 {
        SetValue(Some(ValueOf(matched[0])));
      } else {
        inputText := if selectedItem.Some? then Label(selectedItem.value) else value;
      }
    }

    /** Closing the list, which commits. */
    method Close()
      requires M.Valid(State())
      modifies this
      ensures State() == M.Close(old(State()))
    {
      if !isOpen {
        return;
      }
      isOpen := false;
      Commit();
    }

    method Navigate(i: int)
      requires M.Valid(State()) && -1 <= i < |State().Filtered()|
      modifies this
      ensures State() == M.Navigate(old(State()), i)
    {
      if i >= 0 {
        var view := State().Filtered();
        inputText := Label(view[i]);
        firstVisibleIndex := ScrollIntoView(firstVisibleIndex, capacity, |view|, i);
      }
      focusedIndex := i;
    }

    /** The ArrowDown key. */
    method ArrowDown()
      requires M.Valid(State())
      modifies this
      ensures State() == M.ArrowDown(old(State()))
    {
      if !isOpen {
        Open();
      } else {
        Navigate(M.Min(|State().Filtered()| - 1, focusedIndex + 1));
      }
    }

    /** The ArrowUp key. */
    method ArrowUp()
      requires M.Valid(State())
      modifies this
      ensures State() == M.ArrowUp(old(State()))
    {
      if !isOpen {
        Open();
      } else if focusedIndex > -1 {
        Navigate(M.Max(0, focusedIndex - 1));
      } else {
        Navigate(|State().Filtered()| - 1);
      }
    }

    /** The Enter key. */
    method Enter()
      requires M.Valid(State())
      modifies this
      ensures State() == M.Enter(old(State()))
    {
      if !allowCustomValue && inputText != "" && focusedIndex < 0 {
        return;
      }
      if isOpen {
        Close();
      } else {
        Commit();
      }
    }

    method RevertInputToValue()
      modifies this
      ensures State() == M.RevertInputToValue(old(State()))
    {
      if allowCustomValue && selectedItem.None? {
        inputText := value;
      } else {
        inputText := if selectedItem.Some? then Label(selectedItem.value) else "";
      }
    }

    method Cancel()
      requires M.Valid(State())
      modifies this
      ensures State() == M.Cancel(old(State()))
    {
      RevertInputToValue();
      isOpen := false;
      FilterChanged("");
    }

    /** The Escape key. */
    method Escape()
      requires M.Valid(State())
      modifies this
      ensures State() == M.Escape(old(State()))
    {
      if autoOpenDisabled {
        if isOpen || (value != inputText && |inputText| > 0) {
          focusedIndex := -1;
          Cancel();
        }
      } else if isOpen {
        if focusedIndex > -1 {
          focusedIndex := -1;
          if filterText != "" {
            inputText := filterText;
          } else {
            RevertInputToValue();
          }
        } else {
          Cancel();
        }
      }
    }

    /** Text typed into the input. */
    method Input(text: string)
      requires M.Valid(State())
      modifies this
      ensures State() == M.Input(old(State()), text)
    {
      inputText := text;
      if !isOpen && !autoOpenDisabled {
        Open();
      }
      FilterChanged(text);
    }

    /** Focus leaving the element. */
    method FocusOut()
      requires M.Valid(State())
      modifies this
      ensures State() == M.FocusOut(old(State()))
    {
      if isOpen {
        Close();
      } else {
        Commit();
      }
    }

    /** The clear action. */
    method Clear()
      requires M.Valid(State())
      modifies this
      ensures State() == M.Clear(old(State()))
    {
      SetSelectedItem(None);
      if allowCustomValue {
        SetValue(Some(""));
      }
    }

    /** A click on row `i` of the open list. */
    method ClickItem(i: int)
      requires M.Valid(State()) && isOpen && 0 <= i < |State().Filtered()|
      modifies this
      ensures State() == M.ClickItem(old(State()), i)
    {
      focusedIndex := i;
      Close();
    }

    /** Setting the `allowCustomValue` property; nothing else reacts to it. */
    method SetAllowCustomValue(b: bool)
      modifies this
      ensures State() == old(State()).(allowCustomValue := b)
    {
      allowCustomValue := b;
    }

    /** Setting the `autoOpenDisabled` property; nothing else reacts to it. */
    method SetAutoOpenDisabled(b: bool)
      modifies this
      ensures State() == old(State()).(autoOpenDisabled := b)
    {
      autoOpenDisabled := b;
    }

    /** Whether a `custom-value-set` listener calls `preventDefault`. */
    method SetCustomValueVeto(b: bool)
      modifies this
      ensures State() == old(State()).(vetoCustomValue := b)
    {
      vetoCustomValue := b;
    }

    /** `scrollToIndex(i)`: the window starts at row `i`, held within the scrollable range. */
    method ScrollToIndex(i: int)
      requires M.Valid(State())
      modifies this
      ensures State() == old(State()).(firstVisibleIndex := ClampFirst(i, |State().Filtered()|, capacity))
      ensures M.Valid(State())
    {
      firstVisibleIndex := ClampFirst(i, |State().Filtered()|, capacity);
    }
  }
}
