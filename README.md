# Combo box and number field: a verified model

This project models two pieces of the Vaadin web components.

**The combo box's selection and keyboard state machine.** A combo box holds:

- a collection of items, each a string or a `{label, value}` record;
- a committed `value` and the `selectedItem` it resolves to;
- whether the list is open, and the focused row of the filtered view;
- the text of the input and the filter typed into it;
- the `allowCustomValue` and `autoOpenDisabled` settings;
- the visible window of the list: its first row and the number of rows it shows.

Keys (ArrowDown, ArrowUp, Enter, Escape), typing, focus loss, clicks and property assignments move the box between states. The component's implementation file is not part of this model. Its behaviour is taken from the assertions of its tests, `keyboard.test.js` and `basic.test.js`. Where the tests are silent, it follows the component's documented behaviour; one example is that Escape never commits.

The model has four parts:

- `ComboItems` holds the items and the pure queries over them: labels, values, the case-insensitive filter, and the index lookups.
- `VirtualWindow` holds the scroll rule of the list.
- `ComboBoxModel` holds every event as a transition on a snapshot of the box's state.
- `ComboBoxElement.ComboBox` is the element itself. It is a class whose handlers update its fields in place. Each handler is proved to leave exactly the state the matching transition computes.

`ComboBoxProperties` proves, for every valid state, what the tests assert for particular ones. `ComboBoxScenarios` replays two test scenarios with the tests' own numbers.

**The number field's stepping rule** (`vaadin-number-field.js`). ArrowUp and ArrowDown snap the value to the grid `min + k·step`, move it one step, and pull a value outside `[min, max]` back to the bound it crossed. An empty field has its own start point.

The code multiplies decimals away before it computes (lines 298-303). The model works directly in that scaled integer space:

- values are integers;
- an empty field is `None`;
- an absent `min` or `max` stands for JavaScript `undefined`, so `== null` holds of it and every ordering comparison with it is false.

JavaScript's `%` is modelled as a truncating remainder, `TruncRem`. `NumberStep` holds the pure functions. They take a `Rule`: `AsWritten` measures the margin with the truncating `%`, as the code does, and `Corrected` with the floored remainder (see Findings). `NumberField.NumberFieldElement` is the element with its `_incrementValue` cascade, and it runs on the rule as written.

The combo box's `opened` property is the field `isOpen`, because `opened` is a reserved word in Dafny.

## Model

| member | source | states |
|---|---|---|
| NumberStep.TruncRem | packages/number-field/src/vaadin-number-field.js:305 | JavaScript `%`: the remainder has the sign of the dividend and a magnitude below the divisor's, differs from the dividend by a multiple of the divisor, and agrees with the mathematical remainder on non-negative operands |
| NumberStep.EffectiveStep | packages/number-field/src/vaadin-number-field.js:295 | `step || 1`: 1 when the step is unset or zero, the step itself otherwise |
| NumberStep.GridBase | packages/number-field/src/vaadin-number-field.js:296 | the grid starts at the minimum, or at 0 when there is none |
| NumberStep.Margin | packages/number-field/src/vaadin-number-field.js:305 | the margin `(value - min) % step` differs from `value - min` by a multiple of the step under either rule; under the corrected rule it is the floored remainder, and as written it is the usual remainder when the value is at or above the grid base |
| NumberStep.GetIncrement | packages/number-field/src/vaadin-number-field.js:294-314 | `_getIncrement`: a zero `incr` returns the value; any other `incr` lands on the grid `min + k·step` under either rule; under the corrected rule with a non-negative step, an upward step moves up by at most one step and a downward one down by at most one step. StepUpIsNextGridPoint and StepDownIsPreviousGridPoint pin the result to the next or previous grid point |
| NumberStep.StayIsIdentity | packages/number-field/src/vaadin-number-field.js:311-312 | with `incr` 0, `_getIncrement` returns the value unchanged, both as written and corrected |
| NumberStep.StepUpIsNextGridPoint | packages/number-field/src/vaadin-number-field.js:305-308 | for a non-negative step, stepping up gives the least grid point strictly above the value, at most one step away; for every value under the corrected rule, and for values at or above the grid base as written |
| NumberStep.StepDownIsPreviousGridPoint | packages/number-field/src/vaadin-number-field.js:305-310 | for a non-negative step, stepping down gives the greatest grid point strictly below the value, and a value on the grid moves down by exactly one step; for every value under the corrected rule, and for values at or above the grid base as written |
| NumberStep.AsWrittenAgreesAboveBase | packages/number-field/src/vaadin-number-field.js:294-314 | for values at or above the grid base, `_getIncrement` as written and the corrected rule give the same result |
| NumberStep.AsWrittenStepsWrongWayBelowBase | packages/number-field/src/vaadin-number-field.js:305-310 | with no minimum and step 3, as written, stepping down from -4 gives -3 (upwards) and stepping up gives 0 (skipping -3); the corrected rule gives -6 and -3 |
| NumberStep.AsWrittenDisablesIncreaseBelowBase | packages/number-field/src/vaadin-number-field.js:342-346 | as written, with no minimum, maximum -2 and step 3, the increase button is disabled at -4 (it checks 0 against the maximum); under the corrected rule it is enabled (it checks -3) |
| NumberStep.IncrementIsInsideTheLimits | packages/number-field/src/vaadin-number-field.js:331-339 | `_incrementIsInsideTheLimits`: an absent bound never blocks a step towards it; a zero step is inside iff both bounds exist and hold the value. LimitsCheckIsNextGridPoint states the other cases on the grid |
| NumberStep.LimitsCheckIsNextGridPoint | packages/number-field/src/vaadin-number-field.js:331-339 | `_incrementIsInsideTheLimits` on the grid: an upward step is inside iff there is no maximum or the next grid point above the value is at most the maximum; a downward step iff there is no minimum or the previous grid point is at least the minimum; a zero step iff both bounds exist and hold the value |
| NumberStep.Allowed | packages/number-field/src/vaadin-number-field.js:342-346 | an empty field always allows stepping; a disabled non-empty field never does; otherwise, with `incr = sign * (step || 1)`, a positive `incr` is allowed iff there is no maximum or the stepped-up value is at most it, a negative one iff there is no minimum or the stepped-down value is at least it, and a zero sign iff both bounds exist and hold the value |
| NumberStep.IndexOf | packages/number-field/src/vaadin-number-field.js:319 | `indexOf`: -1 iff the character is absent; otherwise the index of its first occurrence |
| NumberStep.DecimalCount | packages/number-field/src/vaadin-number-field.js:317-321 | 1 when there is no '.'; otherwise the number of characters after the first '.' |
| NumberStep.IntegerDecimalCount | packages/number-field/src/vaadin-number-field.js:317-327 | every integer's string form has decimal count 1, so integers all scale by the same multiplier |
| NumberStep.ParseNumber | packages/number-field/src/vaadin-number-field.js:394 | `parseFloat` on integer text: no number (NaN) exactly when the text is empty, is a lone sign, or does not start with a sign or digit followed by a digit |
| NumberStep.ParseNumberToString | packages/number-field/src/vaadin-number-field.js:288-291 | the string `_setValue` writes, `String(n)`, parses back to `n` |
| NumberField.EmptyStart | packages/number-field/src/vaadin-number-field.js:248-272 | an empty field starts from 0 and does not move when a bound at 0 blocks the direction; it starts from 0 and keeps the step when 0 lies within the bounds; it becomes the minimum when the minimum is positive and the maximum is not negative |
| NumberField.StepOutcome | packages/number-field/src/vaadin-number-field.js:241-285 | `_incrementValue` as a function: an empty field, a zero step and a value outside the bounds always get a value written; an in-range value that is stepped gets a grid point. BelowMinClampsToMin, AboveMaxClampsToMax, EmptyFieldStart, InRangeStepStaysInBounds and StepKeepsInBounds state the outcome case by case |
| NumberField.BelowMinClampsToMin | packages/number-field/src/vaadin-number-field.js:273-275 | a non-empty value below the minimum becomes the minimum instead of being stepped |
| NumberField.AboveMaxClampsToMax | packages/number-field/src/vaadin-number-field.js:276-279 | a non-empty value above the maximum becomes the maximum instead of being stepped |
| NumberField.EmptyFieldStart | packages/number-field/src/vaadin-number-field.js:248-259 | an empty field whose bounds admit 0 is stepped from 0; one with a positive minimum and no negative maximum becomes the minimum |
| NumberField.InRangeStepStaysInBounds | packages/number-field/src/vaadin-number-field.js:281-284 | an in-range value is replaced by the next grid point in the step's direction exactly when that point stays within the bound on that side; an absent bound never blocks, and the written value is within the bounds; for a non-negative step, for every in-range value under the corrected rule and for values at or above the grid base as written |
| NumberField.StepKeepsInBounds | packages/number-field/src/vaadin-number-field.js:273-284 | from a value within the bounds, a key press never writes a value outside them; under the corrected rule always, as written for values at or above the grid base (a set minimum, or a non-negative value) |
| NumberField.StepOutcomeAgreesAboveBase | packages/number-field/src/vaadin-number-field.js:273-284 | with a minimum set, or a non-negative value, the step outcome as written equals the corrected one |
| NumberField.AsWrittenStepEscapesMax | packages/number-field/src/vaadin-number-field.js:281-284 | as written, with no minimum, maximum -4 and step 3, ArrowDown on -4 writes -3, above the maximum; the corrected rule writes -6, within it |
| NumberField.NumberFieldElement.IncrementValue | packages/number-field/src/vaadin-number-field.js:241-285 | a disabled or read-only field is unchanged; otherwise the field takes the step outcome of the code as written (truncating `%`) and dispatches one `change` per write, or is left alone when the step is refused |
| NumberField.NumberFieldElement.SetValue | packages/number-field/src/vaadin-number-field.js:288-291 | writes the value and dispatches one `change` |
| NumberField.NumberFieldElement.OnKeyDown | packages/number-field/src/vaadin-number-field.js:409-419 | ArrowUp takes the upward step outcome as written and ArrowDown the downward one, each write dispatching one `change`; a refused step, other keys, and a disabled or read-only field leave the value and the `change` count alone |
| NumberField.NumberFieldElement.SetValueText | packages/number-field/src/vaadin-number-field.js:392-401 | non-empty text that does not parse as a number empties the field; otherwise the field holds the parsed number |
| ComboItems.Lower | packages/combo-box/test/keyboard.test.js:453-465 | case folding keeps the length and folds each character |
| ComboItems.FilterItems | packages/combo-box/test/keyboard.test.js:122-131 | the filtered view holds only items of the collection whose label contains the filter, ignoring case |
| ComboItems.FilterIsSubsequence | packages/combo-box/test/keyboard.test.js:122-131 | the filtered view keeps the collection's order |
| ComboItems.FilterKeepsExactlyMatching | packages/combo-box/test/keyboard.test.js:122-131 | an item is in the filtered view iff it is in the collection and matches the filter |
| ComboItems.EmptyFilterKeepsAll | packages/combo-box/test/basic.test.js:32-38 | empty filter text shows the whole collection in order |
| ComboItems.IndexOfValue | packages/combo-box/test/basic.test.js:87-104 | the index of the first item whose value (the string itself, or the record's value field) is the given value, or -1 when none is |
| ComboItems.IndexOfLabel | packages/combo-box/test/keyboard.test.js:252-258 | the index of the first item whose label equals non-empty text ignoring case, or -1 |
| ComboItems.IndexOfItem | packages/combo-box/test/keyboard.test.js:64-70 | the index of the first occurrence of an item, -1 iff it is absent |
| ComboItems.LabelMatchPassesFilter | packages/combo-box/test/keyboard.test.js:252-258 | text that equals an item's label ignoring case keeps that item in the filtered view |
| ComboItems.MatchedByLabel | packages/combo-box/test/basic.test.js:241-250 | exactly the items whose label equals the text ignoring case, in the order of the collection (a subsequence of it) |
| VirtualWindow.MaxFirst | packages/combo-box/test/keyboard.test.js:342-357 | the list cannot scroll past its last row: the largest first row is `count - capacity`, and 0 for a list no longer than the window |
| VirtualWindow.ClampFirst | packages/combo-box/test/keyboard.test.js:359-372 | `scrollToIndex` keeps a requested first row that is in range, and sends one below 0 to the top and one past the end to the last scrollable row |
| VirtualWindow.ScrollIntoView | packages/combo-box/test/keyboard.test.js:359-415 | after the scroll, the window shows the row; no window that shows it is closer to the old one; an already visible row does not scroll |
| ComboBoxModel.Initial | packages/combo-box/test/basic.test.js:15-17 | a new box has no items, the empty value, no selected item, and a closed list |
| ComboBoxModel.SelectedItemEffects | packages/combo-box/test/basic.test.js:274-279 | a selected item writes its value and label into the box; no selection, once items are known and custom values are not allowed, empties the value and the input; the focus moves to the selected item's row |
| ComboBoxModel.SetSelectedItem | packages/combo-box/test/basic.test.js:274-279 | a new item notifies once and writes its value and label; assigning the current item notifies nothing |
| ComboBoxModel.SetValue | packages/combo-box/test/basic.test.js:106-123 | a value that no item commits leaves no selected item; the window and the `custom-value-set` count are untouched |
| ComboBoxModel.ItemsChanged | packages/combo-box/test/basic.test.js:32-47 | the value is kept and the focus is on the row of the item committing it |
| ComboBoxModel.SetItems | packages/combo-box/test/basic.test.js:49-54 | the box holds the new collection, and undefined items leave an empty list |
| ComboBoxModel.PushItem | packages/combo-box/test/basic.test.js:25-30 | the collection grows by the pushed item at its end |
| ComboBoxModel.FilterChanged | packages/combo-box/test/keyboard.test.js:122-131 | an open list (or auto-open disabled) focuses the row whose label the filter names, otherwise the row of the value's item; the focused row is in the window; value, selection and input are unchanged |
| ComboBoxModel.Open | packages/combo-box/test/keyboard.test.js:64-70 | opening focuses the row of the value's item and scrolls it into view, or focuses no row and scrolls to the top; an open list is unchanged |
| ComboBoxModel.CommitInput | packages/combo-box/test/keyboard.test.js:142-165 | a commit keeps the configuration and the open state, and leaves a valid state |
| ComboBoxModel.Commit | packages/combo-box/test/basic.test.js:165-172 | a commit keeps the configuration and the open state, and clears the filter |
| ComboBoxModel.Close | packages/combo-box/test/basic.test.js:165-172 | closing leaves the list closed, and closing a closed list changes nothing |
| ComboBoxModel.Navigate | packages/combo-box/test/keyboard.test.js:265-282 | the new row is focused, its label is in the input, and it is inside the window |
| ComboBoxModel.ArrowDown | packages/combo-box/test/keyboard.test.js:81-120 | keeps the state valid; outcomes in ComboBoxProperties.ArrowKeysMoveFocus |
| ComboBoxModel.ArrowUp | packages/combo-box/test/keyboard.test.js:87-100 | keeps the state valid; outcomes in ComboBoxProperties.ArrowKeysMoveFocus |
| ComboBoxModel.Enter | packages/combo-box/test/keyboard.test.js:142-181 | keeps the state valid; outcomes in the ComboBoxProperties.Enter… lemmas |
| ComboBoxModel.Cancel | packages/combo-box/test/keyboard.test.js:244-250 | cancelling closes the list and keeps the value and the selected item |
| ComboBoxModel.Escape | packages/combo-box/test/keyboard.test.js:217-232 | keeps the state valid; outcomes in ComboBoxProperties.EscapeTwoStages |
| ComboBoxModel.Input | packages/combo-box/test/keyboard.test.js:174-181 | the input and the filter hold the typed text; a closed list opens unless auto-open is disabled, and an open one stays open |
| ComboBoxModel.FocusOut | packages/combo-box/test/keyboard.test.js:453-458 | focus loss leaves the list closed |
| ComboBoxModel.Clear | packages/combo-box/test/basic.test.js:295-312 | clearing leaves no selected item (when no item commits the empty value) and does not open the list |
| ComboBoxModel.ClickItem | packages/combo-box/test/basic.test.js:231-239 | a click closes the list |
| ComboBoxElement.ComboBox.constructor | packages/combo-box/test/basic.test.js:15-17 | the new element is in the initial state |
| ComboBoxElement.ComboBox.SelectedItemEffects | packages/combo-box/test/basic.test.js:274-279 | updates the fields in place to the state ComboBoxModel.SelectedItemEffects computes |
| ComboBoxElement.ComboBox.SetSelectedItem | packages/combo-box/test/basic.test.js:274-279 | in place, the state ComboBoxModel.SetSelectedItem computes |
| ComboBoxElement.ComboBox.SetValue | packages/combo-box/test/basic.test.js:106-123 | in place, the state ComboBoxModel.SetValue computes |
| ComboBoxElement.ComboBox.ItemsChanged | packages/combo-box/test/basic.test.js:32-47 | in place, the state ComboBoxModel.ItemsChanged computes |
| ComboBoxElement.ComboBox.SetItems | packages/combo-box/test/basic.test.js:49-54 | in place, the state ComboBoxModel.SetItems computes |
| ComboBoxElement.ComboBox.PushItem | packages/combo-box/test/basic.test.js:40-47 | in place, the state ComboBoxModel.PushItem computes |
| ComboBoxElement.ComboBox.FilterChanged | packages/combo-box/test/keyboard.test.js:122-131 | in place, the state ComboBoxModel.FilterChanged computes |
| ComboBoxElement.ComboBox.Open | packages/combo-box/test/keyboard.test.js:417-435 | in place, the state ComboBoxModel.Open computes |
| ComboBoxElement.ComboBox.Commit | packages/combo-box/test/keyboard.test.js:142-165 | in place, the state ComboBoxModel.Commit computes |
| ComboBoxElement.ComboBox.CommitInput | packages/combo-box/test/keyboard.test.js:142-165 | in place, the state ComboBoxModel.CommitInput computes |
| ComboBoxElement.ComboBox.CommitEmpty | packages/combo-box/test/keyboard.test.js:150-155 | in place, the commit of an empty input that ComboBoxModel.CommitInput computes |
| ComboBoxElement.ComboBox.CommitTyped | packages/combo-box/test/basic.test.js:195-229 | in place, the commit of typed text that ComboBoxModel.CommitInput computes |
| ComboBoxElement.ComboBox.Close | packages/combo-box/test/basic.test.js:165-172 | in place, the state ComboBoxModel.Close computes |
| ComboBoxElement.ComboBox.Navigate | packages/combo-box/test/keyboard.test.js:265-282 | in place, the state ComboBoxModel.Navigate computes |
| ComboBoxElement.ComboBox.ArrowDown | packages/combo-box/test/keyboard.test.js:81-120 | in place, the state ComboBoxModel.ArrowDown computes |
| ComboBoxElement.ComboBox.ArrowUp | packages/combo-box/test/keyboard.test.js:87-100 | in place, the state ComboBoxModel.ArrowUp computes |
| ComboBoxElement.ComboBox.Enter | packages/combo-box/test/keyboard.test.js:142-181 | in place, the state ComboBoxModel.Enter computes |
| ComboBoxElement.ComboBox.RevertInputToValue | packages/combo-box/test/keyboard.test.js:317-323 | in place, the state ComboBoxModel.RevertInputToValue computes |
| ComboBoxElement.ComboBox.Cancel | packages/combo-box/test/keyboard.test.js:244-250 | in place, the state ComboBoxModel.Cancel computes |
| ComboBoxElement.ComboBox.Escape | packages/combo-box/test/keyboard.test.js:217-232 | in place, the state ComboBoxModel.Escape computes |
| ComboBoxElement.ComboBox.Input | packages/combo-box/test/keyboard.test.js:20-23 | in place, the state ComboBoxModel.Input computes |
| ComboBoxElement.ComboBox.FocusOut | packages/combo-box/test/keyboard.test.js:453-458 | in place, the state ComboBoxModel.FocusOut computes |
| ComboBoxElement.ComboBox.Clear | packages/combo-box/test/basic.test.js:295-301 | in place, the state ComboBoxModel.Clear computes |
| ComboBoxElement.ComboBox.ClickItem | packages/combo-box/test/basic.test.js:231-239 | in place, the state ComboBoxModel.ClickItem computes |
| ComboBoxElement.ComboBox.SetAllowCustomValue | packages/combo-box/test/basic.test.js:153-157 | only `allowCustomValue` changes |
| ComboBoxElement.ComboBox.SetAutoOpenDisabled | packages/combo-box/test/keyboard.test.js:438-441 | only `autoOpenDisabled` changes |
| ComboBoxElement.ComboBox.SetCustomValueVeto | packages/combo-box/test/basic.test.js:221-229 | only the listener's veto changes |
| ComboBoxElement.ComboBox.ScrollToIndex | packages/combo-box/test/keyboard.test.js:359-372 | only the first visible row changes, to the requested row held in range, and the state stays valid |
| ComboBoxProperties.ArrowKeysOpenClosedBox | packages/combo-box/test/keyboard.test.js:50-70 | ArrowDown or ArrowUp on a closed box opens it, focusing the row of the value's item or no row, with the list at the top when no row is focused |
| ComboBoxProperties.ArrowKeysMoveFocus | packages/combo-box/test/keyboard.test.js:81-131 | in an open list ArrowDown goes from no row to the first and otherwise one row down, stopping at the last; ArrowUp goes from no row to the last and otherwise one row up, stopping at the first; the focused label is in the input; value and selection are unchanged |
| ComboBoxProperties.ArrowKeysOnEmptyViewAreNoOps | packages/combo-box/test/keyboard.test.js:284-290 | with no item passing the filter, the arrow keys change nothing, and the input keeps the typed text |
| ComboBoxProperties.NavigationScrollsMinimally | packages/combo-box/test/keyboard.test.js:359-415 | after a key moves the focus, the focused row is inside the window, which is the minimal scroll that shows it |
| ComboBoxProperties.EscapeTwoStages | packages/combo-box/test/keyboard.test.js:217-250 | Escape never changes the value, the selected item or the `custom-value-set` count; with a focused row it only clears the focus and reverts the input, leaving the list open; with no focused row it closes the list and shows the committed value |
| ComboBoxProperties.RevertedInputText | packages/combo-box/test/keyboard.test.js:183-209 | the input goes back to the typed filter, else to the custom value, else to the selected item's label |
| ComboBoxProperties.EnterSelectsFocusedItem | packages/combo-box/test/keyboard.test.js:142-148 | Enter on a focused row selects its item, commits its value, shows its label, closes the list, and fires no `custom-value-set` |
| ComboBoxProperties.EnterOnEmptyInputClears | packages/combo-box/test/keyboard.test.js:150-155 | Enter on an empty input closes the list and clears the value and the selection, when custom values are allowed or an item was selected, and no item has the empty value |
| ComboBoxProperties.EnterOnEmptyInputWithoutSelection | packages/combo-box/test/keyboard.test.js:150-155 | with nothing selected and no custom values, Enter on an empty input closes the list and keeps the value and the selection, with no change event |
| ComboBoxProperties.EnterOnUnmatchedText | packages/combo-box/test/keyboard.test.js:157-181 | without custom values, Enter on unfocused text changes nothing, so the list stays open; with them and no matching label, it closes the list, fires one `custom-value-set`, and makes the text the value unless vetoed |
| ComboBoxProperties.TypedLabelIsSelectedOnEnter | packages/combo-box/test/keyboard.test.js:252-258 | typing an item's label focuses its row, and Enter then commits that item |
| ComboBoxProperties.AutoOpenDisabledCommitsLabelMatch | packages/combo-box/test/keyboard.test.js:453-465 | with auto-open disabled, typing keeps the list closed; Enter or focus loss commits the item whose label matches the text ignoring case, and shows its label |
| ComboBoxProperties.AutoOpenDisabledRejectsUnmatched | packages/combo-box/test/keyboard.test.js:467-493 | with auto-open disabled and no custom values, unmatched text leaves the value; Enter keeps the text; focus loss restores the value; Escape empties the input |
| ComboBoxProperties.AutoOpenDisabledEscapeReverts | packages/combo-box/test/keyboard.test.js:481-493 | with auto-open disabled, Escape after typing restores the committed value in the input and keeps the value, the selection and the closed list |
| ComboBoxProperties.Defaults | packages/combo-box/test/basic.test.js:15-17 | the default value is '', the items are undefined, nothing is selected and nothing is focused |
| ComboBoxProperties.ResetAndPushItems | packages/combo-box/test/basic.test.js:25-30 | undefined items give an empty list, and pushing onto an empty list gives exactly the pushed item |
| ComboBoxProperties.ValueResolvesWhenItemsArrive | packages/combo-box/test/basic.test.js:32-38 | a value set before the items selects the first item committing it once the items are assigned, shows its label and focuses its row |
| ComboBoxProperties.ValueResolvesWhenItemPushed | packages/combo-box/test/basic.test.js:40-47 | a value set before its item selects that item once it is pushed, and focuses the new last row |
| ComboBoxProperties.IndexOfValueAppend | packages/combo-box/test/basic.test.js:40-47 | a value first committed by an appended item is found at the appended index |
| ComboBoxProperties.SetValueOutcome | packages/combo-box/test/basic.test.js:106-123 | a value an item commits selects that item; otherwise nothing is selected with exactly one notification, and the value is kept with custom values allowed (or no items yet) and emptied otherwise |
| ComboBoxProperties.SetSameValueIsNoOp | packages/combo-box/test/basic.test.js:106-123 | assigning the current value changes nothing and notifies nothing |
| ComboBoxProperties.SetSelectedItemWritesValue | packages/combo-box/test/basic.test.js:274-279 | assigning a selected item writes its value and its label into the box |
| ComboBoxProperties.NullValueAndClearDeselect | packages/combo-box/test/basic.test.js:281-312 | a null or undefined value, or clearing, leaves no selected item, and clearing does not open the list |
| ComboBoxProperties.CustomValueSetFiresExactly | packages/combo-box/test/basic.test.js:195-219 | a commit fires `custom-value-set` once when no row is focused, the input is not empty, custom values are allowed and no label matches; otherwise it fires nothing |
| ComboBoxProperties.ClickNeverFiresCustomValueSet | packages/combo-box/test/basic.test.js:231-239 | clicking an item commits it and fires no `custom-value-set` |
| ComboBoxProperties.CloseOnLabelKeepsCustomValue | packages/combo-box/test/basic.test.js:174-190 | with custom values allowed, closing on unfocused text that is an item's label keeps the custom value, shows it again, and fires nothing |
| ComboBoxProperties.OpenCloseIdempotent | packages/combo-box/test/keyboard.test.js:417-424 | opening an open list and closing a closed one change nothing |
| ComboBoxScenarios.InvalidValueAssignedTwice | packages/combo-box/test/basic.test.js:106-123 | two values that no item commits are each emptied, with one notification each; a valid value after new items makes the third notification |
| ComboBoxScenarios.ScrollingScenarios | packages/combo-box/test/keyboard.test.js:359-415 | the first visible rows the scrolling tests expect: 1, 0, 6, 4, `49 - capacity + 1` and `51 - capacity + 1` |

## Left out

- The combo box's implementation file is not part of this model. Its behaviour comes from its tests and its documented behaviour, so a branch that neither pins down may differ from the component.
- Combo box layout, slots, theme and `dir` propagation, the clear button, focus attributes and touch blur: these are rendering, not state.
- `pattern` and `preventInvalidInput`: regular-expression validation is not modelled.
- Asynchronous timing (`aTimeout`, `onceScrolled`): every event takes effect at once. Typing one character at a time is modelled as a single `Input` of the whole text, because each keystroke's filter update replaces the last.
- Text selection ranges in the input, and the stopping of event propagation: these are not modelled.
- The list's viewport measurement: the visible row count is the `capacity` parameter.
- Lazy or paged data providers: these are not modelled.
- ComboItems.Lower: folds only ASCII letters; JavaScript's `toLowerCase` folds all of Unicode.
- A `null` and an `undefined` value or item are not distinguished; both are `None`.
- Number field floating point: values are integers in the scaled space. The multiplier `_getMultiplier`, `parseFloat`, `Math.round` and `Math.pow` on fractional numbers are not modelled.
- NumberStep.ParseNumber: reads only integer text. It does not skip whitespace or read `Infinity`, a fraction or an exponent. Like `parseFloat`, it keeps a leading number, so "12abc" gives 12.
- NumberStep.StepUpIsNextGridPoint, NumberStep.StepDownIsPreviousGridPoint, NumberStep.LimitsCheckIsNextGridPoint, NumberField.InRangeStepStaysInBounds, NumberField.StepKeepsInBounds: they assume a non-negative step; a negative step reverses the grid's direction and is not stated. Under the rule as written they also assume a value at or above the grid base, because below it they do not hold (see Findings).
- ComboBoxProperties.EnterOnEmptyInputClears: the test clears a selected value; the lemma needs an item selected or custom values allowed, and no item whose value is the empty string. Otherwise clearing is a no-op or reselects that item; ComboBoxProperties.EnterOnEmptyInputWithoutSelection states the no-selection case.
- Number field `connectedCallback`, input listeners, touchend handlers, native constraint validation (`validate`, `checkValidity`, `_constraintsChanged`) and the reflection of the `step` attribute (`_stepChanged`, `__applyStep`): these are DOM plumbing.
- Item values are strings only. A test assigns a number as an item's value (packages/combo-box/test/basic.test.js:96-104); JavaScript's `===` tells `1` from `'1'`, which the model cannot express.
- NumberField.NumberFieldElement.OnKeyDown: every key is also passed on to the base class's `_onKeyDown`, and arrow keys call `preventDefault`; the inherited handler is not part of this model.
- NumberField.EmptyStart: the branch for a negative maximum carries a FIXME in the code and is modelled as written, with no property proved about it.
- NumberField.NumberFieldElement.SetValueText: the conversion of a non-string value with `String` is not modelled, because the model's value is always a number or empty.

## Findings

| source | as written | input that shows it | evidently intended | confidence | as-written member | corrected member |
|---|---|---|---|---|---|---|
| packages/number-field/src/vaadin-number-field.js:305-310 | the margin is `(value - min) % step` with JavaScript's truncating `%`, so a value below the grid base gets a negative margin | no `min`, `step` 3, value -4: ArrowDown gives -3 (upwards) and ArrowUp gives 0 (skipping -3); with `max` -4, ArrowDown writes -3, above the maximum; with `max` -2, the increase button is disabled | snap to the previous or next grid point on either side of the base: -6 and -3, so ArrowDown stays under the maximum and the increase button is enabled | not executed | NumberStep.GetIncrement with Rule.AsWritten (shown by NumberStep.AsWrittenStepsWrongWayBelowBase, NumberField.AsWrittenStepEscapesMax, NumberStep.AsWrittenDisablesIncreaseBelowBase) | NumberStep.GetIncrement with Rule.Corrected (proved by NumberStep.StepUpIsNextGridPoint, NumberStep.StepDownIsPreviousGridPoint, NumberField.StepKeepsInBounds) |

A value can sit below the grid base only when `min` is unset and the value is negative and off the grid. A set `min` clamps lower values to itself first (lines 273-275). Above the base the two rules agree, as NumberStep.AsWrittenAgreesAboveBase and NumberField.StepOutcomeAgreesAboveBase prove. The element `NumberField.NumberFieldElement` follows the code as written; the properties are proved for the corrected rule on every value and for the rule as written above the base.
