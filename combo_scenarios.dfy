/**
 * The combo box's test scenarios replayed on the transitions of module
 * ComboBoxModel and VirtualWindow, with the items and rows the tests use.
 */
module ComboBoxScenarios {
  import opened Optional
  import opened ComboItems
  import opened VirtualWindow
  import opened ComboBoxModel

  /**
   * Assigning values no item commits empties the value and notifies once per
   * assignment; a valid value after new items notifies a third time.
   */
  lemma InvalidValueAssignedTwice(capacity: int)
    requires capacity >= 1
    ensures var s1 := SetItems(Initial(capacity), Some([]));
      var s2 := SetValue(s1, Some("1"));
      var s3 := SetValue(s2, Some("2"));
      var s4 := SetValue(SetItems(s3, Some([Text("foo")])), Some("foo"));
      && s1.selectedItemChanges == 0
      && s2.value == "" && s2.selectedItemChanges == 1
      && s3.value == "" && s3.selectedItemChanges == 2
      && s4.value == "foo" && s4.selectedItemChanges == 3
  {
    var s1 := SetItems(Initial(capacity), Some([]));
    var s2 := SetValue(s1, Some("1"));
    var s3 := SetValue(s2, Some("2"));
    var s3' := SetItems(s3, Some([Text("foo")]));
    assert IndexOfValue("", [Text("foo")]) == -1;
    assert s3'.selectedItemChanges == 2;
  }

  /** The window scrolls by the least amount that shows the newly focused row. */
  lemma ScrollingScenarios(c: int)
    requires 1 <= c <= 40
    ensures ScrollIntoView(0, c, 100, c) == 1
    ensures ScrollIntoView(1, c, 100, 0) == 0
    ensures ScrollIntoView(50, c, 100, 6) == 6
    ensures ScrollIntoView(50, c, 100, 4) == 4
    ensures ScrollIntoView(0, c, 100, 49) == 49 - c + 1
    ensures ScrollIntoView(0, c, 100, 51) == 51 - c + 1
  {
  }
}
