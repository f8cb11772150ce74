/**
 * Items of the combo box and the pure queries over them: labels and values,
 * the case-insensitive filter, and the index lookups the box uses to find the
 * item for a value or for typed text.
 */
module ComboItems {

  /** An item is a plain string, or a record with a label and a value field. */
  datatype Item = Text(text: string) | Record(labelText: string, value: string)

  function Label(item: Item): string
  {
    match item
    case Text(t) => t
    case Record(l, _) => l
  }

  /** The value an item commits: the string itself, or the record's value field. */
  function ValueOf(item: Item): string
  {
    match item
    case Text(t) => t
    case Record(_, v) => v
  }

  function LowerChar(c: char): char
  {
    if 'A' <= c <= 'Z' then (c as int - 'A' as int + 'a' as int) as char else c
  }

  /** Lower-casing of ASCII letters; other characters are kept. */
  function Lower(s: string): (r: string)
    ensures |r| == |s|
    ensures forall i :: 0 <= i < |s| ==> r[i] == LowerChar(s[i])
  {
    if |s| == 0 then [] else [LowerChar(s[0])] + Lower(s[1..])
  }

  predicate IsPrefix(p: string, s: string)
  {
    |p| <= |s| && s[..|p|] == p
  }

  /** Whether `needle` occurs somewhere in `hay`. */
  predicate Contains(hay: string, needle: string)
  {
    IsPrefix(needle, hay) || (|hay| > 0 && Contains(hay[1..], needle))
  }

  lemma ContainsItself(s: string)
    ensures Contains(s, s)
  {
    assert IsPrefix(s, s);
  }

  lemma ContainsEmpty(s: string)
    ensures Contains(s, "")
  {
    assert IsPrefix("", s);
  }

  /** An item passes the filter when its label contains the text, ignoring case. */
  predicate Matches(item: Item, filter: string)
  {
    Contains(Lower(Label(item)), Lower(filter))
  }

  /** The items whose label contains the filter text, ignoring case, in their order. */
  function FilterItems(items: seq<Item>, filter: string): (r: seq<Item>)
    ensures |r| <= |items|
    ensures forall i :: 0 <= i < |r| ==> r[i] in items && Matches(r[i], filter)
  {
    if |items| == 0 then []
    else if Matches(items[0], filter) then [items[0]] + FilterItems(items[1..], filter)
    else FilterItems(items[1..], filter)
  }

  /** `sub` is `s` with some elements left out, the rest in their order. */
  predicate IsSubsequence(sub: seq<Item>, s: seq<Item>)
  {
    if |sub| == 0 then true
    else if |s| == 0 then false
    else if sub[0] == s[0] then IsSubsequence(sub[1..], s[1..])
    else IsSubsequence(sub, s[1..])
  }

  /** The filtered view preserves the order of the collection. */
  lemma {:induction false} FilterIsSubsequence(items: seq<Item>, filter: string)
    ensures IsSubsequence(FilterItems(items, filter), items)
  {
    if |items| > 0 {
      FilterIsSubsequence(items[1..], filter);
    }
  }

  /** Exactly the matching items of the collection are in the filtered view. */
  lemma {:induction false} FilterKeepsExactlyMatching(items: seq<Item>, filter: string, x: Item)
    ensures x in FilterItems(items, filter) <==> x in items && Matches(x, filter)
  {
    if |items| > 0 {
      FilterKeepsExactlyMatching(items[1..], filter, x);
      assert items == [items[0]] + items[1..];
    }
  }

  /** Empty filter text keeps the whole collection, in order. */
  lemma {:induction false} EmptyFilterKeepsAll(items: seq<Item>)
    ensures FilterItems(items, "") == items
  {
    if |items| > 0 {
      ContainsEmpty(Lower(Label(items[0])));
      EmptyFilterKeepsAll(items[1..]);
    }
  }

  /** The index of the first item committing `v`, or -1. */
  function IndexOfValue(v: string, items: seq<Item>): (i: int)
    ensures -1 <= i < |items|
    ensures i >= 0 ==> ValueOf(items[i]) == v
    ensures forall j :: 0 <= j < |items| && (i == -1 || j < i) ==> ValueOf(items[j]) != v
  {
    if |items| == 0 then -1
    else if ValueOf(items[0]) == v then 0
    else
      var j := IndexOfValue(v, items[1..]);
      if j == -1 then -1 else j + 1
  }

  /** The index of the first item whose label equals non-empty `text` ignoring case, or -1. */
  function IndexOfLabel(text: string, items: seq<Item>): (i: int)
    ensures -1 <= i < |items|
    ensures text == "" ==> i == -1
    ensures i >= 0 ==> Lower(Label(items[i])) == Lower(text)
    ensures text != "" ==>
      forall j :: 0 <= j < |items| && (i == -1 || j < i) ==> Lower(Label(items[j])) != Lower(text)
  {
    if text == "" || |items| == 0 then -1
    else if Lower(Label(items[0])) == Lower(text) then 0
    else
      var j := IndexOfLabel(text, items[1..]);
      if j == -1 then -1 else j + 1
  }

  /** The index of the first occurrence of `item`, or -1 (`Array.indexOf`). */
  function IndexOfItem(item: Item, items: seq<Item>): (i: int)
    ensures -1 <= i < |items|
    ensures i >= 0 ==> items[i] == item
    ensures i == -1 <==> item !in items
  {
    if |items| == 0 then -1
    else if items[0] == item then 0
    else
      var j := IndexOfItem(item, items[1..]);
      if j == -1 then -1 else j + 1
  }

  /**
   * Typed text that names an item's label (ignoring case) keeps that item in
   * the filtered view, so IndexOfLabel over the view finds it.
   */
  lemma LabelMatchPassesFilter(item: Item, text: string)
    requires Lower(Label(item)) == Lower(text)
    ensures Matches(item, text)
  {
    ContainsItself(Lower(text));
  }

  /** The items whose label equals `text` ignoring case, in order (the commit's label match). */
  function MatchedByLabel(items: seq<Item>, text: string): (r: seq<Item>)
    ensures forall x :: x in r <==> x in items && Lower(Label(x)) == Lower(text)
    ensures IsSubsequence(r, items)
  {
    if |items| == 0 then []
    else if Lower(Label(items[0])) == Lower(text) then [items[0]] + MatchedByLabel(items[1..], text)
    else MatchedByLabel(items[1..], text)
  }
}
