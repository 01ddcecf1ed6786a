/**
 * The selection-list algebra of a filter dropdown: the search filter, toggling
 * one item, select-all and clear-all. Each operation returns the new
 * selection it hands to `onSelectionChange`.
 */
module FilterSection {
  import opened Text

  /** Case-insensitive search: the lower-cased item contains the lower-cased term. */
  predicate Matches(item: string, term: string) {
    Contains(Lower(item), Lower(term))
  }

  /** `filteredItems`: the items matching the search term, in order; an
      item is shown exactly when it matches. */
  function FilteredItems(items: seq<string>, term: string): (r: seq<string>)
    ensures forall x :: x in r <==> x in items && Matches(x, term)
    decreases |items|
  {
    if |items| == 0 then []
    else
      assert items == [items[0]] + items[1..];
      (if Matches(items[0], term) then [items[0]] else []) + FilteredItems(items[1..], term)
  }

  /** Filtering keeps order: it distributes over concatenation. */
  lemma {:induction false} FilteredItemsAppend(a: seq<string>, b: seq<string>, term: string)
    ensures FilteredItems(a + b, term) == FilteredItems(a, term) + FilteredItems(b, term)
    decreases |a|
  {
    if |a| == 0 {
      assert a + b == b;
    } else {
      assert (a + b)[1..] == a[1..] + b;
      FilteredItemsAppend(a[1..], b, term);
    }
  }

  /** Every string contains the empty string. */
  lemma ContainsEmpty(s: string)
    ensures Contains(s, "")
  {
    assert IsPrefix("", s);
  }

  /** An empty search shows every item. */
  lemma {:induction false} EmptySearchShowsAll(items: seq<string>)
    ensures FilteredItems(items, "") == items
    decreases |items|
  {
    if |items| > 0 {
      ContainsEmpty(Lower(items[0]));
      assert Lower("") == "";
      EmptySearchShowsAll(items[1..]);
    }
  }

  /** The selection with every occurrence of `item` removed. */
  function Without(selected: seq<string>, item: string): (r: seq<string>)
    ensures |r| <= |selected|
    decreases |selected|
  {
    if |selected| == 0 then []
    else (if selected[0] != item then [selected[0]] else []) + Without(selected[1..], item)
  }

  lemma {:induction false} WithoutMembers(selected: seq<string>, item: string)
    ensures forall x :: x in Without(selected, item) <==> x in selected && x != item
    decreases |selected|
  {
    if |selected| > 0 {
      WithoutMembers(selected[1..], item);
      assert selected == [selected[0]] + selected[1..];
    }
  }

  /** Removing an item that is not there changes nothing. */
  lemma {:induction false} WithoutAbsent(selected: seq<string>, item: string)
    requires item !in selected
    ensures Without(selected, item) == selected
    decreases |selected|
  {
    if |selected| > 0 {
      assert selected == [selected[0]] + selected[1..];
      WithoutAbsent(selected[1..], item);
    }
  }

  lemma {:induction false} WithoutAppend(a: seq<string>, b: seq<string>, item: string)
    ensures Without(a + b, item) == Without(a, item) + Without(b, item)
    decreases |a|
  {
    if |a| == 0 {
      assert a + b == b;
    } else {
      assert (a + b)[1..] == a[1..] + b;
      WithoutAppend(a[1..], b, item);
    }
  }

  /** `handleToggle(item)`: a selected item leaves the selection, every
      occurrence of it, and nothing else does; an unselected item joins at
      the end. */
  function Toggle(selected: seq<string>, item: string): (r: seq<string>)
    ensures item in selected ==> item !in r && forall x :: x != item ==> (x in r <==> x in selected)
    ensures item !in selected ==> r == selected + [item]
  {
    if item in selected then
      WithoutMembers(selected, item);
      Without(selected, item)
    else selected + [item]
  }

  /** Toggling an unselected item twice restores the selection. */
  lemma ToggleTwiceRestores(selected: seq<string>, item: string)
    requires item !in selected
    ensures Toggle(Toggle(selected, item), item) == selected
  {
    WithoutAppend(selected, [item], item);
    WithoutAbsent(selected, item);
    assert Without([item], item) == [];
  }

  /** Toggling a selected item twice moves it to the end, once. */
  lemma ToggleTwiceMovesToEnd(selected: seq<string>, item: string)
    requires item in selected
    ensures Toggle(Toggle(selected, item), item) == Without(selected, item) + [item]
  {
  }

  /** `handleSelectAll`: the selection becomes exactly the shown items; a
      selected item the search hides is dropped. */
  function SelectAll(items: seq<string>, term: string, selected: seq<string>): (r: seq<string>)
    ensures forall x :: x in r <==> x in items && Matches(x, term)
  {
    FilteredItems(items, term)
  }

  /** Clearing the selection. */
  function ClearAll(selected: seq<string>): (r: seq<string>)
    ensures |r| == 0
  {
    []
  }
}
