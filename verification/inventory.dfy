/**
 The inventory panel of the dashboard: the empty-state choice, the order in
 which category panels appear, the tri-state header checkbox of each panel
 and the per-row checkboxes.
 */
module Inventory {
  import opened Wrappers
  import opened Seqs
  import Sorting
  import opened Dashboard

  /** `Object.keys(groups).length === 0`: the empty-state panel replaces the list. */
  predicate ShowsEmptyState(groups: seq<Group>) {
    |Keys(groups)| == 0
  }

  /** The empty state appears exactly when no inventory item matches the search. */
  lemma EmptyStateIffNoMatches(items: seq<ReceiptItem>, term: string)
    ensures ShowsEmptyState(VisibleGroups(items, term)) <==> FilterBySearch(items, term) == []
  {
    var shown := FilterBySearch(items, term);
    var g := VisibleGroups(items, term);
    if |shown| > 0 {
      assert CategoryKey(shown[0]) in Keys(g);
    }
  }

  /** `Object.keys(groups).sort()`: the category names in ascending code order. */
  function SortedCategories(groups: seq<Group>): (r: seq<string>)
    ensures Sorting.Sorted(r)
    ensures multiset(r) == multiset(Keys(groups))
    ensures |r| == |groups|
  {
    var r := Sorting.Sort(Keys(groups));
    assert |multiset(r)| == |multiset(Keys(groups))|;
    r
  }

  /**
   The panel order depends only on the set of categories: any ascending
   arrangement of the same keys is the order rendered.
   */
  lemma CategoryOrderIsCanonical(groups: seq<Group>, order: seq<string>)
    requires Sorting.Sorted(order) && multiset(order) == multiset(Keys(groups))
    ensures order == SortedCategories(groups)
  {
    Sorting.SortedUnique(order, SortedCategories(groups));
  }

  /** `filteredAndGroupedItems[category]`: the items of the first group with that key. */
  function ItemsOf(groups: seq<Group>, category: string): (r: seq<ReceiptItem>)
    ensures category !in Keys(groups) ==> r == []
    decreases |groups|
  {
    if |groups| == 0 then []
    else if groups[0].category == category then
      assert Keys(groups)[0] == category;
      groups[0].items
    else
      assert Keys(groups) == [groups[0].category] + Keys(groups[1..]);
      ItemsOf(groups[1..], category)
  }

  /** With distinct keys, looking a group's key up yields that group's items. */
  lemma {:induction false} ItemsOfGroup(groups: seq<Group>, i: nat)
    requires NoDuplicates(Keys(groups)) && i < |groups|
    ensures ItemsOf(groups, groups[i].category) == groups[i].items
    decreases i
  {
    if i > 0 {
      assert Keys(groups)[0] != Keys(groups)[i];
      var tail := groups[1..];
      assert NoDuplicates(Keys(tail)) by {
        forall a, b | 0 <= a < b < |tail|
          ensures Keys(tail)[a] != Keys(tail)[b]
        {
          assert Keys(groups)[a + 1] != Keys(groups)[b + 1];
        }
      }
      ItemsOfGroup(tail, i - 1);
    }
  }

  function IsSelectedItem(selected: seq<ReceiptItem>): ReceiptItem -> bool {
    (item: ReceiptItem) => IsSelected(selected, item.id)
  }

  /** `selectedInCategory`: the category items whose id is in the selection, in category order. */
  function SelectedInCategory(selected: seq<ReceiptItem>, categoryItems: seq<ReceiptItem>): (r: seq<ReceiptItem>)
    ensures |r| <= |categoryItems|
    ensures forall i :: 0 <= i < |r| ==> r[i] in categoryItems && IsSelected(selected, r[i].id)
    ensures forall k :: 0 <= k < |categoryItems| && IsSelected(selected, categoryItems[k].id) ==> categoryItems[k] in r
    ensures KeepsExactly(r, categoryItems, IsSelectedItem(selected))
  {
    FilterKeepsExactly(categoryItems, IsSelectedItem(selected));
    Filter(categoryItems, IsSelectedItem(selected))
  }

  /** `areAllSelected`: a non-empty category whose selected part is as long as the category. */
  predicate AreAllSelected(selected: seq<ReceiptItem>, categoryItems: seq<ReceiptItem>) {
    |categoryItems| > 0 && |SelectedInCategory(selected, categoryItems)| == |categoryItems|
  }

  /** All selected means: the category is non-empty and each of its ids is in the selection. */
  lemma AreAllSelectedIff(selected: seq<ReceiptItem>, categoryItems: seq<ReceiptItem>)
    ensures AreAllSelected(selected, categoryItems)
        <==> |categoryItems| > 0 && forall k :: 0 <= k < |categoryItems| ==> IsSelected(selected, categoryItems[k].id)
  {
    FilterFull(categoryItems, IsSelectedItem(selected));
  }

  /** Some category item is selected exactly when `selectedInCategory` is non-empty. */
  lemma SomeSelectedIff(selected: seq<ReceiptItem>, categoryItems: seq<ReceiptItem>)
    ensures |SelectedInCategory(selected, categoryItems)| > 0
        <==> exists k :: 0 <= k < |categoryItems| && IsSelected(selected, categoryItems[k].id)
  {
    var r := SelectedInCategory(selected, categoryItems);
    if |r| > 0 {
      var k :| 0 <= k < |categoryItems| && categoryItems[k] == r[0];
    }
  }

  /** The header checkbox of a category panel. */
  datatype HeaderBox = HeaderBox(checked: bool, indeterminate: bool)

  /**
   The header checkbox: checked when every item is selected, indeterminate
   when some but not all are; never both.
   */
  function Header(selected: seq<ReceiptItem>, categoryItems: seq<ReceiptItem>): (h: HeaderBox)
    ensures !(h.checked && h.indeterminate)
    ensures h.checked <==> |categoryItems| > 0
                           && forall k :: 0 <= k < |categoryItems| ==> IsSelected(selected, categoryItems[k].id)
    ensures h.indeterminate <==> (exists k :: 0 <= k < |categoryItems| && IsSelected(selected, categoryItems[k].id))
                                 && !(forall k :: 0 <= k < |categoryItems| ==> IsSelected(selected, categoryItems[k].id))
  {
    AreAllSelectedIff(selected, categoryItems);
    SomeSelectedIff(selected, categoryItems);
    var all := AreAllSelected(selected, categoryItems);
    HeaderBox(all, |SelectedInCategory(selected, categoryItems)| > 0 && !all)
  }

  /**
   The header checkbox's `onChange`: select-all with the current
   `areAllSelected`. Clicking the header of a fully selected category clears
   it; clicking any other non-empty category's header selects all of it; an
   empty category's click changes nothing.
   */
  function HeaderClick(selected: seq<ReceiptItem>, categoryItems: seq<ReceiptItem>): (after: seq<ReceiptItem>)
    ensures AreAllSelected(selected, categoryItems) ==> SelectedInCategory(after, categoryItems) == []
    ensures !AreAllSelected(selected, categoryItems) && |categoryItems| > 0 ==> AreAllSelected(after, categoryItems)
    ensures |categoryItems| == 0 ==> after == selected
  {
    HeaderClickFlips(selected, categoryItems);
    SelectAllInCategory(selected, categoryItems, AreAllSelected(selected, categoryItems))
  }

  lemma HeaderClickFlips(selected: seq<ReceiptItem>, categoryItems: seq<ReceiptItem>)
    ensures var after := SelectAllInCategory(selected, categoryItems, AreAllSelected(selected, categoryItems));
      && (AreAllSelected(selected, categoryItems) ==> SelectedInCategory(after, categoryItems) == [])
      && (!AreAllSelected(selected, categoryItems) && |categoryItems| > 0 ==> AreAllSelected(after, categoryItems))
      && (|categoryItems| == 0 ==> after == selected)
  {
    var all := AreAllSelected(selected, categoryItems);
    var after := SelectAllInCategory(selected, categoryItems, all);
    AreAllSelectedIff(after, categoryItems);
    if all {
      forall k | 0 <= k < |categoryItems|
        ensures !IsSelected(after, categoryItems[k].id)
      {
      }
      SomeSelectedIff(after, categoryItems);
    }
    if |categoryItems| == 0 {
      assert after == selected + Filter(categoryItems, NotSelectedIn(selected));
    }
  }

  /** A row's checkbox is ticked iff the selection holds that item's id. */
  predicate RowSelected(selected: seq<ReceiptItem>, item: ReceiptItem) {
    IsSelected(selected, item.id)
  }

  /**
   A row checkbox's `onChange`, whose new checked state is the negation of
   the shown one: that row flips, and every row with another id keeps its
   state.
   */
  function RowClick(selected: seq<ReceiptItem>, item: ReceiptItem): (after: seq<ReceiptItem>)
    ensures RowSelected(after, item) == !RowSelected(selected, item)
    ensures forall other: ReceiptItem :: other.id != item.id ==> RowSelected(after, other) == RowSelected(selected, other)
  {
    var after := SelectItem(selected, item, !RowSelected(selected, item));
    assert forall other: ReceiptItem :: other.id != item.id ==> RowSelected(after, other) == RowSelected(selected, other) by {
      forall other: ReceiptItem | other.id != item.id
        ensures RowSelected(after, other) == RowSelected(selected, other)
      {
        RowClickToggles(selected, item, other);
      }
    }
    RowClickToggles(selected, item, item);
    after
  }

  lemma RowClickToggles(selected: seq<ReceiptItem>, item: ReceiptItem, other: ReceiptItem)
    ensures var after := SelectItem(selected, item, !RowSelected(selected, item));
      && RowSelected(after, item) == !RowSelected(selected, item)
      && (other.id != item.id ==> RowSelected(after, other) == RowSelected(selected, other))
  {
    var after := SelectItem(selected, item, !RowSelected(selected, item));
    if RowSelected(selected, item) {
      if other.id != item.id && RowSelected(selected, other) {
        var i :| 0 <= i < |selected| && selected[i].id == other.id;
        var j :| 0 <= j < |after| && after[j] == selected[i];
      }
      if RowSelected(after, other) {
        var j :| 0 <= j < |after| && after[j].id == other.id;
        var i :| 0 <= i < |selected| && selected[i] == after[j];
      }
    } else {
      assert after[|selected|] == item;
      if RowSelected(selected, other) {
        var i :| 0 <= i < |selected| && selected[i].id == other.id;
        assert after[i] == selected[i];
      }
      if other.id != item.id && RowSelected(after, other) {
        var j :| 0 <= j < |after| && after[j].id == other.id;
        assert j < |selected|;
        assert selected[j] == after[j];
      }
    }
  }

  /** The table inside an open panel: the header checkbox and the rows with their checkboxes. */
  datatype ItemTable = ItemTable(header: HeaderBox, rows: seq<(ReceiptItem, bool)>)

  /**
   One rendered category panel. The table sits in a `Collapse` with
   `unmountOnExit`, so a closed panel has no table at all.
   */
  datatype CategoryPanel = CategoryPanel(category: string, open: bool, table: Option<ItemTable>)

  datatype View = EmptyState | Panels(panels: seq<CategoryPanel>)

  function PanelOf(groups: seq<Group>, open: map<string, bool>, selected: seq<ReceiptItem>,
                   category: string): (p: CategoryPanel)
    ensures p.category == category && p.open == IsOpen(open, category)
    ensures p.table.Some? <==> p.open
    ensures p.table.Some? ==> p.table.value.header == Header(selected, ItemsOf(groups, category))
    ensures p.table.Some? ==> |p.table.value.rows| == |ItemsOf(groups, category)|
    ensures p.table.Some? ==> forall k :: 0 <= k < |p.table.value.rows| ==>
      p.table.value.rows[k] == (ItemsOf(groups, category)[k], RowSelected(selected, ItemsOf(groups, category)[k]))
  {
    var items := ItemsOf(groups, category);
    var table := ItemTable(Header(selected, items),
                           seq(|items|, k requires 0 <= k < |items| => (items[k], RowSelected(selected, items[k]))));
    CategoryPanel(category, IsOpen(open, category), if IsOpen(open, category) then Some(table) else None)
  }

  /** The sorted categories are exactly as many as the groups, and each is a group key. */
  lemma SortedCategoriesAreKeys(groups: seq<Group>)
    ensures var order := SortedCategories(groups);
      |order| == |groups| && forall i :: 0 <= i < |order| ==> order[i] in Keys(groups)
  {
    var order := SortedCategories(groups);
    forall i | 0 <= i < |order|
      ensures order[i] in Keys(groups)
    {
      assert order[i] in multiset(order);
    }
  }

  /**
   The whole panel: the empty state when there are no groups, otherwise one
   panel per category in sorted order, each showing its items in group order
   with their row checkboxes.
   */
  function Render(groups: seq<Group>, open: map<string, bool>, selected: seq<ReceiptItem>): (v: View)
    ensures v.EmptyState? <==> ShowsEmptyState(groups)
    ensures v.Panels? ==> |v.panels| == |groups|
    ensures v.Panels? ==> forall i :: 0 <= i < |v.panels| ==>
      var p := v.panels[i];
      && p.category == SortedCategories(groups)[i]
      && p.category in Keys(groups)
      && p.open == IsOpen(open, p.category)
      && (p.table.Some? <==> p.open)
      && (p.table.Some? ==> p.table.value.header == Header(selected, ItemsOf(groups, p.category)))
      && (p.table.Some? ==> |p.table.value.rows| == |ItemsOf(groups, p.category)|)
      && (p.table.Some? ==> forall k :: 0 <= k < |p.table.value.rows| ==>
           p.table.value.rows[k] == (ItemsOf(groups, p.category)[k], RowSelected(selected, ItemsOf(groups, p.category)[k])))
  {
    if |groups| == 0 then EmptyState
    else
      var order := SortedCategories(groups);
      SortedCategoriesAreKeys(groups);
      Panels(seq(|order|, i requires 0 <= i < |order| => PanelOf(groups, open, selected, order[i])))
  }
}
