/**
 The dashboard page: the search filter and the grouping of inventory items
 by category, the selection list and its per-category select-all, the
 open/closed flags of the category panels, and the ingredient list sent to
 the recipe search.
 */
module Dashboard {
  import opened Wrappers
  import opened Seqs
  import Text
  import RecipeSuggestions

  /** An inventory record as the items endpoint returns it. */
  datatype ReceiptItem = ReceiptItem(id: string, name: string, price: real, quantity: real,
                                     unit: string, category: string, created: string)

  const OtherCategory := "Other"

  /** The group an item is filed under: its category, or "Other" when that is empty. */
  function CategoryKey(item: ReceiptItem): (k: string)
    ensures k != ""
    ensures item.category != "" ==> k == item.category
  {
    if item.category == "" then OtherCategory else item.category
  }

  /** One category panel: the key and the items filed under it. */
  datatype Group = Group(category: string, items: seq<ReceiptItem>)

  function Keys(groups: seq<Group>): (ks: seq<string>)
    ensures |ks| == |groups|
  {
    seq(|groups|, i requires 0 <= i < |groups| => groups[i].category)
  }

  function InCategory(c: string): ReceiptItem -> bool {
    (item: ReceiptItem) => CategoryKey(item) == c
  }

  /**
   One step of the grouping `reduce`: `acc[key].push(item)`, creating the
   group first when the key is new. Keys of a JavaScript object are distinct,
   so the group extended here is the only one with that key.
   */
  function AddToGroups(groups: seq<Group>, item: ReceiptItem): (r: seq<Group>)
    ensures Keys(r) == if CategoryKey(item) in Keys(groups) then Keys(groups) else Keys(groups) + [CategoryKey(item)]
    ensures forall i :: 0 <= i < |groups| ==>
      r[i].items == groups[i].items + (if groups[i].category == CategoryKey(item) then [item] else [])
    ensures CategoryKey(item) !in Keys(groups) ==> r[|groups|] == Group(CategoryKey(item), [item])
  {
    var key := CategoryKey(item);
    var pushed := seq(|groups|, i requires 0 <= i < |groups| =>
      if groups[i].category == key then groups[i].(items := groups[i].items + [item]) else groups[i]);
    assert Keys(pushed) == Keys(groups);
    if key in Keys(groups) then pushed else pushed + [Group(key, [item])]
  }

  /** The partition property `groupItemsByCategory` establishes. */
  ghost predicate IsGrouping(groups: seq<Group>, items: seq<ReceiptItem>) {
    && NoDuplicates(Keys(groups))
    && (forall i :: 0 <= i < |groups| ==> groups[i].items == Filter(items, InCategory(groups[i].category)))
    && (forall k :: 0 <= k < |items| ==> CategoryKey(items[k]) in Keys(groups))
    && (forall i :: 0 <= i < |groups| ==> |groups[i].items| > 0)
  }

  lemma AddToGroupsKeepsNoDuplicates(groups: seq<Group>, item: ReceiptItem)
    requires NoDuplicates(Keys(groups))
    ensures NoDuplicates(Keys(AddToGroups(groups, item)))
  {
    var ks := Keys(groups);
    var key := CategoryKey(item);
    if key !in ks {
      assert forall i :: 0 <= i < |ks| ==> ks[i] != key;
    }
  }

  /** Adding the next item to a grouping of the earlier items groups the extended list. */
  lemma GroupStep(g: seq<Group>, items: seq<ReceiptItem>)
    requires |items| > 0 && IsGrouping(g, items[..|items| - 1])
    ensures IsGrouping(AddToGroups(g, items[|items| - 1]), items)
  {
    var init := items[..|items| - 1];
    var x := items[|items| - 1];
    assert items == init + [x];
    AddToGroupsKeepsNoDuplicates(g, x);
    GroupStepFilters(g, init, x);
    GroupStepCovers(g, init, x);
    GroupStepNonEmpty(g, x);
  }

  /** After the step every group holds exactly the extended list's items with its key. */
  lemma GroupStepFilters(g: seq<Group>, init: seq<ReceiptItem>, x: ReceiptItem)
    requires IsGrouping(g, init)
    ensures var r := AddToGroups(g, x);
      forall i :: 0 <= i < |r| ==> r[i].items == Filter(init + [x], InCategory(r[i].category))
  {
    var r := AddToGroups(g, x);
    forall i | 0 <= i < |r|
      ensures r[i].items == Filter(init + [x], InCategory(r[i].category))
    {
      GroupStepFilter(g, init, x, i);
    }
  }

  /** The group at index `i` after the step holds exactly the extended list's items with its key. */
  lemma GroupStepFilter(g: seq<Group>, init: seq<ReceiptItem>, x: ReceiptItem, i: nat)
    requires forall j :: 0 <= j < |g| ==> g[j].items == Filter(init, InCategory(g[j].category))
    requires forall k :: 0 <= k < |init| ==> CategoryKey(init[k]) in Keys(g)
    requires i < |AddToGroups(g, x)|
    ensures var r := AddToGroups(g, x);
      r[i].items == Filter(init + [x], InCategory(r[i].category))
  {
    var r := AddToGroups(g, x);
    if i < |g| {
      assert g[i].items == Filter(init, InCategory(g[i].category));
      OldGroupGrows(g, init, x, i);
      assert r[i].category == g[i].category;
    } else {
      NewGroupStarts(g, init, x);
      assert i == |g|;
    }
  }

  /** An existing group gains the item exactly when the item has its key. */
  lemma OldGroupGrows(g: seq<Group>, init: seq<ReceiptItem>, x: ReceiptItem, i: nat)
    requires i < |g| && g[i].items == Filter(init, InCategory(g[i].category))
    ensures var r := AddToGroups(g, x);
      r[i].category == g[i].category && r[i].items == Filter(init + [x], InCategory(g[i].category))
  {
    var r := AddToGroups(g, x);
    var p := InCategory(g[i].category);
    assert r[i].category == Keys(r)[i] == Keys(g)[i];
    FilterAppend(init, [x], p);
    FilterSingleton(x, p);
  }

  /** A group opened by the step holds the item alone, and that is all its key matches. */
  lemma NewGroupStarts(g: seq<Group>, init: seq<ReceiptItem>, x: ReceiptItem)
    requires forall k :: 0 <= k < |init| ==> CategoryKey(init[k]) in Keys(g)
    requires |AddToGroups(g, x)| > |g|
    ensures var r := AddToGroups(g, x);
      |r| == |g| + 1 && r[|g|].items == Filter(init + [x], InCategory(r[|g|].category))
  {
    var p := InCategory(CategoryKey(x));
    NewKeyFiltersNothing(g, init, x);
    FilterAppend(init, [x], p);
    FilterSingleton(x, p);
  }

  /** A key that has no group yet matches none of the earlier items. */
  lemma NewKeyFiltersNothing(g: seq<Group>, init: seq<ReceiptItem>, x: ReceiptItem)
    requires forall k :: 0 <= k < |init| ==> CategoryKey(init[k]) in Keys(g)
    requires CategoryKey(x) !in Keys(g)
    ensures Filter(init, InCategory(CategoryKey(x))) == []
  {
    var p := InCategory(CategoryKey(x));
    forall k | 0 <= k < |init|
      ensures !p(init[k])
    {
      assert CategoryKey(init[k]) in Keys(g);
    }
    FilterNone(init, p);
  }

  /** The step leaves no group empty. */
  lemma GroupStepNonEmpty(g: seq<Group>, x: ReceiptItem)
    requires forall i :: 0 <= i < |g| ==> |g[i].items| > 0
    ensures var r := AddToGroups(g, x);
      forall i :: 0 <= i < |r| ==> |r[i].items| > 0
  {
    var r := AddToGroups(g, x);
    forall i | 0 <= i < |r|
      ensures |r[i].items| > 0
    {
      if i < |g| {
        assert |r[i].items| >= |g[i].items|;
      }
    }
  }

  /** Every key of the extended list has a group after the step. */
  lemma GroupStepCovers(g: seq<Group>, init: seq<ReceiptItem>, x: ReceiptItem)
    requires forall k :: 0 <= k < |init| ==> CategoryKey(init[k]) in Keys(g)
    ensures var items := init + [x];
      forall k :: 0 <= k < |items| ==> CategoryKey(items[k]) in Keys(AddToGroups(g, x))
  {
    var items := init + [x];
    var r := AddToGroups(g, x);
    forall k | 0 <= k < |items|
      ensures CategoryKey(items[k]) in Keys(r)
    {
      if k < |init| {
        assert items[k] == init[k];
        assert CategoryKey(init[k]) in Keys(g);
      }
    }
  }

  /**
   `groupItemsByCategory`: the groups partition the items. Keys are distinct,
   every item's key has a group, no group is empty, and each group holds
   exactly the items with its key, in their input order.
   */
  function GroupItemsByCategory(items: seq<ReceiptItem>): (r: seq<Group>)
    ensures IsGrouping(r, items)
    decreases |items|
  {
    if |items| == 0 then []
    else
      var g := GroupItemsByCategory(items[..|items| - 1]);
      GroupStep(g, items);
      AddToGroups(g, items[|items| - 1])
  }

  /**
   The names an empty JavaScript object already answers through
   `Object.prototype`. For these `acc[key]` is truthy before any group exists
   and has no `push`, so the reduce step throws a `TypeError`.
   */
  const PrototypeKeys: set<string> := {
    "constructor", "__proto__", "toString", "toLocaleString", "valueOf",
    "hasOwnProperty", "isPrototypeOf", "propertyIsEnumerable",
    "__defineGetter__", "__defineSetter__", "__lookupGetter__", "__lookupSetter__"
  }

  /** The item is filed under a name `Object.prototype` already provides. */
  predicate Inherited(item: ReceiptItem) {
    CategoryKey(item) in PrototypeKeys
  }

  /**
   `groupItemsByCategory` as it runs on a plain object: None when it throws.
   It throws exactly when some item is filed under an inherited name, and
   otherwise gives the partition `GroupItemsByCategory` describes.
   */
  function GroupOrThrow(items: seq<ReceiptItem>): (r: Option<seq<Group>>)
    ensures r.None? <==> exists k :: 0 <= k < |items| && Inherited(items[k])
    decreases |items|
  {
    if |items| == 0 then Some([])
    else
      var init := items[..|items| - 1];
      var last := items[|items| - 1];
      assert forall k :: 0 <= k < |init| ==> init[k] == items[k];
      match GroupOrThrow(init)
      case None =>
        var k :| 0 <= k < |init| && Inherited(init[k]);
        assert Inherited(items[k]);
        None
      case Some(g) =>
        if Inherited(last) then
          assert Inherited(items[|items| - 1]);
          None
        else
          assert forall k :: 0 <= k < |items| ==> !Inherited(items[k]) by {
            forall k | 0 <= k < |items|
              ensures !Inherited(items[k])
            {
              if k < |init| {
                assert items[k] == init[k];
              } else {
                assert items[k] == last;
              }
            }
          }
          Some(AddToGroups(g, last))
  }

  /** When the reduce does not throw it builds the partition `GroupItemsByCategory` describes. */
  lemma {:induction false} GroupOrThrowGroups(items: seq<ReceiptItem>)
    ensures GroupOrThrow(items).Some? ==> GroupOrThrow(items).value == GroupItemsByCategory(items)
    ensures GroupOrThrow(items).Some? ==> IsGrouping(GroupOrThrow(items).value, items)
    decreases |items|
  {
    if |items| > 0 {
      GroupOrThrowGroups(items[..|items| - 1]);
    }
  }

  /** Sum of the group sizes. */
  function TotalCount(groups: seq<Group>): nat {
    if |groups| == 0 then 0 else |groups[0].items| + TotalCount(groups[1..])
  }

  lemma {:induction false} TotalCountAppend(a: seq<Group>, b: seq<Group>)
    ensures TotalCount(a + b) == TotalCount(a) + TotalCount(b)
    decreases |a|
  {
    if |a| == 0 {
      assert a + b == b;
    } else {
      assert (a + b)[1..] == a[1..] + b;
      TotalCountAppend(a[1..], b);
    }
  }

  /** Replacing one group changes the total by the difference in its size. */
  lemma {:induction false} TotalCountUpdate(groups: seq<Group>, j: nat, g: Group)
    requires j < |groups|
    ensures TotalCount(groups[j := g]) == TotalCount(groups) - |groups[j].items| + |g.items|
    decreases |groups|
  {
    if j > 0 {
      assert groups[j := g][1..] == groups[1..][j - 1 := g];
      TotalCountUpdate(groups[1..], j - 1, g);
    }
  }

  /** With distinct keys, adding an item grows exactly one group, or adds a one-item group. */
  lemma AddToGroupsCount(groups: seq<Group>, item: ReceiptItem)
    requires NoDuplicates(Keys(groups))
    ensures TotalCount(AddToGroups(groups, item)) == TotalCount(groups) + 1
  {
    var key := CategoryKey(item);
    var r := AddToGroups(groups, item);
    if key in Keys(groups) {
      var j :| 0 <= j < |groups| && Keys(groups)[j] == key;
      var grown := Group(key, groups[j].items + [item]);
      forall i | 0 <= i < |groups|
        ensures r[i] == groups[j := grown][i]
      {
        assert r[i].category == Keys(r)[i] == Keys(groups)[i];
        if i != j {
          assert Keys(groups)[i] != Keys(groups)[j];
        }
      }
      assert r == groups[j := grown];
      TotalCountUpdate(groups, j, grown);
    } else {
      forall i | 0 <= i < |groups|
        ensures r[i] == groups[i]
      {
        assert r[i].category == Keys(r)[i] == Keys(groups)[i];
      }
      assert r == groups + [Group(key, [item])];
      TotalCountAppend(groups, [Group(key, [item])]);
      assert TotalCount([Group(key, [item])]) == 1;
    }
  }

  /** Grouping loses and duplicates nothing: the group sizes add up to the item count. */
  lemma {:induction false} GroupingPreservesCount(items: seq<ReceiptItem>)
    ensures TotalCount(GroupItemsByCategory(items)) == |items|
    decreases |items|
  {
    if |items| > 0 {
      GroupingPreservesCount(items[..|items| - 1]);
      AddToGroupsCount(GroupItemsByCategory(items[..|items| - 1]), items[|items| - 1]);
    }
  }

  /** Each item is in the group of its own key and in no other group. */
  lemma ItemInExactlyOneGroup(items: seq<ReceiptItem>, k: nat)
    requires k < |items|
    ensures var r := GroupItemsByCategory(items);
      && CategoryKey(items[k]) in Keys(r)
      && forall i :: 0 <= i < |r| ==> (items[k] in r[i].items <==> r[i].category == CategoryKey(items[k]))
  {
    var r := GroupItemsByCategory(items);
    var key := CategoryKey(items[k]);
    forall j | 0 <= j < |r|
      ensures items[k] in r[j].items <==> r[j].category == key
    {
      assert r[j].items == Filter(items, InCategory(r[j].category));
      assert InCategory(r[j].category)(items[k]) <==> r[j].category == key;
    }
  }

  /** The search predicate: the lower-cased name contains the lower-cased term. */
  function MatchesSearch(term: string): ReceiptItem -> bool {
    (item: ReceiptItem) => Text.Contains(Text.ToLower(item.name), Text.ToLower(term))
  }

  /** The search keeps, in order, every item whose name matches and no other. */
  function FilterBySearch(items: seq<ReceiptItem>, term: string): (r: seq<ReceiptItem>)
    ensures KeepsExactly(r, items, MatchesSearch(term))
  {
    FilterKeepsExactly(items, MatchesSearch(term));
    Filter(items, MatchesSearch(term))
  }

  /** An item survives the search exactly when its lower-cased name contains the lower-cased term. */
  lemma SearchKeepsExactlyMatches(items: seq<ReceiptItem>, term: string, k: nat)
    requires k < |items|
    ensures items[k] in FilterBySearch(items, term)
        <==> Text.Occurs(Text.ToLower(items[k].name), Text.ToLower(term))
  {
    Text.ContainsIffOccurs(Text.ToLower(items[k].name), Text.ToLower(term));
  }

  /** An empty search term keeps the whole inventory, in order. */
  lemma SearchEmptyKeepsAll(items: seq<ReceiptItem>)
    ensures FilterBySearch(items, "") == items
  {
    forall i | 0 <= i < |items|
      ensures MatchesSearch("")(items[i])
    {
      assert Text.StartsWith(Text.ToLower(items[i].name), "");
    }
    FilterAll(items, MatchesSearch(""));
  }

  /**
   The grouped view the inventory panel receives (the `useMemo` value), when
   the grouping does not throw.
   */
  function VisibleGroups(items: seq<ReceiptItem>, term: string): seq<Group> {
    GroupItemsByCategory(FilterBySearch(items, term))
  }

  /**
   The page renders the inventory exactly when no matching item is filed
   under an inherited name, and then it renders `VisibleGroups`.
   */
  lemma RenderThrowsIffInheritedKey(items: seq<ReceiptItem>, term: string)
    ensures var shown := FilterBySearch(items, term);
      && (GroupOrThrow(shown).None? <==> exists k :: 0 <= k < |shown| && CategoryKey(shown[k]) in PrototypeKeys)
      && (GroupOrThrow(shown).Some? ==> GroupOrThrow(shown).value == VisibleGroups(items, term))
  {
    GroupOrThrowGroups(FilterBySearch(items, term));
  }

  /** `selectedItems.some(s => s.id === id)`. */
  predicate IsSelected(selected: seq<ReceiptItem>, id: string) {
    exists i :: 0 <= i < |selected| && selected[i].id == id
  }

  function CountId(s: seq<ReceiptItem>, id: string): nat {
    if |s| == 0 then 0 else (if s[|s| - 1].id == id then 1 else 0) + CountId(s[..|s| - 1], id)
  }

  function HasOtherId(id: string): ReceiptItem -> bool {
    (item: ReceiptItem) => item.id != id
  }

  /** Dropping an id removes as many entries as carry it. */
  lemma {:induction false} DropIdCount(s: seq<ReceiptItem>, id: string)
    ensures |Filter(s, HasOtherId(id))| + CountId(s, id) == |s|
    decreases |s|
  {
    if |s| > 0 {
      DropIdCount(s[..|s| - 1], id);
    }
  }

  /** `handleSelectItem`: checking appends the item, unchecking drops every entry with its id. */
  function SelectItem(selected: seq<ReceiptItem>, item: ReceiptItem, isSelected: bool): (r: seq<ReceiptItem>)
    ensures isSelected ==> |r| == |selected| + 1 && r[..|selected|] == selected && r[|selected|] == item
    ensures !isSelected ==> forall i :: 0 <= i < |r| ==> r[i].id != item.id && r[i] in selected
    ensures !isSelected ==> forall i :: 0 <= i < |selected| && selected[i].id != item.id ==> selected[i] in r
    ensures !isSelected ==> KeepsExactly(r, selected, HasOtherId(item.id))
    ensures !isSelected ==> |r| + CountId(selected, item.id) == |selected|
  {
    if isSelected then selected + [item]
    else
      FilterKeepsExactly(selected, HasOtherId(item.id));
      DropIdCount(selected, item.id);
      Filter(selected, HasOtherId(item.id))
  }

  /** Checking an already-selected item adds a second entry: no duplicate check is made. */
  lemma SelectDoesNotDeduplicate(selected: seq<ReceiptItem>, item: ReceiptItem)
    ensures CountId(SelectItem(selected, item, true), item.id) == CountId(selected, item.id) + 1
  {
    assert (selected + [item])[..|selected|] == selected;
  }

  /** Unchecking undoes any number of checks of the same id, and keeps every other entry in order. */
  lemma DeselectAfterSelect(selected: seq<ReceiptItem>, item: ReceiptItem)
    ensures SelectItem(SelectItem(selected, item, true), item, false) == SelectItem(selected, item, false)
    ensures !IsSelected(selected, item.id) ==> SelectItem(selected, item, false) == selected
  {
    FilterAppend(selected, [item], HasOtherId(item.id));
    FilterSingleton(item, HasOtherId(item.id));
    assert selected + [] == selected;
    if !IsSelected(selected, item.id) {
      FilterAll(selected, HasOtherId(item.id));
    }
  }

  function IdOf(item: ReceiptItem): string {
    item.id
  }

  /** The ids of a category's items (`new Set(categoryItems.map(i => i.id))`). */
  function CategoryIds(categoryItems: seq<ReceiptItem>): (ids: set<string>)
    ensures forall id :: id in ids <==> exists k :: 0 <= k < |categoryItems| && categoryItems[k].id == id
  {
    set k | 0 <= k < |categoryItems| :: categoryItems[k].id
  }

  function IdNotIn(ids: set<string>): ReceiptItem -> bool {
    (item: ReceiptItem) => item.id !in ids
  }

  function NotSelectedIn(selected: seq<ReceiptItem>): ReceiptItem -> bool {
    (item: ReceiptItem) => !IsSelected(selected, item.id)
  }

  /**
   `handleSelectAllInCategory`: when every item was selected, drop the entries of
   the category's ids; otherwise append the category items not yet selected.
   */
  function SelectAllInCategory(selected: seq<ReceiptItem>, categoryItems: seq<ReceiptItem>,
                               areAllSelected: bool): (r: seq<ReceiptItem>)
    ensures areAllSelected ==> forall i, k :: 0 <= i < |r| && 0 <= k < |categoryItems| ==> r[i].id != categoryItems[k].id
    ensures areAllSelected ==> forall i :: 0 <= i < |r| ==> r[i] in selected
    ensures areAllSelected ==> forall i :: 0 <= i < |selected| && (forall k :: 0 <= k < |categoryItems| ==> selected[i].id != categoryItems[k].id) ==> selected[i] in r
    ensures !areAllSelected ==> |selected| <= |r| && r[..|selected|] == selected
    ensures !areAllSelected ==> forall i :: |selected| <= i < |r| ==> r[i] in categoryItems && !IsSelected(selected, r[i].id)
    ensures !areAllSelected ==> forall k :: 0 <= k < |categoryItems| ==> IsSelected(r, categoryItems[k].id)
    ensures areAllSelected ==> KeepsExactly(r, selected, IdNotIn(CategoryIds(categoryItems)))
    ensures !areAllSelected ==> KeepsExactly(r[|selected|..], categoryItems, NotSelectedIn(selected))
  {
    if areAllSelected then
      var ids := CategoryIds(categoryItems);
      DropCategoryIds(selected, categoryItems, ids);
      FilterKeepsExactly(selected, IdNotIn(ids));
      Filter(selected, IdNotIn(ids))
    else
      var added := Filter(categoryItems, NotSelectedIn(selected));
      AddMissingItems(selected, categoryItems, added);
      FilterKeepsExactly(categoryItems, NotSelectedIn(selected));
      assert (selected + added)[|selected|..] == added;
      selected + added
  }

  /** Dropping the category's ids removes exactly the entries with those ids. */
  lemma DropCategoryIds(selected: seq<ReceiptItem>, categoryItems: seq<ReceiptItem>, ids: set<string>)
    requires ids == set k | 0 <= k < |categoryItems| :: categoryItems[k].id
    ensures var r := Filter(selected, IdNotIn(ids));
      && (forall i, k :: 0 <= i < |r| && 0 <= k < |categoryItems| ==> r[i].id != categoryItems[k].id)
      && (forall i :: 0 <= i < |r| ==> r[i] in selected)
      && (forall i :: 0 <= i < |selected| && (forall k :: 0 <= k < |categoryItems| ==> selected[i].id != categoryItems[k].id) ==> selected[i] in r)
  {
    assert forall k :: 0 <= k < |categoryItems| ==> categoryItems[k].id in ids;
  }

  /** Appending the category items not yet selected selects the whole category after the old entries. */
  lemma AddMissingItems(selected: seq<ReceiptItem>, categoryItems: seq<ReceiptItem>, added: seq<ReceiptItem>)
    requires added == Filter(categoryItems, NotSelectedIn(selected))
    ensures var r := selected + added;
      && r[..|selected|] == selected
      && (forall i :: |selected| <= i < |r| ==> r[i] in categoryItems && !IsSelected(selected, r[i].id))
      && (forall k :: 0 <= k < |categoryItems| ==> IsSelected(r, categoryItems[k].id))
  {
    assert (selected + added)[..|selected|] == selected;
    AddedAreMissing(selected, categoryItems, added);
    AddedSelectAll(selected, categoryItems, added);
  }

  lemma AddedAreMissing(selected: seq<ReceiptItem>, categoryItems: seq<ReceiptItem>, added: seq<ReceiptItem>)
    requires added == Filter(categoryItems, NotSelectedIn(selected))
    ensures var r := selected + added;
      forall i :: |selected| <= i < |r| ==> r[i] in categoryItems && !IsSelected(selected, r[i].id)
  {
    var r := selected + added;
    var p := NotSelectedIn(selected);
    forall i | |selected| <= i < |r|
      ensures r[i] in categoryItems && !IsSelected(selected, r[i].id)
    {
      assert r[i] == added[i - |selected|];
      assert p(added[i - |selected|]);
    }
  }

  lemma AddedSelectAll(selected: seq<ReceiptItem>, categoryItems: seq<ReceiptItem>, added: seq<ReceiptItem>)
    requires added == Filter(categoryItems, NotSelectedIn(selected))
    ensures forall k :: 0 <= k < |categoryItems| ==> IsSelected(selected + added, categoryItems[k].id)
  {
    var r := selected + added;
    var p := NotSelectedIn(selected);
    forall k | 0 <= k < |categoryItems|
      ensures IsSelected(r, categoryItems[k].id)
    {
      if IsSelected(selected, categoryItems[k].id) {
        var i :| 0 <= i < |selected| && selected[i].id == categoryItems[k].id;
        assert r[i] == selected[i];
      } else {
        assert p(categoryItems[k]);
        assert categoryItems[k] in added;
        var j :| 0 <= j < |added| && added[j] == categoryItems[k];
        assert r[|selected| + j] == categoryItems[k];
      }
    }
  }

  /** Names of the selected items, in selection order. */
  function Names(selected: seq<ReceiptItem>): (ns: seq<string>)
    ensures |ns| == |selected|
  {
    seq(|selected|, i requires 0 <= i < |selected| => selected[i].name)
  }

  /**
   `handleFindRecipes`: no request for an empty selection; otherwise the
   distinct selected names in first-occurrence order, joined by ",".
   */
  function IngredientQuery(selected: seq<ReceiptItem>): (q: Option<string>)
    ensures q.None? <==> |selected| == 0
  {
    if |selected| == 0 then None else Some(Text.Join(Dedupe(Names(selected)), ","))
  }

  /**
   When no name contains a comma, splitting the query at commas gives back
   exactly the distinct selected names, each once, in first-selection order.
   */
  lemma IngredientQueryRoundTrip(selected: seq<ReceiptItem>)
    requires |selected| > 0
    requires forall i :: 0 <= i < |selected| ==> ',' !in selected[i].name
    ensures Text.Split(IngredientQuery(selected).value, ',') == Dedupe(Names(selected))
    ensures NoDuplicates(Text.Split(IngredientQuery(selected).value, ','))
    ensures InFirstOccurrenceOrder(Text.Split(IngredientQuery(selected).value, ','), Names(selected))
    ensures forall i :: 0 <= i < |selected| ==> selected[i].name in Text.Split(IngredientQuery(selected).value, ',')
  {
    var d := Dedupe(Names(selected));
    var _ := DedupeFirstOccurrences(Names(selected));
    assert forall i :: 0 <= i < |selected| ==> Names(selected)[i] == selected[i].name;
    assert Names(selected)[0] in d;
    forall i | 0 <= i < |d|
      ensures ',' !in d[i]
    {
      var k :| 0 <= k < |selected| && Names(selected)[k] == d[i];
    }
    Text.SplitJoin(d, ',');
  }

  /** Whether a category panel is open; a missing flag reads as closed. */
  predicate IsOpen(open: map<string, bool>, c: string) {
    c in open && open[c]
  }

  /** `toggleCategory`: flips the named flag (a missing one becomes true) and nothing else. */
  function ToggleCategory(open: map<string, bool>, c: string): (r: map<string, bool>)
    ensures c in r && r[c] == !IsOpen(open, c)
    ensures forall k :: k != c ==> (k in r <==> k in open)
    ensures forall k :: k in open && k != c ==> r[k] == open[k]
  {
    open[c := !IsOpen(open, c)]
  }

  /** Toggling twice restores what every panel shows. */
  lemma ToggleTwice(open: map<string, bool>, c: string, k: string)
    ensures IsOpen(ToggleCategory(ToggleCategory(open, c), c), k) == IsOpen(open, k)
  {
  }

  /** After loading, the category of the first (newest) item starts open. */
  function InitialOpen(data: seq<ReceiptItem>): (r: map<string, bool>)
    ensures |data| == 0 ==> r == map[]
    ensures |data| > 0 ==> r.Keys == {CategoryKey(data[0])} && IsOpen(r, CategoryKey(data[0]))
  {
    if |data| > 0 then map[CategoryKey(data[0]) := true] else map[]
  }

  /** The panel opened at load time is one of the panels rendered for an empty search. */
  lemma InitialOpenIsAGroup(data: seq<ReceiptItem>)
    requires |data| > 0
    ensures CategoryKey(data[0]) in Keys(VisibleGroups(data, ""))
  {
    SearchEmptyKeepsAll(data);
  }

  /** The recipe panel state the dashboard keeps. */
  datatype RecipesState = RecipesState(recipes: seq<RecipeSuggestions.Recipe>, isLoading: bool,
                                       error: Option<string>)

  /** The message shown when the route answers with an error status and no `error` text. */
  const RecipesFailed := "Failed to fetch recipes."

  /** How the `/api/recipes` request ended. */
  datatype RecipesOutcome =
    | Found(recipes: seq<RecipeSuggestions.Recipe>)
    | Refused(error: string)
    | Thrown(message: string)

  /**
   `handleFindRecipes` from click to settled state: None when nothing is
   selected (no request); otherwise the query sent and the final panel state.
   */
  function FindRecipes(selected: seq<ReceiptItem>, outcome: RecipesOutcome): (r: Option<(string, RecipesState)>)
    ensures r.None? <==> |selected| == 0
    ensures r.Some? ==> Some(r.value.0) == IngredientQuery(selected) && !r.value.1.isLoading
    ensures r.Some? && outcome.Found? ==> r.value.1 == RecipesState(outcome.recipes, false, None)
    ensures r.Some? && !outcome.Found? ==> r.value.1.recipes == [] && r.value.1.error.Some?
    ensures r.Some? && outcome.Refused? && outcome.error != "" ==> r.value.1.error == Some(outcome.error)
    ensures r.Some? && outcome.Refused? && outcome.error == "" ==> r.value.1.error == Some(RecipesFailed)
    ensures r.Some? && outcome.Thrown? ==> r.value.1.error == Some(outcome.message)
  {
    match IngredientQuery(selected)
    case None => None
    case Some(q) =>
      var settled := match outcome
        case Found(recipes) => RecipesState(recipes, false, None)
        case Refused(e) => RecipesState([], false, Some(if e != "" then e else RecipesFailed))
        case Thrown(m) => RecipesState([], false, Some(m));
      Some((q, settled))
  }
}
