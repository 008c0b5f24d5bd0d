/** The filter panel: the single and group toggles that rewrite the applied
    filters, the group checkbox state, and the item lists the panel shows. */
module FilterControls {
  import opened Common
  import opened Categories
  import opened Accounts
  import opened TransactionFilters

  /** The two filter maps a list of the panel edits. */
  datatype FilterKey = CategoriesKey | CoverAccountsKey

  function Get(f: Filters, key: FilterKey): map<string, bool> {
    if key == CategoriesKey then f.categories else f.coverAccounts
  }

  function Other(key: FilterKey): FilterKey {
    if key == CategoriesKey then CoverAccountsKey else CategoriesKey
  }

  /** An entry of a filter list: a group carries its items. */
  datatype FilterItem = FilterItem(id: string, caption: string, items: Option<seq<FilterItem>>)

  /** `handleChange`: the filters with the item's entry in the list's map set
      to the checkbox state. */
  function HandleChange(f: Filters, key: FilterKey, itemId: string, checked: bool): (r: Filters)
    ensures itemId in Get(r, key) && Get(r, key)[itemId] == checked
    ensures forall k | k != itemId ::
              (k in Get(r, key) <==> k in Get(f, key)) && (k in Get(f, key) ==> Get(r, key)[k] == Get(f, key)[k])
    ensures Get(r, Other(key)) == Get(f, Other(key))
  {
    if key == CategoriesKey then f.(categories := f.categories[itemId := checked])
    else f.(coverAccounts := f.coverAccounts[itemId := checked])
  }

  /** The group checkbox: checked when every item of the group is enabled. */
  predicate GroupChecked(f: Filters, key: FilterKey, items: seq<FilterItem>) {
    forall i | 0 <= i < |items| :: Enabled(Get(f, key), items[i].id)
  }

  predicate IsItemId(items: seq<FilterItem>, k: string) {
    exists i | 0 <= i < |items| :: items[i].id == k
  }

  /** `handleCheck`: every item of the group set to the checkbox state in one
      update; the group's own id and every other entry stay as they were. */
  method HandleCheck(f: Filters, key: FilterKey, items: seq<FilterItem>, checked: bool) returns (r: Filters)
    ensures forall i | 0 <= i < |items| :: items[i].id in Get(r, key) && Get(r, key)[items[i].id] == checked
    ensures forall k | !IsItemId(items, k) ::
              (k in Get(r, key) <==> k in Get(f, key)) && (k in Get(f, key) ==> Get(r, key)[k] == Get(f, key)[k])
    ensures Get(r, Other(key)) == Get(f, Other(key))
    ensures checked ==> GroupChecked(r, key, items)
    ensures !checked && |items| > 0 ==> !GroupChecked(r, key, items)
  {
    var changedFilters: map<string, bool> := map[];
    var i := 0;
    while i < |items|
      invariant 0 <= i <= |items|
      invariant forall k :: k in changedFilters <==> IsItemId(items[..i], k)
      invariant forall k | k in changedFilters :: changedFilters[k] == checked
    {
      forall k
        ensures IsItemId(items[..i + 1], k) <==> IsItemId(items[..i], k) || items[i].id == k
      {
        assert forall j | 0 <= j < i :: items[..i + 1][j] == items[..i][j];
        assert items[..i + 1][i] == items[i];
      }
      changedFilters := changedFilters[items[i].id := checked];
      i := i + 1;
    }
    assert items[..i] == items;
    var merged := Get(f, key) + changedFilters;
    r := if key == CategoriesKey then f.(categories := merged) else f.(coverAccounts := merged);
    assert forall j | 0 <= j < |items| :: IsItemId(items, items[j].id);
    if !checked && |items| > 0 {
      assert !Enabled(Get(r, key), items[0].id);
    }
  }

  /** Unticking one item of a group unticks the group. */
  lemma UncheckingItemUnchecksGroup(f: Filters, key: FilterKey, items: seq<FilterItem>, i: int)
    requires 0 <= i < |items|
    ensures !GroupChecked(HandleChange(f, key, items[i].id, false), key, items)
  {
    assert !Enabled(Get(HandleChange(f, key, items[i].id, false), key), items[i].id);
  }

  /** Ticking the one item of a group that was not enabled ticks the group. */
  lemma CheckingLastItemChecksGroup(f: Filters, key: FilterKey, items: seq<FilterItem>, i: int)
    requires 0 <= i < |items|
    requires forall j | 0 <= j < |items| && items[j].id != items[i].id :: Enabled(Get(f, key), items[j].id)
    ensures GroupChecked(HandleChange(f, key, items[i].id, true), key, items)
  {
    var r := HandleChange(f, key, items[i].id, true);
    forall j | 0 <= j < |items|
      ensures Enabled(Get(r, key), items[j].id)
    {
      if items[j].id != items[i].id {
        assert Enabled(Get(f, key), items[j].id);
      }
    }
  }

  /** The category list: one group per root in tree order, with one item per
      child, then an "Uncategorized" item. */
  function CategoryItems(tree: seq<TreeNode>): (r: seq<FilterItem>)
    ensures |r| == |tree| + 1
    ensures r[|tree|] == FilterItem(UNCATEGORIZED_ID, "Uncategorized", None)
    ensures forall i | 0 <= i < |tree| ::
              && r[i].id == tree[i].category.id
              && r[i].caption == tree[i].category.name
              && r[i].items.Some?
              && |r[i].items.value| == |tree[i].childCategories|
              && forall k | 0 <= k < |tree[i].childCategories| ::
                   r[i].items.value[k] == FilterItem(tree[i].childCategories[k].id, tree[i].childCategories[k].name, None)
  {
    seq(|tree|, i requires 0 <= i < |tree| => RootItem(tree[i])) + [FilterItem(UNCATEGORIZED_ID, "Uncategorized", None)]
  }

  function RootItem(root: TreeNode): FilterItem {
    var children := root.childCategories;
    FilterItem(root.category.id, root.category.name,
               Some(seq(|children|, k requires 0 <= k < |children| => FilterItem(children[k].id, children[k].name, None))))
  }

  /** The cover-account list: one item per account in order, then a
      "Not Covered" item for the "none" key. */
  function CoverAccountItems(accounts: seq<Account>): (r: seq<FilterItem>)
    ensures |r| == |accounts| + 1
    ensures r[|accounts|] == FilterItem(NOT_COVERED_ID, "Not Covered", None)
    ensures forall i | 0 <= i < |accounts| :: r[i] == FilterItem(accounts[i].id, accounts[i].displayName, None)
  {
    seq(|accounts|, i requires 0 <= i < |accounts| => FilterItem(accounts[i].id, accounts[i].displayName, None))
      + [FilterItem(NOT_COVERED_ID, "Not Covered", None)]
  }

  /** Under the default filters every box of the panel is ticked: every
      category group, the "Uncategorized" item, every account item and the
      "Not Covered" item. */
  lemma DefaultsTickEveryBox(tree: seq<TreeNode>, accounts: seq<Account>)
    ensures var f := Filters(DefaultCategoryFilter(tree), DefaultCoverFilter(accounts));
      && (forall i | 0 <= i < |tree| :: GroupChecked(f, CategoriesKey, CategoryItems(tree)[i].items.value))
      && Enabled(f.categories, CategoryItems(tree)[|tree|].id)
      && (forall i | 0 <= i < |accounts| + 1 :: Enabled(f.coverAccounts, CoverAccountItems(accounts)[i].id))
  {
    DefaultsEnableEverything(tree, accounts);
    var items := CategoryItems(tree);
    forall i | 0 <= i < |tree|
      ensures GroupChecked(Filters(DefaultCategoryFilter(tree), DefaultCoverFilter(accounts)), CategoriesKey, items[i].items.value)
    {
      assert forall k | 0 <= k < |items[i].items.value| :: items[i].items.value[k].id == tree[i].childCategories[k].id;
    }
  }
}
