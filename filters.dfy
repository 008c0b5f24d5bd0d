/** The transaction filters: the default filter maps, the search text, and
    the two live versions of the per-account filtered list, the loose one
    with search and the strict one without. */
module TransactionFilters {
  import opened Common
  import opened Transactions
  import opened Categories
  import opened Accounts

  /** The category key of transactions that have no category. */
  const UNCATEGORIZED_ID: string := "uncategorized"
  /** The cover-account key of transactions that have no covering account. */
  const NOT_COVERED_ID: string := "none"
  /** The initial search text. */
  const DEFAULT_SEARCH: string := ""

  /** The applied filters: one map per filter key from id to whether it is
      enabled. */
  datatype Filters = Filters(categories: map<string, bool>, coverAccounts: map<string, bool>)

  /** A key absent from a filter map reads as disabled. */
  predicate Enabled(m: map<string, bool>, key: string) {
    key in m && m[key]
  }

  /** Every id in `ids` mapped to true, and nothing else. */
  function AllEnabled(ids: seq<string>): (m: map<string, bool>)
    ensures forall key :: key in m <==> key in ids
    ensures forall key | key in m :: m[key]
  {
    map key | key in ids :: true
  }

  lemma AllEnabledSnoc(ids: seq<string>, x: string)
    ensures AllEnabled(ids + [x]) == AllEnabled(ids)[x := true]
  {
    assert forall key :: key in ids + [x] <==> key in ids || key == x;
  }

  /** The ids of the second-level categories of a tree, root by root. */
  function ChildIds(tree: seq<TreeNode>): (r: seq<string>)
    ensures forall i, k | 0 <= i < |tree| && 0 <= k < |tree[i].childCategories| ::
              tree[i].childCategories[k].id in r
    ensures forall x | x in r :: exists i | 0 <= i < |tree| :: exists c | c in tree[i].childCategories :: c.id == x
  {
    if tree == [] then []
    else
      var prefix, children := tree[..|tree| - 1], tree[|tree| - 1].childCategories;
      var r := ChildIds(prefix) + Keys(children, CategoryKey);
      assert forall i | 0 <= i < |prefix| :: prefix[i] == tree[i];
      assert forall x | x in Keys(children, CategoryKey) :: exists k | 0 <= k < |children| :: children[k].id == x;
      r
  }

  /** The key of every element of `xs`, in order. */
  function Keys<T>(xs: seq<T>, key: T -> string): (r: seq<string>)
    ensures |r| == |xs| && forall k | 0 <= k < |xs| :: r[k] == key(xs[k])
  {
    seq(|xs|, k requires 0 <= k < |xs| => key(xs[k]))
  }

  function CategoryKey(c: Category): string { c.id }

  function AccountKey(a: Account): string { a.id }

  /** The default category filter: "uncategorized" and every child category
      id enabled. */
  function DefaultCategoryFilter(tree: seq<TreeNode>): map<string, bool> {
    AllEnabled([UNCATEGORIZED_ID] + ChildIds(tree))
  }

  /** The default cover-account filter: "none" and every account id enabled. */
  function DefaultCoverFilter(accounts: seq<Account>): map<string, bool> {
    AllEnabled([NOT_COVERED_ID] + Keys(accounts, AccountKey))
  }

  /** The default of the applied filters, built as the store does: start from
      the two catch-all keys, then set every child category id and every
      account id to true. */
  method DefaultFilters(tree: seq<TreeNode>, accounts: seq<Account>) returns (allFilters: Filters)
    ensures allFilters == Filters(DefaultCategoryFilter(tree), DefaultCoverFilter(accounts))
  {
    var categories := map[UNCATEGORIZED_ID := true];
    var coverAccounts := map[NOT_COVERED_ID := true];
    var i := 0;
    assert tree[..i] == [];
    assert [UNCATEGORIZED_ID] + ChildIds([]) == [UNCATEGORIZED_ID];
    while i < |tree|
      invariant 0 <= i <= |tree|
      invariant categories == AllEnabled([UNCATEGORIZED_ID] + ChildIds(tree[..i]))
    {
      ghost var pre := tree[..i + 1];
      assert pre[..|pre| - 1] == tree[..i] && pre[|pre| - 1] == tree[i];
      assert ChildIds(tree[..i + 1]) == ChildIds(tree[..i]) + Keys(tree[i].childCategories, CategoryKey);
      categories := EnableChildren(categories, [UNCATEGORIZED_ID] + ChildIds(tree[..i]), tree[i].childCategories);
      assert [UNCATEGORIZED_ID] + ChildIds(tree[..i]) + Keys(tree[i].childCategories, CategoryKey)
          == [UNCATEGORIZED_ID] + ChildIds(tree[..i + 1]);
      i := i + 1;
    }
    assert tree[..i] == tree;
    coverAccounts := EnableAccounts(coverAccounts, accounts);
    allFilters := Filters(categories, coverAccounts);
  }

  /** The inner loop over one root's children: each child id set to true. */
  method EnableChildren(categories: map<string, bool>, ghost base: seq<string>, children: seq<Category>)
    returns (r: map<string, bool>)
    requires categories == AllEnabled(base)
    ensures r == AllEnabled(base + Keys(children, CategoryKey))
  {
    r := categories;
    var j := 0;
    assert children[..j] == [] && base + Keys([], CategoryKey) == base;
    while j < |children|
      invariant 0 <= j <= |children|
      invariant r == AllEnabled(base + Keys(children[..j], CategoryKey))
    {
      assert Keys(children[..j + 1], CategoryKey) == Keys(children[..j], CategoryKey) + [children[j].id];
      AllEnabledSnoc(base + Keys(children[..j], CategoryKey), children[j].id);
      assert base + Keys(children[..j], CategoryKey) + [children[j].id] == base + Keys(children[..j + 1], CategoryKey);
      r := r[children[j].id := true];
      j := j + 1;
    }
    assert children[..j] == children;
  }

  /** The loop over the accounts: each account id set to true next to "none". */
  method EnableAccounts(coverAccounts: map<string, bool>, accounts: seq<Account>)
    returns (r: map<string, bool>)
    requires coverAccounts == map[NOT_COVERED_ID := true]
    ensures r == DefaultCoverFilter(accounts)
  {
    r := coverAccounts;
    var i := 0;
    assert accounts[..i] == [] && [NOT_COVERED_ID] + Keys([], AccountKey) == [NOT_COVERED_ID];
    while i < |accounts|
      invariant 0 <= i <= |accounts|
      invariant r == AllEnabled([NOT_COVERED_ID] + Keys(accounts[..i], AccountKey))
    {
      assert Keys(accounts[..i + 1], AccountKey) == Keys(accounts[..i], AccountKey) + [accounts[i].id];
      AllEnabledSnoc([NOT_COVERED_ID] + Keys(accounts[..i], AccountKey), accounts[i].id);
      r := r[accounts[i].id := true];
      i := i + 1;
    }
    assert accounts[..i] == accounts;
  }

  /** The default filters enable the two catch-all keys, every child category
      and every account, and hold no disabled entry. */
  lemma DefaultsEnableEverything(tree: seq<TreeNode>, accounts: seq<Account>)
    ensures var f := Filters(DefaultCategoryFilter(tree), DefaultCoverFilter(accounts));
      && Enabled(f.categories, UNCATEGORIZED_ID)
      && Enabled(f.coverAccounts, NOT_COVERED_ID)
      && (forall i, k | 0 <= i < |tree| && 0 <= k < |tree[i].childCategories| ::
            Enabled(f.categories, tree[i].childCategories[k].id))
      && (forall k | 0 <= k < |accounts| :: Enabled(f.coverAccounts, accounts[k].id))
      && (forall key | key in f.categories :: f.categories[key])
      && (forall key | key in f.coverAccounts :: f.coverAccounts[key])
  {
    var f := Filters(DefaultCategoryFilter(tree), DefaultCoverFilter(accounts));
    assert UNCATEGORIZED_ID in [UNCATEGORIZED_ID] + ChildIds(tree);
    assert NOT_COVERED_ID in [NOT_COVERED_ID] + Keys(accounts, AccountKey);
    forall k | 0 <= k < |accounts|
      ensures Enabled(f.coverAccounts, accounts[k].id)
    {
      assert Keys(accounts, AccountKey)[k] == accounts[k].id;
      assert accounts[k].id in [NOT_COVERED_ID] + Keys(accounts, AccountKey);
    }
  }

  /** A root category id is not a key of the default category filter unless
      some non-root category, or the catch-all, shares it. */
  lemma DefaultsOmitRootIds(cs: seq<Category>, k: int)
    requires 0 <= k < |cs| && IsRoot(cs[k]) && cs[k].id != UNCATEGORIZED_ID
    requires forall m | 0 <= m < |cs| && !IsRoot(cs[m]) :: cs[m].id != cs[k].id
    ensures cs[k].id !in DefaultCategoryFilter(CategoryTree(cs))
  {
    var ids, id := ChildIds(CategoryTree(cs)), cs[k].id;
    if id in ids {
      var m := ChildIdOccurrence(cs, id);
      assert false;
    }
    assert id !in [UNCATEGORIZED_ID] + ids;
  }

  /** A child id of the built tree is the id of a non-root input. */
  lemma ChildIdOccurrence(cs: seq<Category>, x: string) returns (m: nat)
    requires x in ChildIds(CategoryTree(cs))
    ensures m < |cs| && !IsRoot(cs[m]) && cs[m].id == x
  {
    var tree := CategoryTree(cs);
    var i, n := ChildIdPosition(tree, x);
    var c := tree[i].childCategories[n];
    assert c in cs && c.parentId == Some(tree[i].category.id);
    m :| 0 <= m < |cs| && cs[m] == c;
  }

  /** Where a listed child id sits in the tree. */
  lemma ChildIdPosition(tree: seq<TreeNode>, x: string) returns (i: nat, n: nat)
    requires x in ChildIds(tree)
    ensures i < |tree| && n < |tree[i].childCategories| && tree[i].childCategories[n].id == x
  {
    i :| 0 <= i < |tree| && exists c | c in tree[i].childCategories :: c.id == x;
    var c :| c in tree[i].childCategories && c.id == x;
    n :| 0 <= n < |tree[i].childCategories| && tree[i].childCategories[n] == c;
  }

  /** The account a transaction's cover came from, if it has a cover and the
      cover names a transfer account. */
  function CoveredAccount(t: Transaction): Option<Id> {
    if t.coverTransaction.Some? then t.coverTransaction.value.transferAccountId else None
  }

  // ---- The loose filter with search ----

  /** The transaction's category is enabled, or "uncategorized" is. */
  predicate CategoryMatchLoose(categories: map<string, bool>, t: Transaction) {
    (t.categoryId.Some? && Enabled(categories, t.categoryId.value)) || Enabled(categories, UNCATEGORIZED_ID)
  }

  /** The covering account is enabled, or "none" is. */
  predicate CoverMatchLoose(coverAccounts: map<string, bool>, t: Transaction) {
    (CoveredAccount(t).Some? && Enabled(coverAccounts, CoveredAccount(t).value)) || Enabled(coverAccounts, NOT_COVERED_ID)
  }

  /** A non-empty description or raw text contains the search text, both
      lower-cased. */
  predicate SearchMatch(search: string, t: Transaction) {
    || (t.description != "" && Contains(Lower(t.description), Lower(search)))
    || (Truthy(t.rawText) && Contains(Lower(t.rawText.value), Lower(search)))
  }

  predicate KeepLoose(f: Filters, search: string, t: Transaction) {
    CategoryMatchLoose(f.categories, t) && CoverMatchLoose(f.coverAccounts, t) && SearchMatch(search, t)
  }

  /** The filtered list of an account: the transactions of its list that
      pass the category, cover and search tests, in list order. With both
      catch-alls enabled only the search test is left. */
  function FilterLoose(list: seq<Transaction>, f: Filters, search: string): (r: seq<Transaction>)
    ensures IsSubsequence(r, list)
    ensures forall i | 0 <= i < |r| :: r[i] in list && KeepLoose(f, search, r[i])
    ensures forall i | 0 <= i < |list| && KeepLoose(f, search, list[i]) :: list[i] in r
    ensures Enabled(f.categories, UNCATEGORIZED_ID) && Enabled(f.coverAccounts, NOT_COVERED_ID) ==>
              r == Filter(list, (t: Transaction) => SearchMatch(search, t))
  {
    var keep := (t: Transaction) => KeepLoose(f, search, t);
    var r := Filter(list, keep);
    assert Enabled(f.categories, UNCATEGORIZED_ID) && Enabled(f.coverAccounts, NOT_COVERED_ID) ==>
             r == Filter(list, (t: Transaction) => SearchMatch(search, t)) by {
      if Enabled(f.categories, UNCATEGORIZED_ID) && Enabled(f.coverAccounts, NOT_COVERED_ID) {
        FilterExt(list, keep, (t: Transaction) => SearchMatch(search, t));
      }
    }
    r
  }

  /** The empty search text, which is the default, keeps exactly the
      transactions with a non-empty description or raw text. */
  lemma EmptySearchKeepsDescribed(t: Transaction)
    ensures SearchMatch(DEFAULT_SEARCH, t) <==> t.description != "" || Truthy(t.rawText)
  {
    assert Lower(DEFAULT_SEARCH) == "";
    assert OccursAt(Lower(t.description), "", 0);
    if Truthy(t.rawText) {
      assert OccursAt(Lower(t.rawText.value), "", 0);
    }
  }

  // ---- The strict filter ----

  /** An uncategorised transaction needs "uncategorized"; a categorised one
      needs its own category, whatever "uncategorized" says. */
  predicate CategoryMatchStrict(categories: map<string, bool>, t: Transaction) {
    if t.categoryId.None? then Enabled(categories, UNCATEGORIZED_ID)
    else Enabled(categories, t.categoryId.value)
  }

  /** Without a covering account "none" decides; with one, that account's
      entry decides. */
  predicate CoverMatchStrict(coverAccounts: map<string, bool>, t: Transaction) {
    if CoveredAccount(t).None? then Enabled(coverAccounts, NOT_COVERED_ID)
    else Enabled(coverAccounts, CoveredAccount(t).value)
  }

  predicate KeepStrict(f: Filters, t: Transaction) {
    CategoryMatchStrict(f.categories, t) && CoverMatchStrict(f.coverAccounts, t)
  }

  /** The strict filtered list: a category filter followed by a cover
      filter, which together keep, in list order, the transactions passing
      both tests. */
  function FilterStrict(list: seq<Transaction>, f: Filters): (r: seq<Transaction>)
    ensures r == Filter(list, (t: Transaction) => KeepStrict(f, t))
  {
    var byCategory := (t: Transaction) => CategoryMatchStrict(f.categories, t);
    var byCover := (t: Transaction) => CoverMatchStrict(f.coverAccounts, t);
    var r := Filter(Filter(list, byCategory), byCover);
    assert r == Filter(list, (t: Transaction) => KeepStrict(f, t)) by {
      FilterFilter(list, byCategory, byCover, (t: Transaction) => KeepStrict(f, t));
    }
    r
  }

  /** Whatever the strict filter keeps passes the loose category and cover
      tests: the strict list is the loose one, without search, thinned. */
  lemma StrictWithinLoose(list: seq<Transaction>, f: Filters)
    ensures IsSubsequence(FilterStrict(list, f),
                          Filter(list, (t: Transaction) => CategoryMatchLoose(f.categories, t) && CoverMatchLoose(f.coverAccounts, t)))
  {
    var strict := (t: Transaction) => KeepStrict(f, t);
    var loose := (t: Transaction) => CategoryMatchLoose(f.categories, t) && CoverMatchLoose(f.coverAccounts, t);
    FilterFilter(list, loose, strict, strict);
  }

  /** The two filters differ: with only the catch-alls enabled, a
      categorised transaction passes the loose filter and fails the strict
      one. */
  lemma CatchAllOnlyRescuesLoose(t: Transaction)
    requires t.categoryId == Some("food") && t.coverTransaction.None? && t.description != ""
    ensures var f := Filters(map[UNCATEGORIZED_ID := true], map[NOT_COVERED_ID := true]);
      FilterLoose([t], f, DEFAULT_SEARCH) == [t] && FilterStrict([t], f) == []
  {
    var f := Filters(map[UNCATEGORIZED_ID := true], map[NOT_COVERED_ID := true]);
    EmptySearchKeepsDescribed(t);
    assert KeepLoose(f, DEFAULT_SEARCH, t);
    assert !KeepStrict(f, t);
    assert [t][1..] == [];
  }
}
