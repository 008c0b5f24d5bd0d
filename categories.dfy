/** The category tree: `makeCategoryTree` groups the flat category list of
    the banking API under its root categories, and the lookups search the
    second level of that tree. */
module Categories {
  import opened Common

  /** A category as the API lists it; `parentId` is the id in
      `relationships.parent.data`, absent for a root. */
  datatype Category = Category(id: Id, name: string, parentId: Option<Id>)

  /** An entry of the tree: a copy of a root category and the categories
      attached to it. */
  datatype TreeNode = TreeNode(category: Category, childCategories: seq<Category>)

  predicate IsRoot(c: Category) {
    c.parentId.None?
  }

  /** The ids of the roots of `cs`, each once, in order of first occurrence
      (the key order of a JavaScript `Map`). */
  function RootIds(cs: seq<Category>): (r: seq<Id>)
    ensures forall i, j | 0 <= i < j < |r| :: r[i] != r[j]
    ensures forall i | 0 <= i < |cs| && IsRoot(cs[i]) :: cs[i].id in r
    decreases |cs|
  {
    if cs == [] then []
    else
      var prefix, c := cs[..|cs| - 1], cs[|cs| - 1];
      var ids := RootIds(prefix);
      assert forall i | 0 <= i < |prefix| :: prefix[i] == cs[i];
      if IsRoot(c) && c.id !in ids then ids + [c.id] else ids
  }

  /** The last root of `cs` with the given id: the value a `Map.set` keyed by
      id leaves behind. */
  function LastRoot(cs: seq<Category>, id: Id): (r: Option<Category>)
    ensures r.Some? <==> id in RootIds(cs)
    ensures r.Some? ==> r.value.id == id && IsRoot(r.value) && r.value in cs
    decreases |cs|
  {
    if cs == [] then None
    else
      var prefix, c := cs[..|cs| - 1], cs[|cs| - 1];
      if IsRoot(c) && c.id == id then Some(c)
      else
        var r := LastRoot(prefix, id);
        assert r.Some? ==> r.value in cs;
        r
  }

  /** The root `LastRoot` returns sits at a position after which no root
      with that id occurs: a later `set` under the same key overwrites an
      earlier one. */
  lemma {:induction false} LastRootIsLast(cs: seq<Category>, id: Id) returns (p: nat)
    requires id in RootIds(cs)
    ensures p < |cs| && RootAt(cs, p, id) && LastRoot(cs, id) == Some(cs[p])
    ensures forall q | p < q < |cs| :: !RootAt(cs, q, id)
    decreases |cs|
  {
    var prefix, c := cs[..|cs| - 1], cs[|cs| - 1];
    if IsRoot(c) && c.id == id {
      p := |cs| - 1;
    } else {
      assert LastRoot(cs, id) == LastRoot(prefix, id);
      p := LastRootIsLast(prefix, id);
      assert prefix[p] == cs[p];
      forall q | p < q < |cs| ensures !RootAt(cs, q, id) {
        if q < |prefix| {
          assert !RootAt(prefix, q, id) && prefix[q] == cs[q];
        }
      }
    }
  }

  /** The categories of `cs` whose parent is `id`, in input order. */
  function ChildrenOf(cs: seq<Category>, id: Id): seq<Category> {
    Filter(cs, (c: Category) => c.parentId == Some(id))
  }

  lemma ChildrenOfSnoc(cs: seq<Category>, c: Category, id: Id)
    ensures ChildrenOf(cs + [c], id) == ChildrenOf(cs, id) + (if c.parentId == Some(id) then [c] else [])
  {
    FilterAppend(cs, [c], (c: Category) => c.parentId == Some(id));
  }

  /** The tree `makeCategoryTree` builds: one entry per distinct root id in
      first-occurrence order, holding the last root with that id and every
      category whose parent is that id. */
  function CategoryTree(cs: seq<Category>): (t: seq<TreeNode>)
    ensures |t| == |RootIds(cs)|
    ensures forall i | 0 <= i < |t| ::
              && t[i].category.id == RootIds(cs)[i]
              && IsRoot(t[i].category)
              && t[i].category in cs
    ensures forall i, j | 0 <= i < j < |t| :: t[i].category.id != t[j].category.id
    ensures forall k | 0 <= k < |cs| && IsRoot(cs[k]) :: exists i | 0 <= i < |t| :: t[i].category.id == cs[k].id
    ensures forall i | 0 <= i < |t| ::
              && IsSubsequence(t[i].childCategories, cs)
              && (forall k | 0 <= k < |t[i].childCategories| ::
                    t[i].childCategories[k] in cs && t[i].childCategories[k].parentId == Some(t[i].category.id))
              && (forall k | 0 <= k < |cs| && cs[k].parentId == Some(t[i].category.id) ::
                    cs[k] in t[i].childCategories)
  {
    var ids := RootIds(cs);
    seq(|ids|, i requires 0 <= i < |ids| => TreeNode(LastRoot(cs, ids[i]).value, ChildrenOf(cs, ids[i])))
  }

  /** `makeCategoryTree`: the first pass sets a fresh entry with no children
      for every root, the second appends every category whose parent has an
      entry to that entry's children; the tree is the entries in key order. */
  method MakeCategoryTree(categories: seq<Category>) returns (roots: seq<TreeNode>)
    ensures roots == CategoryTree(categories)
  {
    var tree, order := CollectRoots(categories);
    tree := AttachChildren(categories, tree, order);
    roots := seq(|order|, k requires 0 <= k < |order| => tree[order[k]]);
    assert forall k | 0 <= k < |order| :: roots[k] == CategoryTree(categories)[k];
  }

  /** First pass: a repeated root id keeps its first position in `order` and
      takes the later value. */
  method CollectRoots(categories: seq<Category>) returns (tree: map<Id, TreeNode>, order: seq<Id>)
    ensures order == RootIds(categories)
    ensures forall id :: id in tree <==> id in order
    ensures forall id | id in tree :: tree[id] == TreeNode(LastRoot(categories, id).value, [])
  {
    tree := map[];
    order := [];
    var i := 0;
    while i < |categories|
      invariant 0 <= i <= |categories|
      invariant order == RootIds(categories[..i])
      invariant forall id :: id in tree <==> id in order
      invariant forall id | id in tree :: tree[id] == TreeNode(LastRoot(categories[..i], id).value, [])
    {
      var category := categories[i];
      ghost var pre := categories[..i + 1];
      assert pre[..|pre| - 1] == categories[..i] && pre[|pre| - 1] == category;
      if IsRoot(category) {
        if category.id !in tree {
          order := order + [category.id];
        }
        tree := tree[category.id := TreeNode(category, [])];
      }
      i := i + 1;
    }
    assert categories[..i] == categories;
  }

  /** Second pass: a category whose parent has no entry is skipped. */
  method AttachChildren(categories: seq<Category>, tree0: map<Id, TreeNode>, order: seq<Id>)
    returns (tree: map<Id, TreeNode>)
    requires forall id :: id in tree0 <==> id in order
    requires forall id | id in tree0 :: tree0[id].childCategories == []
    ensures forall id :: id in tree <==> id in order
    ensures forall id | id in tree ::
              tree[id] == tree0[id].(childCategories := ChildrenOf(categories, id))
  {
    tree := tree0;
    var i := 0;
    assert categories[..i] == [];
    forall id | id in tree0
      ensures tree0[id] == tree0[id].(childCategories := ChildrenOf([], id))
    {
      assert ChildrenOf([], id) == [];
    }
    while i < |categories|
      invariant 0 <= i <= |categories|
      invariant forall id :: id in tree <==> id in order
      invariant forall id | id in tree ::
                  tree[id] == tree0[id].(childCategories := ChildrenOf(categories[..i], id))
    {
      var category := categories[i];
      assert categories[..i + 1] == categories[..i] + [category];
      forall id | id in tree
        ensures ChildrenOf(categories[..i + 1], id) ==
                ChildrenOf(categories[..i], id) + (if category.parentId == Some(id) then [category] else [])
      {
        ChildrenOfSnoc(categories[..i], category, id);
      }
      ghost var before := tree;
      if category.parentId.Some? && category.parentId.value in tree {
        var parentId := category.parentId.value;
        tree := tree[parentId := tree[parentId].(childCategories := tree[parentId].childCategories + [category])];
      }
      forall id | id in tree
        ensures tree[id] == tree0[id].(childCategories := ChildrenOf(categories[..i + 1], id))
      {
        if category.parentId != Some(id) {
          assert tree[id] == before[id];
        }
      }
      i := i + 1;
    }
    assert categories[..i] == categories;
  }

  /** The position of the first root of `cs` with the given id, `|cs|` when
      there is none. */
  function FirstRootPos(cs: seq<Category>, id: Id): (p: nat)
    ensures p <= |cs|
    ensures p < |cs| ==> RootAt(cs, p, id)
    ensures forall k | 0 <= k < p :: !RootAt(cs, k, id)
    decreases |cs|
  {
    if cs == [] then 0
    else
      var prefix := cs[..|cs| - 1];
      var p := FirstRootPos(prefix, id);
      assert forall k | 0 <= k < |prefix| :: RootAt(prefix, k, id) == RootAt(cs, k, id);
      if p < |prefix| then p
      else if RootAt(cs, |prefix|, id) then |prefix|
      else |cs|
  }

  /** The tree lists its roots in the order in which their ids first occur
      as roots of the input. */
  lemma {:induction false} RootIdsFirstOccurrenceOrder(cs: seq<Category>)
    ensures forall i, j | 0 <= i < j < |RootIds(cs)| ::
              FirstRootPos(cs, RootIds(cs)[i]) < FirstRootPos(cs, RootIds(cs)[j]) < |cs|
    decreases |cs|
  {
    if cs == [] {
      assert RootIds(cs) == [];
    } else {
      var prefix := cs[..|cs| - 1];
      RootIdsFirstOccurrenceOrder(prefix);
      var ids := RootIds(prefix);
      forall id | id in ids
        ensures FirstRootPos(cs, id) == FirstRootPos(prefix, id) < |prefix|
      {
        var k := RootOccurrence(prefix, id);
      }
      var c := cs[|cs| - 1];
      if IsRoot(c) && c.id !in ids {
        NewRootPos(cs, c.id);
        assert RootIds(cs) == ids + [c.id];
      } else {
        assert RootIds(cs) == ids;
      }
      forall i, j | 0 <= i < j < |RootIds(cs)|
        ensures FirstRootPos(cs, RootIds(cs)[i]) < FirstRootPos(cs, RootIds(cs)[j]) < |cs|
      {
        assert RootIds(cs)[i] == ids[i];
        if j < |ids| {
          assert RootIds(cs)[j] == ids[j];
        } else {
          assert RootIds(cs)[j] == c.id && FirstRootPos(cs, c.id) == |prefix|;
        }
      }
    }
  }

  /** A root id first occurring at the last position is first found there. */
  lemma NewRootPos(cs: seq<Category>, id: Id)
    requires cs != [] && RootAt(cs, |cs| - 1, id) && id !in RootIds(cs[..|cs| - 1])
    ensures FirstRootPos(cs, id) == |cs| - 1
  {
    var prefix := cs[..|cs| - 1];
    var p := FirstRootPos(prefix, id);
    if p < |prefix| {
      assert false;
    }
  }

  /** `cs[k]` is a root with the given id. */
  predicate RootAt(cs: seq<Category>, k: int, id: Id) {
    0 <= k < |cs| && IsRoot(cs[k]) && cs[k].id == id
  }

  /** A position at which a root id occurs. */
  lemma RootOccurrence(cs: seq<Category>, id: Id) returns (k: nat)
    requires id in RootIds(cs)
    ensures RootAt(cs, k, id)
    ensures FirstRootPos(cs, id) <= k
  {
    var w := LastRoot(cs, id).value;
    k :| 0 <= k < |cs| && cs[k] == w;
    assert RootAt(cs, k, id);
    var p := FirstRootPos(cs, id);
    assert forall k' | 0 <= k' < p :: !RootAt(cs, k', id);
  }

  /** Total number of categories attached somewhere in a tree. */
  function TotalChildren(t: seq<TreeNode>): nat {
    if t == [] then 0 else |t[0].childCategories| + TotalChildren(t[1..])
  }

  /** The number of categories of `cs` whose parent id is one of `ids`. */
  function AttachedCount(cs: seq<Category>, ids: seq<Id>): nat
    decreases |cs|
  {
    if cs == [] then 0
    else
      var c := cs[|cs| - 1];
      AttachedCount(cs[..|cs| - 1], ids) + if c.parentId.Some? && c.parentId.value in ids then 1 else 0
  }

  /** The number of categories of `cs` that are not roots. */
  function NonRootCount(cs: seq<Category>): nat
    decreases |cs|
  {
    if cs == [] then 0
    else NonRootCount(cs[..|cs| - 1]) + if IsRoot(cs[|cs| - 1]) then 0 else 1
  }

  /** The number of children listed under the ids `ids`. */
  function ChildrenUnder(cs: seq<Category>, ids: seq<Id>): nat {
    if ids == [] then 0 else |ChildrenOf(cs, ids[0])| + ChildrenUnder(cs, ids[1..])
  }

  lemma {:induction false} ChildrenUnderSnoc(cs: seq<Category>, c: Category, ids: seq<Id>)
    requires forall i, j | 0 <= i < j < |ids| :: ids[i] != ids[j]
    ensures ChildrenUnder(cs + [c], ids) ==
            ChildrenUnder(cs, ids) + if c.parentId.Some? && c.parentId.value in ids then 1 else 0
  {
    if ids != [] {
      ChildrenOfSnoc(cs, c, ids[0]);
      ChildrenUnderSnoc(cs, c, ids[1..]);
      assert ids[0] !in ids[1..];
      assert forall x :: x in ids <==> x == ids[0] || x in ids[1..];
    }
  }

  lemma {:induction false} ChildrenUnderCount(cs: seq<Category>, ids: seq<Id>)
    requires forall i, j | 0 <= i < j < |ids| :: ids[i] != ids[j]
    ensures ChildrenUnder(cs, ids) == AttachedCount(cs, ids) <= NonRootCount(cs)
    decreases |cs|
  {
    if cs == [] {
      ChildrenUnderEmpty(ids);
    } else {
      var prefix := cs[..|cs| - 1];
      assert cs == prefix + [cs[|cs| - 1]];
      ChildrenUnderCount(prefix, ids);
      ChildrenUnderSnoc(prefix, cs[|cs| - 1], ids);
    }
  }

  lemma {:induction false} ChildrenUnderEmpty(ids: seq<Id>)
    ensures ChildrenUnder([], ids) == 0
  {
    if ids != [] {
      ChildrenUnderEmpty(ids[1..]);
    }
  }

  lemma {:induction false} TotalChildrenUnder(cs: seq<Category>, t: seq<TreeNode>, ids: seq<Id>)
    requires |t| == |ids|
    requires forall i | 0 <= i < |t| :: t[i].childCategories == ChildrenOf(cs, ids[i])
    ensures TotalChildren(t) == ChildrenUnder(cs, ids)
  {
    if t != [] {
      TotalChildrenUnder(cs, t[1..], ids[1..]);
    }
  }

  /** Every category attached in the tree is a distinct non-root input whose
      parent is a root: the tree holds exactly the categories whose parent id
      is a root id, so never more children than there are non-root inputs. */
  lemma ChildrenCount(cs: seq<Category>)
    ensures TotalChildren(CategoryTree(cs)) == AttachedCount(cs, RootIds(cs)) <= NonRootCount(cs)
  {
    TotalChildrenUnder(cs, CategoryTree(cs), RootIds(cs));
    ChildrenUnderCount(cs, RootIds(cs));
  }

  /** The first category of `children` with the given id (the inner loop of
      the lookups). */
  function FindChild(children: seq<Category>, id: string): (r: Option<Category>)
    ensures r.Some? ==> r.value.id == id && r.value in children
    ensures r.None? <==> forall k | 0 <= k < |children| :: children[k].id != id
  {
    if children == [] then None
    else if children[0].id == id then Some(children[0])
    else FindChild(children[1..], id)
  }

  /** `categoryLookupQuery`: the roots are scanned in tree order and the
      children of each in list order; the first child with the id is the
      answer, and `null` (None) when there is none. Roots themselves are not
      searched. */
  function LookupCategory(tree: seq<TreeNode>, id: string): (r: Option<Category>)
    ensures r.Some? ==> r.value.id == id && exists i | 0 <= i < |tree| :: r.value in tree[i].childCategories
    ensures r.None? <==> forall i, k | 0 <= i < |tree| && 0 <= k < |tree[i].childCategories| ::
                           tree[i].childCategories[k].id != id
  {
    if tree == [] then None
    else
      var found := FindChild(tree[0].childCategories, id);
      if found.Some? then found
      else
        var r := LookupCategory(tree[1..], id);
        assert forall i | 1 <= i < |tree| :: tree[i] == tree[1..][i - 1];
        r
  }

  /** All second-level categories of a tree, in scan order. */
  function AllChildren(tree: seq<TreeNode>): seq<Category> {
    if tree == [] then [] else tree[0].childCategories + AllChildren(tree[1..])
  }

  /** The position of the first category with the given id. */
  function FirstWithId(cs: seq<Category>, id: string): (r: Option<nat>)
    ensures r.Some? ==> r.value < |cs| && cs[r.value].id == id && forall k | 0 <= k < r.value :: cs[k].id != id
    ensures r.None? ==> forall k | 0 <= k < |cs| :: cs[k].id != id
  {
    if cs == [] then None
    else if cs[0].id == id then Some(0)
    else match FirstWithId(cs[1..], id) {
      case None => None
      case Some(k) => Some(k + 1)
    }
  }

  lemma {:induction false} FindChildIsFirst(children: seq<Category>, id: string)
    ensures FindChild(children, id) ==
            if FirstWithId(children, id).Some? then Some(children[FirstWithId(children, id).value]) else None
  {
    if children != [] && children[0].id != id {
      FindChildIsFirst(children[1..], id);
    }
  }

  /** The nested search of the lookup agrees with a search of the flattened
      second level: its answer is the first child with the id in scan order. */
  lemma {:induction false} LookupIsFirst(tree: seq<TreeNode>, id: string)
    ensures LookupCategory(tree, id) ==
            if FirstWithId(AllChildren(tree), id).Some? then Some(AllChildren(tree)[FirstWithId(AllChildren(tree), id).value]) else None
  {
    if tree != [] {
      var head, all := tree[0].childCategories, AllChildren(tree);
      FindChildIsFirst(head, id);
      LookupIsFirst(tree[1..], id);
      assert all == head + AllChildren(tree[1..]);
      var f := FirstWithId(all, id);
      var fh := FirstWithId(head, id);
      assert forall k | 0 <= k < |head| :: all[k] == head[k];
      if fh.Some? {
        assert f.Some? && f.value <= fh.value;
        assert f == fh;
      } else {
        var ft := FirstWithId(AllChildren(tree[1..]), id);
        if ft.Some? {
          assert all[|head| + ft.value] == AllChildren(tree[1..])[ft.value];
          assert f.Some?;
          assert f.value >= |head|;
          assert f.value - |head| == ft.value by {
            assert AllChildren(tree[1..])[f.value - |head|] == all[f.value];
          }
        } else {
          assert forall k | |head| <= k < |all| :: all[k] == AllChildren(tree[1..])[k - |head|];
        }
      }
    }
  }

  /** In a tree built by `makeCategoryTree` the lookup only ever returns a
      category attached to a root, never a root itself. */
  lemma LookupFindsOnlyChildren(cs: seq<Category>, id: string)
    ensures var r := LookupCategory(CategoryTree(cs), id);
            r.Some? ==> r.value in cs && r.value.parentId.Some? && r.value.parentId.value in RootIds(cs)
  {
    var t := CategoryTree(cs);
    var r := LookupCategory(t, id);
    if r.Some? {
      var i :| 0 <= i < |t| && r.value in t[i].childCategories;
      var k :| 0 <= k < |t[i].childCategories| && t[i].childCategories[k] == r.value;
    }
  }

  /** `categoryNameQuery`: the name of the category the lookup finds, and
      "Uncategorized" when it finds none or the transaction has no category. */
  function CategoryName(tree: seq<TreeNode>, categoryId: Option<string>): (r: string)
    ensures categoryId.Some? && LookupCategory(tree, categoryId.value).Some? ==>
              exists i | 0 <= i < |tree| :: exists c | c in tree[i].childCategories ::
                c.id == categoryId.value && r == c.name
    ensures (categoryId.None? || LookupCategory(tree, categoryId.value).None?) ==> r == "Uncategorized"
  {
    if categoryId.None? then "Uncategorized"
    else match LookupCategory(tree, categoryId.value) {
      case Some(c) => c.name
      case None => "Uncategorized"
    }
  }
}
