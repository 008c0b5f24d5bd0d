/** Transaction selection: the selected-id set with its batch updates, the
    shift-click range selection driven by the last plain-click position, the
    rows the list renders, and the derived list of selected transactions. */
module Selection {
  import opened Common
  import opened Transactions
  import opened Pagination

  /** `findIndex` by id: the first position, or -1. */
  function IndexOf(list: seq<Transaction>, id: string): (pos: int)
    ensures -1 <= pos < |list|
    ensures pos >= 0 ==> list[pos].id == id && forall k | 0 <= k < pos :: list[k].id != id
    ensures pos == -1 ==> forall k | 0 <= k < |list| :: list[k].id != id
  {
    if list == [] then -1
    else if list[0].id == id then 0
    else
      var p := IndexOf(list[1..], id);
      if p == -1 then -1 else p + 1
  }

  /** The ids a shift-click selects between positions `first` and `last`:
      the categorizable transactions of `list.slice(first, last + 1)`, in
      order. Positions past the end are cut off, as `slice` does. */
  function RangeIds(list: seq<Transaction>, first: nat, last: nat): (r: seq<Id>)
    requires first <= last
    ensures forall k | first <= k <= last && k < |list| && list[k].isCategorizable :: list[k].id in r
    ensures forall i | 0 <= i < |r| ::
              exists k | first <= k <= last && k < |list| :: list[k].isCategorizable && list[k].id == r[i]
    decreases |list| - first
  {
    if first >= |list| then []
    else
      var rest := if first == last then [] else RangeIds(list, first + 1, last);
      if list[first].isCategorizable then [list[first].id] + rest else rest
  }

  /** The rows the list renders: the filtered transactions without the
      covers that carry a back-reference, in order. */
  function VisibleRows(filtered: seq<Transaction>): (r: seq<Transaction>)
    ensures IsSubsequence(r, filtered)
    ensures forall i | 0 <= i < |r| :: r[i] in filtered && r[i].originalTransactionId.None?
    ensures forall k | 0 <= k < |filtered| && filtered[k].originalTransactionId.None? :: filtered[k] in r
  {
    Filter(filtered, (t: Transaction) => t.originalTransactionId.None?)
  }

  /** The "Load more" control is shown exactly when loading more can change
      the store, that is when the next-page link is a non-empty string. */
  predicate ShowLoadMore(p: PaginatedTransactions)
    ensures ShowLoadMore(p) <==> exists page :: LoadMore(p, page) != p
  {
    assert Truthy(p.nextUrl) ==> LoadMore(p, Page([], None)).nextUrl != p.nextUrl;
    Truthy(p.nextUrl)
  }

  /** The selected-id set and the module-level position of the last plain
      click, shared by the lists of every account. */
  class SelectionState {
    var selected: set<Id>
    var lastSelectPos: nat

    /** Nothing is selected and the last position is 0. */
    constructor ()
      ensures selected == {} && lastSelectPos == 0
    {
      selected := {};
      lastSelectPos := 0;
    }

    /** `selectedTransactionsDispatch`: adds every id of the batch, or removes
        every one; ids outside the batch keep their membership. */
    method Dispatch(transactionIds: seq<Id>, isSelected: bool)
      modifies this
      ensures forall x :: x in selected <==> if x in transactionIds then isSelected else x in old(selected)
      ensures lastSelectPos == old(lastSelectPos)
    {
      var currentSelection := selected;
      var i := 0;
      while i < |transactionIds|
        invariant 0 <= i <= |transactionIds|
        invariant forall x :: x in currentSelection <==>
                    if x in transactionIds[..i] then isSelected else x in old(selected)
      {
        assert transactionIds[..i + 1] == transactionIds[..i] + [transactionIds[i]];
        if isSelected {
          currentSelection := currentSelection + {transactionIds[i]};
        } else {
          currentSelection := currentSelection - {transactionIds[i]};
        }
        i := i + 1;
      }
      assert transactionIds[..i] == transactionIds;
      selected := currentSelection;
    }

    /** `handleSelect`: the clicked row's position is looked up in the
        filtered list, hidden rows included. A shift-click applies the
        checkbox state to the categorizable rows between the last plain-click
        position and this one, either way round, and keeps the position; a
        plain click applies it to the clicked id alone and records the
        position. */
    method HandleSelect(filtered: seq<Transaction>, transactionId: Id, shiftKey: bool, checked: bool)
      requires IndexOf(filtered, transactionId) >= 0
      modifies this
      ensures var pos := IndexOf(filtered, transactionId);
        shiftKey ==>
          && lastSelectPos == old(lastSelectPos)
          && var range := if old(lastSelectPos) < pos then RangeIds(filtered, old(lastSelectPos), pos)
                          else RangeIds(filtered, pos, old(lastSelectPos));
             forall x :: x in selected <==> if x in range then checked else x in old(selected)
      ensures !shiftKey ==>
          && lastSelectPos == IndexOf(filtered, transactionId)
          && forall x :: x in selected <==> if x == transactionId then checked else x in old(selected)
    {
      var pos := IndexOf(filtered, transactionId);
      if shiftKey {
        var first, last := if lastSelectPos < pos then lastSelectPos else pos,
                           if lastSelectPos < pos then pos else lastSelectPos;
        var transactionIds := RangeIds(filtered, first, last);
        Dispatch(transactionIds, checked);
      } else {
        lastSelectPos := pos;
        Dispatch([transactionId], checked);
      }
    }
  }

  /** `selectedTransactionsQuery`: every account's filtered list appended in
      account order, then only the transactions whose id is selected. */
  method SelectedTransactions(accountLists: seq<seq<Transaction>>, selection: set<Id>)
    returns (r: seq<Transaction>)
    ensures r == Filter(Flatten(accountLists), (t: Transaction) => t.id in selection)
    ensures forall i | 0 <= i < |r| ::
              r[i].id in selection && exists a | 0 <= a < |accountLists| :: r[i] in accountLists[a]
    ensures forall a, t | 0 <= a < |accountLists| && t in accountLists[a] && t.id in selection :: t in r
  {
    var transactions: seq<Transaction> := [];
    var i := 0;
    while i < |accountLists|
      invariant 0 <= i <= |accountLists|
      invariant transactions == Flatten(accountLists[..i])
    {
      assert accountLists[..i + 1][..i] == accountLists[..i];
      transactions := transactions + accountLists[i];
      i := i + 1;
    }
    assert accountLists[..i] == accountLists;
    FlattenMembers(accountLists);
    r := Filter(transactions, (t: Transaction) => t.id in selection);
    forall a, t | 0 <= a < |accountLists| && t in accountLists[a] && t.id in selection
      ensures t in r
    {
      assert t in transactions;
      var k :| 0 <= k < |transactions| && transactions[k] == t;
    }
  }
}
