/** Worked instances of cover matching: the order, sign and rounding
    conventions of the pairing, and a pair made across two pages. */
module CoverExamples {
  import opened Common
  import opened Transactions
  import opened CoverMatching
  import opened Pagination

  function Plain(id: Id, description: string, valueInBaseUnits: int, isCategorizable: bool): Transaction {
    Transaction(id, description, None, valueInBaseUnits, isCategorizable, None, None, None, None)
  }

  /** A transfer of $50.00 in from a saver. */
  function Cover(): Transaction {
    Plain("c", "Cover from Savings", 5000, false)
  }

  /** A card purchase of $49.99. */
  function Purchase(): Transaction {
    Plain("p", "Coffee", -4999, true)
  }

  /** A cover listed before a purchase whose negated amount rounds up to the
      same whole dollars is paired with it; the cover is tagged with the
      purchase's id and the purchase embeds the tagged cover. */
  lemma CoverThenPurchasePair()
    ensures Matched([Cover(), Purchase()]) ==
      [Cover().(originalTransactionId := Some("p")),
       Purchase().(coverTransaction := Some(Cover().(originalTransactionId := Some("p"))))]
  {
    var ts := [Cover(), Purchase()];
    assert ts[..1] == [Cover()] && [Cover()][..0] == [];
    assert CeilDiv100(5000) == 50 && CeilDiv100(4999) == 50;
  }

  /** A purchase listed before the cover is not paired: only covers already
      seen are queued. */
  lemma PurchaseThenCoverStayApart()
    ensures Matched([Purchase(), Cover()]) == [Purchase(), Cover()]
  {
    var ts := [Purchase(), Cover()];
    assert ts[..1] == [Purchase()] && [Purchase()][..0] == [];
  }

  /** Two purchases of the same amount never pair with each other: the
      purchase key is the negated amount. */
  lemma TwoPurchasesStayApart()
    ensures Matched([Purchase(), Purchase().(id := "q")]) == [Purchase(), Purchase().(id := "q")]
  {
    var ts := [Purchase(), Purchase().(id := "q")];
    assert ts[..1] == [Purchase()] && [Purchase()][..0] == [];
    var s1 := Run([Purchase()]);
    assert s1 == Scan([Purchase()], map[], map[], map[]);
    assert Run(ts) == Step(s1, ts[1]);
  }

  /** A cover on the first page pairs with a purchase that only arrives with
      the next page. */
  lemma PairAcrossPages()
    ensures LoadMore(FirstPage(Page([Cover()], Some("next"))), Page([Purchase()], None)) ==
      PaginatedTransactions(
        [Cover().(originalTransactionId := Some("p")),
         Purchase().(coverTransaction := Some(Cover().(originalTransactionId := Some("p"))))],
        None)
  {
    var first := FirstPage(Page([Cover()], Some("next")));
    assert [Cover()][..0] == [];
    assert first.list == [Cover()];
    assert Truthy(first.nextUrl);
    assert first.list + [Purchase()] == [Cover(), Purchase()];
    CoverThenPurchasePair();
  }
}
