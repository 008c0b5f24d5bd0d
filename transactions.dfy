/** The transaction record as the client keeps it, and the classification
    that cover matching applies to each record. */
module Transactions {
  import opened Common

  /** A transaction of the banking API, reduced to the attributes the state
      layer reads. `coverTransaction` holds the matched cover (already carrying
      its back-reference) and `originalTransactionId` the id of the purchase a
      cover was matched to. */
  datatype Transaction = Transaction(
    id: Id,
    description: string,
    rawText: Option<string>,
    valueInBaseUnits: int,
    isCategorizable: bool,
    categoryId: Option<Id>,
    transferAccountId: Option<Id>,
    coverTransaction: Option<Transaction>,
    originalTransactionId: Option<Id>)

  /** Carries a link from an earlier run of cover matching. */
  predicate IsMatched(t: Transaction) {
    t.coverTransaction.Some? || t.originalTransactionId.Some?
  }

  /** A transfer that covers, or forwards, the amount of a purchase. */
  predicate IsCoverTransfer(t: Transaction) {
    StartsWith(t.description, "Cover from") || StartsWith(t.description, "Forward to")
  }

  /** The bucket a cover is queued under: whole currency units, rounded up. */
  function CoverKey(t: Transaction): int {
    CeilDiv100(t.valueInBaseUnits)
  }

  /** The bucket a purchase looks in: its negated amount, rounded up. */
  function PurchaseKey(t: Transaction): int {
    CeilDiv100(-t.valueInBaseUnits)
  }

  /** A cover that a run of matching queues. */
  predicate IsOpenCover(t: Transaction) {
    !IsMatched(t) && IsCoverTransfer(t)
  }

  /** A transaction that a run of matching tries to pair with a queued cover. */
  predicate IsOpenPurchase(t: Transaction) {
    !IsMatched(t) && !IsCoverTransfer(t) && t.isCategorizable
  }

  /** The record without either cover link. */
  function Unlinked(t: Transaction): Transaction {
    t.(coverTransaction := None, originalTransactionId := None)
  }
}
