/** `findCovers`: one pass over a transaction list that pairs each
    categorizable purchase with the oldest queued "Cover from"/"Forward to"
    transfer of the same rounded amount. */
module CoverMatching {
  import opened Common
  import opened Transactions

  /** The state of the pass after some prefix of the input: the output so far,
      the queues of pending covers (output indices) by rounded amount, and the
      pairs made so far, purchase index to cover index and back. */
  datatype Scan = Scan(
    out: seq<Transaction>,
    pending: map<int, seq<nat>>,
    coverOf: map<nat, nat>,
    purchaseOf: map<nat, nat>)

  /** Every queue is non-empty (an emptied bucket is deleted) and points into
      the output. */
  predicate QueuesWellFormed(s: Scan) {
    forall k | k in s.pending ::
      |s.pending[k]| > 0 && forall x | x in s.pending[k] :: x < |s.out|
  }

  /** The pass's handling of one more transaction. */
  function Step(s: Scan, t: Transaction): (r: Scan)
    requires QueuesWellFormed(s)
    ensures QueuesWellFormed(r) && |r.out| == |s.out| + 1
  {
    var j := |s.out|;
    if IsMatched(t) then
      s.(out := s.out + [t])
    else if IsCoverTransfer(t) then
      var k := CoverKey(t);
      var q := if k in s.pending then s.pending[k] else [];
      s.(out := s.out + [t], pending := s.pending[k := q + [j]])
    else if t.isCategorizable then
      var k := PurchaseKey(t);
      if k in s.pending then
        var q := s.pending[k];
        var c := q[0];
        assert c in q && forall x | x in q[1..] :: x in q;
        var cover := s.out[c].(originalTransactionId := Some(t.id));
        Scan(s.out[c := cover] + [t.(coverTransaction := Some(cover))],
             if |q| == 1 then s.pending - {k} else s.pending[k := q[1..]],
             s.coverOf[j := c],
             s.purchaseOf[c := j])
      else
        s.(out := s.out + [t])
    else
      s.(out := s.out + [t])
  }

  /** The state of the pass after the whole of `ts`. */
  function Run(ts: seq<Transaction>): (s: Scan)
    ensures QueuesWellFormed(s) && |s.out| == |ts|
    decreases |ts|
  {
    if ts == [] then Scan([], map[], map[], map[])
    else Step(Run(ts[..|ts| - 1]), ts[|ts| - 1])
  }

  /** What `findCovers` returns for `ts`. */
  function Matched(ts: seq<Transaction>): seq<Transaction> {
    Run(ts).out
  }

  /** The pairing a run makes: purchase index to cover index. */
  function Pairing(ts: seq<Transaction>): map<nat, nat> {
    Run(ts).coverOf
  }

  /** `findCovers` as written: copies go into the output one per input
      transaction, a cover is queued by its output index, and a match writes
      the back-reference into the already emitted cover. */
  method FindCovers(transactions: seq<Transaction>) returns (newTransactions: seq<Transaction>)
    ensures newTransactions == Matched(transactions)
  {
    var covers: map<int, seq<nat>> := map[];
    var out := new Transaction[|transactions|](i requires 0 <= i < |transactions| => transactions[i]);
    var i := 0;
    while i < |transactions|
      invariant 0 <= i <= |transactions|
      invariant out[..i] == Run(transactions[..i]).out
      invariant covers == Run(transactions[..i]).pending
    {
      ghost var before := Run(transactions[..i]);
      assert transactions[..i + 1][..i] == transactions[..i];
      assert Run(transactions[..i + 1]) == Step(before, transactions[i]);
      assert |before.out| == i;
      var transaction := transactions[i];
      var newTransaction := transaction;
      if IsMatched(transaction) {
        out[i] := transaction;
      } else if IsCoverTransfer(transaction) {
        var normalisedAmount := CoverKey(transaction);
        if normalisedAmount in covers {
          covers := covers[normalisedAmount := covers[normalisedAmount] + [i]];
        } else {
          assert [] + [i] == [i];
          covers := covers[normalisedAmount := [i]];
        }
        out[i] := newTransaction;
      } else if transaction.isCategorizable {
        var normalisedAmount := PurchaseKey(transaction);
        if normalisedAmount in covers {
          var matchedCovers := covers[normalisedAmount];
          var poppedCover := matchedCovers[0];
          assert poppedCover in before.pending[normalisedAmount];
          matchedCovers := matchedCovers[1..];
          if |matchedCovers| == 0 {
            covers := covers - {normalisedAmount};
          } else {
            covers := covers[normalisedAmount := matchedCovers];
          }
          out[poppedCover] := out[poppedCover].(originalTransactionId := Some(transaction.id));
          out[i] := newTransaction.(coverTransaction := Some(out[poppedCover]));
        } else {
          out[i] := newTransaction;
        }
      } else {
        out[i] := newTransaction;
      }
      assert covers == Step(before, transaction).pending;
      assert out[..i + 1] == Step(before, transaction).out;
      i := i + 1;
    }
    assert transactions[..i] == transactions;
    newTransactions := out[..];
  }
}
