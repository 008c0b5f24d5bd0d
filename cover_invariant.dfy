/** The invariant of the cover-matching pass, stated against the input
    prefix it has consumed, and its proof by induction over the input. */
module CoverInvariant {
  import opened Common
  import opened Transactions
  import opened CoverMatching

  /** Each queue lists, oldest first, open covers of its bucket not yet paired. */
  ghost predicate PendingSound(ts: seq<Transaction>, s: Scan) {
    forall k | k in s.pending ::
      && (forall a, b | 0 <= a < b < |s.pending[k]| :: s.pending[k][a] < s.pending[k][b])
      && (forall x | x in s.pending[k] ::
            x < |ts| && IsOpenCover(ts[x]) && CoverKey(ts[x]) == k && x !in s.purchaseOf)
  }

  /** Every open cover not yet paired waits in the queue of its bucket. */
  ghost predicate PendingComplete(ts: seq<Transaction>, s: Scan) {
    forall i | 0 <= i < |ts| && IsOpenCover(ts[i]) && i !in s.purchaseOf ::
      CoverKey(ts[i]) in s.pending && i in s.pending[CoverKey(ts[i])]
  }

  /** Pairs join an open purchase to an earlier open cover of the same rounded
      amount, and the two maps are inverse to each other. */
  ghost predicate PairsSound(ts: seq<Transaction>, s: Scan) {
    && (forall j | j in s.coverOf ::
          && s.coverOf[j] < j < |ts|
          && IsOpenPurchase(ts[j])
          && IsOpenCover(ts[s.coverOf[j]])
          && CoverKey(ts[s.coverOf[j]]) == PurchaseKey(ts[j])
          && s.coverOf[j] in s.purchaseOf
          && s.purchaseOf[s.coverOf[j]] == j)
    && (forall c | c in s.purchaseOf ::
          s.purchaseOf[c] in s.coverOf && s.coverOf[s.purchaseOf[c]] == c)
  }

  /** An open purchase never passes over an older open cover of its bucket:
      every open cover before its own cover (before itself, when it got none)
      was taken by an earlier purchase. */
  ghost predicate OldestFirst(ts: seq<Transaction>, s: Scan) {
    forall j, i |
      && 0 <= i < j < |ts|
      && IsOpenPurchase(ts[j])
      && IsOpenCover(ts[i])
      && CoverKey(ts[i]) == PurchaseKey(ts[j])
      && (j in s.coverOf ==> i < s.coverOf[j]) ::
      i in s.purchaseOf && s.purchaseOf[i] < j
  }

  /** The output is the input, with links exactly where the pairs say. */
  ghost predicate OutputAgrees(ts: seq<Transaction>, s: Scan) {
    |s.out| == |ts| && forall k | 0 <= k < |ts| :: AgreesAt(ts, s, k)
  }

  ghost predicate AgreesAt(ts: seq<Transaction>, s: Scan, k: nat)
    requires k < |ts| == |s.out|
  {
    && Unlinked(s.out[k]) == Unlinked(ts[k])
    && (IsMatched(ts[k]) ==> s.out[k] == ts[k])
    && (!IsMatched(ts[k]) ==>
          && (k in s.coverOf ==>
                s.coverOf[k] < |ts| && s.out[k].coverTransaction == Some(s.out[s.coverOf[k]]))
          && (k !in s.coverOf ==> s.out[k].coverTransaction == None)
          && (k in s.purchaseOf ==>
                s.purchaseOf[k] < |ts| && s.out[k].originalTransactionId == Some(ts[s.purchaseOf[k]].id))
          && (k !in s.purchaseOf ==> s.out[k].originalTransactionId == None))
  }

  ghost predicate Inv(ts: seq<Transaction>, s: Scan) {
    && PendingSound(ts, s)
    && PendingComplete(ts, s)
    && PairsSound(ts, s)
    && OldestFirst(ts, s)
    && OutputAgrees(ts, s)
  }

  /** Facts every step relies on: pair indices and queued indices lie in the
      consumed prefix. */
  lemma IndicesInPrefix(ts: seq<Transaction>, s: Scan)
    requires PairsSound(ts, s)
    ensures forall c | c in s.purchaseOf :: c < |ts|
    ensures forall j | j in s.coverOf :: j < |ts|
  {
    forall c | c in s.purchaseOf ensures c < |ts| {
      assert s.coverOf[s.purchaseOf[c]] == c;
    }
  }

  // ---- a step that only appends the transaction to the output ----

  lemma AppendPendingSound(ts: seq<Transaction>, s: Scan, t: Transaction)
    requires PendingSound(ts, s)
    ensures PendingSound(ts + [t], s.(out := s.out + [t]))
  {
    var ts' := ts + [t];
    assert forall k | 0 <= k < |ts| :: ts'[k] == ts[k];
  }

  lemma AppendPendingComplete(ts: seq<Transaction>, s: Scan, t: Transaction)
    requires PendingComplete(ts, s)
    requires !IsOpenCover(t)
    ensures PendingComplete(ts + [t], s.(out := s.out + [t]))
  {
    var ts' := ts + [t];
    assert forall k | 0 <= k < |ts| :: ts'[k] == ts[k];
  }

  lemma AppendPairsSound(ts: seq<Transaction>, s: Scan, t: Transaction)
    requires PairsSound(ts, s)
    ensures PairsSound(ts + [t], s.(out := s.out + [t]))
  {
    var ts' := ts + [t];
    assert forall k | 0 <= k < |ts| :: ts'[k] == ts[k];
  }

  lemma AppendOldestFirst(ts: seq<Transaction>, s: Scan, t: Transaction, r: Scan)
    requires PendingComplete(ts, s) && PairsSound(ts, s) && OldestFirst(ts, s)
    requires IsOpenPurchase(t) ==> PurchaseKey(t) !in s.pending
    requires r.coverOf == s.coverOf && r.purchaseOf == s.purchaseOf
    ensures OldestFirst(ts + [t], r)
  {
    var ts' := ts + [t];
    var n := |ts|;
    forall j, i |
      && 0 <= i < j < |ts'|
      && IsOpenPurchase(ts'[j])
      && IsOpenCover(ts'[i])
      && CoverKey(ts'[i]) == PurchaseKey(ts'[j])
      && (j in r.coverOf ==> i < r.coverOf[j])
      ensures i in r.purchaseOf && r.purchaseOf[i] < j
    {
      assert ts'[i] == ts[i];
      if j == n {
        assert ts'[j] == t;
        UnqueuedCoverWasTaken(ts, s, i);
      } else {
        assert ts'[j] == ts[j];
        OldestFirstAt(ts, s, j, i);
      }
    }
  }

  /** `OldestFirst` for one purchase and one cover. */
  lemma OldestFirstAt(ts: seq<Transaction>, s: Scan, j: nat, i: nat)
    requires OldestFirst(ts, s)
    requires i < j < |ts| && IsOpenPurchase(ts[j]) && IsOpenCover(ts[i])
    requires CoverKey(ts[i]) == PurchaseKey(ts[j]) && (j in s.coverOf ==> i < s.coverOf[j])
    ensures i in s.purchaseOf && s.purchaseOf[i] < j
  {
  }

  /** An open cover whose bucket has no queue has been taken. */
  lemma UnqueuedCoverWasTaken(ts: seq<Transaction>, s: Scan, i: nat)
    requires PendingComplete(ts, s) && PairsSound(ts, s)
    requires i < |ts| && IsOpenCover(ts[i]) && CoverKey(ts[i]) !in s.pending
    ensures i in s.purchaseOf && s.purchaseOf[i] < |ts|
  {
    assert s.coverOf[s.purchaseOf[i]] == i;
  }

  lemma AppendOutputAgrees(ts: seq<Transaction>, s: Scan, t: Transaction)
    requires PairsSound(ts, s) && OutputAgrees(ts, s)
    ensures OutputAgrees(ts + [t], s.(out := s.out + [t]))
  {
    var ts', r := ts + [t], s.(out := s.out + [t]);
    IndicesInPrefix(ts, s);
    forall k | 0 <= k < |ts'| ensures AgreesAt(ts', r, k) {
      if k < |ts| {
        assert AgreesAt(ts, s, k);
        assert ts'[k] == ts[k] && r.out[k] == s.out[k];
        if k in s.coverOf {
          assert r.out[s.coverOf[k]] == s.out[s.coverOf[k]];
        }
        if k in s.purchaseOf {
          assert ts'[s.purchaseOf[k]] == ts[s.purchaseOf[k]];
        }
      } else {
        assert ts'[k] == t && r.out[k] == t;
      }
    }
  }

  lemma StepAppendKeepsInv(ts: seq<Transaction>, s: Scan, t: Transaction)
    requires Inv(ts, s)
    requires !IsOpenCover(t)
    requires IsOpenPurchase(t) ==> PurchaseKey(t) !in s.pending
    ensures Inv(ts + [t], s.(out := s.out + [t]))
  {
    AppendPendingSound(ts, s, t);
    AppendPendingComplete(ts, s, t);
    AppendPairsSound(ts, s, t);
    AppendOldestFirst(ts, s, t, s.(out := s.out + [t]));
    AppendOutputAgrees(ts, s, t);
  }

  // ---- a step that queues an open cover ----

  lemma EnqueuePendingSound(ts: seq<Transaction>, s: Scan, t: Transaction)
    requires PendingSound(ts, s) && PairsSound(ts, s) && QueuesWellFormed(s)
    requires IsOpenCover(t) && |s.out| == |ts|
    ensures PendingSound(ts + [t], Step(s, t))
  {
    var ts', r := ts + [t], Step(s, t);
    var k, n := CoverKey(t), |ts|;
    var q := if k in s.pending then s.pending[k] else [];
    assert r.pending == s.pending[k := q + [n]] && r.purchaseOf == s.purchaseOf;
    IndicesInPrefix(ts, s);
    forall k' | k' in r.pending
      ensures forall a, b | 0 <= a < b < |r.pending[k']| :: r.pending[k'][a] < r.pending[k'][b]
      ensures forall x | x in r.pending[k'] ::
                x < |ts'| && IsOpenCover(ts'[x]) && CoverKey(ts'[x]) == k' && x !in r.purchaseOf
    {
      if k' == k {
        var q' := q + [n];
        forall x | x in q ensures x < n && ts'[x] == ts[x] { }
        forall a, b | 0 <= a < b < |q'| ensures q'[a] < q'[b] {
          assert q'[a] == q[a] && q[a] in q;
          if b < |q| { assert q'[b] == q[b]; }
        }
        forall x | x in q'
          ensures x < |ts'| && IsOpenCover(ts'[x]) && CoverKey(ts'[x]) == k && x !in r.purchaseOf
        {
          if x != n { assert x in q; }
        }
      } else {
        forall x | x in r.pending[k'] ensures ts'[x] == ts[x] { }
      }
    }
  }

  lemma EnqueuePendingComplete(ts: seq<Transaction>, s: Scan, t: Transaction)
    requires PendingComplete(ts, s) && PairsSound(ts, s) && QueuesWellFormed(s)
    requires IsOpenCover(t) && |s.out| == |ts|
    ensures PendingComplete(ts + [t], Step(s, t))
  {
    var ts', r := ts + [t], Step(s, t);
    var k, n := CoverKey(t), |ts|;
    var q := if k in s.pending then s.pending[k] else [];
    assert r.pending == s.pending[k := q + [n]] && r.purchaseOf == s.purchaseOf;
    forall i | 0 <= i < |ts'| && IsOpenCover(ts'[i]) && i !in r.purchaseOf
      ensures CoverKey(ts'[i]) in r.pending && i in r.pending[CoverKey(ts'[i])]
    {
      if i < n {
        assert ts'[i] == ts[i];
      }
    }
  }

  lemma EnqueuePairsSound(ts: seq<Transaction>, s: Scan, t: Transaction)
    requires PairsSound(ts, s) && QueuesWellFormed(s)
    requires IsOpenCover(t) && |s.out| == |ts|
    ensures PairsSound(ts + [t], Step(s, t))
  {
    var ts' := ts + [t];
    assert forall k | 0 <= k < |ts| :: ts'[k] == ts[k];
  }

  lemma EnqueueOldestFirst(ts: seq<Transaction>, s: Scan, t: Transaction)
    requires OldestFirst(ts, s) && QueuesWellFormed(s)
    requires IsOpenCover(t) && |s.out| == |ts|
    ensures OldestFirst(ts + [t], Step(s, t))
  {
    var ts', r := ts + [t], Step(s, t);
    var n := |ts|;
    assert r.coverOf == s.coverOf && r.purchaseOf == s.purchaseOf;
    forall j, i |
      && 0 <= i < j < |ts'|
      && IsOpenPurchase(ts'[j])
      && IsOpenCover(ts'[i])
      && CoverKey(ts'[i]) == PurchaseKey(ts'[j])
      && (j in r.coverOf ==> i < r.coverOf[j])
      ensures i in r.purchaseOf && r.purchaseOf[i] < j
    {
      assert j < n by { assert ts'[n] == t; }
      assert ts'[i] == ts[i] && ts'[j] == ts[j];
    }
  }

  lemma EnqueueOutputAgrees(ts: seq<Transaction>, s: Scan, t: Transaction)
    requires PairsSound(ts, s) && OutputAgrees(ts, s) && QueuesWellFormed(s)
    requires IsOpenCover(t) && |s.out| == |ts|
    ensures OutputAgrees(ts + [t], Step(s, t))
  {
    var ts', r := ts + [t], Step(s, t);
    assert r.out == s.out + [t] && r.coverOf == s.coverOf && r.purchaseOf == s.purchaseOf;
    IndicesInPrefix(ts, s);
    forall k | 0 <= k < |ts'| ensures AgreesAt(ts', r, k) {
      if k < |ts| {
        assert AgreesAt(ts, s, k);
        assert ts'[k] == ts[k] && r.out[k] == s.out[k];
        if k in s.coverOf {
          assert r.out[s.coverOf[k]] == s.out[s.coverOf[k]];
        }
        if k in s.purchaseOf {
          assert ts'[s.purchaseOf[k]] == ts[s.purchaseOf[k]];
        }
      } else {
        assert ts'[k] == t && r.out[k] == t;
      }
    }
  }

  lemma StepEnqueueKeepsInv(ts: seq<Transaction>, s: Scan, t: Transaction)
    requires Inv(ts, s) && QueuesWellFormed(s)
    requires IsOpenCover(t) && |s.out| == |ts|
    ensures Inv(ts + [t], Step(s, t))
  {
    EnqueuePendingSound(ts, s, t);
    EnqueuePendingComplete(ts, s, t);
    EnqueuePairsSound(ts, s, t);
    EnqueueOldestFirst(ts, s, t);
    EnqueueOutputAgrees(ts, s, t);
  }

  // ---- a step that pairs an open purchase with the oldest queued cover ----

  /** What the pairing step changes. */
  lemma DequeueShape(ts: seq<Transaction>, s: Scan, t: Transaction)
    requires PendingSound(ts, s) && QueuesWellFormed(s) && |s.out| == |ts|
    requires IsOpenPurchase(t) && PurchaseKey(t) in s.pending
    ensures var q := s.pending[PurchaseKey(t)];
            var c := q[0];
            var r := Step(s, t);
            && c < |ts| && IsOpenCover(ts[c]) && CoverKey(ts[c]) == PurchaseKey(t) && c !in s.purchaseOf
            && (forall a | 0 < a < |q| :: c < q[a])
            && r.out == s.out[c := s.out[c].(originalTransactionId := Some(t.id))]
                        + [t.(coverTransaction := Some(s.out[c].(originalTransactionId := Some(t.id))))]
            && r.pending == (if |q| == 1 then s.pending - {PurchaseKey(t)}
                             else s.pending[PurchaseKey(t) := q[1..]])
            && r.coverOf == s.coverOf[|ts| := c]
            && r.purchaseOf == s.purchaseOf[c := |ts|]
  {
    var q := s.pending[PurchaseKey(t)];
    assert q[0] in q;
  }

  lemma DequeuePendingSound(ts: seq<Transaction>, s: Scan, t: Transaction)
    requires PendingSound(ts, s) && QueuesWellFormed(s) && |s.out| == |ts|
    requires IsOpenPurchase(t) && PurchaseKey(t) in s.pending
    ensures PendingSound(ts + [t], Step(s, t))
  {
    DequeueShape(ts, s, t);
    var ts', r := ts + [t], Step(s, t);
    var k := PurchaseKey(t);
    var q := s.pending[k];
    var c := q[0];
    forall k' | k' in r.pending
      ensures forall a, b | 0 <= a < b < |r.pending[k']| :: r.pending[k'][a] < r.pending[k'][b]
      ensures forall x | x in r.pending[k'] ::
                x < |ts'| && IsOpenCover(ts'[x]) && CoverKey(ts'[x]) == k' && x !in r.purchaseOf
    {
      if k' == k {
        var q' := q[1..];
        assert r.pending[k'] == q';
        forall a, b | 0 <= a < b < |q'| ensures q'[a] < q'[b] {
          assert q'[a] == q[a + 1] && q'[b] == q[b + 1];
        }
        forall x | x in q'
          ensures x < |ts'| && IsOpenCover(ts'[x]) && CoverKey(ts'[x]) == k && x !in r.purchaseOf
        {
          var a :| 0 <= a < |q'| && q'[a] == x;
          assert x == q[a + 1] && x in q && x != c;
          assert ts'[x] == ts[x];
        }
      } else {
        forall x | x in r.pending[k']
          ensures x < |ts'| && IsOpenCover(ts'[x]) && CoverKey(ts'[x]) == k' && x !in r.purchaseOf
        {
          assert x in s.pending[k'] && x != c;
          assert ts'[x] == ts[x];
        }
      }
    }
  }

  lemma DequeuePendingComplete(ts: seq<Transaction>, s: Scan, t: Transaction)
    requires PendingSound(ts, s) && PendingComplete(ts, s) && QueuesWellFormed(s) && |s.out| == |ts|
    requires IsOpenPurchase(t) && PurchaseKey(t) in s.pending
    ensures PendingComplete(ts + [t], Step(s, t))
  {
    DequeueShape(ts, s, t);
    var ts', r := ts + [t], Step(s, t);
    var k := PurchaseKey(t);
    var q := s.pending[k];
    forall i | 0 <= i < |ts'| && IsOpenCover(ts'[i]) && i !in r.purchaseOf
      ensures CoverKey(ts'[i]) in r.pending && i in r.pending[CoverKey(ts'[i])]
    {
      assert i < |ts| by { assert ts'[|ts|] == t; }
      assert ts'[i] == ts[i];
      if CoverKey(ts[i]) == k {
        var a :| 0 <= a < |q| && q[a] == i;
        assert a != 0;
        assert q[1..][a - 1] == i;
      }
    }
  }

  lemma DequeuePairsSound(ts: seq<Transaction>, s: Scan, t: Transaction)
    requires PendingSound(ts, s) && PairsSound(ts, s) && QueuesWellFormed(s) && |s.out| == |ts|
    requires IsOpenPurchase(t) && PurchaseKey(t) in s.pending
    ensures PairsSound(ts + [t], Step(s, t))
  {
    DequeueShape(ts, s, t);
    IndicesInPrefix(ts, s);
    var ts', r := ts + [t], Step(s, t);
    var n := |ts|;
    var c := s.pending[PurchaseKey(t)][0];
    forall j | j in r.coverOf
      ensures && r.coverOf[j] < j < |ts'|
              && IsOpenPurchase(ts'[j])
              && IsOpenCover(ts'[r.coverOf[j]])
              && CoverKey(ts'[r.coverOf[j]]) == PurchaseKey(ts'[j])
              && r.coverOf[j] in r.purchaseOf
              && r.purchaseOf[r.coverOf[j]] == j
    {
      if j == n {
        assert ts'[j] == t && ts'[c] == ts[c];
      } else {
        var c' := s.coverOf[j];
        assert c' != c;
        assert ts'[j] == ts[j] && ts'[c'] == ts[c'];
      }
    }
  }

  lemma DequeueOldestFirst(ts: seq<Transaction>, s: Scan, t: Transaction)
    requires PendingSound(ts, s) && PendingComplete(ts, s) && PairsSound(ts, s) && OldestFirst(ts, s)
    requires QueuesWellFormed(s) && |s.out| == |ts|
    requires IsOpenPurchase(t) && PurchaseKey(t) in s.pending
    ensures OldestFirst(ts + [t], Step(s, t))
  {
    DequeueShape(ts, s, t);
    PairedOldestFirst(ts, s, t, s.pending[PurchaseKey(t)][0], Step(s, t));
  }

  /** Pairing `t` with the head `c` of its queue keeps `OldestFirst`; only the
      two maps of the new state matter. */
  lemma PairedOldestFirst(ts: seq<Transaction>, s: Scan, t: Transaction, c: nat, r: Scan)
    requires PendingComplete(ts, s) && PairsSound(ts, s) && OldestFirst(ts, s) && QueuesWellFormed(s)
    requires IsOpenPurchase(t) && PurchaseKey(t) in s.pending
    requires c == s.pending[PurchaseKey(t)][0] && c < |ts| && c !in s.purchaseOf
    requires forall a | 0 < a < |s.pending[PurchaseKey(t)]| :: c < s.pending[PurchaseKey(t)][a]
    requires r.coverOf == s.coverOf[|ts| := c] && r.purchaseOf == s.purchaseOf[c := |ts|]
    ensures OldestFirst(ts + [t], r)
  {
    IndicesInPrefix(ts, s);
    var ts' := ts + [t];
    forall j, i |
      && 0 <= i < j < |ts'|
      && IsOpenPurchase(ts'[j])
      && IsOpenCover(ts'[i])
      && CoverKey(ts'[i]) == PurchaseKey(ts'[j])
      && (j in r.coverOf ==> i < r.coverOf[j])
      ensures i in r.purchaseOf && r.purchaseOf[i] < j
    {
      assert ts'[i] == ts[i];
      if j == |ts| {
        assert ts'[j] == t;
        SkippedCoverWasTaken(ts, s, t, c, i);
      } else {
        assert ts'[j] == ts[j];
        OldestFirstAt(ts, s, j, i);
      }
    }
  }

  /** An open cover of `t`'s bucket older than the head of the queue has been
      taken by an earlier purchase. */
  lemma SkippedCoverWasTaken(ts: seq<Transaction>, s: Scan, t: Transaction, c: nat, i: nat)
    requires PendingComplete(ts, s) && PairsSound(ts, s) && QueuesWellFormed(s)
    requires PurchaseKey(t) in s.pending && c == s.pending[PurchaseKey(t)][0]
    requires forall a | 0 < a < |s.pending[PurchaseKey(t)]| :: c < s.pending[PurchaseKey(t)][a]
    requires i < c && i < |ts| && IsOpenCover(ts[i]) && CoverKey(ts[i]) == PurchaseKey(t)
    ensures i in s.purchaseOf && s.purchaseOf[i] < |ts|
  {
    var q := s.pending[PurchaseKey(t)];
    assert forall a | 0 <= a < |q| :: q[a] != i;
    assert i !in q;
    assert s.coverOf[s.purchaseOf[i]] == i;
  }

  lemma DequeueOutputAgrees(ts: seq<Transaction>, s: Scan, t: Transaction)
    requires PendingSound(ts, s) && PairsSound(ts, s) && OutputAgrees(ts, s)
    requires QueuesWellFormed(s) && |s.out| == |ts|
    requires IsOpenPurchase(t) && PurchaseKey(t) in s.pending
    ensures OutputAgrees(ts + [t], Step(s, t))
  {
    DequeueShape(ts, s, t);
    IndicesInPrefix(ts, s);
    var ts', r := ts + [t], Step(s, t);
    var n := |ts|;
    var c := s.pending[PurchaseKey(t)][0];
    var cover := s.out[c].(originalTransactionId := Some(t.id));
    assert r.out[c] == cover && r.out[n] == t.(coverTransaction := Some(cover));
    forall k | 0 <= k < |ts'| ensures AgreesAt(ts', r, k) {
      if k == n {
        assert ts'[k] == t;
      } else if k == c {
        assert AgreesAt(ts, s, c);
        assert ts'[k] == ts[k] && ts'[n] == t;
        assert c !in s.coverOf;
      } else {
        assert AgreesAt(ts, s, k);
        assert ts'[k] == ts[k] && r.out[k] == s.out[k];
        if k in s.coverOf {
          assert s.coverOf[k] != c;
        }
        if k in s.purchaseOf {
          assert ts'[s.purchaseOf[k]] == ts[s.purchaseOf[k]];
        }
      }
    }
  }

  lemma StepDequeueKeepsInv(ts: seq<Transaction>, s: Scan, t: Transaction)
    requires Inv(ts, s) && QueuesWellFormed(s)
    requires IsOpenPurchase(t) && PurchaseKey(t) in s.pending
    ensures Inv(ts + [t], Step(s, t))
  {
    DequeuePendingSound(ts, s, t);
    DequeuePendingComplete(ts, s, t);
    DequeuePairsSound(ts, s, t);
    DequeueOldestFirst(ts, s, t);
    DequeueOutputAgrees(ts, s, t);
  }

  // ---- the whole pass ----

  lemma StepKeepsInv(ts: seq<Transaction>, s: Scan, t: Transaction)
    requires Inv(ts, s) && QueuesWellFormed(s)
    ensures Inv(ts + [t], Step(s, t))
  {
    if IsOpenCover(t) {
      StepEnqueueKeepsInv(ts, s, t);
    } else if IsOpenPurchase(t) && PurchaseKey(t) in s.pending {
      StepDequeueKeepsInv(ts, s, t);
    } else {
      assert Step(s, t) == s.(out := s.out + [t]);
      StepAppendKeepsInv(ts, s, t);
    }
  }

  /** The invariant holds of the pass after any input. */
  lemma {:induction false} RunInv(ts: seq<Transaction>)
    ensures Inv(ts, Run(ts))
  {
    if ts != [] {
      var init := ts[..|ts| - 1];
      RunInv(init);
      StepKeepsInv(init, Run(init), ts[|ts| - 1]);
      assert init + [ts[|ts| - 1]] == ts;
    }
  }
}
