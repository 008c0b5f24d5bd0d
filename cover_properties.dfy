/** What `findCovers` promises its callers, proved from the invariant of the
    pass. */
module CoverProperties {
  import opened Common
  import opened Transactions
  import opened CoverMatching
  import opened CoverInvariant

  /** Nothing is dropped, duplicated or reordered: the output has one record
      per input record, at the same index, differing at most in its links. */
  lemma MatchedKeepsEveryTransaction(ts: seq<Transaction>)
    ensures |Matched(ts)| == |ts|
    ensures forall k | 0 <= k < |ts| ::
              Unlinked(Matched(ts)[k]) == Unlinked(ts[k]) && Matched(ts)[k].id == ts[k].id
  {
    RunInv(ts);
    forall k | 0 <= k < |ts|
      ensures Unlinked(Matched(ts)[k]) == Unlinked(ts[k]) && Matched(ts)[k].id == ts[k].id
    {
      assert AgreesAt(ts, Run(ts), k);
    }
  }

  /** Records linked by an earlier run pass through untouched, and so do
      records that are neither covers nor categorizable. */
  lemma MatchedLeavesOthersAlone(ts: seq<Transaction>)
    ensures |Matched(ts)| == |ts|
    ensures forall k | 0 <= k < |ts| && IsMatched(ts[k]) :: Matched(ts)[k] == ts[k]
    ensures forall k | 0 <= k < |ts| && !IsCoverTransfer(ts[k]) && !ts[k].isCategorizable ::
              Matched(ts)[k] == ts[k]
  {
    RunInv(ts);
    var s := Run(ts);
    forall k | 0 <= k < |ts| && (IsMatched(ts[k]) || (!IsCoverTransfer(ts[k]) && !ts[k].isCategorizable))
      ensures Matched(ts)[k] == ts[k]
    {
      assert AgreesAt(ts, s, k);
      if !IsMatched(ts[k]) {
        assert k !in s.coverOf;
      }
    }
  }

  /** Every pair joins a categorizable purchase to an earlier cover whose
      rounded amount equals the purchase's negated rounded amount; the purchase
      holds the cover and the cover holds the purchase's id. */
  lemma PairingSound(ts: seq<Transaction>)
    ensures |Matched(ts)| == |ts|
    ensures forall j | j in Pairing(ts) ::
              && Pairing(ts)[j] < j < |ts|
              && IsOpenPurchase(ts[j])
              && IsOpenCover(ts[Pairing(ts)[j]])
              && CoverKey(ts[Pairing(ts)[j]]) == PurchaseKey(ts[j])
              && Matched(ts)[j].coverTransaction == Some(Matched(ts)[Pairing(ts)[j]])
              && Matched(ts)[Pairing(ts)[j]].originalTransactionId == Some(ts[j].id)
  {
    RunInv(ts);
    var s := Run(ts);
    forall j | j in s.coverOf
      ensures && Matched(ts)[j].coverTransaction == Some(Matched(ts)[s.coverOf[j]])
              && Matched(ts)[s.coverOf[j]].originalTransactionId == Some(ts[j].id)
    {
      assert AgreesAt(ts, s, j);
      assert AgreesAt(ts, s, s.coverOf[j]);
    }
  }

  /** The links on a record the run did not find already linked come only
      from the pairing: a cover link iff it is a paired purchase, a
      back-reference iff it is a paired cover. */
  lemma LinksComeFromPairing(ts: seq<Transaction>)
    ensures |Matched(ts)| == |ts|
    ensures forall k | 0 <= k < |ts| && !IsMatched(ts[k]) ::
              Matched(ts)[k].coverTransaction.Some? <==> k in Pairing(ts)
    ensures forall k | 0 <= k < |ts| && !IsMatched(ts[k]) ::
              Matched(ts)[k].originalTransactionId.Some? <==>
                exists j | j in Pairing(ts) :: Pairing(ts)[j] == k
  {
    RunInv(ts);
    var s := Run(ts);
    forall k | 0 <= k < |ts| && !IsMatched(ts[k])
      ensures Matched(ts)[k].coverTransaction.Some? <==> k in s.coverOf
      ensures Matched(ts)[k].originalTransactionId.Some? <==> exists j | j in s.coverOf :: s.coverOf[j] == k
    {
      assert AgreesAt(ts, s, k);
      if k in s.purchaseOf {
        assert s.coverOf[s.purchaseOf[k]] == k;
      }
    }
  }

  /** No cover serves two purchases. */
  lemma PairingInjective(ts: seq<Transaction>)
    ensures forall j1, j2 | j1 in Pairing(ts) && j2 in Pairing(ts) && j1 != j2 ::
              Pairing(ts)[j1] != Pairing(ts)[j2]
  {
    RunInv(ts);
  }

  /** Within one bucket, covers are consumed in the order they were queued. */
  lemma PairingFifo(ts: seq<Transaction>)
    ensures forall j1, j2 |
              && j1 in Pairing(ts) && j2 in Pairing(ts) && j1 < j2 < |ts|
              && PurchaseKey(ts[j1]) == PurchaseKey(ts[j2]) ::
              Pairing(ts)[j1] < Pairing(ts)[j2]
  {
    RunInv(ts);
    var s := Run(ts);
    forall j1, j2 |
      && j1 in s.coverOf && j2 in s.coverOf && j1 < j2 < |ts|
      && PurchaseKey(ts[j1]) == PurchaseKey(ts[j2])
      ensures s.coverOf[j1] < s.coverOf[j2]
    {
      FifoPair(ts, s, j1, j2);
    }
  }

  /** Two purchases of one bucket: had the later one taken an older cover, the
      earlier one would have passed that cover over. */
  lemma FifoPair(ts: seq<Transaction>, s: Scan, j1: nat, j2: nat)
    requires PairsSound(ts, s) && OldestFirst(ts, s)
    requires j1 in s.coverOf && j2 in s.coverOf && j1 < j2
    requires PurchaseKey(ts[j1]) == PurchaseKey(ts[j2])
    ensures s.coverOf[j1] < s.coverOf[j2]
  {
    var c1, c2 := s.coverOf[j1], s.coverOf[j2];
    assert s.purchaseOf[c1] == j1 && s.purchaseOf[c2] == j2;
    assert IsOpenCover(ts[c2]) && CoverKey(ts[c2]) == PurchaseKey(ts[j1]) && IsOpenPurchase(ts[j1]);
  }

  /** A purchase takes the oldest cover of its bucket still waiting, and a
      purchase is left without a cover only when no cover of its bucket is
      waiting: every earlier cover of that bucket was taken by an earlier
      purchase. */
  lemma PairingOldestFirst(ts: seq<Transaction>, j: nat)
    requires j < |ts| && IsOpenPurchase(ts[j])
    ensures forall i |
              && 0 <= i < j
              && IsOpenCover(ts[i])
              && CoverKey(ts[i]) == PurchaseKey(ts[j])
              && (j in Pairing(ts) ==> i < Pairing(ts)[j]) ::
              exists j' | j' in Pairing(ts) :: j' < j && Pairing(ts)[j'] == i
  {
    RunInv(ts);
    var s := Run(ts);
    forall i |
      && 0 <= i < j
      && IsOpenCover(ts[i])
      && CoverKey(ts[i]) == PurchaseKey(ts[j])
      && (j in s.coverOf ==> i < s.coverOf[j])
      ensures exists j' | j' in s.coverOf :: j' < j && s.coverOf[j'] == i
    {
      var j' := s.purchaseOf[i];
      assert j' in s.coverOf && j' < j && s.coverOf[j'] == i;
    }
  }

  /** A record never ends up with both links, unless it came in with both. */
  lemma NeverBothLinks(ts: seq<Transaction>)
    ensures |Matched(ts)| == |ts|
    ensures forall k | 0 <= k < |ts| && !IsMatched(ts[k]) ::
              !(Matched(ts)[k].coverTransaction.Some? && Matched(ts)[k].originalTransactionId.Some?)
  {
    RunInv(ts);
    var s := Run(ts);
    forall k | 0 <= k < |ts| && !IsMatched(ts[k])
      ensures !(Matched(ts)[k].coverTransaction.Some? && Matched(ts)[k].originalTransactionId.Some?)
    {
      assert AgreesAt(ts, s, k);
      if k in s.coverOf && k in s.purchaseOf {
        assert false;
      }
    }
  }

  /** The classification of a record depends only on its unlinked part. */
  lemma ClassificationIgnoresLinks(t: Transaction, u: Transaction)
    requires Unlinked(t) == Unlinked(u)
    ensures IsCoverTransfer(t) == IsCoverTransfer(u)
    ensures t.isCategorizable == u.isCategorizable
    ensures CoverKey(t) == CoverKey(u) && PurchaseKey(t) == PurchaseKey(u)
  {
    assert t.description == Unlinked(t).description == Unlinked(u).description == u.description;
    assert t.valueInBaseUnits == Unlinked(u).valueInBaseUnits;
  }

  /** Running the pass on its own output makes no new pair. */
  lemma RerunPairsNothing(ts: seq<Transaction>)
    ensures Pairing(Matched(ts)) == map[]
  {
    var out := Matched(ts);
    var s, s2 := Run(ts), Run(out);
    RunInv(ts);
    RunInv(out);
    if j :| j in s2.coverOf {
      var c := s2.coverOf[j];
      assert AgreesAt(ts, s, j) && AgreesAt(ts, s, c);
      ClassificationIgnoresLinks(out[j], ts[j]);
      ClassificationIgnoresLinks(out[c], ts[c]);
      assert false;
    }
  }

  /** Cover matching is idempotent. */
  lemma MatchedIdempotent(ts: seq<Transaction>)
    ensures Matched(Matched(ts)) == Matched(ts)
  {
    var out := Matched(ts);
    var s2 := Run(out);
    RunInv(out);
    RerunPairsNothing(ts);
    assert s2.purchaseOf == map[] by {
      if c :| c in s2.purchaseOf {
        assert false;
      }
    }
    forall k | 0 <= k < |out| ensures s2.out[k] == out[k] {
      assert AgreesAt(out, s2, k);
    }
  }

  ghost predicate Submap(m: map<nat, nat>, m': map<nat, nat>) {
    forall x | x in m :: x in m' && m'[x] == m[x]
  }

  /** A step keeps every pair already made and adds at most one, for the
      record it consumes. */
  lemma StepGrows(ts: seq<Transaction>, s: Scan, t: Transaction)
    requires Inv(ts, s) && QueuesWellFormed(s)
    ensures Submap(s.coverOf, Step(s, t).coverOf) && Submap(s.purchaseOf, Step(s, t).purchaseOf)
    ensures forall j | j in Step(s, t).coverOf && j !in s.coverOf :: j == |ts|
  {
    IndicesInPrefix(ts, s);
    if IsOpenPurchase(t) && PurchaseKey(t) in s.pending {
      DequeueShape(ts, s, t);
    }
  }

  /** Consuming more input keeps every pair made on the shorter input, and
      pairs no earlier purchase that was left without a cover. */
  lemma {:induction false} RunGrows(a: seq<Transaction>, b: seq<Transaction>)
    ensures Submap(Run(a).coverOf, Run(a + b).coverOf)
    ensures Submap(Run(a).purchaseOf, Run(a + b).purchaseOf)
    ensures forall j | j in Run(a + b).coverOf && j < |a| :: j in Run(a).coverOf
  {
    if b == [] {
      assert a + b == a;
    } else {
      var b', t := b[..|b| - 1], b[|b| - 1];
      RunGrows(a, b');
      assert (a + b)[..|a + b| - 1] == a + b' && (a + b)[|a + b| - 1] == t;
      RunInv(a + b');
      StepGrows(a + b', Run(a + b'), t);
    }
  }

  /** Two records with the same attributes and the same links are equal. */
  lemma SameRecord(t: Transaction, u: Transaction)
    requires Unlinked(t) == Unlinked(u)
    requires t.coverTransaction == u.coverTransaction
    requires t.originalTransactionId == u.originalTransactionId
    ensures t == u
  {
    assert t == Unlinked(t).(coverTransaction := t.coverTransaction, originalTransactionId := t.originalTransactionId);
    assert u == Unlinked(u).(coverTransaction := u.coverTransaction, originalTransactionId := u.originalTransactionId);
  }

  /** Matching a longer list leaves the records of a prefix as matching the
      prefix alone made them, except that a cover still waiting may receive a
      back-reference to a purchase further on. */
  lemma MatchedExtend(a: seq<Transaction>, b: seq<Transaction>)
    ensures |Matched(a)| == |a| && |Matched(a + b)| == |a| + |b|
    ensures Submap(Pairing(a), Pairing(a + b))
    ensures forall k | 0 <= k < |a| ::
              || Matched(a + b)[k] == Matched(a)[k]
              || (&& IsOpenCover(a[k])
                  && Matched(a)[k].originalTransactionId == None
                  && Matched(a + b)[k].originalTransactionId.Some?
                  && Matched(a + b)[k] == Matched(a)[k].(originalTransactionId := Matched(a + b)[k].originalTransactionId))
  {
    var ab := a + b;
    var sa, sab := Run(a), Run(ab);
    RunInv(a);
    RunInv(ab);
    RunGrows(a, b);
    forall k | 0 <= k < |a|
      ensures || sab.out[k] == sa.out[k]
              || (&& IsOpenCover(a[k])
                  && sa.out[k].originalTransactionId == None
                  && sab.out[k].originalTransactionId.Some?
                  && sab.out[k] == sa.out[k].(originalTransactionId := sab.out[k].originalTransactionId))
    {
      assert ab[k] == a[k];
      assert AgreesAt(a, sa, k) && AgreesAt(ab, sab, k);
      if !IsMatched(a[k]) {
        if k in sa.coverOf {
          var c := sa.coverOf[k];
          assert ab[c] == a[c];
          assert AgreesAt(a, sa, c) && AgreesAt(ab, sab, c);
          assert c !in sab.coverOf by {
            if c in sab.coverOf {
              assert false;
            }
          }
          SameRecord(sab.out[c], sa.out[c]);
        }
        if k in sa.purchaseOf {
          assert ab[sa.purchaseOf[k]] == a[sa.purchaseOf[k]];
        }
        if sab.out[k].originalTransactionId == sa.out[k].originalTransactionId {
          SameRecord(sab.out[k], sa.out[k]);
        } else {
          assert sab.coverOf[sab.purchaseOf[k]] == k;
        }
      }
    }
  }
}
