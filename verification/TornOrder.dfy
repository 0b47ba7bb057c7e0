/** An order of which only the first records were read: its live transactions
    are a prefix of those of the whole order exactly when no lost void removes
    a ref that was kept. */
module TornOrder {
  import opened Kar1
  import opened Records
  import opened Archives
  import opened OrderCut

  /** A void at `n` or later removes a ref before `n`. */
  ghost predicate LosesVoid(recs: seq<OrderingRecord>, n: nat)
    requires n <= |recs|
  {
    exists i, j :: 0 <= i < n <= j < |recs| && Voids(recs, i, j)
  }

  lemma VoidsInPrefix(recs: seq<OrderingRecord>, n: nat, i: nat, j: nat)
    requires i < n <= |recs| && j < n
    ensures Voids(recs[..n], i, j) <==> Voids(recs, i, j)
  {
    forall k | 0 <= k < n ensures recs[..n][k] == recs[k] {
    }
  }

  /** A kept ref is voided in the whole order when it is in the kept part, or
      when its void was lost; never both. */
  lemma VoidedWhole(recs: seq<OrderingRecord>, n: nat, i: nat)
    requires i < n <= |recs|
    ensures Voided(recs, i) <==> Voided(recs[..n], i) || exists j :: n <= j < |recs| && Voids(recs, i, j)
    ensures Voided(recs[..n], i) ==> forall j :: n <= j < |recs| ==> !Voids(recs, i, j)
  {
    hide Mentions;
    forall j | 0 <= j < n ensures Voids(recs[..n], i, j) <==> Voids(recs, i, j) {
      VoidsInPrefix(recs, n, i, j);
    }
    if Voided(recs[..n], i) {
      var v :| i < v < n && Voids(recs[..n], i, v);
      MentionsVoid(recs[v], recs[i].value.ref.txHash);
    }
  }

  lemma MentionsVoid(rec: OrderingRecord, h: B256)
    ensures IsVoid(rec, h) ==> Mentions(rec, h)
  {
  }

  /** Without a lost void the kept part holds the same transactions. */
  lemma {:induction false} SameTxs(indexes: Indexes, recs: seq<OrderingRecord>, n: nat, i: nat)
    requires i <= n <= |recs| && !LosesVoid(recs, n)
    ensures LiveTxs(indexes, recs[..n], i, n) == LiveTxs(indexes, recs, i, n)
    decreases n - i
  {
    hide Voided;
    hide Voids;
    if i < n {
      VoidedWhole(recs, n, i);
      SameTxs(indexes, recs, n, i + 1);
    }
  }

  /** A lost void adds its transaction, so the kept part is no prefix. */
  lemma LostVoidAdds(indexes: Indexes, recs: seq<OrderingRecord>, n: nat, i: nat, j: nat) returns (t: RecordedTx)
    requires DistinctPositions(recs) && i < n <= j < |recs| && Voids(recs, i, j)
    requires AllResolve(indexes, recs[..n], 0)
    ensures t in LiveTxs(indexes, recs[..n], 0, n) && t !in LiveTxs(indexes, recs, 0, |recs|)
  {
    hide Voids;
    hide LiveTxs;
    VoidedWhole(recs, n, i);
    VoidIsOfARef(recs, i, j);
    t := RecordedTx(recs[i].position, Resolve(indexes, recs[i].value.ref).value);
    RefIsLive(indexes, recs[..n], 0, i, n);
    if t in LiveTxs(indexes, recs, 0, |recs|) {
      var k := LiveTxIsOfARef(indexes, recs, 0, |recs|, t);
    }
  }

  lemma VoidIsOfARef(recs: seq<OrderingRecord>, i: nat, j: nat)
    requires i < |recs| && j < |recs| && Voids(recs, i, j)
    ensures recs[i].value.TxRefMsg?
  {
  }

  /** What a torn order holds, against what was written. */
  lemma TornIsPrefixIff(indexes: Indexes, recs: seq<OrderingRecord>, n: nat)
    requires n <= |recs| && DistinctPositions(recs) && AllResolve(indexes, recs[..n], 0)
    ensures LiveTxs(indexes, recs[..n], 0, n) <= LiveTxs(indexes, recs, 0, |recs|) <==> !LosesVoid(recs, n)
  {
    hide LiveTxs;
    hide Voids;
    var kept, all := LiveTxs(indexes, recs[..n], 0, n), LiveTxs(indexes, recs, 0, |recs|);
    if LosesVoid(recs, n) {
      var i, j :| 0 <= i < n <= j < |recs| && Voids(recs, i, j);
      var t := LostVoidAdds(indexes, recs, n, i, j);
    } else {
      SameTxs(indexes, recs, n, 0);
      LiveTxsSplit(indexes, recs, 0, n, |recs|);
    }
  }

  /** The case that fails: a ref and its void, torn between the two. */
  lemma TornVoidPostsItsRef(indexes: Indexes, r: OrderingRecord, v: OrderingRecord)
    requires r.value.TxRefMsg? && Resolve(indexes, r.value.ref).Ok? && IsVoid(v, r.value.ref.txHash)
    ensures LiveTxs(indexes, [r, v], 0, 2) == []
    ensures LiveTxs(indexes, [r, v][..1], 0, 1) == [RecordedTx(r.position, Resolve(indexes, r.value.ref).value)]
  {
    assert Voids([r, v], 0, 1);
    assert [r, v][..1] == [r];
    assert LiveTxs(indexes, [r, v], 1, 2) == [];
    assert LiveTxs(indexes, [r], 1, 1) == [];
  }
}
