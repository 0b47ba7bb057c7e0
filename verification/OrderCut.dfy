/** The blocks of the canonical order, read off the order itself: each marker
    closes the unvoided transactions and the remote epochs since the marker
    before it. The walk and the accumulator compute exactly that cut. */
module OrderCut {
  import opened Wrappers
  import opened Bytes
  import opened Errors
  import opened Kar1
  import opened Records
  import opened Segment
  import opened Seqs
  import opened Archives
  import opened Accumulator

  // ----- what the order holds

  predicate IsMarker(rec: OrderingRecord) {
    rec.value.BoundaryStart?
  }

  /** The transaction of record `i`, when it is a ref that no later void
      removes, with the envelope it resolves to. */
  ghost function TxAt(indexes: Indexes, recs: seq<OrderingRecord>, i: nat): seq<RecordedTx>
    requires i < |recs|
  {
    if recs[i].value.TxRefMsg? && !Voided(recs, i) && Resolve(indexes, recs[i].value.ref).Ok?
    then [RecordedTx(recs[i].position, Resolve(indexes, recs[i].value.ref).value)] else []
  }

  function EpochAt(recs: seq<OrderingRecord>, i: nat): seq<RemoteEpochRecord>
    requires i < |recs|
  {
    if recs[i].value.RemoteEpochMsg? then [recs[i].value.epoch] else []
  }

  /** The unvoided transactions of the records from `i` to before `j`. A void
      anywhere in the order counts. */
  ghost function LiveTxs(indexes: Indexes, recs: seq<OrderingRecord>, i: nat, j: nat): seq<RecordedTx>
    requires i <= j <= |recs|
    decreases j - i
  {
    if i == j then [] else TxAt(indexes, recs, i) + LiveTxs(indexes, recs, i + 1, j)
  }

  function OrderedEpochs(recs: seq<OrderingRecord>, i: nat, j: nat): seq<RemoteEpochRecord>
    requires i <= j <= |recs|
    decreases j - i
  {
    if i == j then [] else EpochAt(recs, i) + OrderedEpochs(recs, i + 1, j)
  }

  function OrderedMarkers(recs: seq<OrderingRecord>, i: nat, j: nat): seq<BlockBoundaryStart>
    requires i <= j <= |recs|
    decreases j - i
  {
    if i == j then [] else
      (if IsMarker(recs[i]) then [recs[i].value.boundary] else []) + OrderedMarkers(recs, i + 1, j)
  }

  ghost function Between(indexes: Indexes, recs: seq<OrderingRecord>, i: nat, j: nat): Buffers
    requires i <= j <= |recs|
  {
    Buffers(LiveTxs(indexes, recs, i, j), OrderedEpochs(recs, i, j))
  }

  // ----- the cut

  /** The blocks of the markers from `i` on, the first of which opened at
      `start`. */
  ghost function BlocksFrom(indexes: Indexes, recs: seq<OrderingRecord>, start: nat, i: nat): seq<ClosedBlock>
    requires start <= i <= |recs|
    decreases |recs| - i
  {
    if i == |recs| then []
    else if IsMarker(recs[i]) then
      [Close(recs[i].value.boundary, Between(indexes, recs, start, i))] + BlocksFrom(indexes, recs, i + 1, i + 1)
    else BlocksFrom(indexes, recs, start, i + 1)
  }

  /** Where the block that no marker closed opened. */
  function OpenStart(recs: seq<OrderingRecord>, start: nat, i: nat): (open: nat)
    requires start <= i <= |recs|
    ensures start <= open <= |recs| && (open == start || IsMarker(recs[open - 1]))
    ensures forall k :: i <= k < |recs| && open <= k ==> !IsMarker(recs[k])
    decreases |recs| - i
  {
    if i == |recs| then start
    else if IsMarker(recs[i]) then OpenStart(recs, i + 1, i + 1)
    else OpenStart(recs, start, i + 1)
  }

  ghost function Cut(indexes: Indexes, recs: seq<OrderingRecord>): seq<ClosedBlock> {
    BlocksFrom(indexes, recs, 0, 0)
  }

  ghost function OpenBlock(indexes: Indexes, recs: seq<OrderingRecord>): Buffers {
    Between(indexes, recs, OpenStart(recs, 0, 0), |recs|)
  }

  /** The block of a marker holds exactly what lies between that marker and
      the one before it, or the start of the order. */
  lemma BlockOfMarker(indexes: Indexes, recs: seq<OrderingRecord>, start: nat, m: nat)
    requires start <= m < |recs| && IsMarker(recs[m])
    requires start == 0 || IsMarker(recs[start - 1])
    requires forall k :: start <= k < m ==> !IsMarker(recs[k])
    ensures
      var k := |OrderedMarkers(recs, 0, m)|;
      && k < |Cut(indexes, recs)|
      && Cut(indexes, recs)[k] == Close(recs[m].value.boundary, Between(indexes, recs, start, m))
  {
    MarkerFrom(indexes, recs, 0, 0, start, m);
  }

  lemma {:induction false} MarkerFrom(indexes: Indexes, recs: seq<OrderingRecord>, from: nat, i: nat, start: nat, m: nat)
    requires from <= i <= m < |recs| && start <= m && IsMarker(recs[m])
    requires forall k :: start <= k < m ==> !IsMarker(recs[k])
    requires start == from || (i < start && IsMarker(recs[start - 1]))
    ensures
      var k, blocks := |OrderedMarkers(recs, i, m)|, BlocksFrom(indexes, recs, from, i);
      k < |blocks| && blocks[k] == Close(recs[m].value.boundary, Between(indexes, recs, start, m))
    decreases m - i
  {
    hide Between;
    hide Close;
    hide BlocksFrom;
    hide OrderedMarkers;
    BlocksStep(indexes, recs, from, i, m);
    if i < m {
      MarkerFrom(indexes, recs, if IsMarker(recs[i]) then i + 1 else from, i + 1, start, m);
    }
  }

  lemma BlocksStep(indexes: Indexes, recs: seq<OrderingRecord>, start: nat, i: nat, m: nat)
    requires start <= i <= m < |recs|
    ensures BlocksFrom(indexes, recs, start, i) ==
              if IsMarker(recs[i])
              then [Close(recs[i].value.boundary, Between(indexes, recs, start, i))] + BlocksFrom(indexes, recs, i + 1, i + 1)
              else BlocksFrom(indexes, recs, start, i + 1)
    ensures |OrderedMarkers(recs, i, m)| ==
              if i == m then 0 else (if IsMarker(recs[i]) then 1 else 0) + |OrderedMarkers(recs, i + 1, m)|
  {
  }

  // ----- the cut loses nothing

  lemma {:induction false} LiveTxsSplit(indexes: Indexes, recs: seq<OrderingRecord>, i: nat, m: nat, j: nat)
    requires i <= m <= j <= |recs|
    ensures LiveTxs(indexes, recs, i, j) == LiveTxs(indexes, recs, i, m) + LiveTxs(indexes, recs, m, j)
    decreases m - i
  {
    hide TxAt;
    if i < m {
      LiveTxsSplit(indexes, recs, i + 1, m, j);
    }
  }

  lemma {:induction false} EpochsSplit(recs: seq<OrderingRecord>, i: nat, m: nat, j: nat)
    requires i <= m <= j <= |recs|
    ensures OrderedEpochs(recs, i, j) == OrderedEpochs(recs, i, m) + OrderedEpochs(recs, m, j)
    decreases m - i
  {
    hide EpochAt;
    if i < m {
      EpochsSplit(recs, i + 1, m, j);
    }
  }

  /** The cut and the open block hold every unvoided transaction and every
      remote epoch of the order, once each and in order, and the cut has one
      block for each marker. */
  lemma CutHoldsTheOrder(indexes: Indexes, recs: seq<OrderingRecord>)
    ensures BlockTxs(Cut(indexes, recs)) + OpenBlock(indexes, recs).txs == LiveTxs(indexes, recs, 0, |recs|)
    ensures BlockEpochs(Cut(indexes, recs)) + OpenBlock(indexes, recs).epochs == OrderedEpochs(recs, 0, |recs|)
    ensures |Cut(indexes, recs)| == |OrderedMarkers(recs, 0, |recs|)|
  {
    BlocksHoldTxs(indexes, recs, 0, 0);
    BlocksCount(indexes, recs, 0, 0);
    BlocksHoldEpochs(indexes, recs, 0, 0);
  }

  lemma {:induction false} BlocksHoldTxs(indexes: Indexes, recs: seq<OrderingRecord>, start: nat, i: nat)
    requires start <= i <= |recs|
    ensures BlockTxs(BlocksFrom(indexes, recs, start, i)) + LiveTxs(indexes, recs, OpenStart(recs, start, i), |recs|)
            == LiveTxs(indexes, recs, start, |recs|)
    decreases |recs| - i
  {
    hide LiveTxs;
    hide BlockTxs;
    hide OrderedEpochs;
    if i == |recs| {
      NoBlocks();
      assert [] + LiveTxs(indexes, recs, start, |recs|) == LiveTxs(indexes, recs, start, |recs|);
    } else if IsMarker(recs[i]) {
      BlocksHoldTxs(indexes, recs, i + 1, i + 1);
      MarkerHoldsNothing(indexes, recs, i);
      LiveTxsSplit(indexes, recs, start, i, |recs|);
      TxsCons(Close(recs[i].value.boundary, Between(indexes, recs, start, i)), BlocksFrom(indexes, recs, i + 1, i + 1),
              LiveTxs(indexes, recs, OpenStart(recs, i + 1, i + 1), |recs|));
    } else {
      BlocksHoldTxs(indexes, recs, start, i + 1);
    }
  }

  lemma {:induction false} BlocksHoldEpochs(indexes: Indexes, recs: seq<OrderingRecord>, start: nat, i: nat)
    requires start <= i <= |recs|
    ensures BlockEpochs(BlocksFrom(indexes, recs, start, i)) + OrderedEpochs(recs, OpenStart(recs, start, i), |recs|)
            == OrderedEpochs(recs, start, |recs|)
    decreases |recs| - i
  {
    hide LiveTxs;
    hide OrderedEpochs;
    hide BlockEpochs;
    if i == |recs| {
      NoBlocks();
      assert [] + OrderedEpochs(recs, start, |recs|) == OrderedEpochs(recs, start, |recs|);
    } else if IsMarker(recs[i]) {
      BlocksHoldEpochs(indexes, recs, i + 1, i + 1);
      MarkerHoldsNothing(indexes, recs, i);
      EpochsSplit(recs, start, i, |recs|);
      EpochsCons(Close(recs[i].value.boundary, Between(indexes, recs, start, i)), BlocksFrom(indexes, recs, i + 1, i + 1),
                 OrderedEpochs(recs, OpenStart(recs, i + 1, i + 1), |recs|));
    } else {
      BlocksHoldEpochs(indexes, recs, start, i + 1);
    }
  }

  lemma NoBlocks()
    ensures BlockTxs([]) == [] && BlockEpochs([]) == []
  {
  }

  lemma MarkerHoldsNothing(indexes: Indexes, recs: seq<OrderingRecord>, i: nat)
    requires i < |recs| && IsMarker(recs[i])
    ensures LiveTxs(indexes, recs, i, |recs|) == LiveTxs(indexes, recs, i + 1, |recs|)
    ensures OrderedEpochs(recs, i, |recs|) == OrderedEpochs(recs, i + 1, |recs|)
  {
    hide Voided;
    assert forall a: seq<RecordedTx> :: [] + a == a;
    assert forall a: seq<RemoteEpochRecord> :: [] + a == a;
  }

  lemma TxsCons(b: ClosedBlock, rest: seq<ClosedBlock>, t: seq<RecordedTx>)
    ensures BlockTxs([b] + rest) + t == b.txs + (BlockTxs(rest) + t)
  {
    assert ([b] + rest)[1..] == rest;
    Assoc(b.txs, BlockTxs(rest), t);
  }

  lemma EpochsCons(b: ClosedBlock, rest: seq<ClosedBlock>, e: seq<RemoteEpochRecord>)
    ensures BlockEpochs([b] + rest) + e == b.remoteEpochs + (BlockEpochs(rest) + e)
  {
    assert ([b] + rest)[1..] == rest;
    Assoc(b.remoteEpochs, BlockEpochs(rest), e);
  }

  lemma {:induction false} BlocksCount(indexes: Indexes, recs: seq<OrderingRecord>, start: nat, i: nat)
    requires start <= i <= |recs|
    ensures |BlocksFrom(indexes, recs, start, i)| == |OrderedMarkers(recs, i, |recs|)|
    decreases |recs| - i
  {
    hide Between;
    hide Close;
    if i < |recs| {
      BlocksCount(indexes, recs, if IsMarker(recs[i]) then i + 1 else start, i + 1);
    }
  }

  // ----- the walk

  ghost predicate AllResolve(indexes: Indexes, recs: seq<OrderingRecord>, i: nat)
    requires i <= |recs|
  {
    forall k :: i <= k < |recs| && recs[k].value.TxRefMsg? && !Voided(recs, k) ==>
      Resolve(indexes, recs[k].value.ref).Ok?
  }

  lemma ReferenceStep(indexes: Indexes, recs: seq<OrderingRecord>, i: nat)
    requires i < |recs|
    ensures
      var all, rest := Collect(Reference(indexes, recs, i)), Collect(Reference(indexes, recs, i + 1));
      match Yield(indexes, recs[i], Voided(recs, i))
      case None => all == rest
      case Some(Ok(r)) => all == if rest.Ok? then Ok([r] + rest.value) else rest
      case Some(Err(e)) => all == Err(e)
  {
    hide Voided;
    var rest := Reference(indexes, recs, i + 1);
    var y := Yield(indexes, recs[i], Voided(recs, i));
    if y.Some? {
      assert Reference(indexes, recs, i)[1..] == rest;
    }
  }

  /** The walk fails exactly when an unvoided ref has no envelope: a void
      forgives a missing envelope, and nothing else does. */
  lemma {:induction false} StreamExistsIff(indexes: Indexes, recs: seq<OrderingRecord>, i: nat)
    requires i <= |recs|
    ensures Collect(Reference(indexes, recs, i)).Ok? <==> AllResolve(indexes, recs, i)
    decreases |recs| - i
  {
    hide Voided;
    hide Reference;
    if i < |recs| {
      ReferenceStep(indexes, recs, i);
      StreamExistsIff(indexes, recs, i + 1);
      var ref? := recs[i].value.TxRefMsg? && !Voided(recs, i);
      assert AllResolve(indexes, recs, i) <==>
             AllResolve(indexes, recs, i + 1) && (ref? ==> Resolve(indexes, recs[i].value.ref).Ok?);
    } else {
      assert Reference(indexes, recs, i) == [] by { NothingLeft(indexes, recs); }
    }
  }

  lemma NothingLeft(indexes: Indexes, recs: seq<OrderingRecord>)
    ensures Reference(indexes, recs, |recs|) == [] && Collect(Reference(indexes, recs, |recs|)) == Ok([])
  {
  }

  // ----- the accumulator computes the cut

  lemma BetweenStep(indexes: Indexes, recs: seq<OrderingRecord>, start: nat, i: nat)
    requires start <= i < |recs|
    ensures
      var held := Between(indexes, recs, start, i);
      Between(indexes, recs, start, i + 1)
      == Buffers(held.txs + TxAt(indexes, recs, i), held.epochs + EpochAt(recs, i))
  {
    hide TxAt;
    hide EpochAt;
    LiveTxsSplit(indexes, recs, start, i, i + 1);
    EpochsSplit(recs, start, i, i + 1);
    assert LiveTxs(indexes, recs, i, i + 1) == TxAt(indexes, recs, i) + [];
    assert OrderedEpochs(recs, i, i + 1) == EpochAt(recs, i) + [];
  }

  lemma FeedCons(s: Buffers, r: ResolvedRecord, tail: seq<ResolvedRecord>)
    ensures
      var (s1, first) := Observe(s, r);
      Feed(s, [r] + tail) == (Feed(s1, tail).0, first + Feed(s1, tail).1)
  {
    assert ([r] + tail)[1..] == tail;
  }

  /** What one record of the walk does to the buffers. */
  lemma ObserveStep(indexes: Indexes, recs: seq<OrderingRecord>, start: nat, i: nat)
    requires start <= i < |recs|
    ensures
      var held := Between(indexes, recs, start, i);
      match Yield(indexes, recs[i], Voided(recs, i))
      case None => !IsMarker(recs[i]) && Between(indexes, recs, start, i + 1) == held
      case Some(Ok(r)) =>
        if IsMarker(recs[i]) then Observe(held, r) == (EMPTY, [Close(recs[i].value.boundary, held)])
        else Observe(held, r) == (Between(indexes, recs, start, i + 1), [])
      case Some(Err(_)) => true
  {
    hide Between;
    hide Voided;
    BetweenStep(indexes, recs, start, i);
    var held := Between(indexes, recs, start, i);
    assert held.txs + [] == held.txs && held.epochs + [] == held.epochs;
  }

  lemma NothingBetween(indexes: Indexes, recs: seq<OrderingRecord>, i: nat)
    requires i <= |recs|
    ensures Between(indexes, recs, i, i) == EMPTY
  {
  }

  /** Fed the walk's stream, the accumulator closes exactly the blocks of the
      cut and is left with exactly the open block. */
  lemma {:induction false} FeedIsTheCut(indexes: Indexes, recs: seq<OrderingRecord>, start: nat, i: nat)
    requires start <= i <= |recs| && Collect(Reference(indexes, recs, i)).Ok?
    ensures Feed(Between(indexes, recs, start, i), Collect(Reference(indexes, recs, i)).value)
            == (Between(indexes, recs, OpenStart(recs, start, i), |recs|), BlocksFrom(indexes, recs, start, i))
    decreases |recs| - i
  {
    hide Voided;
    hide Reference;
    hide Collect;
    hide Between;
    hide Yield;
    hide Observe;
    hide Close;
    if i == |recs| {
      NothingLeft(indexes, recs);
    } else {
      ReferenceStep(indexes, recs, i);
      ObserveStep(indexes, recs, start, i);
      NothingBetween(indexes, recs, i + 1);
      var next := if IsMarker(recs[i]) then i + 1 else start;
      FeedIsTheCut(indexes, recs, next, i + 1);
      var y, tail := Yield(indexes, recs[i], Voided(recs, i)), Collect(Reference(indexes, recs, i + 1)).value;
      if y.Some? {
        FeedCons(Between(indexes, recs, start, i), y.value.value, tail);
        var blocks := BlocksFrom(indexes, recs, next, i + 1);
        assert [] + blocks == blocks;
      }
    }
  }

  // ----- which transactions are live

  /** A transaction of the order is that of an unvoided ref. */
  lemma {:induction false} LiveTxIsOfARef(indexes: Indexes, recs: seq<OrderingRecord>, i: nat, j: nat, t: RecordedTx)
    returns (k: nat)
    requires i <= j <= |recs| && t in LiveTxs(indexes, recs, i, j)
    ensures i <= k < j && recs[k].value.TxRefMsg? && !Voided(recs, k)
    ensures t.position == recs[k].position && Resolve(indexes, recs[k].value.ref) == Ok(t.envelope)
    decreases j - i
  {
    hide Voided;
    hide Resolve;
    if t in TxAt(indexes, recs, i) {
      k := i;
    } else {
      k := LiveTxIsOfARef(indexes, recs, i + 1, j, t);
    }
  }

  lemma {:induction false} RefIsLive(indexes: Indexes, recs: seq<OrderingRecord>, i: nat, k: nat, j: nat)
    requires i <= k < j <= |recs| && recs[k].value.TxRefMsg? && !Voided(recs, k)
    requires Resolve(indexes, recs[k].value.ref).Ok?
    ensures RecordedTx(recs[k].position, Resolve(indexes, recs[k].value.ref).value) in LiveTxs(indexes, recs, i, j)
    decreases k - i
  {
    hide Voided;
    hide Resolve;
    if i < k {
      RefIsLive(indexes, recs, i + 1, k, j);
    }
  }

  // ----- the shard files behind the indexes

  /** Every index holds the records of its shard's segment. */
  ghost predicate LoadedFrom(shards: map<byte, seq<TypedRecord<TxEnvelope>>>, indexes: Indexes) {
    && (forall shard :: shard in indexes <==> shard in shards)
    && (forall shard :: shard in indexes ==> Holds(indexes[shard], shards[shard]))
  }

  /** The record at a ref's position in its shard's segment. */
  ghost predicate Written(shards: map<byte, seq<TypedRecord<TxEnvelope>>>, r: TxRef, env: TxEnvelope) {
    r.shardId in shards && TypedRecord(r.txDataPosition, env) in shards[r.shardId]
  }

  /** A ref resolves to an envelope exactly when its shard's segment has that
      envelope at the ref's position. */
  lemma ResolvesIffWritten(shards: map<byte, seq<TypedRecord<TxEnvelope>>>, indexes: Indexes, r: TxRef, env: TxEnvelope)
    requires LoadedFrom(shards, indexes)
    ensures Resolve(indexes, r) == Ok(env) <==> Written(shards, r, env)
    ensures r.shardId !in shards ==> Resolve(indexes, r) == Err(Config)
    ensures r.shardId in shards && Resolve(indexes, r).Err? ==> Resolve(indexes, r).error == Frame(RefNotFound)
  {
    if r.shardId in indexes {
      var idx, recs := indexes[r.shardId], shards[r.shardId];
      assert Holds(idx, recs);
      if r.txDataPosition in idx {
        var i :| 0 <= i < |recs| && recs[i].position == r.txDataPosition;
        assert recs[i] in recs;
      }
    }
  }

  /** The transactions of the order are those written in the shards' segments
      at the positions of its unvoided refs, and no other. */
  lemma LiveIffWritten(shards: map<byte, seq<TypedRecord<TxEnvelope>>>, indexes: Indexes, recs: seq<OrderingRecord>,
                       t: RecordedTx)
    requires LoadedFrom(shards, indexes)
    ensures t in LiveTxs(indexes, recs, 0, |recs|) <==>
              exists k :: 0 <= k < |recs| && recs[k].value.TxRefMsg? && !Voided(recs, k)
                          && t.position == recs[k].position && Written(shards, recs[k].value.ref, t.envelope)
  {
    hide Voided;
    hide Resolve;
    hide Written;
    hide LoadedFrom;
    hide LiveTxs;
    if t in LiveTxs(indexes, recs, 0, |recs|) {
      var k := LiveTxIsOfARef(indexes, recs, 0, |recs|, t);
      ResolvesIffWritten(shards, indexes, recs[k].value.ref, t.envelope);
    }
    forall k | 0 <= k < |recs| && recs[k].value.TxRefMsg? && !Voided(recs, k)
               && t.position == recs[k].position && Written(shards, recs[k].value.ref, t.envelope)
      ensures t in LiveTxs(indexes, recs, 0, |recs|)
    {
      ResolvesIffWritten(shards, indexes, recs[k].value.ref, t.envelope);
      RefIsLive(indexes, recs, 0, k, |recs|);
    }
  }
}
