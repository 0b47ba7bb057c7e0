/** Grouping the resolved stream into closed blocks at its boundaries. */
module Accumulator {
  import opened Wrappers
  import opened Kar1
  import opened Records
  import opened Archives

  datatype Buffers = Buffers(txs: seq<RecordedTx>, epochs: seq<RemoteEpochRecord>)

  const EMPTY := Buffers([], [])

  function Close(b: BlockBoundaryStart, s: Buffers): ClosedBlock {
    ClosedBlock(b.blockNumber, b.l2Timestamp, b.endTxIdx, b.l1Origin, s.epochs, s.txs)
  }

  function Observe(s: Buffers, rec: ResolvedRecord): (Buffers, seq<ClosedBlock>) {
    match rec
    case Tx(position, _, _, env) => (s.(txs := s.txs + [RecordedTx(position, env)]), [])
    case RemoteEpoch(_, record) => (s.(epochs := s.epochs + [record]), [])
    case Boundary(_, marker) => (EMPTY, [Close(marker, s)])
  }

  /** The buffers and the closed blocks after a run of the stream. */
  function Feed(s: Buffers, recs: seq<ResolvedRecord>): (Buffers, seq<ClosedBlock>)
    decreases |recs|
  {
    if recs == [] then (s, []) else
      var (s1, first) := Observe(s, recs[0]);
      var (s2, rest) := Feed(s1, recs[1..]);
      (s2, first + rest)
  }

  class BatchAccumulator {
    var pending: seq<RecordedTx>
    var pendingRemoteEpochs: seq<RemoteEpochRecord>

    ghost function Held(): Buffers
      reads this
    {
      Buffers(pending, pendingRemoteEpochs)
    }

    constructor ()
      ensures Held() == EMPTY
    {
      pending, pendingRemoteEpochs := [], [];
    }

    method ObserveTx(env: TxEnvelope, pos: BPosition)
      modifies this`pending
      ensures pending == old(pending) + [RecordedTx(pos, env)]
    {
      pending := pending + [RecordedTx(pos, env)];
    }

    method ObserveRemoteEpoch(rec: RemoteEpochRecord)
      modifies this`pendingRemoteEpochs
      ensures pendingRemoteEpochs == old(pendingRemoteEpochs) + [rec]
    {
      pendingRemoteEpochs := pendingRemoteEpochs + [rec];
    }

    method ObserveBoundary(b: BlockBoundaryStart) returns (block: ClosedBlock)
      modifies this
      ensures Held() == EMPTY && block == Close(b, old(Held()))
    {
      var txs := pending;
      pending := [];
      var epochs := pendingRemoteEpochs;
      pendingRemoteEpochs := [];
      block := ClosedBlock(b.blockNumber, b.l2Timestamp, b.endTxIdx, b.l1Origin, epochs, txs);
    }

    method ObserveRecord(rec: ResolvedRecord) returns (closed: Option<ClosedBlock>)
      modifies this
      ensures (Held(), if closed.Some? then [closed.value] else []) == Observe(old(Held()), rec)
    {
      match rec {
        case Tx(position, _, _, env) =>
          ObserveTx(env, position);
          closed := None;
        case RemoteEpoch(_, record) =>
          ObserveRemoteEpoch(record);
          closed := None;
        case Boundary(_, marker) =>
          var block := ObserveBoundary(marker);
          closed := Some(block);
      }
    }
  }

  // ----- the blocks are the stream cut at its boundaries

  function TxsOf(recs: seq<ResolvedRecord>): seq<RecordedTx> {
    if recs == [] then [] else
      (if recs[0].Tx? then [RecordedTx(recs[0].position, recs[0].env)] else []) + TxsOf(recs[1..])
  }

  function EpochsOf(recs: seq<ResolvedRecord>): seq<RemoteEpochRecord> {
    if recs == [] then [] else
      (if recs[0].RemoteEpoch? then [recs[0].record] else []) + EpochsOf(recs[1..])
  }

  function BoundariesOf(recs: seq<ResolvedRecord>): seq<BlockBoundaryStart> {
    if recs == [] then [] else
      (if recs[0].Boundary? then [recs[0].marker] else []) + BoundariesOf(recs[1..])
  }

  function BlockTxs(blocks: seq<ClosedBlock>): seq<RecordedTx> {
    if blocks == [] then [] else blocks[0].txs + BlockTxs(blocks[1..])
  }

  function BlockEpochs(blocks: seq<ClosedBlock>): seq<RemoteEpochRecord> {
    if blocks == [] then [] else blocks[0].remoteEpochs + BlockEpochs(blocks[1..])
  }

  /** Every transaction of the stream is in a closed block or still buffered,
      once and in stream order. */
  lemma {:induction false} FeedConservesTxs(s: Buffers, recs: seq<ResolvedRecord>)
    ensures BlockTxs(Feed(s, recs).1) + Feed(s, recs).0.txs == s.txs + TxsOf(recs)
    decreases |recs|
  {
    if recs != [] {
      var (s1, first) := Observe(s, recs[0]);
      FeedConservesTxs(s1, recs[1..]);
      var rest := Feed(s1, recs[1..]).1;
      if recs[0].Boundary? {
        assert (first + rest)[1..] == rest;
      } else {
        assert first + rest == rest;
      }
    }
  }

  /** The same for the remote epochs. */
  lemma {:induction false} FeedConservesEpochs(s: Buffers, recs: seq<ResolvedRecord>)
    ensures BlockEpochs(Feed(s, recs).1) + Feed(s, recs).0.epochs == s.epochs + EpochsOf(recs)
    decreases |recs|
  {
    if recs != [] {
      var (s1, first) := Observe(s, recs[0]);
      FeedConservesEpochs(s1, recs[1..]);
      var rest := Feed(s1, recs[1..]).1;
      if recs[0].Boundary? {
        assert (first + rest)[1..] == rest;
      } else {
        assert first + rest == rest;
      }
    }
  }

  predicate ClosedBy(block: ClosedBlock, b: BlockBoundaryStart) {
    && block.blockNumber == b.blockNumber && block.l2Timestamp == b.l2Timestamp
    && block.endTxIdx == b.endTxIdx && block.l1Origin == b.l1Origin
  }

  /** Each boundary closes one block, in order, and gives it its header. */
  lemma {:induction false} FeedClosesAtBoundaries(s: Buffers, recs: seq<ResolvedRecord>)
    ensures |Feed(s, recs).1| == |BoundariesOf(recs)|
    ensures forall k :: 0 <= k < |BoundariesOf(recs)| ==> ClosedBy(Feed(s, recs).1[k], BoundariesOf(recs)[k])
    decreases |recs|
  {
    if recs != [] {
      FeedClosesAtBoundaries(Observe(s, recs[0]).0, recs[1..]);
    }
  }

  lemma {:induction false} FeedAppend(s: Buffers, a: seq<ResolvedRecord>, b: seq<ResolvedRecord>)
    ensures
      var (mid, left) := Feed(s, a);
      var (end, right) := Feed(mid, b);
      Feed(s, a + b) == (end, left + right)
    decreases |a|
  {
    if a == [] {
      assert a + b == b;
      assert [] + Feed(s, b).1 == Feed(s, b).1;
    } else {
      var (s1, first) := Observe(s, a[0]);
      FeedAppend(s1, a[1..], b);
      assert (a + b)[1..] == a[1..] + b;
      var (mid, left) := Feed(s1, a[1..]);
      assert (first + left) + Feed(mid, b).1 == first + (left + Feed(mid, b).1);
    }
  }

  /** Records without a boundary only buffer. */
  lemma {:induction false} FeedBuffers(s: Buffers, recs: seq<ResolvedRecord>)
    requires BoundariesOf(recs) == []
    ensures Feed(s, recs) == (Buffers(s.txs + TxsOf(recs), s.epochs + EpochsOf(recs)), [])
    decreases |recs|
  {
    if recs != [] {
      var s1 := Observe(s, recs[0]).0;
      FeedBuffers(s1, recs[1..]);
      match recs[0]
      case Tx(position, _, _, env) =>
        assert s1.txs + TxsOf(recs[1..]) == s.txs + ([RecordedTx(position, env)] + TxsOf(recs[1..]));
        assert [] + EpochsOf(recs[1..]) == EpochsOf(recs[1..]);
      case RemoteEpoch(_, record) =>
        assert s1.epochs + EpochsOf(recs[1..]) == s.epochs + ([record] + EpochsOf(recs[1..]));
        assert [] + TxsOf(recs[1..]) == TxsOf(recs[1..]);
    } else {
      assert s.txs + [] == s.txs && s.epochs + [] == s.epochs;
    }
  }

  /** A block holds exactly the records between the boundary that opened it,
      or the stream's start, and its own boundary. */
  lemma BlockIsBetweenItsBoundaries(before: seq<ResolvedRecord>, within: seq<ResolvedRecord>, b: ResolvedRecord,
                                    after: seq<ResolvedRecord>)
    requires before == [] || before[|before| - 1].Boundary?
    requires BoundariesOf(within) == [] && b.Boundary?
    ensures
      var blocks := Feed(EMPTY, before + (within + ([b] + after))).1;
      var k := |BoundariesOf(before)|;
      k < |blocks| && blocks[k] == Close(b.marker, Buffers(TxsOf(within), EpochsOf(within)))
  {
    var (s0, left) := Feed(EMPTY, before);
    FeedClosesAtBoundaries(EMPTY, before);
    EndsAtBoundary(before);
    FeedAppend(EMPTY, before, within + ([b] + after));
    FeedAppend(s0, within, [b] + after);
    FeedBuffers(s0, within);
    assert ([b] + after)[1..] == after;
  }

  lemma EndsAtBoundary(before: seq<ResolvedRecord>)
    requires before == [] || before[|before| - 1].Boundary?
    ensures Feed(EMPTY, before).0 == EMPTY
  {
    if before != [] {
      var n := |before| - 1;
      FeedAppend(EMPTY, before[..n], [before[n]]);
      assert before == before[..n] + [before[n]];
    }
  }
}
