/** From the archive files to the blocks a reader recovers from L1. */
module Pipeline {
  import opened Wrappers
  import opened Bytes
  import opened Kar1
  import opened Records
  import opened Seqs
  import opened Segment
  import opened Archives
  import opened Accumulator
  import opened OrderCut
  import opened TornOrder
  import opened Packer
  import opened Batcher
  import opened Recovery

  function FrameTxs(frames: seq<BlockFrame>): seq<TxFrame> {
    if frames == [] then [] else frames[0].txs + FrameTxs(frames[1..])
  }

  function FrameEpochs(frames: seq<BlockFrame>): seq<RemoteEpochRecord> {
    if frames == [] then [] else frames[0].remoteEpochs + FrameEpochs(frames[1..])
  }

  lemma {:induction false} FramesHoldBlockEpochs(blocks: seq<ClosedBlock>)
    ensures FrameEpochs(Map(FrameOf, blocks)) == BlockEpochs(blocks)
  {
    if blocks != [] {
      FramesHoldBlockEpochs(blocks[1..]);
      assert Map(FrameOf, blocks)[1..] == Map(FrameOf, blocks[1..]);
    }
  }

  lemma {:induction false} BlockEpochsAppend(a: seq<ClosedBlock>, b: seq<ClosedBlock>)
    ensures BlockEpochs(a + b) == BlockEpochs(a) + BlockEpochs(b)
  {
    if a == [] {
      assert a + b == b;
    } else {
      BlockEpochsAppend(a[1..], b);
      assert (a + b)[1..] == a[1..] + b && (a + b)[0] == a[0];
      Assoc(a[0].remoteEpochs, BlockEpochs(a[1..]), BlockEpochs(b));
    }
  }

  lemma {:induction false} FramesHoldBlockTxs(blocks: seq<ClosedBlock>)
    ensures FrameTxs(Map(FrameOf, blocks)) == Map(FrameOfTx, BlockTxs(blocks))
  {
    if blocks != [] {
      FramesHoldBlockTxs(blocks[1..]);
      assert Map(FrameOf, blocks)[1..] == Map(FrameOf, blocks[1..]);
      MapAppend(FrameOfTx, blocks[0].txs, BlockTxs(blocks[1..]));
    }
  }

  lemma {:induction false} BlockTxsAppend(a: seq<ClosedBlock>, b: seq<ClosedBlock>)
    ensures BlockTxs(a + b) == BlockTxs(a) + BlockTxs(b)
  {
    if a == [] {
      assert a + b == b;
    } else {
      BlockTxsAppend(a[1..], b);
      assert (a + b)[1..] == a[1..] + b && (a + b)[0] == a[0];
      Assoc(a[0].txs, BlockTxs(a[1..]), BlockTxs(b));
    }
  }

  /** The posted batches recover to the frames of all closed blocks but the
      held ones, for every error-free run. */
  lemma PostedBlocksAreRecovered(cfg: BatcherConfig, accepts: Accepts, blocks: seq<ClosedBlock>, end: BatcherState,
                                 certs: seq<Bytes>, fetch: Bytes -> Outcome<Bytes>)
    requires ZstdSound(cfg.zstd)
    requires Run(cfg, accepts, BatcherState([], []), blocks) == (end, Ok(()))
    requires |certs| == |end.sent| && forall i :: 0 <= i < |certs| ==> fetch(certs[i]) == Ok(end.sent[i].payload)
    ensures |end.pending| == |blocks| % cfg.blocksPerBatch && |end.pending| <= |blocks|
    ensures end.pending == blocks[|blocks| - |end.pending|..]
    ensures RecoverBlocks(cfg.zstd, certs, fetch).Ok?
    ensures FramesCarry(RecoverBlocks(cfg.zstd, certs, fetch).value, blocks[..|blocks| - |end.pending|])
  {
    hide PackedAs;
    hide RecoverBlocks;
    hide FramesCarry;
    StartConserves(cfg);
    RunConserves(cfg, accepts, [], BatcherState([], []), blocks);
    assert [] + blocks == blocks;
    var posted := blocks[..|blocks| - |end.pending|];
    var groups :| PackedAs(cfg, posted, groups, end.sent);
    RecoversPackedBlocks(cfg, posted, groups, end.sent, certs, fetch);
  }

  /** A run of the batcher with no error: what the file reads as is walked,
      cut into blocks, batched and posted, and every posted batch can be
      fetched by its certificate. */
  ghost predicate PostedRun(
    items: seq<Outcome<OrderingRecord>>, indexes: Indexes, voided: set<BPosition>, stream: seq<ResolvedRecord>,
    open: Buffers, blocks: seq<ClosedBlock>, cfg: BatcherConfig, accepts: Accepts, end: BatcherState,
    certs: seq<Bytes>, fetch: Bytes -> Outcome<Bytes>)
  {
    && Collect(Walk(indexes, voided, items, 0)) == Ok(stream)
    && Feed(EMPTY, stream) == (open, blocks)
    && Run(cfg, accepts, BatcherState([], []), blocks) == (end, Ok(()))
    && |certs| == |end.sent|
    && forall i :: 0 <= i < |certs| ==> fetch(certs[i]) == Ok(end.sent[i].payload)
  }

  /** The recovered frames and the held blocks are the cut of the order, block
      by block: all but the last `count mod group` blocks are recovered, those
      are held, and what no marker closed is still open. */
  ghost predicate RecoversTheCut(indexes: Indexes, recs: seq<OrderingRecord>, group: positive, frames: seq<BlockFrame>,
                                 pending: seq<ClosedBlock>, open: Buffers)
  {
    var cut := Cut(indexes, recs);
    var m := |cut| - |cut| % group;
    && 0 <= m <= |cut|
    && FramesCarry(frames, cut[..m])
    && pending == cut[m..]
    && open == OpenBlock(indexes, recs)
  }

  /** So what is recovered, followed by what is held and open, holds the
      unvoided transactions and the remote epochs of the order, once each and
      in order, in one block for each of its markers. */
  lemma EveryRecordOnce(indexes: Indexes, recs: seq<OrderingRecord>, group: positive, frames: seq<BlockFrame>,
                        pending: seq<ClosedBlock>, open: Buffers)
    requires RecoversTheCut(indexes, recs, group, frames, pending, open)
    ensures
      var sent, all := FrameTxs(frames), LiveTxs(indexes, recs, 0, |recs|);
      && |sent| <= |all| && BlockTxs(pending) + open.txs == all[|sent|..]
      && forall i :: 0 <= i < |sent| ==> TxFrameCarries(sent[i], all[i].envelope)
    ensures FrameEpochs(frames) + (BlockEpochs(pending) + open.epochs) == OrderedEpochs(recs, 0, |recs|)
    ensures |frames| + |pending| == |OrderedMarkers(recs, 0, |recs|)|
  {
    hide Cut;
    hide OpenBlock;
    hide FrameOf;
    hide FrameOfTx;
    hide FrameTxs;
    hide FrameEpochs;
    hide BlockTxs;
    hide BlockEpochs;
    hide LiveTxs;
    hide OrderedEpochs;
    hide OrderedMarkers;
    hide FramesCarry;
    hide TxFrameCarries;
    var cut := Cut(indexes, recs);
    var posted := cut[..|cut| - |cut| % group];
    CutHoldsTheOrder(indexes, recs);
    FrameCount(frames, posted);
    assert cut == posted + pending;
    CarriedAreBuilt(frames, posted);
    FramesHoldBlockEpochs(posted);
    BlockEpochsAppend(posted, pending);
    BlockTxsAppend(posted, pending);
    FramesHoldBlockTxs(posted);
    Assoc(BlockTxs(posted), BlockTxs(pending), open.txs);
    forall i | 0 <= i < |FrameTxs(frames)| ensures TxFrameCarries(FrameTxs(frames)[i], BlockTxs(posted)[i].envelope) {
      BuiltTxCarries(BlockTxs(posted)[i]);
    }
  }

  lemma FrameCount(frames: seq<BlockFrame>, blocks: seq<ClosedBlock>)
    requires FramesCarry(frames, blocks)
    ensures |frames| == |blocks|
  {
  }

  lemma BuiltTxCarries(t: RecordedTx)
    ensures TxFrameCarries(FrameOfTx(t), t.envelope)
  {
  }

  /** The fields of a recovered block, against the order: the header of its
      marker, and the transactions and epochs since the marker before it. */
  ghost predicate FrameOfMarker(f: BlockFrame, b: BlockBoundaryStart, held: Buffers) {
    && f.blockNumber == b.blockNumber && f.l2Timestamp == b.l2Timestamp
    && f.cursor.Some? && f.cursor.value.endTxIdx == b.endTxIdx.AsIndex() && f.cursor.value.l1Origin == b.l1Origin
    && f.remoteEpochs == held.epochs
    && |f.txs| == |held.txs| && forall i :: 0 <= i < |held.txs| ==> TxFrameCarries(f.txs[i], held.txs[i].envelope)
  }

  /** Each marker's block, field by field, recovered or still held. */
  lemma RecoveredBlockOfMarker(indexes: Indexes, recs: seq<OrderingRecord>, group: positive, frames: seq<BlockFrame>,
                               pending: seq<ClosedBlock>, open: Buffers, start: nat, m: nat)
    requires RecoversTheCut(indexes, recs, group, frames, pending, open)
    requires start <= m < |recs| && IsMarker(recs[m]) && (start == 0 || IsMarker(recs[start - 1]))
    requires forall k :: start <= k < m ==> !IsMarker(recs[k])
    ensures
      var k, b, held := |OrderedMarkers(recs, 0, m)|, recs[m].value.boundary, Between(indexes, recs, start, m);
      && k < |frames| + |pending|
      && (k < |frames| ==> FrameOfMarker(frames[k], b, held))
      && (k >= |frames| ==>
            var block := pending[k - |frames|];
            ClosedBy(block, b) && block.txs == held.txs && block.remoteEpochs == held.epochs)
  {
    hide Cut;
    hide OpenBlock;
    hide Between;
    hide OrderedMarkers;
    var cut, k := Cut(indexes, recs), |OrderedMarkers(recs, 0, m)|;
    BlockOfMarker(indexes, recs, start, m);
    if k < |frames| {
      assert FrameCarries(frames[k], cut[k]);
    }
  }

  /** The whole path, for every ordering file that reads as `recs`. */
  lemma NothingLostEndToEnd(
    rkyv: Rkyv<TxOrderingMessage>, file: Bytes, recs: seq<OrderingRecord>, indexes: Indexes, voided: set<BPosition>,
    stream: seq<ResolvedRecord>, open: Buffers, blocks: seq<ClosedBlock>, cfg: BatcherConfig, accepts: Accepts,
    end: BatcherState, certs: seq<Bytes>, fetch: Bytes -> Outcome<Bytes>)
    requires Items(rkyv, file, 0) == AllOk(recs) && DistinctPositions(recs) && ZstdSound(cfg.zstd)
    requires forall p :: p in voided <==> Removed(recs, |recs|, p)
    requires PostedRun(Items(rkyv, file, 0), indexes, voided, stream, open, blocks, cfg, accepts, end, certs, fetch)
    ensures AllResolve(indexes, recs, 0)
    ensures RecoverBlocks(cfg.zstd, certs, fetch).Ok?
    ensures RecoversTheCut(indexes, recs, cfg.blocksPerBatch, RecoverBlocks(cfg.zstd, certs, fetch).value, end.pending,
                           open)
  {
    hide RecoverBlocks;
    hide Run;
    hide Items;
    hide Removed;
    hide Walk;
    hide Feed;
    hide AllResolve;
    hide Reference;
    hide FramesCarry;
    hide Between;
    hide BlocksFrom;
    WalkIsReference(indexes, recs, voided, 0);
    StreamExistsIff(indexes, recs, 0);
    NothingBetween(indexes, recs, 0);
    FeedIsTheCut(indexes, recs, 0, 0);
    PostedBlocksAreRecovered(cfg, accepts, blocks, end, certs, fetch);
  }

  /** An ordering file torn at any byte is posted as the order of the records
      whose frames the cut left whole. Against the order that was written, its
      transactions are a prefix exactly when the tear lost no void of a ref
      that was kept. */
  lemma TornFilePostsItsPrefix(
    rkyv: Rkyv<TxOrderingMessage>, recs: seq<OrderingRecord>, cut: nat, n: nat, indexes: Indexes,
    voided: set<BPosition>, stream: seq<ResolvedRecord>, open: Buffers, blocks: seq<ClosedBlock>, cfg: BatcherConfig,
    accepts: Accepts, end: BatcherState, certs: seq<Bytes>, fetch: Bytes -> Outcome<Bytes>)
    requires Sound(rkyv) && AllFit(rkyv, recs) && DistinctPositions(recs) && ZstdSound(cfg.zstd)
    requires cut <= |SegmentBytes(rkyv, recs)| && n <= |recs|
    requires forall k :: 0 <= k < n ==> FrameEnd(rkyv, recs, k) <= cut
    requires n < |recs| ==> cut < FrameEnd(rkyv, recs, n)
    requires forall p :: p in voided <==> Removed(recs[..n], n, p)
    requires PostedRun(Items(rkyv, SegmentBytes(rkyv, recs)[..cut], 0), indexes, voided, stream, open, blocks, cfg,
                       accepts, end, certs, fetch)
    ensures RecoverBlocks(cfg.zstd, certs, fetch).Ok?
    ensures RecoversTheCut(indexes, recs[..n], cfg.blocksPerBatch, RecoverBlocks(cfg.zstd, certs, fetch).value,
                           end.pending, open)
    ensures LiveTxs(indexes, recs[..n], 0, n) <= LiveTxs(indexes, recs, 0, |recs|) <==> !LosesVoid(recs, n)
  {
    hide RecoverBlocks;
    hide PostedRun;
    hide RecoversTheCut;
    hide Items;
    hide SegmentBytes;
    hide Removed;
    hide AllResolve;
    hide LiveTxs;
    hide LosesVoid;
    CutKeepsWholeFrames(rkyv, recs, cut, n);
    NothingLostEndToEnd(rkyv, SegmentBytes(rkyv, recs)[..cut], recs[..n], indexes, voided, stream, open, blocks, cfg,
                        accepts, end, certs, fetch);
    TornIsPrefixIff(indexes, recs, n);
  }
}
