/** Packing closed blocks into posted batches under the payload ceiling.
    zstd and the records commitment are parameters of the configuration. */
module Packer {
  import opened Wrappers
  import opened Bytes
  import opened Errors
  import opened Kar1
  import opened Kar1Laws
  import opened Records
  import opened Seqs

  type positive = n: nat | n > 0 witness 1

  /** The compressor: `compress` may fail or grow its input. */
  datatype Zstd = Zstd(compress: Bytes -> Option<Bytes>, decompress: Bytes -> Option<Bytes>) {
    function EncodeZstd(b: Bytes): Outcome<Bytes> {
      match compress(b)
      case Some(z) => Ok(z)
      case None => Err(Compress)
    }

    function DecodeZstd(z: Bytes): Outcome<Bytes> {
      match decompress(z)
      case Some(b) => Ok(b)
      case None => Err(Compress)
    }
  }

  datatype BatcherConfig = BatcherConfig(
    blocksPerBatch: positive, compress: bool, maxPayloadBytes: positive,
    zstd: Zstd, commitment: seq<ClosedBlock> -> B256)

  datatype PostedBatch = PostedBatch(
    payload: Bytes, l2BlockStart: u64, l2BlockEnd: u64, recordsCommitment: B256)

  function FrameOfTx(t: RecordedTx): TxFrame {
    TxFrame(t.envelope.correlationId, t.envelope.sender, t.envelope.txHash, t.envelope.rawTx)
  }

  function FrameOf(b: ClosedBlock): BlockFrame {
    BlockFrame(b.blockNumber, b.l2Timestamp, Some(BlockCursor(b.endTxIdx.AsIndex(), b.l1Origin)),
               b.remoteEpochs, Map(FrameOfTx, b.txs))
  }

  function BuildPayload(blocks: seq<ClosedBlock>): Kar1Payload {
    Kar1Payload(Map(FrameOf, blocks), false)
  }

  /** The frame of a transaction: these four fields of its envelope. */
  predicate TxFrameCarries(f: TxFrame, env: TxEnvelope) {
    f.correlationId == env.correlationId && f.sender == env.sender && f.txHash == env.txHash && f.rawTx == env.rawTx
  }

  /** The frame of a block: its header, its cursor, its epochs, and the frames
      of its transactions in order. */
  ghost predicate FrameCarries(f: BlockFrame, b: ClosedBlock) {
    && f.blockNumber == b.blockNumber && f.l2Timestamp == b.l2Timestamp
    && f.cursor.Some? && f.cursor.value.endTxIdx == b.endTxIdx.AsIndex() && f.cursor.value.l1Origin == b.l1Origin
    && f.remoteEpochs == b.remoteEpochs
    && |f.txs| == |b.txs| && forall i :: 0 <= i < |b.txs| ==> TxFrameCarries(f.txs[i], b.txs[i].envelope)
  }

  ghost predicate FramesCarry(frames: seq<BlockFrame>, blocks: seq<ClosedBlock>) {
    |frames| == |blocks| && forall i :: 0 <= i < |blocks| ==> FrameCarries(frames[i], blocks[i])
  }

  /** Those fields are all there is. */
  lemma CarriedAreBuilt(frames: seq<BlockFrame>, blocks: seq<ClosedBlock>)
    requires FramesCarry(frames, blocks)
    ensures frames == Map(FrameOf, blocks)
  {
    forall i | 0 <= i < |blocks| ensures frames[i] == FrameOf(blocks[i]) {
      assert FrameCarries(frames[i], blocks[i]);
      assert frames[i].txs == Map(FrameOfTx, blocks[i].txs) by {
        forall k | 0 <= k < |blocks[i].txs| ensures frames[i].txs[k] == FrameOfTx(blocks[i].txs[k]) {
          assert TxFrameCarries(frames[i].txs[k], blocks[i].txs[k].envelope);
        }
      }
    }
  }

  lemma BuiltFramesCarry(blocks: seq<ClosedBlock>)
    ensures FramesCarry(Map(FrameOf, blocks), blocks)
    ensures BuildPayload(blocks).blocks == Map(FrameOf, blocks) && !BuildPayload(blocks).compressed
  {
    var frames := Map(FrameOf, blocks);
    forall i | 0 <= i < |blocks| ensures FrameCarries(frames[i], blocks[i]) {
    }
  }

  function PackBlocks(cfg: BatcherConfig, blocks: seq<ClosedBlock>): Outcome<PostedBatch> {
    if blocks == [] then Err(Frame(ZeroBlocks)) else
      var framed :- Encode(BuildPayload(blocks));
      var toPack :- if cfg.compress then cfg.zstd.EncodeZstd(framed) else Ok(framed);
      if |toPack| > cfg.maxPayloadBytes then
        if |blocks| == 1 then Err(BlockTooLarge(blocks[0].blockNumber, |toPack|, cfg.maxPayloadBytes))
        else Err(Payload(|toPack|, cfg.maxPayloadBytes))
      else
        Ok(PostedBatch(toPack, blocks[0].blockNumber, blocks[|blocks| - 1].blockNumber, cfg.commitment(blocks)))
  }

  /** A batch names the first and the last block of its group, commits to the
      group, and carries the group's encoding, through the compressor when that
      is on. */
  ghost predicate Describes(cfg: BatcherConfig, group: seq<ClosedBlock>, batch: PostedBatch) {
    && group != []
    && batch.l2BlockStart == group[0].blockNumber && batch.l2BlockEnd == group[|group| - 1].blockNumber
    && batch.recordsCommitment == cfg.commitment(group)
    && Encode(BuildPayload(group)).Ok?
    && (if cfg.compress then cfg.zstd.compress(Encode(BuildPayload(group)).value) == Some(batch.payload)
        else batch.payload == Encode(BuildPayload(group)).value)
  }

  lemma BatchDescribesItsGroup(cfg: BatcherConfig, group: seq<ClosedBlock>)
    requires PackBlocks(cfg, group).Ok?
    ensures Describes(cfg, group, PackBlocks(cfg, group).value)
  {
    hide Encode;
  }

  /** Why a group that encodes does not pack: the compressor failed, or the
      payload is over the ceiling, by its size. */
  lemma PackErrors(cfg: BatcherConfig, group: seq<ClosedBlock>, payload: Bytes)
    requires group != [] && Encode(BuildPayload(group)).Ok?
    ensures cfg.compress && cfg.zstd.compress(Encode(BuildPayload(group)).value).None? ==>
              PackBlocks(cfg, group) == Err(Compress)
    ensures (if cfg.compress then cfg.zstd.compress(Encode(BuildPayload(group)).value) == Some(payload)
             else payload == Encode(BuildPayload(group)).value)
            && |payload| > cfg.maxPayloadBytes ==>
              PackBlocks(cfg, group).Err? &&
              match PackBlocks(cfg, group).error
              case BlockTooLarge(number, bytes, ceiling) =>
                |group| == 1 && number == group[0].blockNumber && bytes == |payload| && ceiling == cfg.maxPayloadBytes
              case Payload(bytes, ceiling) => |group| > 1 && bytes == |payload| && ceiling == cfg.maxPayloadBytes
              case _ => false
  {
    hide Encode;
  }

  lemma NoBlocksNoBatch(cfg: BatcherConfig, group: seq<ClosedBlock>)
    requires group != [] ==> Encode(BuildPayload(group)).Err?
    ensures PackBlocks(cfg, group) ==
              if group == [] then Err(Frame(ZeroBlocks)) else Err(Encode(BuildPayload(group)).error)
  {
    hide Encode;
  }

  /** A batch and the length of the prefix it packs. */
  type Found = (PostedBatch, nat)

  ghost predicate InRange(found: Found, blocks: seq<ClosedBlock>) {
    1 <= found.1 <= |blocks|
  }

  /** The bisection on the prefix length: `lo` fits with its batch in `best`,
      `hi` overflows. */
  function Bisect(cfg: BatcherConfig, blocks: seq<ClosedBlock>, best: Option<Found>, lo: nat, hi: nat)
    : (r: Outcome<Option<Found>>)
    requires lo < hi <= |blocks| && (best.Some? ==> InRange(best.value, blocks))
    ensures r.Ok? && r.value.Some? ==> InRange(r.value.value, blocks)
    decreases hi - lo
  {
    if hi - lo <= 1 then Ok(best) else
      var mid := (lo + hi) / 2;
      match PackBlocks(cfg, blocks[..mid])
      case Ok(batch) => Bisect(cfg, blocks, Some((batch, mid)), mid, hi)
      case Err(e) => if e.IsPayloadOverflow() then Bisect(cfg, blocks, best, lo, mid) else Err(e)
  }

  function PackLargestPrefix(cfg: BatcherConfig, blocks: seq<ClosedBlock>): (r: Outcome<Found>)
    requires blocks != []
    ensures r.Ok? ==> InRange(r.value, blocks)
  {
    match PackBlocks(cfg, blocks)
    case Ok(batch) => Ok((batch, |blocks|))
    case Err(e) =>
      if !e.IsPayloadOverflow() then Err(e) else
        var best :- Bisect(cfg, blocks, None, 0, |blocks|);
        match best
        case Some(found) => Ok(found)
        case None =>
          var batch :- PackBlocks(cfg, blocks[..1]);
          Ok((batch, 1))
  }

  function PackBlockGroups(cfg: BatcherConfig, blocks: seq<ClosedBlock>): Outcome<seq<PostedBatch>>
    decreases |blocks|
  {
    if blocks == [] then Ok([]) else
      var (batch, taken) :- PackLargestPrefix(cfg, blocks);
      var rest :- PackBlockGroups(cfg, blocks[taken..]);
      Ok([batch] + rest)
  }

  // ----- what the search finds, for any size function

  ghost predicate Overflows(r: Outcome<PostedBatch>) {
    r.Err? && r.error.IsPayloadOverflow()
  }

  /** Only a group of two blocks or more overflows; one block alone is
      `BlockTooLarge`. A packed batch is within the ceiling. */
  lemma PackBlocksFacts(cfg: BatcherConfig, blocks: seq<ClosedBlock>)
    ensures Overflows(PackBlocks(cfg, blocks)) ==> |blocks| >= 2
    ensures PackBlocks(cfg, blocks).Ok? ==>
              blocks != [] && |PackBlocks(cfg, blocks).value.payload| <= cfg.maxPayloadBytes
  {
    hide Encode;
    EncodeErrorIsFrame(BuildPayload(blocks));
  }

  /** The prefix a search settles on packs, and one block more overflows. */
  ghost predicate Settled(cfg: BatcherConfig, blocks: seq<ClosedBlock>, found: Found) {
    && InRange(found, blocks)
    && PackBlocks(cfg, blocks[..found.1]) == Ok(found.0)
    && (found.1 < |blocks| ==> Overflows(PackBlocks(cfg, blocks[..found.1 + 1])))
  }

  /** An error the packing of some prefix answered, not an overflow. */
  ghost predicate PrefixError(cfg: BatcherConfig, blocks: seq<ClosedBlock>, e: BatcherError) {
    !e.IsPayloadOverflow() && exists k :: 1 <= k <= |blocks| && PackBlocks(cfg, blocks[..k]) == Err(e)
  }

  lemma {:induction false} BisectSettles(cfg: BatcherConfig, blocks: seq<ClosedBlock>, best: Option<Found>, lo: nat, hi: nat)
    requires lo < hi <= |blocks| && Overflows(PackBlocks(cfg, blocks[..hi]))
    requires if lo == 0 then best == None
             else best.Some? && best.value.1 == lo && PackBlocks(cfg, blocks[..lo]) == Ok(best.value.0)
    ensures
      var r := Bisect(cfg, blocks, best, lo, hi);
      if r.Ok? then r.value.Some? && Settled(cfg, blocks, r.value.value) else PrefixError(cfg, blocks, r.error)
    decreases hi - lo
  {
    hide PackBlocks;
    PackBlocksFacts(cfg, blocks[..hi]);
    if hi - lo > 1 {
      var mid := (lo + hi) / 2;
      match PackBlocks(cfg, blocks[..mid])
      case Ok(batch) => BisectSettles(cfg, blocks, Some((batch, mid)), mid, hi);
      case Err(e) =>
        if e.IsPayloadOverflow() {
          BisectSettles(cfg, blocks, best, lo, mid);
        }
    }
  }

  /** The arm for an empty search is dead, and the prefix taken is maximal in
      the sense the bisection can see. */
  lemma LargestPrefixSettles(cfg: BatcherConfig, blocks: seq<ClosedBlock>)
    requires blocks != []
    ensures Overflows(PackBlocks(cfg, blocks)) ==> Bisect(cfg, blocks, None, 0, |blocks|) != Ok(None)
    ensures
      var r := PackLargestPrefix(cfg, blocks);
      if r.Ok? then Settled(cfg, blocks, r.value) else PrefixError(cfg, blocks, r.error)
  {
    hide PackBlocks;
    assert blocks[..|blocks|] == blocks;
    if Overflows(PackBlocks(cfg, blocks)) {
      BisectSettles(cfg, blocks, None, 0, |blocks|);
    }
  }

  /** `batches` packs `groups`, which cut `blocks` into non-empty runs. */
  ghost predicate PackedAs(cfg: BatcherConfig, blocks: seq<ClosedBlock>, groups: seq<seq<ClosedBlock>>,
                           batches: seq<PostedBatch>)
  {
    && Flatten(groups) == blocks
    && |groups| == |batches|
    && forall i :: 0 <= i < |groups| ==> groups[i] != [] && PackBlocks(cfg, groups[i]) == Ok(batches[i])
  }

  function Groups(cfg: BatcherConfig, blocks: seq<ClosedBlock>): seq<seq<ClosedBlock>>
    decreases |blocks|
  {
    if blocks == [] then [] else
      match PackLargestPrefix(cfg, blocks)
      case Ok((_, taken)) => [blocks[..taken]] + Groups(cfg, blocks[taken..])
      case Err(_) => []
  }

  /** Nothing is lost, reordered or over the ceiling. */
  lemma {:induction false} PackedGroupsAreTheBlocks(cfg: BatcherConfig, blocks: seq<ClosedBlock>)
    requires PackBlockGroups(cfg, blocks).Ok?
    ensures PackedAs(cfg, blocks, Groups(cfg, blocks), PackBlockGroups(cfg, blocks).value)
    ensures forall batch :: batch in PackBlockGroups(cfg, blocks).value ==> |batch.payload| <= cfg.maxPayloadBytes
    ensures |Groups(cfg, blocks)| == |PackBlockGroups(cfg, blocks).value|
            && forall i :: 0 <= i < |Groups(cfg, blocks)| ==>
                 Describes(cfg, Groups(cfg, blocks)[i], PackBlockGroups(cfg, blocks).value[i])
    decreases |blocks|
  {
    hide PackBlocks;
    hide Describes;
    if blocks != [] {
      LargestPrefixSettles(cfg, blocks);
      var (batch, taken) := PackLargestPrefix(cfg, blocks).value;
      PackBlocksFacts(cfg, blocks[..taken]);
      BatchDescribesItsGroup(cfg, blocks[..taken]);
      PackedGroupsAreTheBlocks(cfg, blocks[taken..]);
      assert blocks == blocks[..taken] + blocks[taken..];
      assert Groups(cfg, blocks) == [blocks[..taken]] + Groups(cfg, blocks[taken..]);
      assert Groups(cfg, blocks)[1..] == Groups(cfg, blocks[taken..]);
    }
  }

  /** The packing of every run of `blocks` either fits or overflows, so every
      single block fits. */
  ghost predicate Packable(cfg: BatcherConfig, blocks: seq<ClosedBlock>) {
    forall i, j :: 0 <= i < j <= |blocks| ==>
      PackBlocks(cfg, blocks[i..j]).Ok? || Overflows(PackBlocks(cfg, blocks[i..j]))
  }

  lemma PackableSuffix(cfg: BatcherConfig, blocks: seq<ClosedBlock>, k: nat)
    requires k <= |blocks| && Packable(cfg, blocks)
    ensures Packable(cfg, blocks[k..])
  {
    hide PackBlocks;
    forall i, j | 0 <= i < j <= |blocks| - k
      ensures PackBlocks(cfg, blocks[k..][i..j]).Ok? || Overflows(PackBlocks(cfg, blocks[k..][i..j]))
    {
      assert blocks[k..][i..j] == blocks[k + i..k + j];
    }
  }

  /** Blocks whose runs fit or overflow always pack, however the size function
      behaves. */
  lemma {:induction false} PackableSucceeds(cfg: BatcherConfig, blocks: seq<ClosedBlock>)
    requires Packable(cfg, blocks)
    ensures PackBlockGroups(cfg, blocks).Ok?
    decreases |blocks|
  {
    hide PackBlocks;
    if blocks != [] {
      LargestPrefixSettles(cfg, blocks);
      forall k | 1 <= k <= |blocks| ensures blocks[..k] == blocks[0..k] {
      }
      var taken := PackLargestPrefix(cfg, blocks).value.1;
      PackableSuffix(cfg, blocks, taken);
      PackableSucceeds(cfg, blocks[taken..]);
    }
  }

  /** An error is the error of some run of the blocks, and a `BlockTooLarge`
      names a block that overflows the ceiling alone. */
  lemma {:induction false} PackErrorIsOfARun(cfg: BatcherConfig, blocks: seq<ClosedBlock>)
    requires PackBlockGroups(cfg, blocks).Err?
    ensures exists i, j :: 0 <= i < j <= |blocks| && PackBlocks(cfg, blocks[i..j]) == Err(PackBlockGroups(cfg, blocks).error)
    ensures !PackBlockGroups(cfg, blocks).error.IsPayloadOverflow()
    decreases |blocks|
  {
    hide PackBlocks;
    LargestPrefixSettles(cfg, blocks);
    var e := PackBlockGroups(cfg, blocks).error;
    if PackLargestPrefix(cfg, blocks).Err? {
      var k :| 1 <= k <= |blocks| && PackBlocks(cfg, blocks[..k]) == Err(e);
      assert blocks[..k] == blocks[0..k];
    } else {
      var taken := PackLargestPrefix(cfg, blocks).value.1;
      PackErrorIsOfARun(cfg, blocks[taken..]);
      var i, j :| 0 <= i < j <= |blocks| - taken && PackBlocks(cfg, blocks[taken..][i..j]) == Err(e);
      assert blocks[taken..][i..j] == blocks[taken + i..taken + j];
    }
  }

  lemma TooLargeBlockIsTooLarge(cfg: BatcherConfig, blocks: seq<ClosedBlock>)
    requires PackBlockGroups(cfg, blocks).Err? && PackBlockGroups(cfg, blocks).error.BlockTooLarge?
    ensures exists b :: b in blocks && PackBlocks(cfg, [b]) == Err(PackBlockGroups(cfg, blocks).error)
                        && b.blockNumber == PackBlockGroups(cfg, blocks).error.blockNumber
  {
    PackErrorIsOfARun(cfg, blocks);
    var e := PackBlockGroups(cfg, blocks).error;
    var i, j :| 0 <= i < j <= |blocks| && PackBlocks(cfg, blocks[i..j]) == Err(e);
    TooLargeIsSingle(cfg, blocks[i..j]);
    assert blocks[i] in blocks && blocks[i..j] == [blocks[i]];
  }

  lemma TooLargeIsSingle(cfg: BatcherConfig, group: seq<ClosedBlock>)
    requires PackBlocks(cfg, group).Err? && PackBlocks(cfg, group).error.BlockTooLarge?
    ensures |group| == 1 && PackBlocks(cfg, group).error.blockNumber == group[0].blockNumber
  {
    hide Encode;
    EncodeErrorIsFrame(BuildPayload(group));
  }
}
