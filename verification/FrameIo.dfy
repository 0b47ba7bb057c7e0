/** The KAR1 buffer under construction and the cursor over a received buffer,
    each proved to follow the codec functions of `Kar1`. */
module FrameIo {
  import opened Wrappers
  import opened Bytes
  import opened Errors
  import opened Kar1
  import opened Kar1Laws
  import opened Seqs

  /** A write answered `r` and took the buffer from `before` to `after`, as
      `spec` says. A failed write leaves what it wrote before the failure. */
  ghost predicate Writes(spec: Outcome<Bytes>, before: Bytes, after: Bytes, r: Outcome<()>) {
    && before <= after
    && match spec
       case Ok(bytes) => r == Ok(()) && after == before + bytes
       case Err(e) => r == Err(e)
  }

  /** Appending `rest` to `out` still gives what appending `whole` to `start`
      gives. */
  ghost predicate Remaining(whole: Outcome<Bytes>, start: Bytes, out: Bytes, rest: Outcome<Bytes>) {
    && start <= out
    && match rest
       case Ok(bytes) => whole.Ok? && start + whole.value == out + bytes
       case Err(e) => whole == Err(e)
  }

  lemma RemainingStep<T>(enc: Encoder<T>, xs: seq<T>, i: nat, start: Bytes, out: Bytes)
    requires i < |xs| && Remaining(EncodeAll(enc, xs), start, out, EncodeAll(enc, xs[i..]))
    ensures match enc(xs[i])
            case Ok(bytes) => Remaining(EncodeAll(enc, xs), start, out + bytes, EncodeAll(enc, xs[i + 1..]))
            case Err(e) => EncodeAll(enc, xs) == Err(e)
  {
    assert xs[i..][1..] == xs[i + 1..];
    if enc(xs[i]).Ok? && EncodeAll(enc, xs[i + 1..]).Ok? {
      Assoc(out, enc(xs[i]).value, EncodeAll(enc, xs[i + 1..]).value);
    }
  }

  /** Five appends in a row append the five parts together. */
  lemma Appended5(s: Bytes, a: Bytes, b: Bytes, c: Bytes, d: Bytes, e: Bytes)
    ensures ((((s + a) + b) + c) + d) + e == s + (a + (b + (c + (d + e))))
  {
    Assoc(s, a, b + (c + (d + e)));
    Assoc(s + a, b, c + (d + e));
    Assoc((s + a) + b, c, d + e);
    Assoc(((s + a) + b) + c, d, e);
  }

  lemma MessageAppended(s: Bytes, m: XChainMessage)
    requires EncodeMessage(m).Ok?
    ensures ((((((((((s + m.sourceHash) + Le(8, m.seqNo)) + m.originSender) + m.target) + Le(16, m.value))
            + Le(8, m.gasLimit)) + [m.hops]) + Le(4, |m.input|)) + m.input) + CallbackBytes(m.callback))
            == s + EncodeMessage(m).value
  {
    var (v, l, cb) := (Le(16, m.value), Le(4, |m.input|), CallbackBytes(m.callback));
    var mid := ((((s + m.sourceHash) + Le(8, m.seqNo)) + m.originSender) + m.target) + v;
    var tail := Le(8, m.gasLimit) + ([m.hops] + (l + (m.input + cb)));
    Appended5(mid, Le(8, m.gasLimit), [m.hops], l, m.input, cb);
    Appended5(s, m.sourceHash, Le(8, m.seqNo), m.originSender, m.target, v + tail);
    Assoc((((s + m.sourceHash) + Le(8, m.seqNo)) + m.originSender) + m.target, v, tail);
  }

  lemma CallbackAppended(s: Bytes, cb: Callback)
    ensures (((s + [1]) + cb.target) + Le(8, cb.gasLimit)) + cb.context == s + CallbackBytes(Some(cb))
  {
    Appended5(s, [], [1], cb.target, Le(8, cb.gasLimit), cb.context);
    assert s + [] == s && [] + CallbackBytes(Some(cb)) == CallbackBytes(Some(cb));
  }

  function EpochHeaderBytes(rec: RemoteEpochRecord, count: Bytes): Bytes {
    Le(8, rec.originChainId) + (Le(8, rec.anchorNumber) + (rec.anchorHash + (Le(8, rec.firstSeq) + count)))
  }

  lemma EpochAppended(s: Bytes, rec: RemoteEpochRecord)
    requires EncodeRemoteEpoch(rec).Ok?
    ensures (s + EpochHeaderBytes(rec, Le(4, |rec.messages.Items()|))) + EncodeAll(EncodeMessage, rec.messages.Items()).value
            == s + EncodeRemoteEpoch(rec).value
  {
    hide EncodeMessage;
    var count, messages := Le(4, |rec.messages.Items()|), EncodeAll(EncodeMessage, rec.messages.Items()).value;
    Assoc7([], [], Le(8, rec.originChainId), Le(8, rec.anchorNumber), rec.anchorHash, Le(8, rec.firstSeq), count, messages);
    assert forall b: Bytes :: [] + b == b;
    Assoc(s, EpochHeaderBytes(rec, count), messages);
  }

  function BlockHeaderBytes(block: BlockFrame, epochCount: Bytes): Bytes {
    Le(8, block.blockNumber) + (Le(8, block.l2Timestamp) + (CursorBytes(block.cursor) + epochCount))
  }

  lemma BlockAppended(s: Bytes, block: BlockFrame)
    requires EncodeBlock(block).Ok?
    ensures
      var epochs, txs := EncodeAll(EncodeRemoteEpoch, block.remoteEpochs).value, EncodeAll(EncodeTx, block.txs).value;
      (((s + BlockHeaderBytes(block, Le(4, |block.remoteEpochs|))) + epochs) + Le(4, |block.txs|)) + txs
      == s + EncodeBlock(block).value
  {
    var epochs, txs := EncodeAll(EncodeRemoteEpoch, block.remoteEpochs).value, EncodeAll(EncodeTx, block.txs).value;
    var count := Le(4, |block.remoteEpochs|);
    var header, tail := BlockHeaderBytes(block, count), epochs + (Le(4, |block.txs|) + txs);
    Appended5(s, [], header, epochs, Le(4, |block.txs|), txs);
    assert s + [] == s && [] + (header + tail) == header + tail;
    Assoc7([], [], [], Le(8, block.blockNumber), Le(8, block.l2Timestamp), CursorBytes(block.cursor), count, tail);
    assert forall b: Bytes :: [] + b == b;
  }

  class FrameWriter {
    var out: Bytes

    constructor ()
      ensures out == []
    {
      out := [];
    }

    method Tx(tx: TxFrame) returns (r: Outcome<()>)
      modifies this
      ensures Writes(EncodeTx(tx), old(out), out, r)
    {
      var rawLen :- LenWord("raw_tx_len", |tx.rawTx|);
      out := out + Le(8, tx.correlationId);
      out := out + tx.sender;
      out := out + tx.txHash;
      out := out + rawLen;
      out := out + tx.rawTx;
      return Ok(());
    }

    method XChainMessage(m: XChainMessage) returns (r: Outcome<()>)
      modifies this
      ensures Writes(EncodeMessage(m), old(out), out, r)
    {
      var inputLen :- LenWord("input_len", |m.input|);
      out := out + m.sourceHash;
      out := out + Le(8, m.seqNo);
      out := out + m.originSender;
      out := out + m.target;
      out := out + Le(16, m.value);
      out := out + Le(8, m.gasLimit);
      out := out + [m.hops];
      out := out + inputLen;
      out := out + m.input;
      MessageAppended(old(out), m);
      CallbackField(m.callback);
      return Ok(());
    }

    method CallbackField(callback: Option<Callback>)
      modifies this
      ensures out == old(out) + CallbackBytes(callback)
    {
      match callback {
        case None =>
          out := out + [0];
        case Some(cb) =>
          out := out + [1];
          out := out + cb.target;
          out := out + Le(8, cb.gasLimit);
          out := out + cb.context;
          CallbackAppended(old(out), cb);
      }
    }

    method RemoteEpoch(rec: RemoteEpochRecord) returns (r: Outcome<()>)
      modifies this
      ensures Writes(EncodeRemoteEpoch(rec), old(out), out, r)
    {
      var messages := rec.messages.Items();
      var count :- LenWord("msg_count", |messages|);
      EpochHeader(rec, count);
      var _ :- Messages(messages);
      EpochAppended(old(out), rec);
      return Ok(());
    }

    method EpochHeader(rec: RemoteEpochRecord, count: Bytes)
      modifies this
      ensures out == old(out) + EpochHeaderBytes(rec, count)
    {
      out := out + Le(8, rec.originChainId);
      out := out + Le(8, rec.anchorNumber);
      out := out + rec.anchorHash;
      out := out + Le(8, rec.firstSeq);
      out := out + count;
      Appended5(old(out), Le(8, rec.originChainId), Le(8, rec.anchorNumber), rec.anchorHash, Le(8, rec.firstSeq), count);
    }

    method Messages(messages: seq<XChainMessage>) returns (r: Outcome<()>)
      modifies this
      ensures Writes(EncodeAll(EncodeMessage, messages), old(out), out, r)
    {
      for i := 0 to |messages|
        invariant Remaining(EncodeAll(EncodeMessage, messages), old(out), out, EncodeAll(EncodeMessage, messages[i..]))
      {
        RemainingStep(EncodeMessage, messages, i, old(out), out);
        var _ :- XChainMessage(messages[i]);
      }
      return Ok(());
    }

    method Block(block: BlockFrame) returns (r: Outcome<()>)
      modifies this
      ensures Writes(EncodeBlock(block), old(out), out, r)
    {
      var txCount :- LenWord("tx_count", |block.txs|);
      var epochCount :- LenWord("remote_epoch_count", |block.remoteEpochs|);
      BlockHeader(block, epochCount);
      var _ :- RemoteEpochs(block.remoteEpochs);
      out := out + txCount;
      var _ :- Txs(block.txs);
      BlockAppended(old(out), block);
      return Ok(());
    }

    method BlockHeader(block: BlockFrame, epochCount: Bytes)
      modifies this
      ensures out == old(out) + BlockHeaderBytes(block, epochCount)
    {
      out := out + Le(8, block.blockNumber);
      out := out + Le(8, block.l2Timestamp);
      if block.cursor.Some? {
        out := out + Le(8, block.cursor.value.endTxIdx);
        out := out + Le(8, block.cursor.value.l1Origin);
      }
      out := out + epochCount;
    }

    method RemoteEpochs(recs: seq<RemoteEpochRecord>) returns (r: Outcome<()>)
      modifies this
      ensures Writes(EncodeAll(EncodeRemoteEpoch, recs), old(out), out, r)
    {
      for i := 0 to |recs|
        invariant Remaining(EncodeAll(EncodeRemoteEpoch, recs), old(out), out, EncodeAll(EncodeRemoteEpoch, recs[i..]))
      {
        RemainingStep(EncodeRemoteEpoch, recs, i, old(out), out);
        var _ :- RemoteEpoch(recs[i]);
      }
      return Ok(());
    }

    method Txs(txs: seq<TxFrame>) returns (r: Outcome<()>)
      modifies this
      ensures Writes(EncodeAll(EncodeTx, txs), old(out), out, r)
    {
      for i := 0 to |txs|
        invariant Remaining(EncodeAll(EncodeTx, txs), old(out), out, EncodeAll(EncodeTx, txs[i..]))
      {
        RemainingStep(EncodeTx, txs, i, old(out), out);
        var _ :- Tx(txs[i]);
      }
      return Ok(());
    }
  }

  lemma PayloadAppended(p: Kar1Payload, version: byte, start: Bytes, out: Bytes)
    requires |p.blocks| <= U32_MAX && VersionOf(p) == Ok(version)
    requires start == [] + (MAGIC + ([version] + ([FlagsOf(p.compressed)] + (Le(4, |p.blocks|) + Le(2, 0)))))
    requires Remaining(EncodeAll(EncodeBlock, p.blocks), start, out, Ok([]))
    ensures Encode(p) == Ok(out)
  {
    var blocks := EncodeAll(EncodeBlock, p.blocks).value;
    Assoc7([], [], MAGIC, [version], [FlagsOf(p.compressed)], Le(4, |p.blocks|), Le(2, 0), blocks);
    assert forall b: Bytes :: [] + b == b && b + [] == b;
  }

  /** The source's `encode`, through the writer. */
  method EncodePayload(p: Kar1Payload) returns (r: Outcome<Bytes>)
    ensures r == Encode(p)
  {
    var count :- LenWord("block_count", |p.blocks|);
    var enc := new FrameWriter();
    enc.out := enc.out + MAGIC;
    var version :- VersionOf(p);
    enc.out := enc.out + [version];
    enc.out := enc.out + [FlagsOf(p.compressed)];
    enc.out := enc.out + count;
    enc.out := enc.out + Le(2, 0);
    ghost var start := enc.out;
    Appended5([], MAGIC, [version], [FlagsOf(p.compressed)], count, Le(2, 0));
    for i := 0 to |p.blocks|
      invariant Remaining(EncodeAll(EncodeBlock, p.blocks), start, enc.out, EncodeAll(EncodeBlock, p.blocks[i..]))
    {
      RemainingStep(EncodeBlock, p.blocks, i, start, enc.out);
      var _ :- enc.Block(p.blocks[i]);
    }
    PayloadAppended(p, version, start, enc.out);
    return Ok(enc.out);
  }

  // ----- reading

  /** A read answered `r` and left the unread bytes `after`, as `spec` says. */
  ghost predicate Reads<T(!new)>(spec: Outcome<(T, Bytes)>, r: Outcome<T>, after: Bytes) {
    match spec
    case Ok((x, rest)) => r == Ok(x) && after == rest
    case Err(e) => r == Err(e)
  }

  /** Reading `left` more after `acc` still gives what `whole` gives. */
  ghost predicate Pending<T(!new)>(whole: Outcome<(seq<T>, Bytes)>, acc: seq<T>, left: Outcome<(seq<T>, Bytes)>) {
    match left
    case Ok((xs, rest)) => whole == Ok((acc + xs, rest))
    case Err(e) => whole == Err(e)
  }

  lemma PendingBounds<T(!new)>(whole: Outcome<(seq<T>, Bytes)>, acc: seq<T>, buf: Bytes)
    ensures Pending(whole, [], whole)
    ensures Pending(whole, acc, Ok(([], buf))) ==> whole == Ok((acc, buf))
  {
    assert acc + [] == acc;
    if whole.Ok? {
      assert [] + whole.value.0 == whole.value.0;
    }
  }

  lemma PendingStep<T(!new)>(dec: Decoder<T>, whole: Outcome<(seq<T>, Bytes)>, acc: seq<T>, n: nat, buf: Bytes)
    requires n > 0 && Pending(whole, acc, DecodeMany(dec, n, buf))
    ensures match dec(buf)
            case Ok((x, rest)) => Pending(whole, acc + [x], DecodeMany(dec, n - 1, rest))
            case Err(e) => whole == Err(e)
  {
    if dec(buf).Ok? {
      var (x, rest) := dec(buf).value;
      if DecodeMany(dec, n - 1, rest).Ok? {
        assert acc + ([x] + DecodeMany(dec, n - 1, rest).value.0) == (acc + [x]) + DecodeMany(dec, n - 1, rest).value.0;
      }
    }
  }

  class Reader {
    var buf: Bytes

    constructor (bytes: Bytes)
      ensures buf == bytes
    {
      buf := bytes;
    }

    method ReadBytes(n: nat) returns (r: Outcome<Bytes>)
      modifies this
      ensures Reads(Take(n, old(buf)), r, buf)
    {
      if n > |buf| {
        return Err(Frame(ShortRead(n, |buf|)));
      }
      r := Ok(buf[..n]);
      buf := buf[n..];
    }

    /** The source's `read_u8` to `read_u128`: a little-endian word. */
    method ReadWord(w: nat) returns (r: Outcome<nat>)
      modifies this
      ensures Reads(ReadLe(w, old(buf)), r, buf)
      ensures r.Ok? ==> r.value < Pow256(w)
    {
      var word :- ReadBytes(w);
      LeCanonical(word);
      r := Ok(LeValue(word));
    }

    method DecodeTxFrame() returns (r: Outcome<TxFrame>)
      modifies this
      ensures Reads(DecodeTx(old(buf)), r, buf)
    {
      var correlationId :- ReadWord(8);
      var sender :- ReadBytes(20);
      var txHash :- ReadBytes(32);
      var rawLen :- ReadWord(4);
      var rawTx :- ReadBytes(rawLen);
      return Ok(TxFrame(correlationId, sender, txHash, rawTx));
    }

    method DecodeCallbackField() returns (r: Outcome<Option<Callback>>)
      modifies this
      ensures Reads(DecodeCallback(old(buf)), r, buf)
    {
      var flag :- ReadWord(1);
      if flag == 0 {
        return Ok(None);
      }
      if flag != 1 {
        return Err(Frame(InvalidCallbackFlag(flag)));
      }
      var target :- ReadBytes(20);
      var gasLimit :- ReadWord(8);
      var context :- ReadBytes(32);
      return Ok(Some(Callback(target, gasLimit, context)));
    }

    method DecodeXChainMessage() returns (r: Outcome<XChainMessage>)
      modifies this
      ensures Reads(DecodeMessage(old(buf)), r, buf)
    {
      var sourceHash :- ReadBytes(32);
      var seqNo :- ReadWord(8);
      var originSender :- ReadBytes(20);
      var target :- ReadBytes(20);
      var value :- ReadWord(16);
      var gasLimit :- ReadWord(8);
      var hops :- ReadWord(1);
      var inputLen :- ReadWord(4);
      var input :- ReadBytes(inputLen);
      var callback :- DecodeCallbackField();
      return Ok(XChainMessage.XChainMessage(sourceHash, seqNo, originSender, target, value, gasLimit, hops, input,
                                            callback));
    }

    method DecodeMessages(count: nat) returns (r: Outcome<seq<XChainMessage>>)
      modifies this
      ensures Reads(DecodeMany(DecodeMessage, count, old(buf)), r, buf)
    {
      hide DecodeMessage;
      hide Pending;
      var messages: seq<XChainMessage> := [];
      PendingBounds(DecodeMany(DecodeMessage, count, old(buf)), messages, buf);
      for i := 0 to count
        invariant Pending(DecodeMany(DecodeMessage, count, old(buf)), messages, DecodeMany(DecodeMessage, count - i, buf))
      {
        PendingStep(DecodeMessage, DecodeMany(DecodeMessage, count, old(buf)), messages, count - i, buf);
        var m :- DecodeXChainMessage();
        messages := messages + [m];
      }
      PendingBounds(DecodeMany(DecodeMessage, count, old(buf)), messages, buf);
      return Ok(messages);
    }

    method DecodeRemoteEpochRecord() returns (r: Outcome<RemoteEpochRecord>)
      modifies this
      ensures Reads(DecodeRemoteEpoch(old(buf)), r, buf)
    {
      var originChainId :- ReadWord(8);
      var anchorNumber :- ReadWord(8);
      var anchorHash :- ReadBytes(32);
      var firstSeq :- ReadWord(8);
      var count :- ReadWord(4);
      var messages :- DecodeMessages(count);
      if messages == [] {
        return Err(Frame(NoMessages));
      }
      return Ok(RemoteEpochRecord(originChainId, anchorNumber, anchorHash, firstSeq,
                                  NonEmptyVec(messages[0], messages[1..])));
    }

    method DecodeRemoteEpochs(count: nat) returns (r: Outcome<seq<RemoteEpochRecord>>)
      modifies this
      ensures Reads(DecodeMany(DecodeRemoteEpoch, count, old(buf)), r, buf)
    {
      hide DecodeRemoteEpoch;
      hide Pending;
      var recs: seq<RemoteEpochRecord> := [];
      PendingBounds(DecodeMany(DecodeRemoteEpoch, count, old(buf)), recs, buf);
      for i := 0 to count
        invariant Pending(DecodeMany(DecodeRemoteEpoch, count, old(buf)), recs,
                          DecodeMany(DecodeRemoteEpoch, count - i, buf))
      {
        PendingStep(DecodeRemoteEpoch, DecodeMany(DecodeRemoteEpoch, count, old(buf)), recs, count - i, buf);
        var rec :- DecodeRemoteEpochRecord();
        recs := recs + [rec];
      }
      PendingBounds(DecodeMany(DecodeRemoteEpoch, count, old(buf)), recs, buf);
      return Ok(recs);
    }

    method DecodeTxs(count: nat) returns (r: Outcome<seq<TxFrame>>)
      modifies this
      ensures Reads(DecodeMany(DecodeTx, count, old(buf)), r, buf)
    {
      hide DecodeTx;
      hide Pending;
      var txs: seq<TxFrame> := [];
      PendingBounds(DecodeMany(DecodeTx, count, old(buf)), txs, buf);
      for i := 0 to count
        invariant Pending(DecodeMany(DecodeTx, count, old(buf)), txs, DecodeMany(DecodeTx, count - i, buf))
      {
        PendingStep(DecodeTx, DecodeMany(DecodeTx, count, old(buf)), txs, count - i, buf);
        var tx :- DecodeTxFrame();
        txs := txs + [tx];
      }
      PendingBounds(DecodeMany(DecodeTx, count, old(buf)), txs, buf);
      return Ok(txs);
    }

    method DecodeCursorField(layout: BlockLayout) returns (r: Outcome<Option<BlockCursor>>)
      modifies this
      ensures Reads(DecodeCursor(layout, old(buf)), r, buf)
    {
      if layout == NoCursor {
        return Ok(None);
      }
      var endTxIdx :- ReadWord(8);
      var l1Origin :- ReadWord(8);
      return Ok(Some(BlockCursor(endTxIdx, l1Origin)));
    }

    method DecodeBlockFrame(layout: BlockLayout) returns (r: Outcome<BlockFrame>)
      modifies this
      ensures Reads(DecodeBlock(layout, old(buf)), r, buf)
    {
      var blockNumber :- ReadWord(8);
      var l2Timestamp :- ReadWord(8);
      var cursor :- DecodeCursorField(layout);
      var epochCount :- ReadWord(4);
      var epochs :- DecodeRemoteEpochs(epochCount);
      var txCount :- ReadWord(4);
      var txs :- DecodeTxs(txCount);
      return Ok(BlockFrame(blockNumber, l2Timestamp, cursor, epochs, txs));
    }

    method DecodeBlocks(layout: BlockLayout, count: nat) returns (r: Outcome<seq<BlockFrame>>)
      modifies this
      ensures Reads(DecodeMany(BlockDecoder(layout), count, old(buf)), r, buf)
    {
      hide DecodeBlock;
      var blocks: seq<BlockFrame> := [];
      PendingBounds(DecodeMany(BlockDecoder(layout), count, old(buf)), blocks, buf);
      for i := 0 to count
        invariant Pending(DecodeMany(BlockDecoder(layout), count, old(buf)), blocks,
                          DecodeMany(BlockDecoder(layout), count - i, buf))
      {
        PendingStep(BlockDecoder(layout), DecodeMany(BlockDecoder(layout), count, old(buf)), blocks, count - i, buf);
        var block :- DecodeBlockFrame(layout);
        blocks := blocks + [block];
      }
      PendingBounds(DecodeMany(BlockDecoder(layout), count, old(buf)), blocks, buf);
      return Ok(blocks);
    }

    method DecodeHeaderFields() returns (r: Outcome<Header>)
      modifies this
      ensures Reads(DecodeHeader(old(buf)), r, buf)
    {
      var magic :- ReadBytes(4);
      if magic != MAGIC {
        return Err(Frame(BadMagic(magic)));
      }
      var version :- ReadWord(1);
      var layout :- LayoutOf(version);
      var flags :- ReadWord(1);
      var count :- ReadWord(4);
      var reserved :- ReadWord(2);
      return Ok(Header(layout, flags, count, reserved));
    }
  }

  /** The source's `decode`, through the reader. */
  method DecodePayload(bytes: Bytes) returns (r: Outcome<Kar1Payload>)
    ensures r == Decode(bytes)
  {
    var reader := new Reader(bytes);
    var header :- reader.DecodeHeaderFields();
    var blocks :- reader.DecodeBlocks(header.layout, header.count);
    return Ok(Kar1Payload(blocks, CompressedBit(header.flags)));
  }
}
