/** The KAR1 payload: its data model, and its byte form as a pair of
    functions. `Encode` and `Decode` are the specification that the buffer
    classes of `FrameIo` are proved against. */
module Kar1 {
  import opened Wrappers
  import opened Bytes
  import opened Errors

  // ----- data model

  type Address = a: Bytes | |a| == 20 witness seq(20, _ => 0)
  type B256 = h: Bytes | |h| == 32 witness seq(32, _ => 0)

  datatype NonEmptyVec<+T> = NonEmptyVec(first: T, rest: seq<T>) {
    function Items(): seq<T> {
      [first] + rest
    }
  }

  datatype TxFrame = TxFrame(correlationId: u64, sender: Address, txHash: B256, rawTx: Bytes)

  datatype Callback = Callback(target: Address, gasLimit: u64, context: B256)

  datatype XChainMessage = XChainMessage(
    sourceHash: B256, seqNo: u64, originSender: Address, target: Address, value: u128,
    gasLimit: u64, hops: byte, input: Bytes, callback: Option<Callback>)

  datatype RemoteEpochRecord = RemoteEpochRecord(
    originChainId: u64, anchorNumber: u64, anchorHash: B256, firstSeq: u64,
    messages: NonEmptyVec<XChainMessage>)

  datatype BlockCursor = BlockCursor(endTxIdx: u64, l1Origin: u64)

  datatype BlockFrame = BlockFrame(
    blockNumber: u64, l2Timestamp: u64, cursor: Option<BlockCursor>,
    remoteEpochs: seq<RemoteEpochRecord>, txs: seq<TxFrame>)

  datatype Kar1Payload = Kar1Payload(blocks: seq<BlockFrame>, compressed: bool)

  const MAGIC: Bytes := [0x4B, 0x41, 0x52, 0x31]
  const VERSION: byte := 5
  const VERSION_NO_CURSOR: byte := 4
  const HEADER_LEN := 12

  type Outcome<+T> = Result<T, BatcherError>
  type Encoder<!T> = T -> Outcome<Bytes>
  /** A decoder returns what it read and the unread remainder. */
  type Decoder<!T> = Bytes -> Outcome<(T, Bytes)>

  // ----- encoding

  function LenWord(field: string, n: nat): Outcome<Bytes> {
    if n <= U32_MAX then Ok(Le(4, n)) else Err(Frame(CountOverflow(field)))
  }

  function EncodeAll<T>(enc: Encoder<T>, xs: seq<T>): Outcome<Bytes> {
    if xs == [] then Ok([]) else
      var head :- enc(xs[0]);
      var tail :- EncodeAll(enc, xs[1..]);
      Ok(head + tail)
  }

  function EncodeTx(tx: TxFrame): Outcome<Bytes> {
    var rawLen :- LenWord("raw_tx_len", |tx.rawTx|);
    Ok(Le(8, tx.correlationId) + (tx.sender + (tx.txHash + (rawLen + tx.rawTx))))
  }

  function CallbackBytes(cb: Option<Callback>): Bytes {
    match cb
    case None => [0]
    case Some(c) => [1] + (c.target + (Le(8, c.gasLimit) + c.context))
  }

  function EncodeMessage(m: XChainMessage): Outcome<Bytes> {
    var inputLen :- LenWord("input_len", |m.input|);
    Ok(m.sourceHash + (Le(8, m.seqNo) + (m.originSender + (m.target + (Le(16, m.value)
       + (Le(8, m.gasLimit) + ([m.hops] + (inputLen + (m.input + CallbackBytes(m.callback))))))))))
  }

  function EncodeRemoteEpoch(rec: RemoteEpochRecord): Outcome<Bytes> {
    var count :- LenWord("msg_count", |rec.messages.Items()|);
    var messages :- EncodeAll(EncodeMessage, rec.messages.Items());
    Ok(Le(8, rec.originChainId) + (Le(8, rec.anchorNumber) + (rec.anchorHash
       + (Le(8, rec.firstSeq) + (count + messages)))))
  }

  function CursorBytes(cursor: Option<BlockCursor>): Bytes {
    match cursor
    case None => []
    case Some(c) => Le(8, c.endTxIdx) + Le(8, c.l1Origin)
  }

  function EncodeBlock(block: BlockFrame): Outcome<Bytes> {
    var txCount :- LenWord("tx_count", |block.txs|);
    var epochCount :- LenWord("remote_epoch_count", |block.remoteEpochs|);
    var epochs :- EncodeAll(EncodeRemoteEpoch, block.remoteEpochs);
    var txs :- EncodeAll(EncodeTx, block.txs);
    Ok(Le(8, block.blockNumber) + (Le(8, block.l2Timestamp) + (CursorBytes(block.cursor)
       + (epochCount + (epochs + (txCount + txs))))))
  }

  function WithCursor(blocks: seq<BlockFrame>): (n: nat)
    ensures n <= |blocks|
  {
    if blocks == [] then 0 else
      var n := |blocks| - 1;
      WithCursor(blocks[..n]) + if blocks[n].cursor.Some? then 1 else 0
  }

  function VersionOf(p: Kar1Payload): Outcome<byte> {
    var n := WithCursor(p.blocks);
    if n == |p.blocks| then Ok(VERSION)
    else if n == 0 then Ok(VERSION_NO_CURSOR)
    else Err(Frame(MixedCursors(n, |p.blocks|)))
  }

  function FlagsOf(compressed: bool): byte {
    if compressed then 1 else 0
  }

  function Encode(p: Kar1Payload): Outcome<Bytes> {
    var count :- LenWord("block_count", |p.blocks|);
    var version :- VersionOf(p);
    var blocks :- EncodeAll(EncodeBlock, p.blocks);
    Ok(MAGIC + ([version] + ([FlagsOf(p.compressed)] + (count + (Le(2, 0) + blocks)))))
  }

  // ----- decoding

  predicate CompressedBit(flags: byte) {
    flags % 2 != 0
  }

  function Take(n: nat, b: Bytes): Outcome<(Bytes, Bytes)> {
    if n <= |b| then Ok((b[..n], b[n..])) else Err(Frame(ShortRead(n, |b|)))
  }

  function ReadLe(w: nat, b: Bytes): (r: Outcome<(nat, Bytes)>)
    ensures r.Ok? ==> r.value.0 < Pow256(w)
  {
    var (word, rest) :- Take(w, b);
    LeCanonical(word);
    Ok((LeValue(word), rest))
  }

  function DecodeMany<T>(dec: Decoder<T>, n: nat, b: Bytes): (r: Outcome<(seq<T>, Bytes)>)
    ensures r.Ok? ==> |r.value.0| == n
  {
    if n == 0 then Ok(([], b)) else
      var (x, rest) :- dec(b);
      var (xs, end) :- DecodeMany(dec, n - 1, rest);
      Ok(([x] + xs, end))
  }

  function DecodeTx(b: Bytes): Outcome<(TxFrame, Bytes)> {
    var (correlationId, b) :- ReadLe(8, b);
    var (sender, b) :- Take(20, b);
    var (txHash, b) :- Take(32, b);
    var (rawLen, b) :- ReadLe(4, b);
    var (rawTx, b) :- Take(rawLen, b);
    Ok((TxFrame(correlationId, sender, txHash, rawTx), b))
  }

  function DecodeCallback(b: Bytes): Outcome<(Option<Callback>, Bytes)> {
    var (flag, b) :- ReadLe(1, b);
    if flag == 0 then Ok((None, b))
    else if flag == 1 then
      var (target, b) :- Take(20, b);
      var (gasLimit, b) :- ReadLe(8, b);
      var (context, b) :- Take(32, b);
      Ok((Some(Callback(target, gasLimit, context)), b))
    else Err(Frame(InvalidCallbackFlag(flag)))
  }

  function DecodeMessage(b: Bytes): Outcome<(XChainMessage, Bytes)> {
    var (sourceHash, b) :- Take(32, b);
    var (seqNo, b) :- ReadLe(8, b);
    var (originSender, b) :- Take(20, b);
    var (target, b) :- Take(20, b);
    var (value, b) :- ReadLe(16, b);
    var (gasLimit, b) :- ReadLe(8, b);
    var (hops, b) :- ReadLe(1, b);
    var (inputLen, b) :- ReadLe(4, b);
    var (input, b) :- Take(inputLen, b);
    var (callback, b) :- DecodeCallback(b);
    Ok((XChainMessage(sourceHash, seqNo, originSender, target, value, gasLimit, hops, input, callback), b))
  }

  function DecodeRemoteEpoch(b: Bytes): Outcome<(RemoteEpochRecord, Bytes)> {
    var (originChainId, b) :- ReadLe(8, b);
    var (anchorNumber, b) :- ReadLe(8, b);
    var (anchorHash, b) :- Take(32, b);
    var (firstSeq, b) :- ReadLe(8, b);
    var (count, b) :- ReadLe(4, b);
    var (messages, b) :- DecodeMany(DecodeMessage, count, b);
    if messages == [] then Err(Frame(NoMessages)) else
      Ok((RemoteEpochRecord(originChainId, anchorNumber, anchorHash, firstSeq,
                            NonEmptyVec(messages[0], messages[1..])), b))
  }

  datatype BlockLayout = NoCursor | WithCursorLayout

  function LayoutOf(version: byte): Outcome<BlockLayout> {
    if version == VERSION then Ok(WithCursorLayout)
    else if version == VERSION_NO_CURSOR then Ok(NoCursor)
    else Err(Frame(UnsupportedVersion(version)))
  }

  function DecodeCursor(layout: BlockLayout, b: Bytes): Outcome<(Option<BlockCursor>, Bytes)> {
    if layout == NoCursor then Ok((None, b)) else
      var (endTxIdx, b) :- ReadLe(8, b);
      var (l1Origin, b) :- ReadLe(8, b);
      Ok((Some(BlockCursor(endTxIdx, l1Origin)), b))
  }

  function DecodeBlock(layout: BlockLayout, b: Bytes): Outcome<(BlockFrame, Bytes)> {
    var (blockNumber, b) :- ReadLe(8, b);
    var (l2Timestamp, b) :- ReadLe(8, b);
    var (cursor, b) :- DecodeCursor(layout, b);
    var (epochCount, b) :- ReadLe(4, b);
    var (epochs, b) :- DecodeMany(DecodeRemoteEpoch, epochCount, b);
    var (txCount, b) :- ReadLe(4, b);
    var (txs, b) :- DecodeMany(DecodeTx, txCount, b);
    Ok((BlockFrame(blockNumber, l2Timestamp, cursor, epochs, txs), b))
  }

  function BlockDecoder(layout: BlockLayout): Decoder<BlockFrame> {
    b => DecodeBlock(layout, b)
  }

  /** What the fixed header says: version, flags, block count and the
      reserved word. */
  datatype Header = Header(layout: BlockLayout, flags: byte, count: nat, reserved: nat)

  function DecodeHeader(b: Bytes): Outcome<(Header, Bytes)> {
    var (magic, b) :- Take(4, b);
    if magic != MAGIC then Err(Frame(BadMagic(magic))) else
      var (version, b) :- ReadLe(1, b);
      var layout :- LayoutOf(version);
      var (flags, b) :- ReadLe(1, b);
      var (count, b) :- ReadLe(4, b);
      var (reserved, b) :- ReadLe(2, b);
      Ok((Header(layout, flags, count, reserved), b))
  }

  /** The payload at the head of `b`, and the bytes after it. */
  function DecodePrefix(b: Bytes): Outcome<(Kar1Payload, Bytes)> {
    var (header, b) :- DecodeHeader(b);
    var (blocks, b) :- DecodeMany(BlockDecoder(header.layout), header.count, b);
    Ok((Kar1Payload(blocks, CompressedBit(header.flags)), b))
  }

  function Decode(b: Bytes): Outcome<Kar1Payload> {
    var (payload, _) :- DecodePrefix(b);
    Ok(payload)
  }
}
