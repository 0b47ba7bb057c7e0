/** The format as its documentation gives it, a table of fields at byte
    offsets. A byte string is the encoding of a value exactly when it fits the
    value's table, so the tables leave no gap and fix every byte. */
module Kar1Offsets {
  import opened Wrappers
  import opened Bytes
  import opened Errors
  import opened Kar1
  import opened Kar1Laws

  // ----- words

  lemma CountFits(b: Bytes)
    requires |b| == 4
    ensures LeValue(b) <= U32_MAX
  {
    LeCanonical(b);
    assert Pow256(4) == 0x1_0000_0000;
  }

  // ----- transactions

  predicate TxTable(b: Bytes, tx: TxFrame) {
    && |b| == 64 + |tx.rawTx|
    && LeValue(b[..8]) == tx.correlationId && b[8..28] == tx.sender && b[28..60] == tx.txHash
    && LeValue(b[60..64]) == |tx.rawTx| && b[64..] == tx.rawTx
  }

  lemma TxTableIff(b: Bytes, tx: TxFrame)
    ensures EncodeTx(tx) == Ok(b) <==> TxTable(b, tx)
  {
    hide Le;
    hide LeValue;
    if EncodeTx(tx) == Ok(b) {
      FiveFields(Le(8, tx.correlationId), tx.sender, tx.txHash, Le(4, |tx.rawTx|), tx.rawTx);
      LeRoundTrip(8, tx.correlationId);
      LeRoundTrip(4, |tx.rawTx|);
    }
    if TxTable(b, tx) {
      CountFits(b[60..64]);
      WordIff(b[..8], tx.correlationId);
      LeCanonical(b[60..64]);
      assert b == b[..8] + (b[8..28] + (b[28..60] + (b[60..64] + b[64..])));
    }
  }

  lemma FiveFields(id: Bytes, sender: Address, hash: B256, len: Bytes, raw: Bytes)
    requires |id| == 8 && |len| == 4
    ensures
      var b := id + (sender + (hash + (len + raw)));
      && |b| == 64 + |raw| && b[..8] == id && b[8..28] == sender && b[28..60] == hash && b[60..64] == len
      && b[64..] == raw
  {
  }

  // ----- messages

  predicate CallbackTable(b: Bytes, cb: Option<Callback>) {
    match cb
    case None => b == [0]
    case Some(c) =>
      && |b| == 61 && b[0] == 1 && b[1..21] == c.target && LeValue(b[21..29]) == c.gasLimit && b[29..] == c.context
  }

  predicate MessageTable(b: Bytes, m: XChainMessage) {
    var n := |m.input|;
    && |b| >= 110 + n
    && b[..32] == m.sourceHash && LeValue(b[32..40]) == m.seqNo && b[40..60] == m.originSender
    && b[60..80] == m.target && LeValue(b[80..96]) == m.value && LeValue(b[96..104]) == m.gasLimit
    && b[104] == m.hops && LeValue(b[105..109]) == n && b[109..109 + n] == m.input
    && CallbackTable(b[109 + n..], m.callback)
  }

  lemma CallbackFields(target: Address, gas: Bytes, context: B256)
    requires |gas| == 8
    ensures
      var b := [1] + (target + (gas + context));
      |b| == 61 && b[0] == 1 && b[1..21] == target && b[21..29] == gas && b[29..] == context
  {
  }

  lemma CallbackTableIff(b: Bytes, cb: Option<Callback>)
    ensures CallbackBytes(cb) == b <==> CallbackTable(b, cb)
  {
    hide Le;
    hide LeValue;
    match cb
    case None =>
    case Some(c) =>
      LeRoundTrip(8, c.gasLimit);
      if CallbackBytes(cb) == b {
        CallbackFields(c.target, Le(8, c.gasLimit), c.context);
      }
      if CallbackTable(b, cb) {
        WordIff(b[21..29], c.gasLimit);
        assert b == [b[0]] + (b[1..21] + (b[21..29] + b[29..]));
      }
  }

  /** The last four fields of a message, from byte 104 on. */
  predicate TailTable(b: Bytes, m: XChainMessage) {
    var n := |m.input|;
    && |b| >= 6 + n && b[0] == m.hops && LeValue(b[1..5]) == n && b[5..5 + n] == m.input
    && CallbackTable(b[5 + n..], m.callback)
  }

  lemma TailTableIff(b: Bytes, m: XChainMessage)
    ensures TailTable(b, m) <==>
              |m.input| <= U32_MAX && b == [m.hops] + (Le(4, |m.input|) + (m.input + CallbackBytes(m.callback)))
  {
    hide CallbackTable;
    hide CallbackBytes;
    var n := |m.input|;
    if TailTable(b, m) {
      CountFits(b[1..5]);
      LeCanonical(b[1..5]);
      CallbackTableIff(b[5 + n..], m.callback);
      assert b == [b[0]] + (b[1..5] + (b[5..5 + n] + b[5 + n..]));
    }
    if n <= U32_MAX && b == [m.hops] + (Le(4, n) + (m.input + CallbackBytes(m.callback))) {
      LeRoundTrip(4, n);
      CallbackIsNotEmpty(m.callback);
      assert b[1..5] == Le(4, n) && b[5..5 + n] == m.input && b[5 + n..] == CallbackBytes(m.callback);
      CallbackTableIff(b[5 + n..], m.callback);
    }
  }

  lemma CallbackIsNotEmpty(cb: Option<Callback>)
    ensures |CallbackBytes(cb)| >= 1
  {
  }

  lemma MessageTableIff(b: Bytes, m: XChainMessage)
    ensures EncodeMessage(m) == Ok(b) <==> MessageTable(b, m)
  {
    hide CallbackTable;
    hide CallbackBytes;
    hide Le;
    hide LeValue;
    var tail := [m.hops] + (Le(4, |m.input|) + (m.input + CallbackBytes(m.callback)));
    if EncodeMessage(m).Ok? && EncodeMessage(m).value == b {
      SixFields(m.sourceHash, Le(8, m.seqNo), m.originSender, m.target, Le(16, m.value), Le(8, m.gasLimit), tail);
      LeRoundTrip(8, m.seqNo);
      LeRoundTrip(16, m.value);
      LeRoundTrip(8, m.gasLimit);
      TailTableIff(b[104..], m);
      TailAt104(b, m);
    }
    if MessageTable(b, m) {
      WordIff(b[32..40], m.seqNo);
      WordIff(b[80..96], m.value);
      WordIff(b[96..104], m.gasLimit);
      TailAt104(b, m);
      TailTableIff(b[104..], m);
      SixSlices(b);
    }
  }

  lemma TailAt104(b: Bytes, m: XChainMessage)
    requires |b| >= 104
    ensures TailTable(b[104..], m) <==>
              var n := |m.input|;
              && |b| >= 110 + n && b[104] == m.hops && LeValue(b[105..109]) == n && b[109..109 + n] == m.input
              && CallbackTable(b[109 + n..], m.callback)
  {
    hide CallbackTable;
    hide LeValue;
    var n, t := |m.input|, b[104..];
    if |b| >= 110 + n {
      assert t[1..5] == b[105..109] && t[5..5 + n] == b[109..109 + n] && t[5 + n..] == b[109 + n..];
    }
  }

  lemma SixFields(hash: B256, seqNo: Bytes, sender: Address, target: Address, value: Bytes, gas: Bytes, rest: Bytes)
    requires |seqNo| == 8 && |value| == 16 && |gas| == 8
    ensures
      var b := hash + (seqNo + (sender + (target + (value + (gas + rest)))));
      && |b| == 104 + |rest| && b[..32] == hash && b[32..40] == seqNo && b[40..60] == sender && b[60..80] == target
      && b[80..96] == value && b[96..104] == gas && b[104..] == rest
  {
    var b := hash + (seqNo + (sender + (target + (value + (gas + rest)))));
    assert b[80..] == value + (gas + rest);
    assert b[80..96] == b[80..][..16] && b[96..104] == b[80..][16..24] && b[104..] == b[80..][24..];
  }

  lemma SixSlices(b: Bytes)
    requires |b| >= 104
    ensures b == b[..32] + (b[32..40] + (b[40..60] + (b[60..80] + (b[80..96] + (b[96..104] + b[104..])))))
  {
    assert b == b[..32] + (b[32..40] + (b[40..60] + (b[60..80] + b[80..])));
    assert b[80..] == b[80..96] + (b[96..104] + b[104..]);
  }

  // ----- remote epochs

  predicate RemoteEpochTable(b: Bytes, rec: RemoteEpochRecord) {
    && |b| >= 60
    && LeValue(b[..8]) == rec.originChainId && LeValue(b[8..16]) == rec.anchorNumber && b[16..48] == rec.anchorHash
    && LeValue(b[48..56]) == rec.firstSeq && LeValue(b[56..60]) == |rec.messages.Items()|
    && EncodeAll(EncodeMessage, rec.messages.Items()) == Ok(b[60..])
  }

  lemma RemoteEpochTableIff(b: Bytes, rec: RemoteEpochRecord)
    ensures EncodeRemoteEpoch(rec) == Ok(b) <==> RemoteEpochTable(b, rec)
  {
    hide EncodeAll;
    hide Le;
    hide LeValue;
    var count, messages := |rec.messages.Items()|, EncodeAll(EncodeMessage, rec.messages.Items());
    LeRoundTrip(8, rec.originChainId);
    LeRoundTrip(8, rec.anchorNumber);
    LeRoundTrip(8, rec.firstSeq);
    if EncodeRemoteEpoch(rec).Ok? && EncodeRemoteEpoch(rec).value == b {
      LeRoundTrip(4, count);
      EpochFields(Le(8, rec.originChainId), Le(8, rec.anchorNumber), rec.anchorHash, Le(8, rec.firstSeq), Le(4, count),
                  messages.value);
    }
    if RemoteEpochTable(b, rec) {
      CountFits(b[56..60]);
      LeCanonical(b[56..60]);
      WordIff(b[..8], rec.originChainId);
      WordIff(b[8..16], rec.anchorNumber);
      WordIff(b[48..56], rec.firstSeq);
      assert b == b[..8] + (b[8..16] + (b[16..48] + (b[48..56] + (b[56..60] + b[60..]))));
    }
  }

  lemma EpochFields(chain: Bytes, anchor: Bytes, hash: B256, first: Bytes, count: Bytes, rest: Bytes)
    requires |chain| == 8 && |anchor| == 8 && |first| == 8 && |count| == 4
    ensures
      var b := chain + (anchor + (hash + (first + (count + rest))));
      && |b| == 60 + |rest| && b[..8] == chain && b[8..16] == anchor && b[16..48] == hash && b[48..56] == first
      && b[56..60] == count && b[60..] == rest
  {
  }

  // ----- blocks

  /** The two counted sections of a block. */
  predicate SectionsTable(b: Bytes, block: BlockFrame) {
    var epochs := EncodeAll(EncodeRemoteEpoch, block.remoteEpochs);
    && epochs.Ok?
    && var n := |epochs.value|;
    && |b| >= 8 + n && LeValue(b[..4]) == |block.remoteEpochs| && b[4..4 + n] == epochs.value
    && LeValue(b[4 + n..8 + n]) == |block.txs| && EncodeAll(EncodeTx, block.txs) == Ok(b[8 + n..])
  }

  predicate BlockTable(b: Bytes, block: BlockFrame) {
    && |b| >= 16 && LeValue(b[..8]) == block.blockNumber && LeValue(b[8..16]) == block.l2Timestamp
    && match block.cursor
       case None => SectionsTable(b[16..], block)
       case Some(c) =>
         && |b| >= 32 && LeValue(b[16..24]) == c.endTxIdx && LeValue(b[24..32]) == c.l1Origin
         && SectionsTable(b[32..], block)
  }

  predicate SectionsAre(b: Bytes, block: BlockFrame) {
    var epochs, txs := EncodeAll(EncodeRemoteEpoch, block.remoteEpochs), EncodeAll(EncodeTx, block.txs);
    && |block.remoteEpochs| <= U32_MAX && |block.txs| <= U32_MAX && epochs.Ok? && txs.Ok?
    && b == Le(4, |block.remoteEpochs|) + (epochs.value + (Le(4, |block.txs|) + txs.value))
  }

  lemma SectionsTableIff(b: Bytes, block: BlockFrame)
    ensures SectionsTable(b, block) <==> SectionsAre(b, block)
  {
    hide EncodeAll;
    hide Le;
    hide LeValue;
    var epochs, txs := EncodeAll(EncodeRemoteEpoch, block.remoteEpochs), EncodeAll(EncodeTx, block.txs);
    if SectionsTable(b, block) {
      var n := |epochs.value|;
      CountFits(b[..4]);
      CountFits(b[4 + n..8 + n]);
      LeCanonical(b[..4]);
      LeCanonical(b[4 + n..8 + n]);
      assert b == b[..4] + (b[4..4 + n] + (b[4 + n..8 + n] + b[8 + n..]));
    }
    if SectionsAre(b, block) {
      var n := |epochs.value|;
      LeRoundTrip(4, |block.remoteEpochs|);
      LeRoundTrip(4, |block.txs|);
      SectionFields(Le(4, |block.remoteEpochs|), epochs.value, Le(4, |block.txs|), txs.value);
    }
  }

  lemma SectionFields(x: Bytes, epochs: Bytes, y: Bytes, txs: Bytes)
    requires |x| == 4 && |y| == 4
    ensures
      var b, n := x + (epochs + (y + txs)), |epochs|;
      |b| >= 8 + n && b[..4] == x && b[4..4 + n] == epochs && b[4 + n..8 + n] == y && b[8 + n..] == txs
  {
    var b, n := x + (epochs + (y + txs)), |epochs|;
    assert b[4 + n..] == y + txs;
    assert b[4 + n..8 + n] == b[4 + n..][..4] && b[8 + n..] == b[4 + n..][4..];
  }

  lemma TwoWords(b: Bytes, x: u64, y: u64, rest: Bytes)
    ensures b == Le(8, x) + (Le(8, y) + rest) <==>
              |b| >= 16 && LeValue(b[..8]) == x && LeValue(b[8..16]) == y && b[16..] == rest
  {
    hide Le;
    hide LeValue;
    LeRoundTrip(8, x);
    LeRoundTrip(8, y);
    if |b| >= 16 {
      WordIff(b[..8], x);
      WordIff(b[8..16], y);
      assert b == b[..8] + (b[8..16] + b[16..]);
    }
    if b == Le(8, x) + (Le(8, y) + rest) {
      assert b[..8] == Le(8, x) && b[8..16] == Le(8, y) && b[16..] == rest;
    }
  }

  lemma FromSixteen(b: Bytes)
    requires |b| >= 32
    ensures b[16..][..8] == b[16..24] && b[16..][8..16] == b[24..32] && b[16..][16..] == b[32..]
  {
  }

  lemma BlockTableIff(b: Bytes, block: BlockFrame)
    ensures EncodeBlock(block) == Ok(b) <==> BlockTable(b, block)
  {
    hide EncodeAll;
    hide Le;
    hide LeValue;
    hide SectionsTable;
    var epochs, txs := EncodeAll(EncodeRemoteEpoch, block.remoteEpochs), EncodeAll(EncodeTx, block.txs);
    if SectionsCanBe(block) {
      var rest := Le(4, |block.remoteEpochs|) + (epochs.value + (Le(4, |block.txs|) + txs.value));
      TwoWords(b, block.blockNumber, block.l2Timestamp, CursorBytes(block.cursor) + rest);
      match block.cursor
      case None =>
        assert [] + rest == rest;
      case Some(c) =>
        assert (Le(8, c.endTxIdx) + Le(8, c.l1Origin)) + rest == Le(8, c.endTxIdx) + (Le(8, c.l1Origin) + rest);
        if |b| >= 16 {
          TwoWords(b[16..], c.endTxIdx, c.l1Origin, rest);
          if |b| >= 32 {
            FromSixteen(b);
          }
        }
    }
    SectionsTableIff(if |b| >= 16 then b[16..] else [], block);
    SectionsTableIff(if |b| >= 32 then b[32..] else [], block);
  }

  predicate SectionsCanBe(block: BlockFrame) {
    && |block.remoteEpochs| <= U32_MAX && |block.txs| <= U32_MAX
    && EncodeAll(EncodeRemoteEpoch, block.remoteEpochs).Ok? && EncodeAll(EncodeTx, block.txs).Ok?
  }

  // ----- the payload

  predicate PayloadTable(b: Bytes, p: Kar1Payload) {
    && |b| >= 12 && b[..4] == [0x4B, 0x41, 0x52, 0x31]
    && (if b[4] == 5 then forall i :: 0 <= i < |p.blocks| ==> p.blocks[i].cursor.Some?
        else b[4] == 4 && p.blocks != [] && forall i :: 0 <= i < |p.blocks| ==> p.blocks[i].cursor.None?)
    && b[5] == FlagsOf(p.compressed) && LeValue(b[6..10]) == |p.blocks| && LeValue(b[10..12]) == 0
    && EncodeAll(EncodeBlock, p.blocks) == Ok(b[12..])
  }

  lemma PayloadTableIff(b: Bytes, p: Kar1Payload)
    ensures Encode(p) == Ok(b) <==> PayloadTable(b, p)
  {
    hide EncodeAll;
    hide Le;
    hide LeValue;
    hide WithCursor;
    VersionIsLayout(p.blocks);
    LeRoundTrip(2, 0);
    var blocks := EncodeAll(EncodeBlock, p.blocks);
    if Encode(p).Ok? && Encode(p).value == b {
      LeRoundTrip(4, |p.blocks|);
      HeaderFields(VersionOf(p).value, FlagsOf(p.compressed), Le(4, |p.blocks|), Le(2, 0), blocks.value);
    }
    if PayloadTable(b, p) {
      CountFits(b[6..10]);
      LeCanonical(b[6..10]);
      LeCanonical(b[10..12]);
      assert VersionOf(p) == Ok(b[4]);
      HeaderSlices(b);
    }
  }

  lemma HeaderSlices(b: Bytes)
    requires |b| >= 12
    ensures b == b[..4] + ([b[4]] + ([b[5]] + (b[6..10] + (b[10..12] + b[12..]))))
  {
    assert b[6..] == b[6..10] + (b[10..12] + b[12..]);
    assert b[4..] == [b[4]] + ([b[5]] + b[6..]);
    assert b == b[..4] + b[4..];
  }

  lemma HeaderFields(version: byte, flags: byte, count: Bytes, reserved: Bytes, rest: Bytes)
    requires |count| == 4 && |reserved| == 2
    ensures
      var b := MAGIC + ([version] + ([flags] + (count + (reserved + rest))));
      && |b| == 12 + |rest| && b[..4] == MAGIC && b[4] == version && b[5] == flags && b[6..10] == count
      && b[10..12] == reserved && b[12..] == rest
  {
  }

  // ----- what the decoder accepts

  /** Bytes that start with a payload: any flags byte, of which only the lowest
      bit is read, and any reserved word. */
  ghost predicate AcceptedAs(b: Bytes, p: Kar1Payload, rest: Bytes) {
    var blocks := EncodeAll(EncodeBlock, p.blocks);
    && |b| >= 12 && b[..4] == [0x4B, 0x41, 0x52, 0x31]
    && ((b[4] == 5 && forall i :: 0 <= i < |p.blocks| ==> p.blocks[i].cursor.Some?)
        || (b[4] == 4 && forall i :: 0 <= i < |p.blocks| ==> p.blocks[i].cursor.None?))
    && p.compressed == (b[5] % 2 == 1) && LeValue(b[6..10]) == |p.blocks|
    && blocks.Ok? && b[12..] == blocks.value + rest
  }

  /** The decoder reads a payload and a remainder off exactly such bytes. */
  lemma DecodeIff(b: Bytes, p: Kar1Payload, rest: Bytes)
    ensures DecodePrefix(b) == Ok((p, rest)) <==> AcceptedAs(b, p, rest)
  {
    hide DecodeHeader;
    hide EncodeAll;
    hide DecodeMany;
    hide LeValue;
    hide Le;
    if DecodePrefix(b) == Ok((p, rest)) {
      AcceptedForm(b, p, rest);
    }
    if AcceptedAs(b, p, rest) {
      FormIsAccepted(b, p, rest);
    }
  }

  lemma AcceptedForm(b: Bytes, p: Kar1Payload, rest: Bytes)
    requires DecodePrefix(b) == Ok((p, rest))
    ensures AcceptedAs(b, p, rest)
  {
    hide DecodeHeader;
    hide EncodeAll;
    hide DecodeMany;
    hide LeValue;
    hide Le;
    var (h, body) := DecodeHeader(b).value;
    DecodedBlocksEncode(b);
    HeaderWritesBack(b);
    DecodedLayout(b);
    LeRoundTrip(4, h.count);
    HeaderFields(if h.layout == NoCursor then VERSION_NO_CURSOR else VERSION, h.flags, Le(4, h.count),
                 Le(2, h.reserved), body);
  }

  lemma FormIsAccepted(b: Bytes, p: Kar1Payload, rest: Bytes)
    requires AcceptedAs(b, p, rest)
    ensures DecodePrefix(b) == Ok((p, rest))
  {
    hide EncodeAll;
    hide DecodeMany;
    hide DecodeHeader;
    hide LeValue;
    hide Le;
    hide DecodeBlock;
    hide EncodeBlock;
    var layout := if b[4] == 5 then WithCursorLayout else NoCursor;
    CountFits(b[6..10]);
    LeCanonical(b[6..10]);
    LeCanonical(b[10..12]);
    assert Pow256(2) == 0x1_0000;
    HeaderSlices(b);
    HeaderRoundTrip(layout, b[4], b[5], |p.blocks|, LeValue(b[10..12]), b[12..]);
    forall i | 0 <= i < |p.blocks| ensures ReadsBack(EncodeBlock, BlockDecoder(layout), p.blocks[i]) {
      BlocksReadBack(layout, p.blocks[i]);
    }
    ManyRoundTrip(EncodeBlock, BlockDecoder(layout), p.blocks, rest);
  }

  /** How a header is refused: too short for the field being read, by the
      bytes where the magic should be, or by its version. */
  lemma HeaderErrors(b: Bytes)
    ensures |b| < 4 ==> DecodePrefix(b) == Err(Frame(ShortRead(4, |b|)))
    ensures |b| >= 4 && b[..4] != [0x4B, 0x41, 0x52, 0x31] ==> DecodePrefix(b) == Err(Frame(BadMagic(b[..4])))
    ensures |b| >= 5 && b[..4] == [0x4B, 0x41, 0x52, 0x31] && b[4] != 5 && b[4] != 4 ==>
              DecodePrefix(b) == Err(Frame(UnsupportedVersion(b[4])))
  {
    hide DecodeMany;
    if |b| >= 5 {
      assert b[4..][..1] == [b[4]];
      assert LeValue([b[4]]) == b[4] by { assert [b[4]][1..] == []; }
    }
  }

  // ----- how encoding and decoding fail

  ghost function Cursors(blocks: seq<BlockFrame>): set<nat> {
    set i | 0 <= i < |blocks| && blocks[i].cursor.Some?
  }

  lemma {:induction false} WithCursorCounts(blocks: seq<BlockFrame>)
    ensures WithCursor(blocks) == |Cursors(blocks)|
  {
    if blocks == [] {
      assert Cursors(blocks) == {};
    } else {
      var n := |blocks| - 1;
      WithCursorCounts(blocks[..n]);
      var fewer := Cursors(blocks[..n]);
      assert n !in fewer;
      assert Cursors(blocks) == if blocks[n].cursor.Some? then fewer + {n} else fewer;
    }
  }

  /** The count of a payload is checked before its cursors: too many blocks, or
      cursors on some blocks and not on others, by their numbers. */
  lemma PayloadErrors(p: Kar1Payload)
    ensures |p.blocks| > U32_MAX ==> Encode(p) == Err(Frame(CountOverflow("block_count")))
    ensures |p.blocks| <= U32_MAX && 0 < |Cursors(p.blocks)| < |p.blocks| ==>
              Encode(p) == Err(Frame(MixedCursors(|Cursors(p.blocks)|, |p.blocks|)))
  {
    hide EncodeAll;
    hide WithCursor;
    WithCursorCounts(p.blocks);
  }

  /** A length or a count over 32 bits is refused under its field's name; a
      block's transactions are counted first. */
  lemma FieldErrors(tx: TxFrame, m: XChainMessage, rec: RemoteEpochRecord, block: BlockFrame)
    ensures |tx.rawTx| > U32_MAX ==> EncodeTx(tx) == Err(Frame(CountOverflow("raw_tx_len")))
    ensures |m.input| > U32_MAX ==> EncodeMessage(m) == Err(Frame(CountOverflow("input_len")))
    ensures |rec.messages.Items()| > U32_MAX ==> EncodeRemoteEpoch(rec) == Err(Frame(CountOverflow("msg_count")))
    ensures |block.txs| > U32_MAX ==> EncodeBlock(block) == Err(Frame(CountOverflow("tx_count")))
    ensures |block.txs| <= U32_MAX && |block.remoteEpochs| > U32_MAX ==>
              EncodeBlock(block) == Err(Frame(CountOverflow("remote_epoch_count")))
  {
    hide EncodeAll;
  }

  /** A callback flag other than 0 and 1 is refused by its value, and a remote
      epoch without messages as such. */
  lemma RecordErrors(b: Bytes)
    ensures b != [] && b[0] > 1 ==> DecodeCallback(b) == Err(Frame(InvalidCallbackFlag(b[0])))
    ensures |b| >= 60 && LeValue(b[56..60]) == 0 ==> DecodeRemoteEpoch(b) == Err(Frame(NoMessages))
  {
    if b != [] {
      assert b[..1] == [b[0]];
      assert LeValue([b[0]]) == b[0] by { assert [b[0]][1..] == []; }
    }
    if |b| >= 60 {
      if LeValue(b[56..60]) == 0 {
        EmptyEpoch(b);
      }
    }
  }

  lemma EmptyEpoch(b: Bytes)
    requires |b| >= 60 && LeValue(b[56..60]) == 0
    ensures DecodeRemoteEpoch(b) == Err(Frame(NoMessages))
  {
    hide LeValue;
    assert b[8..][8..] == b[16..] && b[16..][32..] == b[48..] && b[48..][8..] == b[56..];
    assert b[56..][..4] == b[56..60];
  }
}
