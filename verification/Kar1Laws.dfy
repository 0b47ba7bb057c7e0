/** The laws of the KAR1 byte form: `Decode` undoes `Encode` under any tail,
    every accepted byte string is the encoding of what it decodes to, and the
    bytes each element consumes bound the decoder's capacity hints. */
module Kar1Laws {
  import opened Wrappers
  import opened Bytes
  import opened Kar1
  import opened Seqs

  // ----- decoding what was encoded

  lemma TakeOf(a: Bytes, t: Bytes)
    ensures Take(|a|, a + t) == Ok((a, t))
  {
  }

  lemma ReadLeOf(w: nat, n: nat, t: Bytes)
    requires n < Pow256(w)
    ensures ReadLe(w, Le(w, n) + t) == Ok((n, t))
  {
    TakeOf(Le(w, n), t);
    LeRoundTrip(w, n);
  }

  lemma ReadByteOf(n: byte, t: Bytes)
    ensures ReadLe(1, [n] + t) == Ok((n, t))
  {
    ReadLeOf(1, n, t);
    assert Le(1, n) == [n];
  }

  lemma TxRoundTrip(tx: TxFrame, t: Bytes)
    requires EncodeTx(tx).Ok?
    ensures DecodeTx(EncodeTx(tx).value + t) == Ok((tx, t))
  {
    var b4 := tx.rawTx + t;
    var b3 := Le(4, |tx.rawTx|) + b4;
    var b2 := tx.txHash + b3;
    var b1 := tx.sender + b2;
    assert EncodeTx(tx).value + t == Le(8, tx.correlationId) + b1;
    ReadLeOf(8, tx.correlationId, b1);
    TakeOf(tx.sender, b2);
    TakeOf(tx.txHash, b3);
    ReadLeOf(4, |tx.rawTx|, b4);
    TakeOf(tx.rawTx, t);
  }

  lemma CallbackRoundTrip(cb: Option<Callback>, t: Bytes)
    ensures DecodeCallback(CallbackBytes(cb) + t) == Ok((cb, t))
  {
    match cb {
      case None =>
        ReadByteOf(0, t);
      case Some(c) =>
        var b2 := c.context + t;
        var b1 := Le(8, c.gasLimit) + b2;
        var b0 := c.target + b1;
        assert CallbackBytes(cb) + t == [1] + b0;
        ReadByteOf(1, b0);
        TakeOf(c.target, b1);
        ReadLeOf(8, c.gasLimit, b2);
        TakeOf(c.context, t);
    }
  }

  lemma MessageRoundTrip(m: XChainMessage, t: Bytes)
    requires EncodeMessage(m).Ok?
    ensures DecodeMessage(EncodeMessage(m).value + t) == Ok((m, t))
  {
    var b8 := CallbackBytes(m.callback) + t;
    var b7 := m.input + b8;
    var b6 := Le(4, |m.input|) + b7;
    var b5 := [m.hops] + b6;
    var b4 := Le(8, m.gasLimit) + b5;
    var b3 := Le(16, m.value) + b4;
    var b2 := m.target + b3;
    var b1 := m.originSender + b2;
    var b0 := Le(8, m.seqNo) + b1;
    assert EncodeMessage(m).value + t == m.sourceHash + b0;
    TakeOf(m.sourceHash, b0);
    ReadLeOf(8, m.seqNo, b1);
    TakeOf(m.originSender, b2);
    TakeOf(m.target, b3);
    ReadLeOf(16, m.value, b4);
    ReadLeOf(8, m.gasLimit, b5);
    ReadByteOf(m.hops, b6);
    ReadLeOf(4, |m.input|, b7);
    TakeOf(m.input, b8);
    CallbackRoundTrip(m.callback, t);
  }

  ghost predicate ReadsBack<T(!new)>(enc: Encoder<T>, dec: Decoder<T>, x: T) {
    enc(x).Ok? ==> forall t: Bytes :: dec(enc(x).value + t) == Ok((x, t))
  }

  lemma {:induction false} ManyRoundTrip<T(!new)>(enc: Encoder<T>, dec: Decoder<T>, xs: seq<T>, t: Bytes)
    requires forall i :: 0 <= i < |xs| ==> ReadsBack(enc, dec, xs[i])
    requires EncodeAll(enc, xs).Ok?
    ensures DecodeMany(dec, |xs|, EncodeAll(enc, xs).value + t) == Ok((xs, t))
  {
    if xs == [] {
      assert EncodeAll(enc, xs).value + t == t;
    } else {
      var head, tail := enc(xs[0]).value, EncodeAll(enc, xs[1..]).value;
      ManyRoundTrip(enc, dec, xs[1..], t);
      Assoc(head, tail, t);
      assert ReadsBack(enc, dec, xs[0]);
      assert [xs[0]] + xs[1..] == xs;
    }
  }

  lemma RemoteEpochRoundTrip(rec: RemoteEpochRecord, t: Bytes)
    requires EncodeRemoteEpoch(rec).Ok?
    ensures DecodeRemoteEpoch(EncodeRemoteEpoch(rec).value + t) == Ok((rec, t))
  {
    var items := rec.messages.Items();
    var b4 := EncodeAll(EncodeMessage, items).value + t;
    var b3 := Le(4, |items|) + b4;
    var b2 := Le(8, rec.firstSeq) + b3;
    var b1 := rec.anchorHash + b2;
    var b0 := Le(8, rec.anchorNumber) + b1;
    assert EncodeRemoteEpoch(rec).value + t == Le(8, rec.originChainId) + b0 by {
      assert forall c: Bytes :: [] + c == c;
      Assoc7([], Le(8, rec.originChainId), Le(8, rec.anchorNumber), rec.anchorHash, Le(8, rec.firstSeq),
             Le(4, |items|), EncodeAll(EncodeMessage, items).value, t);
    }
    ReadLeOf(8, rec.originChainId, b0);
    ReadLeOf(8, rec.anchorNumber, b1);
    TakeOf(rec.anchorHash, b2);
    ReadLeOf(8, rec.firstSeq, b3);
    ReadLeOf(4, |items|, b4);
    forall i | 0 <= i < |items| ensures ReadsBack(EncodeMessage, DecodeMessage, items[i]) {
      MessagesReadBack(items[i]);
    }
    ManyRoundTrip(EncodeMessage, DecodeMessage, items, t);
    assert items[1..] == rec.messages.rest;
  }

  lemma MessagesReadBack(m: XChainMessage)
    ensures ReadsBack(EncodeMessage, DecodeMessage, m)
  {
    if EncodeMessage(m).Ok? {
      forall t: Bytes ensures DecodeMessage(EncodeMessage(m).value + t) == Ok((m, t)) {
        MessageRoundTrip(m, t);
      }
    }
  }

  lemma RemoteEpochsReadBack(rec: RemoteEpochRecord)
    ensures ReadsBack(EncodeRemoteEpoch, DecodeRemoteEpoch, rec)
  {
    if EncodeRemoteEpoch(rec).Ok? {
      forall t: Bytes ensures DecodeRemoteEpoch(EncodeRemoteEpoch(rec).value + t) == Ok((rec, t)) {
        RemoteEpochRoundTrip(rec, t);
      }
    }
  }

  lemma TxsReadBack(tx: TxFrame)
    ensures ReadsBack(EncodeTx, DecodeTx, tx)
  {
    if EncodeTx(tx).Ok? {
      forall t: Bytes ensures DecodeTx(EncodeTx(tx).value + t) == Ok((tx, t)) {
        TxRoundTrip(tx, t);
      }
    }
  }

  predicate InLayout(layout: BlockLayout, block: BlockFrame) {
    block.cursor.Some? <==> layout == WithCursorLayout
  }

  lemma CursorRoundTrip(layout: BlockLayout, cursor: Option<BlockCursor>, t: Bytes)
    requires cursor.Some? <==> layout == WithCursorLayout
    ensures DecodeCursor(layout, CursorBytes(cursor) + t) == Ok((cursor, t))
  {
    match cursor {
      case None =>
        assert CursorBytes(cursor) + t == t;
      case Some(c) =>
        assert CursorBytes(cursor) + t == Le(8, c.endTxIdx) + (Le(8, c.l1Origin) + t);
        ReadLeOf(8, c.endTxIdx, Le(8, c.l1Origin) + t);
        ReadLeOf(8, c.l1Origin, t);
    }
  }

  lemma Assoc7(a: Bytes, b: Bytes, c: Bytes, d: Bytes, e: Bytes, f: Bytes, g: Bytes, t: Bytes)
    ensures (a + (b + (c + (d + (e + (f + g)))))) + t == a + (b + (c + (d + (e + (f + (g + t))))))
  {
    Assoc(a, b + (c + (d + (e + (f + g)))), t);
    Assoc(b, c + (d + (e + (f + g))), t);
    Assoc(c, d + (e + (f + g)), t);
    Assoc(d, e + (f + g), t);
    Assoc(e, f + g, t);
    Assoc(f, g, t);
  }

  lemma BlockRoundTrip(layout: BlockLayout, block: BlockFrame, t: Bytes)
    requires EncodeBlock(block).Ok? && InLayout(layout, block)
    ensures DecodeBlock(layout, EncodeBlock(block).value + t) == Ok((block, t))
  {
    var epochs, txs := EncodeAll(EncodeRemoteEpoch, block.remoteEpochs).value, EncodeAll(EncodeTx, block.txs).value;
    var b5 := txs + t;
    var b4 := Le(4, |block.txs|) + b5;
    var b3 := epochs + b4;
    var b2 := Le(4, |block.remoteEpochs|) + b3;
    var b1 := CursorBytes(block.cursor) + b2;
    var b0 := Le(8, block.l2Timestamp) + b1;
    Assoc7(Le(8, block.blockNumber), Le(8, block.l2Timestamp), CursorBytes(block.cursor),
           Le(4, |block.remoteEpochs|), epochs, Le(4, |block.txs|), txs, t);
    ReadLeOf(8, block.blockNumber, b0);
    ReadLeOf(8, block.l2Timestamp, b1);
    CursorRoundTrip(layout, block.cursor, b2);
    ReadLeOf(4, |block.remoteEpochs|, b3);
    BlockListsRoundTrip(block, b4, t);
    ReadLeOf(4, |block.txs|, b5);
  }

  lemma BlockListsRoundTrip(block: BlockFrame, t1: Bytes, t2: Bytes)
    requires EncodeAll(EncodeRemoteEpoch, block.remoteEpochs).Ok? && EncodeAll(EncodeTx, block.txs).Ok?
    ensures DecodeMany(DecodeRemoteEpoch, |block.remoteEpochs|,
                       EncodeAll(EncodeRemoteEpoch, block.remoteEpochs).value + t1)
            == Ok((block.remoteEpochs, t1))
    ensures DecodeMany(DecodeTx, |block.txs|, EncodeAll(EncodeTx, block.txs).value + t2)
            == Ok((block.txs, t2))
  {
    forall i | 0 <= i < |block.remoteEpochs|
      ensures ReadsBack(EncodeRemoteEpoch, DecodeRemoteEpoch, block.remoteEpochs[i])
    {
      RemoteEpochsReadBack(block.remoteEpochs[i]);
    }
    forall i | 0 <= i < |block.txs| ensures ReadsBack(EncodeTx, DecodeTx, block.txs[i]) {
      TxsReadBack(block.txs[i]);
    }
    ManyRoundTrip(EncodeRemoteEpoch, DecodeRemoteEpoch, block.remoteEpochs, t1);
    ManyRoundTrip(EncodeTx, DecodeTx, block.txs, t2);
  }

  lemma BlocksReadBack(layout: BlockLayout, block: BlockFrame)
    requires InLayout(layout, block)
    ensures ReadsBack(EncodeBlock, BlockDecoder(layout), block)
  {
    if EncodeBlock(block).Ok? {
      forall t: Bytes ensures BlockDecoder(layout)(EncodeBlock(block).value + t) == Ok((block, t)) {
        BlockRoundTrip(layout, block, t);
      }
    }
  }

  // ----- the payload

  /** A payload encodes only when every block carries a cursor or none does,
      and the version it writes is the layout of every block. */
  lemma {:induction false} VersionIsLayout(blocks: seq<BlockFrame>)
    ensures WithCursor(blocks) == |blocks| <==> forall i :: 0 <= i < |blocks| ==> blocks[i].cursor.Some?
    ensures WithCursor(blocks) == 0 <==> forall i :: 0 <= i < |blocks| ==> blocks[i].cursor.None?
  {
    if blocks != [] {
      VersionIsLayout(blocks[..|blocks| - 1]);
    }
  }

  function LayoutOfPayload(p: Kar1Payload): BlockLayout {
    if WithCursor(p.blocks) == |p.blocks| then WithCursorLayout else NoCursor
  }

  lemma HeaderRoundTrip(layout: BlockLayout, version: byte, flags: byte, count: nat, reserved: nat, t: Bytes)
    requires LayoutOf(version) == Ok(layout) && count <= U32_MAX && reserved < 0x1_0000
    ensures DecodeHeader(MAGIC + ([version] + ([flags] + (Le(4, count) + (Le(2, reserved) + t)))))
            == Ok((Header(layout, flags, count, reserved), t))
  {
    var b3 := Le(2, reserved) + t;
    var b2 := Le(4, count) + b3;
    var b1 := [flags] + b2;
    var b0 := [version] + b1;
    TakeOf(MAGIC, b0);
    ReadByteOf(version, b1);
    ReadByteOf(flags, b2);
    ReadLeOf(4, count, b3);
    ReadLeOf(2, reserved, t);
  }

  lemma PayloadForm(p: Kar1Payload, t: Bytes)
    requires Encode(p).Ok?
    ensures Encode(p).value + t
            == MAGIC + ([VersionOf(p).value] + ([FlagsOf(p.compressed)] + (Le(4, |p.blocks|)
               + (Le(2, 0) + (EncodeAll(EncodeBlock, p.blocks).value + t)))))
  {
    Assoc7([], MAGIC, [VersionOf(p).value], [FlagsOf(p.compressed)], Le(4, |p.blocks|), Le(2, 0),
           EncodeAll(EncodeBlock, p.blocks).value, t);
    assert forall b: Bytes :: [] + b == b;
  }

  /** `Decode` undoes `Encode` under any tail, and leaves exactly the tail. */
  lemma PayloadRoundTrip(p: Kar1Payload, t: Bytes)
    requires Encode(p).Ok?
    ensures DecodePrefix(Encode(p).value + t) == Ok((p, t))
    ensures Decode(Encode(p).value + t) == Ok(p)
  {
    VersionIsLayout(p.blocks);
    var layout, version := LayoutOfPayload(p), VersionOf(p).value;
    var blocks := EncodeAll(EncodeBlock, p.blocks).value;
    PayloadForm(p, t);
    HeaderRoundTrip(layout, version, FlagsOf(p.compressed), |p.blocks|, 0, blocks + t);
    forall i | 0 <= i < |p.blocks| ensures ReadsBack(EncodeBlock, BlockDecoder(layout), p.blocks[i]) {
      BlocksReadBack(layout, p.blocks[i]);
    }
    ManyRoundTrip(EncodeBlock, BlockDecoder(layout), p.blocks, t);
  }

  /** No two payloads share an encoding, not even as a prefix. */
  lemma EncodeIsPrefixFree(p: Kar1Payload, q: Kar1Payload)
    requires Encode(p).Ok? && Encode(q).Ok?
    requires Encode(p).value <= Encode(q).value
    ensures p == q
  {
    var tail := Encode(q).value[|Encode(p).value|..];
    PayloadRoundTrip(p, tail);
    PayloadRoundTrip(q, []);
    assert Encode(p).value + tail == Encode(q).value == Encode(q).value + [];
  }

  ghost predicate FrameErrors<T(!new)>(enc: Encoder<T>) {
    forall x :: enc(x).Err? ==> enc(x).error.Frame?
  }

  lemma {:induction false} AllFrameErrors<T(!new)>(enc: Encoder<T>, xs: seq<T>)
    requires FrameErrors(enc)
    ensures EncodeAll(enc, xs).Err? ==> EncodeAll(enc, xs).error.Frame?
  {
    if xs != [] {
      AllFrameErrors(enc, xs[1..]);
    }
  }

  lemma BlockErrorIsFrame(block: BlockFrame)
    ensures EncodeBlock(block).Err? ==> EncodeBlock(block).error.Frame?
  {
    forall rec: RemoteEpochRecord ensures EncodeRemoteEpoch(rec).Err? ==> EncodeRemoteEpoch(rec).error.Frame? {
      AllFrameErrors(EncodeMessage, rec.messages.Items());
    }
    AllFrameErrors(EncodeRemoteEpoch, block.remoteEpochs);
    AllFrameErrors(EncodeTx, block.txs);
  }

  /** Encoding fails only with a frame error. */
  lemma EncodeErrorIsFrame(p: Kar1Payload)
    ensures Encode(p).Err? ==> Encode(p).error.Frame?
  {
    hide EncodeBlock;
    forall block: BlockFrame ensures EncodeBlock(block).Err? ==> EncodeBlock(block).error.Frame? {
      BlockErrorIsFrame(block);
    }
    AllFrameErrors(EncodeBlock, p.blocks);
  }

  // ----- encoding what was decoded

  lemma TakeWrites(n: nat, b: Bytes)
    ensures Take(n, b).Ok? ==>
              |Take(n, b).value.0| == n && b == Take(n, b).value.0 + Take(n, b).value.1
  {
  }

  lemma ReadLeWrites(w: nat, b: Bytes)
    ensures ReadLe(w, b).Ok? ==> b == Le(w, ReadLe(w, b).value.0) + ReadLe(w, b).value.1
  {
    TakeWrites(w, b);
    if w <= |b| {
      LeCanonical(b[..w]);
    }
  }

  /** `dec` consumed exactly the bytes that `enc` writes for its result. */
  ghost predicate WritesBack<T(!new)>(enc: Encoder<T>, dec: Decoder<T>, b: Bytes) {
    dec(b).Ok? ==>
      var (x, rest) := dec(b).value;
      enc(x).Ok? && b == enc(x).value + rest
  }

  lemma TxWritesBack(b: Bytes)
    ensures WritesBack(EncodeTx, DecodeTx, b)
  {
    if DecodeTx(b).Ok? {
      var (id, b1) := ReadLe(8, b).value;
      var (sender, b2) := Take(20, b1).value;
      var (hash, b3) := Take(32, b2).value;
      var (len, b4) := ReadLe(4, b3).value;
      var (raw, t) := Take(len, b4).value;
      ReadLeWrites(8, b);
      TakeWrites(20, b1);
      TakeWrites(32, b2);
      ReadLeWrites(4, b3);
      TakeWrites(len, b4);
      assert b == (Le(8, id) + (sender + (hash + (Le(4, len) + raw)))) + t by {
        hide *;
        Assoc5(Le(8, id), sender, hash, Le(4, len), raw, t);
      }
    }
  }

  lemma Assoc5(a: Bytes, b: Bytes, c: Bytes, d: Bytes, e: Bytes, t: Bytes)
    ensures (a + (b + (c + (d + e)))) + t == a + (b + (c + (d + (e + t))))
  {
  }

  lemma CallbackWritesBack(b: Bytes)
    ensures DecodeCallback(b).Ok? ==>
              b == CallbackBytes(DecodeCallback(b).value.0) + DecodeCallback(b).value.1
  {
    if DecodeCallback(b).Ok? {
      ReadLeWrites(1, b);
      var (flag, b1) := ReadLe(1, b).value;
      assert Le(1, flag) == [flag];
      if flag == 1 {
        var (target, b2) := Take(20, b1).value;
        var (gas, b3) := ReadLe(8, b2).value;
        var (context, t) := Take(32, b3).value;
        assert b2 == Le(8, gas) + (context + t) by { ReadLeWrites(8, b2); }
        Assoc7([], [], [], [1], target, Le(8, gas), context, t);
        assert forall c: Bytes :: [] + c == c;
      }
    }
  }

  lemma Assoc10(a: Bytes, b: Bytes, c: Bytes, d: Bytes, e: Bytes, f: Bytes, g: Bytes, h: Bytes, i: Bytes, j: Bytes,
                t: Bytes)
    ensures (a + (b + (c + (d + (e + (f + (g + (h + (i + j))))))))) + t
            == a + (b + (c + (d + (e + (f + (g + (h + (i + (j + t)))))))))
  {
    Assoc(a, b + (c + (d + (e + (f + (g + (h + (i + j))))))), t);
    Assoc(b, c + (d + (e + (f + (g + (h + (i + j)))))), t);
    Assoc(c, d + (e + (f + (g + (h + (i + j))))), t);
    Assoc7(d, e, f, g, h, i, j, t);
  }

  lemma MessageForm(m: XChainMessage, t: Bytes)
    requires EncodeMessage(m).Ok?
    ensures EncodeMessage(m).value + t
            == m.sourceHash + (Le(8, m.seqNo) + (m.originSender + (m.target + (Le(16, m.value) + (Le(8, m.gasLimit)
               + ([m.hops] + (Le(4, |m.input|) + (m.input + (CallbackBytes(m.callback) + t)))))))))
  {
    Assoc10(m.sourceHash, Le(8, m.seqNo), m.originSender, m.target, Le(16, m.value), Le(8, m.gasLimit), [m.hops],
            Le(4, |m.input|), m.input, CallbackBytes(m.callback), t);
  }

  lemma MessageWritesBack(b: Bytes)
    ensures WritesBack(EncodeMessage, DecodeMessage, b)
  {
    if DecodeMessage(b).Ok? {
      var (sourceHash, b1) := Take(32, b).value;
      var (seqNo, b2) := ReadLe(8, b1).value;
      var (sender, b3) := Take(20, b2).value;
      var (target, b4) := Take(20, b3).value;
      var (value, b5) := ReadLe(16, b4).value;
      var (gas, b6) := ReadLe(8, b5).value;
      var (hops, b7) := ReadLe(1, b6).value;
      var (len, b8) := ReadLe(4, b7).value;
      var (input, b9) := Take(len, b8).value;
      var (callback, t) := DecodeCallback(b9).value;
      assert b == sourceHash + (Le(8, seqNo) + b2) by { TakeWrites(32, b); ReadLeWrites(8, b1); }
      assert b2 == sender + (target + b4) by { TakeWrites(20, b2); TakeWrites(20, b3); }
      MessageTailWritesBack(b4);
      MessageForm(DecodeMessage(b).value.0, t);
    }
  }

  /** The fields of a message from its value on. */
  lemma MessageTailWritesBack(b4: Bytes)
    requires ReadLe(16, b4).Ok?
    requires var b5 := ReadLe(16, b4).value.1; ReadLe(8, b5).Ok?
    requires var b6 := ReadLe(8, ReadLe(16, b4).value.1).value.1; ReadLe(1, b6).Ok?
    requires var b7 := ReadLe(1, ReadLe(8, ReadLe(16, b4).value.1).value.1).value.1; ReadLe(4, b7).Ok?
    ensures
      var (value, b5) := ReadLe(16, b4).value;
      var (gas, b6) := ReadLe(8, b5).value;
      var (hops, b7) := ReadLe(1, b6).value;
      var (len, b8) := ReadLe(4, b7).value;
      && b4 == Le(16, value) + (Le(8, gas) + ([hops] + (Le(4, len) + b8)))
      && (Take(len, b8).Ok? && DecodeCallback(Take(len, b8).value.1).Ok? ==>
            var (input, b9) := Take(len, b8).value;
            var (callback, t) := DecodeCallback(b9).value;
            b8 == input + (CallbackBytes(callback) + t))
  {
    hide DecodeCallback;
    var (value, b5) := ReadLe(16, b4).value;
    var (gas, b6) := ReadLe(8, b5).value;
    var (hops, b7) := ReadLe(1, b6).value;
    var (len, b8) := ReadLe(4, b7).value;
    assert b4 == Le(16, value) + (Le(8, gas) + b6) by { ReadLeWrites(16, b4); ReadLeWrites(8, b5); }
    assert b6 == [hops] + (Le(4, len) + b8) by { ReadLeWrites(1, b6); assert Le(1, hops) == [hops]; ReadLeWrites(4, b7); }
    if Take(len, b8).Ok? && DecodeCallback(Take(len, b8).value.1).Ok? {
      TakeWrites(len, b8);
      CallbackWritesBack(Take(len, b8).value.1);
    }
  }

  lemma {:induction false} ManyWritesBack<T(!new)>(enc: Encoder<T>, dec: Decoder<T>, n: nat, b: Bytes)
    requires forall c: Bytes :: WritesBack(enc, dec, c)
    requires DecodeMany(dec, n, b).Ok?
    ensures
      var (xs, rest) := DecodeMany(dec, n, b).value;
      EncodeAll(enc, xs).Ok? && b == EncodeAll(enc, xs).value + rest
  {
    if n == 0 {
      assert [] + b == b;
    } else {
      assert WritesBack(enc, dec, b);
      var (x, mid) := dec(b).value;
      ManyWritesBack(enc, dec, n - 1, mid);
      var (xs, rest) := DecodeMany(dec, n - 1, mid).value;
      Assoc(enc(x).value, EncodeAll(enc, xs).value, rest);
      assert ([x] + xs)[1..] == xs;
    }
  }

  lemma RemoteEpochWritesBack(b: Bytes)
    ensures WritesBack(EncodeRemoteEpoch, DecodeRemoteEpoch, b)
  {
    if DecodeRemoteEpoch(b).Ok? {
      var (chain, b1) := ReadLe(8, b).value;
      var (anchor, b2) := ReadLe(8, b1).value;
      var (hash, b3) := Take(32, b2).value;
      var (first, b4) := ReadLe(8, b3).value;
      var (count, b5) := ReadLe(4, b4).value;
      var (messages, t) := DecodeMany(DecodeMessage, count, b5).value;
      ReadLeWrites(8, b);
      ReadLeWrites(8, b1);
      TakeWrites(32, b2);
      ReadLeWrites(8, b3);
      ReadLeWrites(4, b4);
      forall c: Bytes ensures WritesBack(EncodeMessage, DecodeMessage, c) {
        MessageWritesBack(c);
      }
      ManyWritesBack(EncodeMessage, DecodeMessage, count, b5);
      assert NonEmptyVec(messages[0], messages[1..]).Items() == messages;
      assert forall c: Bytes :: [] + c == c;
      Assoc7([], Le(8, chain), Le(8, anchor), hash, Le(8, first), Le(4, count),
             EncodeAll(EncodeMessage, messages).value, t);
    }
  }

  lemma CursorWritesBack(layout: BlockLayout, b: Bytes)
    requires DecodeCursor(layout, b).Ok?
    ensures
      var (cursor, rest) := DecodeCursor(layout, b).value;
      b == CursorBytes(cursor) + rest && (cursor.Some? <==> layout == WithCursorLayout)
  {
    if layout == NoCursor {
      assert [] + b == b;
    } else {
      var (endTxIdx, b1) := ReadLe(8, b).value;
      ReadLeWrites(8, b);
      ReadLeWrites(8, b1);
    }
  }

  lemma BlockWritesBack(layout: BlockLayout, b: Bytes)
    ensures WritesBack(EncodeBlock, BlockDecoder(layout), b)
    ensures DecodeBlock(layout, b).Ok? ==> InLayout(layout, DecodeBlock(layout, b).value.0)
  {
    if DecodeBlock(layout, b).Ok? {
      var (number, b1) := ReadLe(8, b).value;
      var (stamp, b2) := ReadLe(8, b1).value;
      var (cursor, b3) := DecodeCursor(layout, b2).value;
      var (epochCount, b4) := ReadLe(4, b3).value;
      var (epochs, b5) := DecodeMany(DecodeRemoteEpoch, epochCount, b4).value;
      var (txCount, b6) := ReadLe(4, b5).value;
      var (txs, t) := DecodeMany(DecodeTx, txCount, b6).value;
      ReadLeWrites(8, b);
      ReadLeWrites(8, b1);
      CursorWritesBack(layout, b2);
      ReadLeWrites(4, b3);
      BlockListsWriteBack(epochCount, b4, txCount, b6);
      ReadLeWrites(4, b5);
      Assoc7(Le(8, number), Le(8, stamp), CursorBytes(cursor), Le(4, epochCount),
             EncodeAll(EncodeRemoteEpoch, epochs).value, Le(4, txCount), EncodeAll(EncodeTx, txs).value, t);
    }
  }

  lemma BlockListsWriteBack(n1: nat, b1: Bytes, n2: nat, b2: Bytes)
    requires DecodeMany(DecodeRemoteEpoch, n1, b1).Ok? && DecodeMany(DecodeTx, n2, b2).Ok?
    ensures
      var (epochs, rest) := DecodeMany(DecodeRemoteEpoch, n1, b1).value;
      EncodeAll(EncodeRemoteEpoch, epochs).Ok? && b1 == EncodeAll(EncodeRemoteEpoch, epochs).value + rest
    ensures
      var (txs, rest) := DecodeMany(DecodeTx, n2, b2).value;
      EncodeAll(EncodeTx, txs).Ok? && b2 == EncodeAll(EncodeTx, txs).value + rest
  {
    forall c: Bytes ensures WritesBack(EncodeRemoteEpoch, DecodeRemoteEpoch, c) {
      RemoteEpochWritesBack(c);
    }
    forall c: Bytes ensures WritesBack(EncodeTx, DecodeTx, c) {
      TxWritesBack(c);
    }
    ManyWritesBack(EncodeRemoteEpoch, DecodeRemoteEpoch, n1, b1);
    ManyWritesBack(EncodeTx, DecodeTx, n2, b2);
  }

  lemma {:induction false} ManySatisfy<T(!new)>(dec: Decoder<T>, p: T -> bool, n: nat, b: Bytes)
    requires forall c: Bytes :: dec(c).Ok? ==> p(dec(c).value.0)
    requires DecodeMany(dec, n, b).Ok?
    ensures forall i :: 0 <= i < n ==> p(DecodeMany(dec, n, b).value.0[i])
  {
    if n > 0 {
      ManySatisfy(dec, p, n - 1, dec(b).value.1);
    }
  }

  lemma HeaderWritesBack(b: Bytes)
    requires DecodeHeader(b).Ok?
    ensures
      var (h, rest) := DecodeHeader(b).value;
      && h.count <= U32_MAX && h.reserved < 0x1_0000
      && b == MAGIC + ([if h.layout == NoCursor then VERSION_NO_CURSOR else VERSION]
                       + ([h.flags] + (Le(4, h.count) + (Le(2, h.reserved) + rest))))
  {
    var (magic, b1) := Take(4, b).value;
    var (version, b2) := ReadLe(1, b1).value;
    var (flags, b3) := ReadLe(1, b2).value;
    var (count, b4) := ReadLe(4, b3).value;
    TakeWrites(4, b);
    ReadLeWrites(1, b1);
    ReadLeWrites(1, b2);
    assert Le(1, version) == [version] && Le(1, flags) == [flags];
    ReadLeWrites(4, b3);
    ReadLeWrites(2, b4);
  }

  /** What `Decode` accepts but `Encode` never writes, read off the header:
      an unused flag bit, a reserved word, or the old version with no block. */
  predicate CanonicalHeader(h: Header) {
    h.flags <= 1 && h.reserved == 0 && (h.count == 0 ==> h.layout == WithCursorLayout)
  }

  /** Every decoded block has the layout of the version byte. */
  lemma DecodedLayout(b: Bytes)
    requires DecodePrefix(b).Ok?
    ensures forall i :: 0 <= i < |DecodePrefix(b).value.0.blocks| ==>
              (DecodePrefix(b).value.0.blocks[i].cursor.Some? <==> DecodeHeader(b).value.0.layout == WithCursorLayout)
  {
    hide DecodeHeader;
    hide DecodeBlock;
    var (h, body) := DecodeHeader(b).value;
    forall c: Bytes ensures DecodeBlock(h.layout, c).Ok? ==> InLayout(h.layout, DecodeBlock(h.layout, c).value.0) {
      BlockWritesBack(h.layout, c);
    }
    ManySatisfy(BlockDecoder(h.layout), block => InLayout(h.layout, block), h.count, body);
    var blocks := DecodePrefix(b).value.0.blocks;
    forall i | 0 <= i < |blocks| ensures blocks[i].cursor.Some? <==> h.layout == WithCursorLayout {
      assert InLayout(h.layout, blocks[i]);
    }
  }

  lemma DecodedBlocksEncode(b: Bytes)
    requires DecodePrefix(b).Ok?
    ensures
      var (h, body) := DecodeHeader(b).value;
      var (p, rest) := DecodePrefix(b).value;
      && EncodeAll(EncodeBlock, p.blocks).Ok? && body == EncodeAll(EncodeBlock, p.blocks).value + rest
      && |p.blocks| == h.count
      && VersionOf(p) == Ok(if h.count > 0 && h.layout == NoCursor then VERSION_NO_CURSOR else VERSION)
  {
    hide DecodeHeader;
    hide DecodeBlock;
    hide EncodeBlock;
    var (h, body) := DecodeHeader(b).value;
    var (p, rest) := DecodePrefix(b).value;
    forall c: Bytes ensures WritesBack(EncodeBlock, BlockDecoder(h.layout), c) {
      BlockWritesBack(h.layout, c);
    }
    ManyWritesBack(EncodeBlock, BlockDecoder(h.layout), h.count, body);
    DecodedLayout(b);
    VersionIsLayout(p.blocks);
    if h.count > 0 {
      assert p.blocks[0].cursor.Some? <==> h.layout == WithCursorLayout;
    }
  }

  lemma ReencodedForm(b: Bytes)
    requires DecodePrefix(b).Ok?
    ensures
      var (h, body) := DecodeHeader(b).value;
      var (p, rest) := DecodePrefix(b).value;
      && Encode(p).Ok?
      && Encode(p).value + rest
         == MAGIC + ([VersionOf(p).value] + ([FlagsOf(p.compressed)] + (Le(4, h.count) + (Le(2, 0) + body))))
  {
    DecodedBlocksEncode(b);
    HeaderWritesBack(b);
    PayloadForm(DecodePrefix(b).value.0, DecodePrefix(b).value.1);
  }

  lemma FlagBitCanonical(flags: byte)
    requires flags <= 1
    ensures FlagsOf(CompressedBit(flags)) == flags
  {
  }

  lemma CanonicalReencodes(b: Bytes, h: Header, body: Bytes, p: Kar1Payload, rest: Bytes)
    requires DecodeHeader(b) == Ok((h, body)) && CanonicalHeader(h)
    requires DecodePrefix(b) == Ok((p, rest))
    ensures Encode(p).Ok? && b == Encode(p).value + rest
  {
    var version := if h.layout == NoCursor then VERSION_NO_CURSOR else VERSION;
    assert VersionOf(p).value == version by { DecodedBlocksEncode(b); }
    assert FlagsOf(p.compressed) == h.flags by { FlagBitCanonical(h.flags); }
    assert b == MAGIC + ([version] + ([h.flags] + (Le(4, h.count) + (Le(2, 0) + body)))) by { HeaderWritesBack(b); }
    ReencodedForm(b);
  }

  lemma ReencodedIsCanonical(b: Bytes)
    requires DecodePrefix(b).Ok?
    requires
      var (p, rest) := DecodePrefix(b).value;
      Encode(p).Ok? && b == Encode(p).value + rest
    ensures CanonicalHeader(DecodeHeader(b).value.0)
  {
    var (h, body) := DecodeHeader(b).value;
    DecodedBlocksEncode(b);
    ReencodedForm(b);
    HeaderWritesBack(b);
    var version := VersionOf(DecodePrefix(b).value.0).value;
    HeaderRoundTrip(LayoutOf(version).value, version, FlagsOf(DecodePrefix(b).value.0.compressed), h.count, 0, body);
  }

  /** Re-encoding what was decoded always succeeds, and gives back the bytes
      `Decode` consumed exactly when the header is canonical. */
  lemma ReencodeIffCanonical(b: Bytes)
    requires DecodePrefix(b).Ok?
    ensures
      var (p, rest) := DecodePrefix(b).value;
      Encode(p).Ok? && (b == Encode(p).value + rest <==> CanonicalHeader(DecodeHeader(b).value.0))
  {
    var (p, rest) := DecodePrefix(b).value;
    ReencodedForm(b);
    if CanonicalHeader(DecodeHeader(b).value.0) {
      CanonicalReencodes(b, DecodeHeader(b).value.0, DecodeHeader(b).value.1, p, rest);
    }
    if b == Encode(p).value + rest {
      ReencodedIsCanonical(b);
    }
  }

  /** Such bytes: an empty payload whose flags byte is 2. */
  lemma FlagTwoIsNotReencoded()
    ensures
      var b := MAGIC + [VERSION, 2, 0, 0, 0, 0, 0, 0];
      && Decode(b) == Ok(Kar1Payload([], false))
      && Encode(Kar1Payload([], false)) == Ok(b[5 := 0]) && b[5 := 0] != b
  {
    var b := MAGIC + [VERSION, 2, 0, 0, 0, 0, 0, 0];
    assert b[5 := 0] == MAGIC + ([VERSION] + ([0] + (Le(4, 0) + (Le(2, 0) + []))));
    assert b == MAGIC + ([VERSION] + ([2] + (Le(4, 0) + (Le(2, 0) + []))));
    HeaderRoundTrip(WithCursorLayout, VERSION, 2, 0, 0, []);
  }

  // ----- bytes consumed and capacity hints

  const MIN_XCHAIN_MSG_BYTES := 110
  const MIN_BLOCK_FRAME_BYTES := 24
  const MIN_REMOTE_EPOCH_RECORD_BYTES := 60
  const MIN_TX_FRAME_BYTES := 64

  function CapacityHint(buf: Bytes, n: nat, minElemBytes: nat): (hint: nat)
    requires minElemBytes > 0
    ensures hint * minElemBytes <= |buf| && hint <= n
  {
    if n < |buf| / minElemBytes then n else |buf| / minElemBytes
  }

  ghost predicate Consumes<T(!new)>(dec: Decoder<T>, min: nat) {
    forall b: Bytes :: dec(b).Ok? ==> |dec(b).value.1| + min <= |b|
  }

  lemma {:induction false} ManyConsumes<T(!new)>(dec: Decoder<T>, min: nat, n: nat, b: Bytes)
    requires Consumes(dec, min) && DecodeMany(dec, n, b).Ok?
    ensures |DecodeMany(dec, n, b).value.1| + n * min <= |b|
  {
    if n > 0 {
      ManyConsumes(dec, min, n - 1, dec(b).value.1);
      assert n * min == (n - 1) * min + min;
    }
  }

  lemma TxConsumes()
    ensures Consumes(DecodeTx, MIN_TX_FRAME_BYTES)
  {
    forall b: Bytes | DecodeTx(b).Ok? ensures |DecodeTx(b).value.1| + MIN_TX_FRAME_BYTES <= |b| {
      TxWritesBack(b);
    }
  }

  lemma MessageConsumes()
    ensures Consumes(DecodeMessage, MIN_XCHAIN_MSG_BYTES)
  {
    forall b: Bytes | DecodeMessage(b).Ok? ensures |DecodeMessage(b).value.1| + MIN_XCHAIN_MSG_BYTES <= |b| {
      MessageWritesBack(b);
    }
  }

  lemma RemoteEpochConsumes()
    ensures Consumes(DecodeRemoteEpoch, MIN_REMOTE_EPOCH_RECORD_BYTES)
  {
    forall b: Bytes | DecodeRemoteEpoch(b).Ok?
      ensures |DecodeRemoteEpoch(b).value.1| + MIN_REMOTE_EPOCH_RECORD_BYTES <= |b|
    {
      RemoteEpochWritesBack(b);
    }
  }

  lemma BlockConsumes(layout: BlockLayout)
    ensures Consumes(BlockDecoder(layout), MIN_BLOCK_FRAME_BYTES)
  {
    forall b: Bytes | DecodeBlock(layout, b).Ok?
      ensures |DecodeBlock(layout, b).value.1| + MIN_BLOCK_FRAME_BYTES <= |b|
    {
      BlockWritesBack(layout, b);
    }
  }

  /** Whenever a counted section decodes, the hint taken at its start was the
      wire count: the buffer reserved is the buffer used. */
  lemma HintIsExact<T(!new)>(dec: Decoder<T>, min: nat, n: nat, b: Bytes)
    requires min > 0 && Consumes(dec, min) && DecodeMany(dec, n, b).Ok?
    ensures CapacityHint(b, n, min) == n
  {
    ManyConsumes(dec, min, n, b);
    QuotientAtLeast(|b|, min, n);
  }

  lemma QuotientAtLeast(total: nat, min: nat, n: nat)
    requires min > 0 && n * min <= total
    ensures total / min >= n
  {
    var q := total / min;
    assert n > q ==> (n - (q + 1)) * min >= 0;
  }

  /** Every counted section the decoder reads reserves exactly what it uses. */
  lemma EverySectionHintIsExact(layout: BlockLayout, n: nat, b: Bytes)
    ensures DecodeMany(BlockDecoder(layout), n, b).Ok? ==> CapacityHint(b, n, 24) == n
    ensures DecodeMany(DecodeRemoteEpoch, n, b).Ok? ==> CapacityHint(b, n, 60) == n
    ensures DecodeMany(DecodeMessage, n, b).Ok? ==> CapacityHint(b, n, 110) == n
    ensures DecodeMany(DecodeTx, n, b).Ok? ==> CapacityHint(b, n, 64) == n
  {
    hide DecodeBlock;
    hide DecodeRemoteEpoch;
    hide DecodeMessage;
    hide DecodeTx;
    hide Consumes;
    hide CapacityHint;
    BlockConsumes(layout);
    RemoteEpochConsumes();
    MessageConsumes();
    TxConsumes();
    if DecodeMany(BlockDecoder(layout), n, b).Ok? { HintIsExact(BlockDecoder(layout), MIN_BLOCK_FRAME_BYTES, n, b); }
    if DecodeMany(DecodeRemoteEpoch, n, b).Ok? { HintIsExact(DecodeRemoteEpoch, MIN_REMOTE_EPOCH_RECORD_BYTES, n, b); }
    if DecodeMany(DecodeMessage, n, b).Ok? { HintIsExact(DecodeMessage, MIN_XCHAIN_MSG_BYTES, n, b); }
    if DecodeMany(DecodeTx, n, b).Ok? { HintIsExact(DecodeTx, MIN_TX_FRAME_BYTES, n, b); }
  }
}
