/** From posted payloads back to block frames. */
module Recovery {
  import opened Wrappers
  import opened Bytes
  import opened Errors
  import opened Kar1
  import opened Kar1Laws
  import opened Records
  import opened Seqs
  import opened Packer

  /** The zstd magic number 0xFD2FB528, little-endian (section 3.1.1 of
      RFC 8878). */
  predicate IsZstd(b: Bytes) {
    |b| >= 4 && b[0] == 0x28 && b[1] == 0xB5 && b[2] == 0x2F && b[3] == 0xFD
  }

  /** What the batcher relies on zstd for: a compressed stream carries the
      magic and expands to its input. */
  ghost predicate ZstdSound(z: Zstd) {
    forall b :: z.compress(b).Some? ==>
      && [0x28, 0xB5, 0x2F, 0xFD] <= z.compress(b).value
      && z.decompress(z.compress(b).value) == Some(b)
  }

  function Reconstruct(z: Zstd, payload: Bytes): Outcome<seq<BlockFrame>> {
    var framed :- if IsZstd(payload) then z.DecodeZstd(payload) else Ok(payload);
    var p :- Decode(framed);
    Ok(p.blocks)
  }

  /** Fetch every batch by its certificate, in order, and join the blocks. */
  function RecoverBlocks(z: Zstd, certs: seq<Bytes>, fetch: Bytes -> Outcome<Bytes>): Outcome<seq<BlockFrame>> {
    var batches :- Collect(Map(cert => RecoverOne(z, fetch, cert), certs));
    Ok(Flatten(batches))
  }

  function RecoverOne(z: Zstd, fetch: Bytes -> Outcome<Bytes>, cert: Bytes): Outcome<seq<BlockFrame>> {
    var payload :- fetch(cert);
    Reconstruct(z, payload)
  }

  /** A packed batch reconstructs to the frames of its blocks, compressed or
      not: a bare frame never looks like a zstd stream. */
  lemma PackedBatchReconstructs(cfg: BatcherConfig, group: seq<ClosedBlock>)
    requires ZstdSound(cfg.zstd) && PackBlocks(cfg, group).Ok?
    ensures Reconstruct(cfg.zstd, PackBlocks(cfg, group).value.payload) == Ok(Map(FrameOf, group))
    ensures FramesCarry(Reconstruct(cfg.zstd, PackBlocks(cfg, group).value.payload).value, group)
  {
    hide Encode;
    hide Decode;
    hide FramesCarry;
    hide PackBlocks;
    BuiltFramesCarry(group);
    BatchDescribesItsGroup(cfg, group);
    var p := BuildPayload(group);
    var framed := Encode(p).value;
    FramedStartsWithMagic(p);
    PayloadRoundTrip(p, []);
    assert framed + [] == framed;
  }

  lemma FramedStartsWithMagic(p: Kar1Payload)
    requires Encode(p).Ok?
    ensures !IsZstd(Encode(p).value)
  {
    hide EncodeAll;
  }

  /** Fetching the batches of any cut of `blocks` gives the frames of exactly
      those blocks, in order. */
  lemma RecoversPackedBlocks(cfg: BatcherConfig, blocks: seq<ClosedBlock>, groups: seq<seq<ClosedBlock>>,
                             batches: seq<PostedBatch>, certs: seq<Bytes>, fetch: Bytes -> Outcome<Bytes>)
    requires ZstdSound(cfg.zstd) && PackedAs(cfg, blocks, groups, batches)
    requires |certs| == |batches| && forall i :: 0 <= i < |certs| ==> fetch(certs[i]) == Ok(batches[i].payload)
    ensures RecoverBlocks(cfg.zstd, certs, fetch) == Ok(Map(FrameOf, blocks))
    ensures FramesCarry(RecoverBlocks(cfg.zstd, certs, fetch).value, blocks)
  {
    hide PackBlocks;
    hide Reconstruct;
    hide FramesCarry;
    BuiltFramesCarry(blocks);
    var parts := Map(g => Map(FrameOf, g), groups);
    var results := Map(cert => RecoverOne(cfg.zstd, fetch, cert), certs);
    forall i | 0 <= i < |groups| ensures results[i] == Ok(parts[i]) {
      PackedBatchReconstructs(cfg, groups[i]);
    }
    CollectOk(results);
    assert Collect(results).value == parts;
    FlattenMap(FrameOf, groups);
  }

  /** Whatever a list of blocks packs to without error, fetching the batches in
      order gives exactly the frames of all the blocks. */
  lemma PackThenRecover(cfg: BatcherConfig, blocks: seq<ClosedBlock>, certs: seq<Bytes>, fetch: Bytes -> Outcome<Bytes>)
    requires ZstdSound(cfg.zstd) && PackBlockGroups(cfg, blocks).Ok?
    requires |certs| == |PackBlockGroups(cfg, blocks).value|
    requires forall i :: 0 <= i < |certs| ==> fetch(certs[i]) == Ok(PackBlockGroups(cfg, blocks).value[i].payload)
    ensures RecoverBlocks(cfg.zstd, certs, fetch) == Ok(Map(FrameOf, blocks))
    ensures FramesCarry(RecoverBlocks(cfg.zstd, certs, fetch).value, blocks)
  {
    hide RecoverBlocks;
    hide PackBlockGroups;
    hide FramesCarry;
    PackedGroupsAreTheBlocks(cfg, blocks);
    RecoversPackedBlocks(cfg, blocks, Groups(cfg, blocks), PackBlockGroups(cfg, blocks).value, certs, fetch);
  }

  /** Recovery succeeds exactly when every batch can be fetched and
      reconstructed. */
  lemma RecoversIff(z: Zstd, certs: seq<Bytes>, fetch: Bytes -> Outcome<Bytes>)
    ensures RecoverBlocks(z, certs, fetch).Ok? <==>
              forall i :: 0 <= i < |certs| ==> fetch(certs[i]).Ok? && Reconstruct(z, fetch(certs[i]).value).Ok?
  {
    hide Reconstruct;
    CollectOk(Map(cert => RecoverOne(z, fetch, cert), certs));
  }

  /** Otherwise the first batch that cannot gives the error. */
  lemma RecoveryStopsAt(z: Zstd, certs: seq<Bytes>, fetch: Bytes -> Outcome<Bytes>, i: nat)
    requires i < |certs|
    requires forall k :: 0 <= k < i ==> fetch(certs[k]).Ok? && Reconstruct(z, fetch(certs[k]).value).Ok?
    ensures fetch(certs[i]).Err? ==> RecoverBlocks(z, certs, fetch) == Err(fetch(certs[i]).error)
    ensures fetch(certs[i]).Ok? && Reconstruct(z, fetch(certs[i]).value).Err? ==>
              RecoverBlocks(z, certs, fetch) == Err(Reconstruct(z, fetch(certs[i]).value).error)
  {
    hide Reconstruct;
    var results := Map(cert => RecoverOne(z, fetch, cert), certs);
    assert forall k :: 0 <= k < i ==> results[k].Ok?;
    if results[i].Err? {
      CollectErr(results, i);
    }
  }

  /** A payload is read as zstd exactly behind the zstd magic, and otherwise as
      a bare frame. */
  lemma ReconstructReads(z: Zstd, payload: Bytes)
    ensures !([0x28, 0xB5, 0x2F, 0xFD] <= payload) ==>
              Reconstruct(z, payload) == if Decode(payload).Ok? then Ok(Decode(payload).value.blocks)
                                         else Err(Decode(payload).error)
    ensures [0x28, 0xB5, 0x2F, 0xFD] <= payload && z.decompress(payload).None? ==>
              Reconstruct(z, payload) == Err(Compress)
    ensures [0x28, 0xB5, 0x2F, 0xFD] <= payload && z.decompress(payload).Some? ==>
              var framed := z.decompress(payload).value;
              Reconstruct(z, payload) == if Decode(framed).Ok? then Ok(Decode(framed).value.blocks)
                                         else Err(Decode(framed).error)
  {
    hide Decode;
    assert [0x28, 0xB5, 0x2F, 0xFD] <= payload <==> IsZstd(payload);
  }
}
