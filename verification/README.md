# Kardamom in Dafny

A model of the parts of kardamom that decide whether data survives: the batcher that takes the canonical order from
archive files to L1 and back, the two account caches, the window and the source quorum of the L1 watcher, and the pool
checks of the canary.

| files | what they model |
|---|---|
| `Kar1`, `Kar1Laws`, `Kar1Offsets`, `FrameIo` | the KAR1 payload format: pure codec, its laws, its documented tables, and the writer and reader that work in place |
| `Packer`, `PackerLoops`, `PackerOptimal` | cutting blocks into batches under the payload ceiling |
| `Segment`, `Archives`, `Accumulator`, `OrderCut`, `TornOrder`, `Batcher`, `Recovery`, `Pipeline` | from segment files through the void scan, the block cut and the batcher to the blocks recovered from L1 |
| `Keys`, `Projection`, `ProjectionLaws`, `LiveCache`, `CacheAgreement` | the Redis projection, the local layer, and how they agree |
| `Window`, `Sources` | the unconfirmed epochs of the L1 watcher, and its reads from several sources |
| `Pool` | the constant-product pool: the formula, the event checks, and chains of events |
| `Wrappers`, `Bytes`, `Seqs`, `Errors`, `Records` | shared types and lemmas |

Code that changes state in place is a class or a method with loops, proved against a function on values; the theorems
are lemmas about those functions. Integers are unbounded in Dafny, so the source's widths are subset types
(`u32`, `u64`, `u128`, `u256`, `i32`), and checked or saturating operations are written out. The pool
module takes the number of values of a word as a parameter, 2^256 in the source, and its laws hold for every value.

What the model cannot see is a parameter: zstd and rkyv as functions with a soundness assumption (`ZstdSound`,
`Sound`), the receipt codec and the records commitment as functions, the sender's acceptance of a post, the
answers of L1 sources, the fetched payloads, and the time.

Where code and comments disagree, the model follows the code:

- `Kar1Payload::version` documents versions 3 and 2; it returns 5 and 4.
- `parse_tag` documents "none for anything else"; it accepts a leading plus sign.
- The local layer documents the monotone rule; it takes a row at position zero over another at position zero, which the
  script refuses.

Four properties hold only under a condition. Each has the exact condition and a failing case:

- A string that parses as a tag is a tag: `Keys.ParsesOnlyTagsUnlessPlus`, `Keys.PlusSignParses`.
- A decoded payload encodes back to its bytes: `Kar1Laws.ReencodeIffCanonical`, `Kar1Laws.FlagTwoIsNotReencoded`.
- One row keeps two equal layers equal: `CacheAgreement.RowKeepsLayersEqualIff`,
  `CacheAgreement.ZeroRewritePartsTheLayers`.
- A torn ordering file only loses transactions: `TornOrder.TornIsPrefixIff`, `TornOrder.TornVoidPostsItsRef`.

## Model

| member | source | states |
|---|---|---|
| Kar1Laws.PayloadRoundTrip | crates/batcher/src/frame.rs:169-187 | Whatever encodes decodes to the same payload, also with any bytes appended; the decoder stops exactly at the end of the frame. |
| Kar1Laws.EncodeIsPrefixFree | crates/batcher/src/frame.rs:169-187 | No encoding is a prefix of another payload's encoding; in particular encoding is injective. |
| Kar1Laws.EncodeErrorIsFrame | crates/batcher/src/frame.rs:150-187 | Encoding fails only with a frame error, never with the overflow that the packer would bisect on. |
| Kar1Laws.ReencodeIffCanonical | crates/batcher/src/frame.rs:320-341 | Everything that decodes can be encoded again, and the result is the consumed bytes if and only if the flags byte is 0 or 1, the reserved word is 0, and an empty payload does not claim version 4. |
| Kar1Laws.FlagTwoIsNotReencoded | crates/batcher/src/frame.rs:320-341 | The twelve bytes of an empty payload with flags byte 2 decode, and encode back with flags byte 0. |
| Kar1Laws.CanonicalReencodes | crates/batcher/src/frame.rs:320-341 | Under a canonical header the decoder consumes exactly the encoding of what it returns. |
| Kar1Laws.ReencodedIsCanonical | crates/batcher/src/frame.rs:320-341 | Conversely, bytes that re-encode to themselves had a canonical header. |
| Kar1Laws.VersionIsLayout | crates/batcher/src/frame.rs:147-163 | The version is decided by cursors: all blocks carry one, or none does. |
| Kar1Laws.BlockRoundTrip | crates/batcher/src/frame.rs:201-225 | A block read back in the layout of its cursor is the same block, and leaves what followed it. |
| Kar1Laws.RemoteEpochRoundTrip | crates/batcher/src/frame.rs:248-263 | The same for a remote epoch record and its messages. |
| Kar1Laws.MessageRoundTrip | crates/batcher/src/frame.rs:268-293 | The same for a cross-chain message, with and without a callback. |
| Kar1Laws.TxRoundTrip | crates/batcher/src/frame.rs:229-241 | The same for a transaction frame. |
| Kar1Laws.BlockWritesBack | crates/batcher/src/frame.rs:418-447 | A decoded block encodes back to exactly the bytes that were read. |
| Kar1Laws.RemoteEpochWritesBack | crates/batcher/src/frame.rs:478-499 | The same for a decoded remote epoch. |
| Kar1Laws.MessageWritesBack | crates/batcher/src/frame.rs:502-536 | The same for a decoded message; any other callback flag than 0 or 1 was refused. |
| Kar1Laws.TxWritesBack | crates/batcher/src/frame.rs:462-474 | The same for a decoded transaction. |
| Kar1Laws.DecodedBlocksEncode | crates/batcher/src/frame.rs:320-341 | Decoded blocks all have the layout of the version byte, so they encode without a mixed-cursor or count error. |
| Kar1Laws.CapacityHint | crates/batcher/src/frame.rs:379-381 | The reservation is at most the claimed count, and its minimum size fits in the unread bytes, for any bytes and count. |
| Kar1Laws.EverySectionHintIsExact | crates/batcher/src/frame.rs:300-341 | For each of the four counted sections: if the section decodes, the reservation was exactly the count, so it never reallocates. |
| Kar1Laws.BlockConsumes | crates/batcher/src/frame.rs:305-307 | Every decoded block takes at least its minimum size from the buffer. |
| Kar1Laws.MessageConsumes | crates/batcher/src/frame.rs:300-303 | The same for a message. |
| Kar1Offsets.PayloadTableIff | crates/batcher/src/frame.rs:17-23 | Bytes are the encoding of a payload if and only if they fit the documented header table, with version 5 when all blocks carry a cursor and 4 when there are blocks and none does, followed by the blocks. |
| Kar1Offsets.BlockTableIff | crates/batcher/src/frame.rs:25-29 | Bytes are the encoding of a block if and only if they fit the documented block table, the cursor words only where the block has one, then the two counted sections. |
| Kar1Offsets.RemoteEpochTableIff | crates/batcher/src/frame.rs:30-36 | Bytes are the encoding of a remote epoch if and only if they fit its documented table. |
| Kar1Offsets.MessageTableIff | crates/batcher/src/frame.rs:36-47 | Bytes are the encoding of a message if and only if they fit its documented table, callback included. |
| Kar1Offsets.TxTableIff | crates/batcher/src/frame.rs:48-54 | Bytes are the encoding of a transaction if and only if they fit its documented table. |
| Kar1Offsets.DecodeIff | crates/batcher/src/frame.rs:320-341 | The decoder reads a payload and a remainder off bytes if and only if they start with the magic, a version that fits the cursors, any flags byte whose lowest bit is the compressed flag, the count, any reserved word, and the blocks' encodings. |
| Kar1Offsets.HeaderErrors | crates/batcher/src/frame.rs:320-330 | Too few bytes, another magic and an unknown version each give their own error, in that order. |
| Kar1Offsets.PayloadErrors | crates/batcher/src/frame.rs:150-187 | Too many blocks, and cursors on some blocks only, are refused in that order, the latter with how many of how many. |
| Kar1Offsets.FieldErrors | crates/batcher/src/frame.rs:201-293 | A length or count over 32 bits is refused under its field's name, a block's transactions before its epochs. |
| Kar1Offsets.RecordErrors | crates/batcher/src/frame.rs:478-536 | A callback flag above 1 is refused by its value, and a remote epoch that counts no messages as such. |
| Bytes.FourBytes | crates/batcher/src/frame.rs:405-407 | The first byte of a word is the least significant. |
| FrameIo.EncodePayload | crates/batcher/src/frame.rs:169-187 | The writer that appends field by field produces the same bytes or the same error as the pure encoding. |
| FrameIo.FrameWriter.Block | crates/batcher/src/frame.rs:201-225 | Appends the block's encoding to the buffer, or fails with the encoding's error. |
| FrameIo.FrameWriter.RemoteEpoch | crates/batcher/src/frame.rs:248-263 | The same for a remote epoch. |
| FrameIo.FrameWriter.XChainMessage | crates/batcher/src/frame.rs:268-293 | The same for a message. |
| FrameIo.FrameWriter.Tx | crates/batcher/src/frame.rs:229-241 | The same for a transaction. |
| FrameIo.DecodePayload | crates/batcher/src/frame.rs:320-341 | The cursor that shrinks as it reads returns the payload or error of the pure decoder. |
| FrameIo.Reader.ReadBytes | crates/batcher/src/frame.rs:382-388 | Takes the next bytes and advances, or reports how short the buffer is and keeps it. |
| FrameIo.Reader.DecodeBlockFrame | crates/batcher/src/frame.rs:418-447 | Reads what the pure block decoder reads and keeps its remainder. |
| FrameIo.Reader.DecodeCursorField | crates/batcher/src/frame.rs:450-458 | The same for the optional cursor. |
| FrameIo.Reader.DecodeTxFrame | crates/batcher/src/frame.rs:462-474 | The same for a transaction. |
| FrameIo.Reader.DecodeRemoteEpochRecord | crates/batcher/src/frame.rs:478-499 | The same for a remote epoch; a record without messages is refused. |
| FrameIo.Reader.DecodeXChainMessage | crates/batcher/src/frame.rs:502-536 | The same for a message. |
| PackerLoops.PackBlockGroups | crates/batcher/src/batcher.rs:221-233 | The loop over the remaining blocks returns the batches of the recursive greedy cut, or its first error. |
| PackerLoops.PackLargestPrefix | crates/batcher/src/batcher.rs:237-261 | The bisection loop returns what the recursive bisection returns. |
| PackerLoops.PrefixSearch.Probe | crates/batcher/src/batcher.rs:279-293 | One probe moves one end of the open range to the middle, and keeps the batch it found; an error other than overflow stops the search. |
| Packer.BisectSettles | crates/batcher/src/batcher.rs:237-294 | A search that starts between a fitting and an overflowing prefix ends with a prefix that packs while the next longer one overflows, or with the error of some prefix. It never ends empty. |
| Packer.LargestPrefixSettles | crates/batcher/src/batcher.rs:237-261 | The same for the whole function, with the branch for "nothing fits" proved dead. |
| Packer.PackedGroupsAreTheBlocks | crates/batcher/src/batcher.rs:221-233 | On success the groups concatenate to the blocks, each batch is the packing of its group, no payload exceeds the ceiling, and each batch describes its group, for any size function at all. |
| Packer.PackableSucceeds | crates/batcher/src/batcher.rs:221-233 | If every run of blocks packs or overflows, the whole list packs. |
| PackerOptimal.PacksIfEachPacksAlone | crates/batcher/src/batcher.rs:207-233 | Compressed or not, the list packs if every block packs alone, the count fits 32 bits and the compressor fails on no run of it. |
| Packer.BatchDescribesItsGroup | crates/batcher/src/batcher.rs:166-205 | A batch names the first and the last block of its group, commits to the group, and carries its encoding, through the compressor when that is on. |
| Packer.PackErrors | crates/batcher/src/batcher.rs:166-205 | A group that encodes fails to pack when the compressor fails, or over the ceiling with its size: as one block by number, as several by the overflow. |
| Packer.NoBlocksNoBatch | crates/batcher/src/batcher.rs:166-205 | No blocks are refused as such, and a group that does not encode with its encoding error. |
| Packer.BuiltFramesCarry | crates/batcher/src/batcher.rs:311-341 | The frame of a block has the block's number, timestamp, cursor and epochs, and the four fields of each transaction's envelope, in order. |
| Packer.PackErrorIsOfARun | crates/batcher/src/batcher.rs:221-233 | A failure is the error of packing one run of the blocks, and is never the overflow. |
| Packer.TooLargeBlockIsTooLarge | crates/batcher/src/batcher.rs:166-205 | A too-large error names a block of the list that does not pack alone. |
| PackerOptimal.EncodedLength | crates/batcher/src/frame.rs:169-187 | An encoding is exactly the header plus the sum of its blocks' lengths, and exists exactly when every count fits 32 bits. |
| PackerOptimal.PacksIffFits | crates/batcher/src/batcher.rs:166-205 | Uncompressed, a group packs if and only if it is encodable and its length is within the ceiling. |
| PackerOptimal.TakesTheLongestPrefix | crates/batcher/src/batcher.rs:237-261 | Uncompressed, the prefix taken is the longest one that packs. |
| PackerOptimal.PacksIffEachFitsAlone | crates/batcher/src/batcher.rs:221-233 | Uncompressed, the cut succeeds if and only if every block fits alone and the count fits 32 bits. |
| PackerOptimal.GreedyStaysAhead | crates/batcher/src/batcher.rs:221-233 | Started anywhere inside the first group of another cut, the greedy cut needs no more batches than the other. |
| PackerOptimal.FewestBatches | crates/batcher/src/batcher.rs:221-233 | Uncompressed, no way to cut the blocks into batches that pack uses fewer batches. |
| Recovery.PackedBatchReconstructs | crates/batcher/src/recon.rs:19-27 | A packed batch, compressed or not, reconstructs to frames that carry its blocks, field by field. |
| Recovery.FramedStartsWithMagic | crates/batcher/src/recon.rs:30-32 | A bare frame is never taken for a zstd stream. |
| Recovery.RecoversPackedBlocks | crates/batcher/src/l1.rs:141-154 | Batches fetched by their certificates recover to frames that carry all blocks of the groups, field by field and in order. |
| Recovery.PackThenRecover | crates/batcher/src/l1.rs:129-154 | Pack any blocks, fetch every batch: frames that carry exactly those blocks come back, field by field. |
| Recovery.RecoversIff | crates/batcher/src/l1.rs:141-154 | Recovery succeeds if and only if every batch can be fetched and reconstructed. |
| Recovery.RecoveryStopsAt | crates/batcher/src/l1.rs:141-154 | Otherwise the first batch that cannot gives the error. |
| Recovery.ReconstructReads | crates/batcher/src/recon.rs:19-32 | A payload is decompressed if and only if it starts with the bytes 28 B5 2F FD, and then decoded. |
| Accumulator.BatchAccumulator.ObserveRecord | crates/batcher/src/batch.rs:89-101 | A transaction or remote epoch is buffered; a boundary closes a block with both buffers and empties them. |
| Accumulator.BatchAccumulator.ObserveBoundary | crates/batcher/src/batch.rs:73-84 | The closed block has the marker's header and exactly the buffered records; the buffers are empty after. |
| Accumulator.FeedConservesTxs | crates/batcher/src/batch.rs:89-101 | Over any stream, the transactions of the closed blocks followed by the buffered ones are those of the stream, in order. |
| Accumulator.FeedConservesEpochs | crates/batcher/src/batch.rs:89-101 | The same for remote epochs. |
| Accumulator.FeedClosesAtBoundaries | crates/batcher/src/batch.rs:73-84 | One block per boundary, in order, with its header. |
| Accumulator.BlockIsBetweenItsBoundaries | crates/batcher/src/batch.rs:73-101 | A block holds exactly the records between the previous boundary and its own. |
| Batcher.Batcher.ClosedBlockReady | crates/batcher/src/batcher.rs:140-154 | One closed block: held, or the full group is packed and posted in order; a failed post keeps what was sent before it and forgets the group. |
| Batcher.FullGroupIsPosted | crates/batcher/src/batcher.rs:140-154 | When a group is full and nothing fails, everything held has been posted and nothing is pending. |
| Batcher.StepConserves | crates/batcher/src/batcher.rs:140-154 | One error-free step keeps: posted batches then pending blocks are all blocks seen, with pending shorter than a group. |
| Batcher.RunConserves | crates/batcher/src/batcher.rs:140-154 | So does every error-free sequence of blocks. |
| Batcher.AfterAnError | crates/batcher/src/batcher.rs:140-154 | An error comes from a full group and leaves nothing pending: a packing error sends nothing, a refused post stops at the first refused batch with the ones before it sent. |
| OrderCut.BlockOfMarker | crates/batcher/src/batch.rs:73-101 | In the cut of the order, the block of a marker has the marker's header and exactly the unvoided transactions and the remote epochs between that marker and the one before it. |
| OrderCut.CutHoldsTheOrder | crates/batcher/src/batch.rs:73-101 | The blocks of the cut and the open block hold every unvoided transaction and every remote epoch of the order, once each and in order, with one block per marker. |
| OrderCut.FeedIsTheCut | crates/batcher/src/batch.rs:89-101 | Fed what the walk yields, the accumulator closes exactly the blocks of the cut and is left with exactly the open block. |
| OrderCut.StreamExistsIff | crates/batcher/src/multi_archive_reader.rs:277-312 | The stream has no error if and only if every unvoided reference resolves; a voided reference may have no envelope. |
| OrderCut.ResolvesIffWritten | crates/batcher/src/multi_archive_reader.rs:247-263 | With indexes loaded from the shards' segments, a reference resolves to an envelope if and only if its shard's segment has that envelope at its position; an unknown shard and a missing position are different errors. |
| OrderCut.LiveIffWritten | crates/batcher/src/multi_archive_reader.rs:247-312 | The transactions of the order are exactly the envelopes written at the positions of its unvoided references. |
| TornOrder.TornIsPrefixIff | crates/batcher/src/multi_archive_reader.rs:149-200 | The transactions of the first records of an order are a prefix of those of the whole order if and only if no void among the lost records removes a reference among the kept ones. |
| TornOrder.LostVoidAdds | crates/batcher/src/multi_archive_reader.rs:149-200 | Each such void leaves a transaction in the kept part that the whole order does not have. |
| TornOrder.TornVoidPostsItsRef | crates/batcher/src/multi_archive_reader.rs:149-200 | The failing case: a reference and its void, torn between the two, keeps one transaction of an order that has none. |
| Pipeline.NothingLostEndToEnd | crates/batcher/src/l1.rs:129-154 | For every ordering file, void set, stream, batching and posting without error: the blocks recovered from L1 followed by the held blocks are, block by block, the cut of the file's order, the held ones are the last `count mod group size`, and the open block is what follows the last marker. |
| Pipeline.RecoveredBlockOfMarker | crates/batcher/src/l1.rs:129-154 | Each marker of the order has its block, recovered or held, with the marker's number, timestamp, end and origin, the epochs since the marker before it, and the envelope fields of the unvoided transactions since then. |
| Pipeline.EveryRecordOnce | crates/batcher/src/l1.rs:129-154 | So the recovered frames carry a prefix of the unvoided transactions of the file, the held and open blocks have the rest, and the remote epochs are all there, once each and in order. |
| Pipeline.TornFilePostsItsPrefix | crates/batcher/src/archive_reader.rs:117-172 | A file torn at any byte is posted as the cut of the records whose frames are whole; its transactions are a prefix of the written order's if and only if the tear lost no void of a kept reference. |
| Pipeline.PostedBlocksAreRecovered | crates/batcher/src/batcher.rs:140-154 | The posted batches recover to frames that carry all blocks but the last `count mod group size`, which are held. |
| Segment.SegmentWriter.AppendFrame | crates/batcher/src/archive_reader.rs:225-237 | Appends one aligned frame: the buffer stays the layout of the records written. |
| Segment.TypedSegmentReader.NextItem | crates/batcher/src/archive_reader.rs:117-172 | Each call yields the next item of the file's specified stream and moves to the rest; at the end it stays put. |
| Segment.FrameTableIff | crates/batcher/src/archive_reader.rs:225-237 | Bytes are the frame of a record if and only if they are its length, four zero bytes, the two position words and its payload. |
| Segment.EveryFrameIsRead | crates/batcher/src/archive_reader.rs:117-172 | For any codec, every whole frame gives its own item, the record or the codec error, and what follows is read all the same. |
| Segment.NextReadsFrame | crates/batcher/src/archive_reader.rs:117-172 | A whole frame reads as its record, with position and value, or as the codec error when its payload is refused. |
| Segment.ReadsWrittenPrefix | crates/batcher/src/archive_reader.rs:117-172 | What was written reads back in order, whatever follows it. |
| Segment.ZeroTailEndsCleanly | crates/batcher/src/archive_reader.rs:117-172 | A preallocated zero tail of any length ends the stream without an error. |
| Segment.CutKeepsWholeFrames | crates/batcher/src/archive_reader.rs:117-172 | A file cut at any byte yields exactly the records whose frames end at or before the cut, and no error. |
| Segment.ShortLengthDecides | crates/batcher/src/archive_reader.rs:117-172 | Where a frame should start, a length below the header size is corruption at that offset, after every earlier record, if and only if the rest is not all zero. |
| Segment.WipedLengthIsCorruption | crates/batcher/src/archive_reader.rs:124-139 | So wiping the length of a frame with another behind it is always reported. |
| Segment.ItemsAreBounded | crates/batcher/src/archive_reader.rs:117-172 | No bytes make the reader yield more than one item per sixteen bytes. |
| Archives.VoidedRefs.ScanSegment | crates/batcher/src/multi_archive_reader.rs:160-174 | The two-pass scan marks exactly the positions of references that a later void removes with no record of the hash in between; a read error stops it. |
| Archives.VoidedRefs.NotePosition | crates/batcher/src/multi_archive_reader.rs:185-195 | One record of the second pass: a reference becomes its hash's newest; a void moves the newest to the voided set. |
| Archives.VoidedRefs.CollectHashes | crates/batcher/src/multi_archive_reader.rs:160-181 | The first pass collects exactly the hashes of voids. |
| Archives.ScanKeepsInvariant | crates/batcher/src/multi_archive_reader.rs:149-200 | After every prefix the map holds the newest unvoided reference of each hash, and the set holds the references removed so far. |
| Archives.ScanMarksVoidedRefs | crates/batcher/src/multi_archive_reader.rs:197-199 | With distinct positions, a reference is dropped if and only if it is voided. |
| Archives.VoidTarget | crates/batcher/src/multi_archive_reader.rs:185-195 | A void removes a reference if and only if that reference is the newest record of its hash. |
| Archives.MultiArchiveReader.NextRecord | crates/batcher/src/multi_archive_reader.rs:318-327 | Each call yields the next record that classifies to something, and skips the others. |
| Archives.WalkIsReference | crates/batcher/src/multi_archive_reader.rs:277-327 | The walk after the scan equals the one-pass rule that looks ahead for a void. |
| Archives.YieldedComesFrom | crates/batcher/src/multi_archive_reader.rs:277-312 | Every record of the stream has the position and the fields of an ordering record that was read, and a transaction is not of a voided reference. |
| Archives.ErrorsAreYielded | crates/batcher/src/multi_archive_reader.rs:277-312 | Read errors, and unvoided references that do not resolve, stay in the stream as errors. |
| Archives.LoadIndex | crates/batcher/src/multi_archive_reader.rs:336-351 | The index loads if and only if the segment reads whole and positions are distinct, and then holds every envelope at its position and nothing else; otherwise the first item that is an error or repeats a position gives the error. |
| Records.IndexInjective | crates/types/src/position.rs:51-66 | Positions and canonical indexes determine each other. |
| Records.IndexOrders | crates/types/src/position.rs:58-66 | Positions with no negative word order by term and then offset, as their indexes do. |
| Pool.AmountOutExact | crates/canary/src/contracts.rs:308-314 | The formula without division: an output is returned if and only if nothing overflows a word and it is the floor, for every word size. |
| Pool.SwapCheckIsTheFormula | crates/canary/src/contracts.rs:192-211 | The swap check passes for each direction if and only if the output is the formula's, the input is added to its own reserve and the output taken from the other, and everything fits a word; any other swap is a mismatch, never a broken invariant. |
| Pool.SwapGrowsProduct | crates/canary/src/contracts.rs:156-161 | Any output within the formula keeps the product of the reserves from falling, and grows it when something is paid out. |
| Pool.FormulaGrowsProduct | crates/canary/src/contracts.rs:308-314 | So the formula never pays more than the reserve, and never lowers the product. |
| Pool.SplitNeverBeatsOneSwap | crates/canary/src/contracts.rs:308-314 | Splitting an input into two swaps in sequence never pays more than one swap, floors included. |
| Pool.RoundTripLoses | crates/canary/src/contracts_tests.rs:62-66 | Swapping there and straight back returns strictly less than was put in. |
| Pool.LiquidityCheckIsExact | crates/canary/src/contracts.rs:242-264 | An add passes if and only if the shares are the most both amounts cover, on two non-empty reserves; a remove if and only if both amounts are the floors. |
| Pool.FirstDepositNeedsTheGuard | crates/canary/src/market/pool.rs:115-117 | With no shares out, an add passes the check if and only if it mints none on a pool with both reserves, so the canary must skip the check of a first deposit, as it does. |
| Pool.EventKeepsShareWorth | crates/canary/src/contracts.rs:183-265 | Every accepted event keeps the product of the reserves per squared share from falling. |
| Pool.RunKeepsShareWorth | crates/canary/src/contracts.rs:183-265 | So does every chain of accepted events, so no sequence extracts value from the shareholders. |
| Keys.TagsOrderAsIndexes | crates/cache/src/keys.rs:49-61 | Tags compare as strings exactly as their indexes compare as numbers. |
| Keys.TagRoundTrip | crates/cache/src/keys.rs:59-67 | A tag parses to its index. |
| Keys.TagIsDigits | crates/cache/src/keys.rs:59-61 | A tag is twenty digits with the value of the index, for every 64-bit index. |
| Keys.ParsesOnlyTagsUnlessPlus | crates/cache/src/keys.rs:63-67 | A string that parses is the tag of its index if and only if it does not start with a plus sign. |
| Keys.ParseTagIff | crates/cache/src/keys.rs:63-67 | A string parses to an index if and only if it is the tag of that index, or a plus sign before nineteen digits of that value. |
| Keys.PlusSignParses | crates/cache/src/keys.rs:63-67 | A string that is not a tag and parses: the documented "none for anything else" does not hold. |
| Projection.Redis.EvalApplyRow | crates/cache/src/script.rs:15-29 | The script on the account hash: a larger tag replaces, an equal tag with other content is reported, anything else is ignored. |
| Projection.Redis.RunPipe | crates/cache/src/client.rs:267-274 | A pipeline executes its commands in order and returns the script replies. |
| Projection.AccountCache.Write | crates/cache/src/client.rs:401-424 | Builds one pipeline from all batches, executes it if every receipt encodes, and returns the counts; on a codec error nothing is written. |
| Projection.AccountCache.PushReceipts | crates/cache/src/client.rs:446-472 | One command per receipt that has a key, in order, overwriting when the receipt uses its nonce and only if absent when it does not; or the codec error. |
| Projection.AccountCache.CountCodes | crates/cache/src/client.rs:94-103 | The fold over the replies. |
| ProjectionLaws.CodesAreCounted | crates/cache/src/client.rs:94-103 | The reported counts are the numbers of applied and disagreed replies. |
| ProjectionLaws.RuleOnWrites | crates/cache/src/script.rs:15-29 | The rule on tag strings is the rule on indexes: later replaces, equal and different is a disagreement, and the stored row stays. |
| ProjectionLaws.FirstWriteWins | crates/cache/src/script.rs:15-29 | Of several writes of an account at one index the first that is newer than the stored row decides. |
| ProjectionLaws.WriteProjects | crates/cache/src/script.rs:15-29 | One write keeps: each account holds the row of its highest index. |
| ProjectionLaws.CallsProject | crates/cache/src/client.rs:401-424 | Every history of write calls, some of which may fail to encode and send nothing, keeps each account at the highest row sent, and no answer reports a disagreement. |
| ProjectionLaws.WritesConverge | crates/cache/src/client.rs:401-424 | Two histories of calls that sent the same rows, in any order, grouping, repetition and mix of writers, reach the same accounts. |
| ProjectionLaws.ProjectionIsUnique | crates/cache/src/script.rs:15-29 | There is only one such projection. |
| ProjectionLaws.ReceiptsAreIndexed | crates/cache/src/client.rs:446-472 | By its fields, a receipt with a key sets it whatever was there if it ran or is a skip that wrote its nonce, takes it only while it is free if it is another skip, and one without a key touches none; in order, or nothing when one does not encode. |
| ProjectionLaws.PipeOverwrites | crates/cache/src/client.rs:446-472 | A pipeline sets a receipt key to some bytes if and only if a carried receipt that uses the nonce encodes to them. |
| ProjectionLaws.ReceiptKeySettles | crates/cache/src/client.rs:446-472 | If every carried receipt that uses the nonce of a key encodes to the same bytes, and one is carried or the key already has them, the key ends with them, whatever skips of that nonce come along. |
| LiveCache.LiveAccountsWriter.Apply | crates/cache/src/live.rs:99-109 | A batch applies its rows, raises the head and evicts, and counts the rows that applied. |
| LiveCache.LiveAccountsWriter.ApplyRow | crates/cache/src/live.rs:122-143 | One row through the monotone rule, where position zero is always overwritable. |
| LiveCache.LiveAccountsWriter.EvictAll | crates/cache/src/live.rs:150-160 | The loop drops from the front while the age, the capacity or the queue length demands it. |
| LiveCache.LiveAccountsWriter.EvictFirst | crates/cache/src/live.rs:164-171 | Pops the front; the map entry goes if and only if it was written at the popped time. |
| LiveCache.LiveAccountsWriter.Clear | crates/cache/src/live.rs:115-119 | Back to the fresh state. |
| LiveCache.ReachableIsBounded | crates/cache/src/live.rs:95-172 | In every run under a clock that does not go back, after a batch the map is within capacity, the queue within four times that, nothing resident is expired, and every entry has its stamp in the queue. |
| LiveCache.EvictsOldestFirst | crates/cache/src/live.rs:150-171 | An entry that was evicted was not written later than one that stayed. |
| LiveCache.OnlyExpiredGo | crates/cache/src/live.rs:150-171 | Within the size bounds an entry goes if and only if it is expired. |
| LiveCache.OnlyExcessGoes | crates/cache/src/live.rs:150-171 | With nothing expired and the queue in bounds, exactly the excess over the capacity goes. |
| LiveCache.AppliedRowsAreQueued | crates/cache/src/live.rs:99-109 | The count a batch returns is the number of writes it queued. |
| LiveCache.HeadIsTheHighest | crates/cache/src/live.rs:66-119 | In every run the head is the highest batch end since the last clear, or the starting head, and no resident row is beyond it. |
| CacheAgreement.LocalNeverAhead | crates/cache/src/live.rs:58-64 | Whatever a reader gets locally, the projection, after any history of calls that sent those rows, holds that account at the same or a later index, and with the same content at the same index. |
| CacheAgreement.LayersEqual | crates/cache/src/live.rs:122-143 | Fed the same rows and with nothing evicted, both layers hold the same accounts with the same content. |
| CacheAgreement.RowKeepsLayersEqualIff | crates/cache/src/live.rs:122-143 | One row keeps two equal layers equal if and only if it does not rewrite a local entry at position zero with other content at position zero. |
| CacheAgreement.ZeroRewritePartsTheLayers | crates/cache/src/live.rs:122-143 | Two rows of one address at position zero with different nonces: equal layers after the first, different after the second. |
| LiveCache.LookupIff | crates/cache/src/live.rs:58-64 | A reader gets an entry if and only if it is resident and not older than the time to live. |
| LiveCache.AppliedRowIsRead | crates/cache/src/live.rs:122-143 | A row that applies is what readers of its address get until its time to live has passed; no other address changes. |
| LiveCache.FirstRowWins | crates/cache/src/live.rs:99-143 | In a batch past position zero the first row of an address decides and later ones are refused. |
| LiveCache.NothingGoesWithRoom | crates/cache/src/live.rs:145-160 | With the oldest write not expired, the map within capacity and the queue within four times that, nothing is evicted. |
| Window.WatcherWindow.PushEpoch | crates/da_watcher/src/window.rs:78-83 | Appends the epoch; the first one in an empty window starts the wait. |
| Window.WatcherWindow.ConfirmUpTo | crates/da_watcher/src/window.rs:87-97 | Drops what is confirmed and moves the base, or refuses an origin outside and changes nothing. |
| Window.WatcherWindow.Republish | crates/da_watcher/src/window.rs:98-113 | Returns everything unconfirmed and restarts the wait. |
| Window.PushKeepsDense | crates/da_watcher/src/window.rs:78-83 | Pushing the next block keeps the window dense and makes it the head. |
| Window.PartitionOfDense | crates/da_watcher/src/window.rs:87-97 | In a dense window the partition point of an origin is its distance from the base. |
| Window.ConfirmMovesBase | crates/da_watcher/src/window.rs:87-97 | Inside if and only if between base and head; then the base is the confirmed block's own cursor, the head stays, and exactly the later epochs remain. |
| Window.ConfirmsCompose | crates/da_watcher/src/window.rs:87-97 | Two confirmations in order equal the later one. |
| Window.RunForgetsNothing | crates/da_watcher/src/window.rs:45-113 | In every run with pushes in order the window stays dense, base and head never go back, and every pushed epoch is still in the window or at or below the base. |
| Window.RunStaysInTheWindow | crates/da_watcher/src/watcher/records.rs:181-189 | Publishing only while the window is not full, no run holds more epochs than the window. |
| Window.WaitsSinceTheLastRestart | crates/da_watcher/src/window.rs:76-113 | In every run the wait began at the last first push into an empty window, base move or re-publish, so pushes do not put a re-publish off. |
| Sources.L1Sources.Agreed | crates/da_watcher/src/sources.rs:333-368 | Settles the answers, rotates out failures and, under a light client, the contradicted; returns the light client's answer, the agreed one or the halt. |
| Sources.L1Sources.Settle | crates/da_watcher/src/sources.rs:290-317 | Failed members are rotated out; the light client's answer and the public answers are kept, in order. |
| Sources.L1Sources.FinalizedTip | crates/da_watcher/src/sources.rs:373-386 | The same for the finalized tip. |
| Sources.Live | crates/da_watcher/src/sources.rs:237-243 | The members asked: those whose time out has passed, in order, once each. |
| Sources.AcceptsIff | crates/da_watcher/src/sources.rs:333-368 | A value is accepted if and only if the light client answered it, or none did and the public answers are that value and no other, two of them or one of every public member. |
| Sources.AcceptedByAQuorum | crates/da_watcher/src/sources.rs:245-286 | A value accepted without the light client was answered by two distinct public members, or by all there are, each live when the read asked, and every public member that answered gave it. |
| Sources.QuorumIsTwoOrAll | crates/da_watcher/src/sources.rs:245-253 | The quorum is two, or the number of public members when that is less. |
| Sources.AgreeHalts | crates/da_watcher/src/sources.rs:319-368 | Without the light client a read halts with the numbers when fewer than two answered and not all, or none; otherwise with the names of the first answer and the first that differs. |
| Sources.TipHalts | crates/da_watcher/src/sources.rs:370-386 | A tip read halts in the same way on too few answers, and fails when the light client, or without it a public member, has no finalized block. |
| Sources.OneHonestPublicForcesTruth | crates/da_watcher/src/sources.rs:333-368 | With one honest public answer and no light client, an accepted value is the truth. |
| Sources.PublicsAreDistinct | crates/da_watcher/src/sources.rs:276-317 | The public answers counted towards the quorum come from distinct members. |
| Sources.TipAcceptsIff | crates/da_watcher/src/sources.rs:373-386 | A tip is accepted if and only if the light client reports it, or none answered, two public members or all there are did, those all have a finalized block, and the tip is the lowest of theirs. |
| Sources.RotatesExactly | crates/da_watcher/src/sources.rs:333-368 | A read rotates out exactly the members that failed and those that contradicted an answering light client. |
| Sources.LiveAfterRead | crates/da_watcher/src/sources.rs:237-274 | After a read of either kind, a member it rotated out is asked again once the backoff has passed, and every other member exactly as before. |
| Sources.TruthfulIsNeverRotatedOut | crates/da_watcher/src/sources.rs:256-386 | Over every history of reads with a light client that is honest where it answers, a member that answers truthfully keeps its place. |

## Left out

- PackerOptimal.FewestBatches: uncompressed payloads only; with zstd the packed length is not monotone in the blocks, and `Packer.BisectSettles` states what holds for any size function.
- CacheAgreement.LayersEqual: for runs without eviction; eviction makes the local layer a part of the projection, which `CacheAgreement.LocalNeverAhead` covers.
- Sources.TruthfulIsNeverRotatedOut: one clock value per read; the source reads the clock at each rotation.
- Segment.SegmentWriter.AppendFrame: a frame longer than a 32-bit length is excluded by precondition, since the source panics on it.
- Pool.RunKeepsShareWorth: about the events that pass their checks; the canary does not check an add with no shares out, where worth per share has no meaning, and the Solidity contracts are not part of this model.
- PackerOptimal.PacksIfEachPacksAlone: one direction with compression, where a group can compress below the ceiling that a block alone exceeds.
- Blob packing and the KZG, EIP-4844 and EigenDA clients, and posting and reading L1 transactions: network clients around the payload.
- File opening, locks, directory layout and the opening of several shards: the model starts at the bytes of a segment and the loaded indexes.
- `rkyv`, `zstd`, keccak and the records digest: parameters.
- Redis transport, calls cut off half way, reconnection, sentinels, key expiry, `SCAN` sweeps, heads and pending nonces: only the account script and the receipt keys are modelled, with the address and the sender and nonce as keys instead of their strings.
- Concurrent readers of the local layer: the model has one writer and reads between its operations.
- The text of errors and log lines: errors are constructors with the values that decide something.
- Allocation: the reservation is proved as a number, not as a `Vec` capacity.
- `partition_point`: its result in a window, not its binary search.
- The light client's own hash lookups, header ranges and log filters: they are reads through the same agreement.
- ABI encoding, event decoding and the pool price of the canary.
- The sequencer, executor, prover, indexer, bridge contracts, chaos tools, metrics and configuration.
