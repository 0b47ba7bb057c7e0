/** The batcher's errors. Source messages become constructor names; the
    numbers a message reports stay as fields. */
module Errors {
  import opened Bytes

  datatype FrameError =
    | ShortRead(want: nat, have: nat)
    | BadMagic(magic: Bytes)
    | UnsupportedVersion(version: byte)
    | InvalidCallbackFlag(flag: byte)
    | NoMessages
    | CountOverflow(field: string)
    | MixedCursors(withCursor: nat, blocks: nat)
    | ZeroBlocks
    | RefNotFound
    | DuplicatePosition

  datatype BatcherError =
    | Frame(reason: FrameError)
    | Compress
    | Codec
    | Config
    | Da
    | L1
    | Payload(bytes: nat, ceiling: nat)
    | Corruption(offset: nat)
    | BlockTooLarge(blockNumber: u64, bytes: nat, ceiling: nat)
  {
    /** The only error the packer answers by trying fewer blocks. */
    predicate IsPayloadOverflow() {
      Payload?
    }
  }
}
