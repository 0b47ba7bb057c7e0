/** The records that travel from the archives to the batcher. */
module Records {
  import opened Bytes
  import opened Kar1

  datatype BPosition = BPosition(termId: i32, termOffset: i32) {
    /** The logical index in the two words' bit patterns. */
    function AsIndex(): u64 {
      Unsigned(termId) * 0x1_0000_0000 + Unsigned(termOffset)
    }

    static function FromIndex(index: u64): (p: BPosition)
      ensures p.AsIndex() == index
    {
      BPosition(Signed(index / 0x1_0000_0000), Signed(index % 0x1_0000_0000))
    }
  }

  /** Positions and indexes are in bijection. */
  lemma IndexInjective(p: BPosition, q: BPosition)
    requires p.AsIndex() == q.AsIndex()
    ensures p == q
  {
    assert Unsigned(p.termOffset) == p.AsIndex() % 0x1_0000_0000;
    assert Unsigned(q.termOffset) == q.AsIndex() % 0x1_0000_0000;
  }

  /** Positions that the log hands out, with neither word negative, order by
      term and then by offset exactly as their indexes do. */
  lemma IndexOrders(p: BPosition, q: BPosition)
    requires p.termId >= 0 && p.termOffset >= 0 && q.termId >= 0 && q.termOffset >= 0
    ensures p.AsIndex() < q.AsIndex() <==>
              p.termId < q.termId || (p.termId == q.termId && p.termOffset < q.termOffset)
  {
  }

  datatype TxEnvelope = TxEnvelope(
    correlationId: u64, rawTx: Bytes, sender: Address, txHash: B256, maxInclusionBlock: u64)

  datatype RecordedTx = RecordedTx(position: BPosition, envelope: TxEnvelope)

  datatype ClosedBlock = ClosedBlock(
    blockNumber: u64, l2Timestamp: u64, endTxIdx: BPosition, l1Origin: u64,
    remoteEpochs: seq<RemoteEpochRecord>, txs: seq<RecordedTx>)

  datatype BlockBoundaryStart = BlockBoundaryStart(
    blockNumber: u64, endTxIdx: BPosition, l2Timestamp: u64, l1Origin: u64)
}
