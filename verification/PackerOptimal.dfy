/** The packer without compression: the encoded length is additive, so the
    bisection finds the longest prefix that fits and the greedy cut posts the
    fewest batches. */
module PackerOptimal {
  import opened Bytes
  import opened Kar1
  import opened Kar1Laws
  import opened Records
  import opened Seqs
  import opened Packer

  // ----- the encoded length

  predicate Encodable(b: ClosedBlock) {
    EncodeBlock(FrameOf(b)).Ok?
  }

  predicate AllEncodable(blocks: seq<ClosedBlock>) {
    forall i :: 0 <= i < |blocks| ==> Encodable(blocks[i])
  }

  function BlockLen(b: ClosedBlock): nat {
    if Encodable(b) then |EncodeBlock(FrameOf(b)).value| else 0
  }

  function TotalLen(blocks: seq<ClosedBlock>): nat {
    if blocks == [] then 0 else BlockLen(blocks[0]) + TotalLen(blocks[1..])
  }

  lemma {:induction false} BlocksLen(blocks: seq<ClosedBlock>)
    ensures
      var bytes := EncodeAll(EncodeBlock, Map(FrameOf, blocks));
      (bytes.Ok? <==> AllEncodable(blocks)) && (bytes.Ok? ==> |bytes.value| == TotalLen(blocks))
  {
    hide EncodeBlock;
    if blocks != [] {
      BlocksLen(blocks[1..]);
      assert Map(FrameOf, blocks)[1..] == Map(FrameOf, blocks[1..]);
      assert AllEncodable(blocks) <==> Encodable(blocks[0]) && AllEncodable(blocks[1..]);
    }
  }

  lemma {:induction false} AllCarryCursors(blocks: seq<ClosedBlock>)
    ensures WithCursor(Map(FrameOf, blocks)) == |blocks|
  {
    if blocks != [] {
      var n := |blocks| - 1;
      AllCarryCursors(blocks[..n]);
      assert Map(FrameOf, blocks)[..n] == Map(FrameOf, blocks[..n]);
    }
  }

  /** A batch is its twelve-byte header and its blocks, nothing between. */
  lemma EncodedLength(blocks: seq<ClosedBlock>)
    ensures Encode(BuildPayload(blocks)).Ok? <==> |blocks| <= U32_MAX && AllEncodable(blocks)
    ensures Encode(BuildPayload(blocks)).Ok? ==> |Encode(BuildPayload(blocks)).value| == HEADER_LEN + TotalLen(blocks)
  {
    hide EncodeBlock;
    BlocksLen(blocks);
    AllCarryCursors(blocks);
  }

  lemma {:induction false} TotalLenAppend(a: seq<ClosedBlock>, b: seq<ClosedBlock>)
    ensures TotalLen(a + b) == TotalLen(a) + TotalLen(b)
  {
    hide BlockLen;
    if a == [] {
      assert a + b == b;
    } else {
      TotalLenAppend(a[1..], b);
      assert (a + b)[1..] == a[1..] + b;
    }
  }

  // ----- which groups pack

  ghost predicate Fits(cfg: BatcherConfig, group: seq<ClosedBlock>) {
    && 0 < |group| <= U32_MAX
    && AllEncodable(group)
    && HEADER_LEN + TotalLen(group) <= cfg.maxPayloadBytes
  }

  lemma PacksIffFits(cfg: BatcherConfig, group: seq<ClosedBlock>)
    requires !cfg.compress
    ensures PackBlocks(cfg, group).Ok? <==> Fits(cfg, group)
    ensures Overflows(PackBlocks(cfg, group)) <==>
              2 <= |group| <= U32_MAX && AllEncodable(group) && HEADER_LEN + TotalLen(group) > cfg.maxPayloadBytes
  {
    hide Encode;
    hide TotalLen;
    hide AllEncodable;
    EncodedLength(group);
    EncodeErrorIsFrame(BuildPayload(group));
  }

  /** Every non-empty part of a group that fits, fits. */
  lemma FitsRun(cfg: BatcherConfig, group: seq<ClosedBlock>, i: nat, j: nat)
    requires Fits(cfg, group) && i < j <= |group|
    ensures Fits(cfg, group[i..j])
  {
    hide BlockLen;
    hide Encodable;
    assert group == group[..i] + (group[i..j] + group[j..]);
    TotalLenAppend(group[..i], group[i..j] + group[j..]);
    TotalLenAppend(group[i..j], group[j..]);
  }

  /** The bisection takes the longest prefix that packs. */
  lemma TakesTheLongestPrefix(cfg: BatcherConfig, blocks: seq<ClosedBlock>, k: nat)
    requires !cfg.compress && blocks != [] && PackLargestPrefix(cfg, blocks).Ok?
    requires 1 <= k <= |blocks| && PackBlocks(cfg, blocks[..k]).Ok?
    ensures k <= PackLargestPrefix(cfg, blocks).value.1
  {
    hide PackBlocks;
    hide PackLargestPrefix;
    hide Fits;
    LargestPrefixSettles(cfg, blocks);
    var taken := PackLargestPrefix(cfg, blocks).value.1;
    if taken < k {
      PacksIffFits(cfg, blocks[..k]);
      FitsRun(cfg, blocks[..k], 0, taken + 1);
      assert blocks[..k][0..taken + 1] == blocks[..taken + 1];
      PacksIffFits(cfg, blocks[..taken + 1]);
    }
  }

  // ----- success

  lemma FitAloneIsPackable(cfg: BatcherConfig, blocks: seq<ClosedBlock>)
    requires !cfg.compress && |blocks| <= U32_MAX
    requires forall i :: 0 <= i < |blocks| ==> Fits(cfg, [blocks[i]])
    ensures Packable(cfg, blocks)
  {
    hide PackBlocks;
    forall i, j | 0 <= i < j <= |blocks|
      ensures PackBlocks(cfg, blocks[i..j]).Ok? || Overflows(PackBlocks(cfg, blocks[i..j]))
    {
      var run := blocks[i..j];
      PacksIffFits(cfg, run);
      forall k | 0 <= k < |run| ensures Encodable(run[k]) {
        assert Fits(cfg, [blocks[i + k]]);
        assert [blocks[i + k]][0] == run[k];
      }
      if |run| == 1 {
        assert Fits(cfg, [blocks[i]]);
        assert run == [blocks[i]];
      }
    }
  }

  /** The compressor fails on no run of the blocks, when it is on. */
  ghost predicate Compresses(cfg: BatcherConfig, blocks: seq<ClosedBlock>) {
    cfg.compress ==>
      forall i, j :: 0 <= i < j <= |blocks| && Encode(BuildPayload(blocks[i..j])).Ok? ==>
        cfg.zstd.compress(Encode(BuildPayload(blocks[i..j])).value).Some?
  }

  /** Compressed or not: if every block packs alone, the count fits its word
      and the compressor does not fail, the whole list packs. */
  lemma PacksIfEachPacksAlone(cfg: BatcherConfig, blocks: seq<ClosedBlock>)
    requires |blocks| <= U32_MAX && Compresses(cfg, blocks)
    requires forall i :: 0 <= i < |blocks| ==> PackBlocks(cfg, [blocks[i]]).Ok?
    ensures PackBlockGroups(cfg, blocks).Ok?
  {
    hide PackBlocks;
    hide PackBlockGroups;
    hide Encode;
    forall i | 0 <= i < |blocks| ensures Encodable(blocks[i]) {
      PackedIsEncodable(cfg, [blocks[i]]);
      assert [blocks[i]][0] == blocks[i];
    }
    forall i, j | 0 <= i < j <= |blocks|
      ensures PackBlocks(cfg, blocks[i..j]).Ok? || Overflows(PackBlocks(cfg, blocks[i..j]))
    {
      var run := blocks[i..j];
      EncodedLength(run);
      if |run| == 1 {
        assert run == [blocks[i]];
      } else {
        EncodedPacksOrOverflows(cfg, run);
      }
    }
    PackableSucceeds(cfg, blocks);
  }

  lemma PackedIsEncodable(cfg: BatcherConfig, group: seq<ClosedBlock>)
    requires PackBlocks(cfg, group).Ok?
    ensures AllEncodable(group)
  {
    hide Encode;
    EncodedLength(group);
  }

  lemma EncodedPacksOrOverflows(cfg: BatcherConfig, run: seq<ClosedBlock>)
    requires |run| >= 2 && Encode(BuildPayload(run)).Ok?
    requires cfg.compress ==> cfg.zstd.compress(Encode(BuildPayload(run)).value).Some?
    ensures PackBlocks(cfg, run).Ok? || Overflows(PackBlocks(cfg, run))
  {
    hide Encode;
  }

  lemma {:induction false} PackedBlockFitsAlone(cfg: BatcherConfig, blocks: seq<ClosedBlock>, i: nat)
    requires !cfg.compress && i < |blocks| && PackBlockGroups(cfg, blocks).Ok?
    ensures Fits(cfg, [blocks[i]])
    decreases |blocks|
  {
    hide PackBlocks;
    hide Fits;
    LargestPrefixSettles(cfg, blocks);
    var taken := PackLargestPrefix(cfg, blocks).value.1;
    if i < taken {
      PacksIffFits(cfg, blocks[..taken]);
      FitsRun(cfg, blocks[..taken], i, i + 1);
      assert blocks[..taken][i..i + 1] == [blocks[i]];
    } else {
      PackedBlockFitsAlone(cfg, blocks[taken..], i - taken);
      assert blocks[taken..][i - taken] == blocks[i];
    }
  }

  lemma PackedBlocksCount(cfg: BatcherConfig, blocks: seq<ClosedBlock>)
    requires !cfg.compress && PackBlockGroups(cfg, blocks).Ok?
    ensures |blocks| <= U32_MAX
  {
    hide PackBlocks;
    if blocks != [] {
      PacksIffFits(cfg, blocks);
    }
  }

  /** Packing succeeds exactly when the count fits its word and every block
      fits the ceiling alone. */
  lemma PacksIffEachFitsAlone(cfg: BatcherConfig, blocks: seq<ClosedBlock>)
    requires !cfg.compress
    ensures PackBlockGroups(cfg, blocks).Ok? <==>
              |blocks| <= U32_MAX && forall i :: 0 <= i < |blocks| ==> Fits(cfg, [blocks[i]])
  {
    hide Fits;
    if PackBlockGroups(cfg, blocks).Ok? {
      PackedBlocksCount(cfg, blocks);
      forall i | 0 <= i < |blocks| ensures Fits(cfg, [blocks[i]]) {
        PackedBlockFitsAlone(cfg, blocks, i);
      }
    }
    if |blocks| <= U32_MAX && forall i :: 0 <= i < |blocks| ==> Fits(cfg, [blocks[i]]) {
      FitAloneIsPackable(cfg, blocks);
      PackableSucceeds(cfg, blocks);
    }
  }

  // ----- the fewest batches

  /** A cut of `blocks` into runs that each pack. */
  ghost predicate Cut(cfg: BatcherConfig, blocks: seq<ClosedBlock>, groups: seq<seq<ClosedBlock>>) {
    Flatten(groups) == blocks && forall i :: 0 <= i < |groups| ==> Fits(cfg, groups[i])
  }

  /** Wherever the greedy cut starts inside a rival cut, it needs no more
      batches than the rival has groups. */
  lemma {:induction false} GreedyStaysAhead(cfg: BatcherConfig, blocks: seq<ClosedBlock>, groups: seq<seq<ClosedBlock>>, k: nat)
    requires !cfg.compress && Cut(cfg, blocks, groups)
    requires k <= |blocks| && PackBlockGroups(cfg, blocks[k..]).Ok?
    ensures |PackBlockGroups(cfg, blocks[k..]).value| <= |groups|
    decreases |groups|
  {
    hide Fits;
    hide PackLargestPrefix;
    if k < |blocks| {
      var first, others := groups[0], groups[1..];
      assert Cut(cfg, Flatten(others), others);
      var suffix := blocks[k..];
      if |first| <= k {
        assert suffix == Flatten(others)[k - |first|..];
        GreedyStaysAhead(cfg, Flatten(others), others, k - |first|);
      } else {
        FirstReaches(cfg, first, suffix, k);
        var taken := PackLargestPrefix(cfg, suffix).value.1;
        assert suffix[taken..] == Flatten(others)[taken - (|first| - k)..];
        GreedyStaysAhead(cfg, Flatten(others), others, taken - (|first| - k));
      }
    }
  }

  /** The greedy prefix of a suffix that starts inside `first` reaches at
      least the end of `first`. */
  lemma FirstReaches(cfg: BatcherConfig, first: seq<ClosedBlock>, suffix: seq<ClosedBlock>, k: nat)
    requires !cfg.compress && Fits(cfg, first) && k < |first|
    requires first[k..] <= suffix && PackBlockGroups(cfg, suffix).Ok?
    ensures suffix != [] && PackLargestPrefix(cfg, suffix).Ok?
    ensures |first| - k <= PackLargestPrefix(cfg, suffix).value.1
  {
    hide Fits;
    hide PackLargestPrefix;
    hide PackBlocks;
    var n := |first| - k;
    FitsRun(cfg, first, k, |first|);
    assert suffix[..n] == first[k..|first|];
    PacksIffFits(cfg, suffix[..n]);
    TakesTheLongestPrefix(cfg, suffix, n);
  }

  /** No cut of the blocks into packable runs has fewer batches. */
  lemma FewestBatches(cfg: BatcherConfig, blocks: seq<ClosedBlock>, groups: seq<seq<ClosedBlock>>)
    requires !cfg.compress && PackBlockGroups(cfg, blocks).Ok?
    requires Flatten(groups) == blocks
    requires forall i :: 0 <= i < |groups| ==> PackBlocks(cfg, groups[i]).Ok?
    ensures |PackBlockGroups(cfg, blocks).value| <= |groups|
  {
    hide PackBlocks;
    hide Fits;
    forall i | 0 <= i < |groups| ensures Fits(cfg, groups[i]) {
      PacksIffFits(cfg, groups[i]);
    }
    assert blocks[0..] == blocks;
    GreedyStaysAhead(cfg, blocks, groups, 0);
  }
}
