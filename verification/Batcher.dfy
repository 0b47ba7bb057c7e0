/** The batching loop: closed blocks are held until a group is full, then
    packed and posted. */
module Batcher {
  import opened Wrappers
  import opened Errors
  import opened Kar1
  import opened Records
  import opened Seqs
  import opened Packer
  import PackerLoops

  /** Whether the sink takes a batch, given what it took before. */
  type Accepts = (seq<PostedBatch>, PostedBatch) -> bool

  datatype BatcherState = BatcherState(pending: seq<ClosedBlock>, sent: seq<PostedBatch>)

  function PostAll(accepts: Accepts, sent: seq<PostedBatch>, batches: seq<PostedBatch>): (seq<PostedBatch>, Outcome<()>)
    decreases |batches|
  {
    if batches == [] then (sent, Ok(()))
    else if accepts(sent, batches[0]) then PostAll(accepts, sent + [batches[0]], batches[1..])
    else (sent, Err(L1))
  }

  /** The group is taken before it is packed, so an error drops it. */
  function OnClosedBlock(cfg: BatcherConfig, accepts: Accepts, s: BatcherState, block: ClosedBlock)
    : (BatcherState, Outcome<()>)
  {
    var group := s.pending + [block];
    if |group| < cfg.blocksPerBatch then (s.(pending := group), Ok(())) else
      match PackBlockGroups(cfg, group)
      case Err(e) => (s.(pending := []), Err(e))
      case Ok(batches) =>
        var (sent, r) := PostAll(accepts, s.sent, batches);
        (BatcherState([], sent), r)
  }

  /** A run over closed blocks, up to the first error. */
  function Run(cfg: BatcherConfig, accepts: Accepts, s: BatcherState, blocks: seq<ClosedBlock>)
    : (BatcherState, Outcome<()>)
    decreases |blocks|
  {
    if blocks == [] then (s, Ok(())) else
      var (s1, r) := OnClosedBlock(cfg, accepts, s, blocks[0]);
      if r.Err? then (s1, r) else Run(cfg, accepts, s1, blocks[1..])
  }

  class Batcher {
    const cfg: BatcherConfig
    const accepts: Accepts
    var pendingBlocks: seq<ClosedBlock>
    var sent: seq<PostedBatch>

    ghost function State(): BatcherState
      reads this
    {
      BatcherState(pendingBlocks, sent)
    }

    constructor (cfg: BatcherConfig, accepts: Accepts)
      ensures this.cfg == cfg && this.accepts == accepts && State() == BatcherState([], [])
    {
      this.cfg, this.accepts := cfg, accepts;
      pendingBlocks, sent := [], [];
    }

    method Post(batch: PostedBatch) returns (r: Outcome<()>)
      modifies this`sent
      ensures if accepts(old(sent), batch) then r == Ok(()) && sent == old(sent) + [batch]
              else r == Err(L1) && sent == old(sent)
    {
      if !accepts(sent, batch) {
        return Err(L1);
      }
      sent := sent + [batch];
      return Ok(());
    }

    method ClosedBlockReady(block: ClosedBlock) returns (r: Outcome<()>)
      modifies this
      ensures (State(), r) == OnClosedBlock(cfg, accepts, old(State()), block)
    {
      pendingBlocks := pendingBlocks + [block];
      if |pendingBlocks| < cfg.blocksPerBatch {
        return Ok(());
      }
      var group := pendingBlocks;
      pendingBlocks := [];
      var batches :- PackerLoops.PackBlockGroups(cfg, group);
      for i := 0 to |batches|
        invariant pendingBlocks == []
        invariant PostAll(accepts, sent, batches[i..]) == PostAll(accepts, old(sent), batches)
      {
        assert batches[i..][1..] == batches[i + 1..];
        var _ :- Post(batches[i]);
      }
      return Ok(());
    }
  }

  // ----- conservation

  lemma {:induction false} PostAllOk(accepts: Accepts, sent: seq<PostedBatch>, batches: seq<PostedBatch>)
    requires PostAll(accepts, sent, batches).1.Ok?
    ensures PostAll(accepts, sent, batches).0 == sent + batches
    decreases |batches|
  {
    if batches != [] {
      PostAllOk(accepts, sent + [batches[0]], batches[1..]);
      assert batches == [batches[0]] + batches[1..];
    }
  }

  lemma PackedAppend(cfg: BatcherConfig, a: seq<ClosedBlock>, ga: seq<seq<ClosedBlock>>, ba: seq<PostedBatch>,
                     b: seq<ClosedBlock>, gb: seq<seq<ClosedBlock>>, bb: seq<PostedBatch>)
    requires PackedAs(cfg, a, ga, ba) && PackedAs(cfg, b, gb, bb)
    ensures PackedAs(cfg, a + b, ga + gb, ba + bb)
  {
    hide PackBlocks;
    FlattenAppend(ga, gb);
  }

  /** Of all blocks closed so far, the first full groups are posted, in order
      and whole, and the remainder of the count is held. */
  ghost predicate Conserves(cfg: BatcherConfig, all: seq<ClosedBlock>, s: BatcherState) {
    && |s.pending| == |all| % cfg.blocksPerBatch
    && |s.pending| <= |all| && s.pending == all[|all| - |s.pending|..]
    && Posted(cfg, all[..|all| - |s.pending|], s.sent)
  }

  ghost predicate Posted(cfg: BatcherConfig, blocks: seq<ClosedBlock>, sent: seq<PostedBatch>) {
    exists groups :: PackedAs(cfg, blocks, groups, sent)
  }

  lemma ModStep(n: nat, b: positive)
    ensures (n + 1) % b == if n % b + 1 < b then n % b + 1 else 0
  {
    var d := (n + 1) / b - n / b;
    assert d * b == n % b + 1 - (n + 1) % b;
    MultipleBounds(d, b);
  }

  lemma MultipleBounds(d: int, b: positive)
    ensures d <= -1 ==> d * b <= 0 - b
    ensures d >= 2 ==> d * b >= 2 * b
  {
    if d <= -1 {
      assert (d + 1) * b <= 0;
    } else if d >= 2 {
      assert (d - 2) * b >= 0;
    }
  }

  /** A full group is posted whole, behind what was posted before. */
  lemma FullGroupIsPosted(cfg: BatcherConfig, accepts: Accepts, posted: seq<ClosedBlock>, s: BatcherState, block: ClosedBlock)
    requires Posted(cfg, posted, s.sent) && OnClosedBlock(cfg, accepts, s, block).1.Ok?
    requires |s.pending| + 1 >= cfg.blocksPerBatch
    ensures OnClosedBlock(cfg, accepts, s, block).0.pending == []
    ensures Posted(cfg, posted + (s.pending + [block]), OnClosedBlock(cfg, accepts, s, block).0.sent)
  {
    hide PackBlockGroups;
    hide PackedAs;
    hide PostAll;
    var group := s.pending + [block];
    var groups :| PackedAs(cfg, posted, groups, s.sent);
    var batches := PackBlockGroups(cfg, group).value;
    PackedGroupsAreTheBlocks(cfg, group);
    PostAllOk(accepts, s.sent, batches);
    PackedAppend(cfg, posted, groups, s.sent, group, Groups(cfg, group), batches);
  }

  lemma StepConserves(cfg: BatcherConfig, accepts: Accepts, all: seq<ClosedBlock>, s: BatcherState, block: ClosedBlock)
    requires Conserves(cfg, all, s) && OnClosedBlock(cfg, accepts, s, block).1.Ok?
    ensures Conserves(cfg, all + [block], OnClosedBlock(cfg, accepts, s, block).0)
  {
    hide Posted;
    hide PackBlockGroups;
    hide PostAll;
    ModStep(|all|, cfg.blocksPerBatch);
    var posted, now := all[..|all| - |s.pending|], all + [block];
    assert now == posted + (s.pending + [block]);
    if |s.pending| + 1 >= cfg.blocksPerBatch {
      FullGroupIsPosted(cfg, accepts, posted, s, block);
      assert now[..|now|] == now && now[|now|..] == [];
    } else {
      assert now[..|posted|] == posted && now[|posted|..] == s.pending + [block];
    }
  }

  /** Over every error-free run nothing is lost, repeated or reordered. */
  lemma {:induction false} RunConserves(cfg: BatcherConfig, accepts: Accepts, done: seq<ClosedBlock>, s: BatcherState,
                                        blocks: seq<ClosedBlock>)
    requires Conserves(cfg, done, s) && Run(cfg, accepts, s, blocks).1.Ok?
    ensures Conserves(cfg, done + blocks, Run(cfg, accepts, s, blocks).0)
    decreases |blocks|
  {
    hide OnClosedBlock;
    hide Conserves;
    if blocks == [] {
      assert done + blocks == done;
    } else {
      StepConserves(cfg, accepts, done, s, blocks[0]);
      RunConserves(cfg, accepts, done + [blocks[0]], OnClosedBlock(cfg, accepts, s, blocks[0]).0, blocks[1..]);
      assert (done + [blocks[0]]) + blocks[1..] == done + blocks;
    }
  }

  lemma StartConserves(cfg: BatcherConfig)
    ensures Conserves(cfg, [], BatcherState([], []))
  {
    assert PackedAs(cfg, [], [], []);
    var none: seq<ClosedBlock> := [];
    assert none[..0] == none;
  }

  // ----- after an error

  lemma {:induction false} PostAllStops(accepts: Accepts, sent: seq<PostedBatch>, batches: seq<PostedBatch>) returns (k: nat)
    requires PostAll(accepts, sent, batches).1.Err?
    ensures k < |batches| && !accepts(sent + batches[..k], batches[k])
    ensures PostAll(accepts, sent, batches) == (sent + batches[..k], Err(L1))
    ensures forall i :: 0 <= i < k ==> accepts(sent + batches[..i], batches[i])
    decreases |batches|
  {
    if accepts(sent, batches[0]) {
      var more, rest := sent + [batches[0]], batches[1..];
      var j := PostAllStops(accepts, more, rest);
      k := j + 1;
      forall i | 0 <= i <= j ensures more + rest[..i] == sent + batches[..i + 1] && rest[i] == batches[i + 1] {
      }
      assert sent + batches[..0] == sent;
      forall i | 0 <= i < k ensures accepts(sent + batches[..i], batches[i]) {
        if i > 0 {
          assert more + rest[..i - 1] == sent + batches[..i];
        }
      }
    } else {
      k := 0;
      assert sent + batches[..0] == sent;
    }
  }

  /** An error comes only from a full group, and costs the whole group: nothing
      is pending after it. A packing error sends nothing. A refused post stops
      at the first batch the sink refuses, with the ones before it sent. */
  lemma AfterAnError(cfg: BatcherConfig, accepts: Accepts, s: BatcherState, block: ClosedBlock)
    requires OnClosedBlock(cfg, accepts, s, block).1.Err?
    ensures
      var (end, r) := OnClosedBlock(cfg, accepts, s, block);
      var packed := PackBlockGroups(cfg, s.pending + [block]);
      && |s.pending| + 1 >= cfg.blocksPerBatch && end.pending == []
      && (packed.Err? ==> r.error == packed.error && end.sent == s.sent)
      && (packed.Ok? ==>
            && r.error == L1
            && exists k :: 0 <= k < |packed.value| && end.sent == s.sent + packed.value[..k]
                           && !accepts(end.sent, packed.value[k]))
  {
    hide PackBlockGroups;
    var packed := PackBlockGroups(cfg, s.pending + [block]);
    if packed.Ok? {
      var k := PostAllStops(accepts, s.sent, packed.value);
    }
  }
}
