/** The packer as the source runs it: a search object that each probe updates,
    and a loop over the unpacked rest. */
module PackerLoops {
  import opened Wrappers
  import opened Kar1
  import opened Records
  import Packer

  class PrefixSearch {
    var best: Option<Packer.Found>
    var lo: nat
    var hi: nat

    ghost predicate Valid(blocks: seq<ClosedBlock>)
      reads this
    {
      lo < hi <= |blocks| && (best.Some? ==> Packer.InRange(best.value, blocks))
    }

    /** What the search will answer from here. */
    ghost function Answer(cfg: Packer.BatcherConfig, blocks: seq<ClosedBlock>): Outcome<Option<Packer.Found>>
      requires Valid(blocks)
      reads this
    {
      Packer.Bisect(cfg, blocks, best, lo, hi)
    }

    constructor (n: nat)
      ensures best == None && lo == 0 && hi == n
    {
      best, lo, hi := None, 0, n;
    }

    predicate Open()
      reads this
    {
      (if hi >= lo then hi - lo else 0) > 1
    }

    /** One halving: the search ends where it would have, with one probe less to do. */
    method Probe(cfg: Packer.BatcherConfig, blocks: seq<ClosedBlock>) returns (r: Outcome<()>)
      requires Valid(blocks) && Open()
      modifies this
      ensures Valid(blocks)
      ensures r.Ok? ==> hi - lo < old(hi - lo) && Answer(cfg, blocks) == old(Answer(cfg, blocks))
      ensures r.Err? ==> old(Answer(cfg, blocks)) == Err(r.error)
    {
      hide Packer.PackBlocks;
      var mid := (lo + hi) / 2;
      match Packer.PackBlocks(cfg, blocks[..mid]) {
        case Ok(batch) =>
          best := Some((batch, mid));
          lo := mid;
          r := Ok(());
        case Err(e) =>
          if e.IsPayloadOverflow() {
            hi := mid;
            r := Ok(());
          } else {
            r := Err(e);
          }
      }
    }
  }

  method PackLargestPrefix(cfg: Packer.BatcherConfig, blocks: seq<ClosedBlock>) returns (r: Outcome<Packer.Found>)
    requires blocks != []
    ensures r == Packer.PackLargestPrefix(cfg, blocks)
  {
    hide Packer.PackBlocks;
    match Packer.PackBlocks(cfg, blocks) {
      case Ok(batch) =>
        return Ok((batch, |blocks|));
      case Err(e) =>
        if !e.IsPayloadOverflow() {
          return Err(e);
        }
    }
    var search := new PrefixSearch(|blocks|);
    while search.Open()
      invariant search.Valid(blocks)
      invariant search.Answer(cfg, blocks) == Packer.Bisect(cfg, blocks, None, 0, |blocks|)
      decreases search.hi - search.lo
    {
      var _ :- search.Probe(cfg, blocks);
    }
    Packer.LargestPrefixSettles(cfg, blocks);
    match search.best {
      case Some(found) =>
        return Ok(found);
      case None =>
        assert false;
    }
  }

  method PackBlockGroups(cfg: Packer.BatcherConfig, blocks: seq<ClosedBlock>) returns (r: Outcome<seq<Packer.PostedBatch>>)
    ensures r == Packer.PackBlockGroups(cfg, blocks)
  {
    hide Packer.PackLargestPrefix;
    var out: seq<Packer.PostedBatch> := [];
    var rest := blocks;
    assert forall batches: seq<Packer.PostedBatch> :: [] + batches == batches;
    while rest != []
      invariant
        var left := Packer.PackBlockGroups(cfg, rest);
        Packer.PackBlockGroups(cfg, blocks) == if left.Ok? then Ok(out + left.value) else left
      decreases |rest|
    {
      var found :- PackLargestPrefix(cfg, rest);
      var (batch, taken) := found;
      ghost var left := Packer.PackBlockGroups(cfg, rest[taken..]);
      assert left.Ok? ==> out + ([batch] + left.value) == (out + [batch]) + left.value;
      out := out + [batch];
      rest := rest[taken..];
    }
    assert out + [] == out;
    return Ok(out);
  }
}
