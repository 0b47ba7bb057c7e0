/** Resolving the canonical order: the two-pass void scan, the per-shard
    envelope indexes, and the walk that turns ordering records into the
    batcher's stream. */
module Archives {
  import opened Wrappers
  import opened Bytes
  import opened Errors
  import opened Kar1
  import opened Records
  import opened Segment

  datatype TxRef = TxRef(txHash: B256, shardId: byte, txDataPosition: BPosition, txDataSessionId: i32)

  datatype TxOrderingMessage =
    | TxRefMsg(ref: TxRef)
    | DepositRef
    | BoundaryStart(boundary: BlockBoundaryStart)
    | Epoch
    | RemoteEpochMsg(epoch: RemoteEpochRecord)
    | Void(index: u64, txHash: B256)

  type OrderingRecord = TypedRecord<TxOrderingMessage>

  // ----- the rule: a ref is voided when the next record of its hash is a void

  predicate IsRef(rec: OrderingRecord, h: B256) {
    rec.value.TxRefMsg? && rec.value.ref.txHash == h
  }

  predicate IsVoid(rec: OrderingRecord, h: B256) {
    rec.value.Void? && rec.value.txHash == h
  }

  predicate Mentions(rec: OrderingRecord, h: B256) {
    IsRef(rec, h) || IsVoid(rec, h)
  }

  /** The void at `j` removes the ref at `i`: no record of the hash between. */
  predicate Voids(recs: seq<OrderingRecord>, i: nat, j: nat)
    requires i < |recs| && j < |recs|
  {
    && i < j && recs[i].value.TxRefMsg?
    && IsVoid(recs[j], recs[i].value.ref.txHash)
    && forall k :: i < k < j ==> !Mentions(recs[k], recs[i].value.ref.txHash)
  }

  predicate Voided(recs: seq<OrderingRecord>, i: nat)
    requires i < |recs|
  {
    exists j :: i < j < |recs| && Voids(recs, i, j)
  }

  // ----- the scan, as a fold

  datatype Scan = Scan(newestRef: map<B256, BPosition>, positions: set<BPosition>)

  function ScanStep(hashes: set<B256>, s: Scan, rec: OrderingRecord): Scan {
    match rec.value
    case TxRefMsg(r) => if r.txHash in hashes then s.(newestRef := s.newestRef[r.txHash := rec.position]) else s
    case Void(_, h) =>
      if h in s.newestRef
      then Scan(s.newestRef - {h}, s.positions + {s.newestRef[h]})
      else s
    case _ => s
  }

  function ScanPrefix(hashes: set<B256>, recs: seq<OrderingRecord>, n: nat): Scan
    requires n <= |recs|
  {
    if n == 0 then Scan(map[], {}) else ScanStep(hashes, ScanPrefix(hashes, recs, n - 1), recs[n - 1])
  }

  function VoidHashes(recs: seq<OrderingRecord>): set<B256> {
    set i | 0 <= i < |recs| && recs[i].value.Void? :: recs[i].value.txHash
  }

  /** The newest record of `h` among the first `n`. */
  function LastMention(recs: seq<OrderingRecord>, n: nat, h: B256): (r: Option<nat>)
    requires n <= |recs|
    ensures r.Some? ==> r.value < n && Mentions(recs[r.value], h)
    ensures forall k :: (if r.Some? then r.value < k else true) && 0 <= k < n ==> !Mentions(recs[k], h)
  {
    if n == 0 then None
    else if Mentions(recs[n - 1], h) then Some(n - 1)
    else LastMention(recs, n - 1, h)
  }

  /** The position of `h`'s newest record, when that record is a ref. */
  function NewestRef(recs: seq<OrderingRecord>, n: nat, h: B256): Option<BPosition>
    requires n <= |recs|
  {
    match LastMention(recs, n, h)
    case Some(i) => if IsRef(recs[i], h) then Some(recs[i].position) else None
    case None => None
  }

  ghost predicate NewestInvariant(hashes: set<B256>, recs: seq<OrderingRecord>, n: nat, newest: map<B256, BPosition>)
    requires n <= |recs|
  {
    && (forall h :: h in newest ==> h in hashes && NewestRef(recs, n, h) == Some(newest[h]))
    && (forall h :: h in hashes && NewestRef(recs, n, h).Some? ==> h in newest)
  }

  /** `p` is the position of a ref that a void among the first `n` removed. */
  ghost predicate Removed(recs: seq<OrderingRecord>, n: nat, p: BPosition)
    requires n <= |recs|
  {
    exists i, j :: 0 <= i < j < n && Voids(recs, i, j) && recs[i].position == p
  }

  lemma VoidTarget(recs: seq<OrderingRecord>, i: nat, j: nat)
    requires i < |recs| && j < |recs| && recs[j].value.Void?
    ensures Voids(recs, i, j) <==>
              LastMention(recs, j, recs[j].value.txHash) == Some(i) && IsRef(recs[i], recs[j].value.txHash)
  {
    if Voids(recs, i, j) {
      assert Mentions(recs[i], recs[j].value.txHash);
    }
  }

  lemma NewestStep(hashes: set<B256>, recs: seq<OrderingRecord>, n: nat, s: Scan)
    requires 0 < n <= |recs| && NewestInvariant(hashes, recs, n - 1, s.newestRef)
    ensures NewestInvariant(hashes, recs, n, ScanStep(hashes, s, recs[n - 1]).newestRef)
  {
    var rec, newest := recs[n - 1], ScanStep(hashes, s, recs[n - 1]).newestRef;
    forall h ensures NewestRef(recs, n, h) ==
                       if IsRef(rec, h) then Some(rec.position) else if IsVoid(rec, h) then None
                       else NewestRef(recs, n - 1, h)
    {
    }
  }

  lemma RemovedStep(hashes: set<B256>, recs: seq<OrderingRecord>, n: nat, s: Scan, p: BPosition)
    requires 0 < n <= |recs| && VoidHashes(recs) <= hashes
    requires NewestInvariant(hashes, recs, n - 1, s.newestRef)
    requires p in s.positions <==> Removed(recs, n - 1, p)
    ensures p in ScanStep(hashes, s, recs[n - 1]).positions <==> Removed(recs, n, p)
  {
    var j := n - 1;
    if Removed(recs, n - 1, p) {
      var a, b :| 0 <= a < b < n - 1 && Voids(recs, a, b) && recs[a].position == p;
      assert 0 <= a < b < n && Voids(recs, a, b);
    }
    if recs[j].value.Void? {
      var h := recs[j].value.txHash;
      assert h in VoidHashes(recs);
      forall i | 0 <= i < j
        ensures Voids(recs, i, j) <==> LastMention(recs, j, h) == Some(i) && IsRef(recs[i], h)
      {
        VoidTarget(recs, i, j);
      }
    }
  }

  lemma {:induction false} ScanKeepsInvariant(hashes: set<B256>, recs: seq<OrderingRecord>, n: nat)
    requires n <= |recs| && VoidHashes(recs) <= hashes
    ensures NewestInvariant(hashes, recs, n, ScanPrefix(hashes, recs, n).newestRef)
    ensures forall p :: p in ScanPrefix(hashes, recs, n).positions <==> Removed(recs, n, p)
  {
    hide ScanStep;
    if n > 0 {
      ScanKeepsInvariant(hashes, recs, n - 1);
      var s := ScanPrefix(hashes, recs, n - 1);
      NewestStep(hashes, recs, n, s);
      forall p ensures p in ScanPrefix(hashes, recs, n).positions <==> Removed(recs, n, p) {
        RemovedStep(hashes, recs, n, s, p);
      }
    }
  }

  /** A ref is dropped exactly when a voided ref holds its position; with
      distinct positions, exactly when it is voided itself. */
  lemma ScanMarksVoidedRefs(recs: seq<OrderingRecord>, positions: set<BPosition>, i: nat)
    requires forall p :: p in positions <==> Removed(recs, |recs|, p)
    requires forall a, b :: 0 <= a < b < |recs| ==> recs[a].position != recs[b].position
    requires i < |recs|
    ensures recs[i].position in positions <==> Voided(recs, i)
  {
    if Voided(recs, i) {
      var j :| i < j < |recs| && Voids(recs, i, j);
      assert Removed(recs, |recs|, recs[i].position);
    }
  }

  /** The voided refs of one ordering segment. */
  class VoidedRefs {
    var hashes: set<B256>
    var newestRef: map<B256, BPosition>
    var positions: set<BPosition>

    constructor ()
      ensures hashes == {} && newestRef == map[] && positions == {}
    {
      hashes, newestRef, positions := {}, map[], {};
    }

    method NoteHash(msg: TxOrderingMessage)
      modifies this`hashes
      ensures hashes == old(hashes) + if msg.Void? then {msg.txHash} else {}
    {
      if msg.Void? {
        hashes := hashes + {msg.txHash};
      }
    }

    method NotePosition(rec: OrderingRecord)
      modifies this`newestRef, this`positions
      ensures Scan(newestRef, positions) == ScanStep(hashes, Scan(old(newestRef), old(positions)), rec)
    {
      match rec.value {
        case TxRefMsg(r) =>
          if r.txHash in hashes {
            newestRef := newestRef[r.txHash := rec.position];
          }
        case Void(_, h) =>
          if h in newestRef {
            positions := positions + {newestRef[h]};
            newestRef := newestRef - {h};
          }
        case _ =>
      }
    }

    /** Two passes over the segment's items. */
    method ScanSegment(items: seq<Outcome<OrderingRecord>>) returns (r: Outcome<()>)
      requires hashes == {} && newestRef == map[] && positions == {}
      modifies this
      ensures Collect(items).Err? ==> r == Err(Collect(items).error)
      ensures Collect(items).Ok? ==>
                r == Ok(()) && forall p :: p in positions <==> Removed(Collect(items).value, |Collect(items).value|, p)
    {
      var _ :- CollectHashes(items);
      CollectOk(items);
      ghost var recs := Collect(items).value;
      if hashes == {} {
        forall p ensures !Removed(recs, |recs|, p) {
          NoVoidsNothingRemoved(recs, p);
        }
        return Ok(());
      }
      ScanKeepsInvariant(hashes, recs, |recs|);
      for i := 0 to |items|
        invariant hashes == VoidHashes(recs)
        invariant Scan(newestRef, positions) == ScanPrefix(hashes, recs, i)
      {
        NotePosition(items[i].value);
      }
      return Ok(());
    }

    method CollectHashes(items: seq<Outcome<OrderingRecord>>) returns (r: Outcome<()>)
      requires hashes == {}
      modifies this`hashes
      ensures Collect(items).Err? ==> r == Err(Collect(items).error)
      ensures Collect(items).Ok? ==> r == Ok(()) && hashes == VoidHashes(Collect(items).value)
    {
      for i := 0 to |items|
        invariant forall k :: 0 <= k < i ==> items[k].Ok?
        invariant hashes == set k | 0 <= k < i && items[k].value.value.Void? :: items[k].value.value.txHash
      {
        if items[i].Err? {
          CollectErr(items, i);
          return Err(items[i].error);
        }
        NoteHash(items[i].value.value);
      }
      CollectOk(items);
      r := Ok(());
    }
  }

  lemma NoVoidsNothingRemoved(recs: seq<OrderingRecord>, p: BPosition)
    requires VoidHashes(recs) == {}
    ensures !Removed(recs, |recs|, p)
  {
    var hashes := VoidHashes(recs);
    assert forall j :: 0 <= j < |recs| && recs[j].value.Void? ==> recs[j].value.txHash in hashes;
  }

  // ----- the envelope index of one shard

  type SegmentIndex = map<BPosition, TxEnvelope>

  ghost predicate DistinctPositions<T>(recs: seq<TypedRecord<T>>) {
    forall a, b :: 0 <= a < b < |recs| ==> recs[a].position != recs[b].position
  }

  /** The index holds every record at its position, and nothing else. */
  ghost predicate Holds(idx: SegmentIndex, recs: seq<TypedRecord<TxEnvelope>>) {
    && (forall i :: 0 <= i < |recs| ==> recs[i].position in idx && idx[recs[i].position] == recs[i].value)
    && (forall p :: p in idx ==> exists i :: 0 <= i < |recs| && recs[i].position == p)
  }

  /** The first `n` items are records at distinct positions, and `idx` holds
      them. */
  ghost predicate IndexedUpTo(items: seq<Outcome<TypedRecord<TxEnvelope>>>, n: nat, idx: SegmentIndex)
    requires n <= |items|
  {
    Collect(items[..n]).Ok? && DistinctPositions(Collect(items[..n]).value) && Holds(idx, Collect(items[..n]).value)
  }

  /** Item `i` is the first that cannot be indexed, and `e` says why: it is an
      error itself, or it repeats a position. */
  ghost predicate FailsAt(items: seq<Outcome<TypedRecord<TxEnvelope>>>, i: nat, e: BatcherError)
    requires i < |items|
  {
    && Collect(items[..i]).Ok? && DistinctPositions(Collect(items[..i]).value)
    && match items[i]
       case Err(error) => e == error
       case Ok(rec) =>
         e == Frame(DuplicatePosition)
         && exists k :: 0 <= k < i && items[k].Ok? && items[k].value.position == rec.position
  }

  lemma IndexStep(items: seq<Outcome<TypedRecord<TxEnvelope>>>, n: nat, idx: SegmentIndex)
    requires n < |items| && IndexedUpTo(items, n, idx) && items[n].Ok? && items[n].value.position !in idx
    ensures IndexedUpTo(items, n + 1, idx[items[n].value.position := items[n].value.value])
  {
    CollectOk(items[..n]);
    CollectOk(items[..n + 1]);
    var recs, more := Collect(items[..n]).value, Collect(items[..n + 1]).value;
    assert more == recs + [items[n].value];
  }

  lemma IndexStops(items: seq<Outcome<TypedRecord<TxEnvelope>>>, n: nat, idx: SegmentIndex, e: BatcherError)
    requires n < |items| && IndexedUpTo(items, n, idx)
    requires match items[n]
             case Err(error) => e == error
             case Ok(rec) => rec.position in idx && e == Frame(DuplicatePosition)
    ensures FailsAt(items, n, e)
    ensures !(Collect(items).Ok? && DistinctPositions(Collect(items).value))
  {
    CollectOk(items[..n]);
    CollectOk(items);
    if items[n].Ok? {
      var p := items[n].value.position;
      var k :| 0 <= k < n && Collect(items[..n]).value[k].position == p;
      assert items[..n][k] == items[k];
      if Collect(items).Ok? {
        assert Collect(items).value[k].position == Collect(items).value[n].position;
      }
    }
  }

  /** The index loads exactly when the segment is whole and no two records
      share a position, and then it holds every record and nothing else.
      Otherwise the first item in the way gives the error. */
  method LoadIndex(items: seq<Outcome<TypedRecord<TxEnvelope>>>) returns (r: Outcome<SegmentIndex>)
    ensures r.Ok? <==> Collect(items).Ok? && DistinctPositions(Collect(items).value)
    ensures r.Ok? ==> Holds(r.value, Collect(items).value)
    ensures r.Err? ==> exists i :: 0 <= i < |items| && FailsAt(items, i, r.error)
  {
    hide DistinctPositions;
    hide Holds;
    hide Collect;
    hide FailsAt;
    var idx: SegmentIndex := map[];
    NothingIndexed(items);
    for i := 0 to |items|
      invariant IndexedUpTo(items, i, idx)
    {
      if items[i].Err? {
        IndexStops(items, i, idx, items[i].error);
        return Err(items[i].error);
      }
      var rec := items[i].value;
      if rec.position in idx {
        IndexStops(items, i, idx, Frame(DuplicatePosition));
        return Err(Frame(DuplicatePosition));
      }
      IndexStep(items, i, idx);
      idx := idx[rec.position := rec.value];
    }
    assert items[..|items|] == items;
    return Ok(idx);
  }

  lemma NothingIndexed(items: seq<Outcome<TypedRecord<TxEnvelope>>>)
    ensures IndexedUpTo(items, 0, map[])
  {
  }

  // ----- the walk

  datatype ResolvedRecord =
    | Tx(position: BPosition, sequencerId: byte, txDataPosition: BPosition, env: TxEnvelope)
    | Boundary(position: BPosition, marker: BlockBoundaryStart)
    | RemoteEpoch(position: BPosition, record: RemoteEpochRecord)

  type Indexes = map<byte, SegmentIndex>

  function Resolve(indexes: Indexes, r: TxRef): Outcome<TxEnvelope> {
    if r.shardId !in indexes then Err(Config)
    else if r.txDataPosition !in indexes[r.shardId] then Err(Frame(RefNotFound))
    else Ok(indexes[r.shardId][r.txDataPosition])
  }

  /** One ordering record as the walk yields it, given whether it is voided. */
  function Yield(indexes: Indexes, rec: OrderingRecord, voided: bool): Option<Outcome<ResolvedRecord>> {
    match rec.value
    case TxRefMsg(r) =>
      if voided then None else
        (match Resolve(indexes, r)
         case Ok(env) => Some(Ok(Tx(rec.position, r.shardId, r.txDataPosition, env)))
         case Err(e) => Some(Err(e)))
    case RemoteEpochMsg(record) => Some(Ok(RemoteEpoch(rec.position, record)))
    case BoundaryStart(b) => Some(Ok(Boundary(rec.position, b)))
    case _ => None
  }

  function Classify(indexes: Indexes, voided: set<BPosition>, raw: Outcome<OrderingRecord>)
    : Option<Outcome<ResolvedRecord>>
  {
    match raw
    case Err(e) => Some(Err(e))
    case Ok(rec) => Yield(indexes, rec, rec.position in voided)
  }

  /** Everything the reader yields from item `i` on. */
  function Walk(indexes: Indexes, voided: set<BPosition>, items: seq<Outcome<OrderingRecord>>, i: nat)
    : seq<Outcome<ResolvedRecord>>
    requires i <= |items|
    decreases |items| - i
  {
    if i == |items| then [] else
      match Classify(indexes, voided, items[i])
      case None => Walk(indexes, voided, items, i + 1)
      case Some(r) => [r] + Walk(indexes, voided, items, i + 1)
  }

  /** The record of the stream that an ordering record gives, field by field. */
  ghost predicate ComesFrom(indexes: Indexes, r: ResolvedRecord, rec: OrderingRecord) {
    && r.position == rec.position
    && match r
       case Tx(_, sequencer, at, env) =>
         && rec.value.TxRefMsg? && sequencer == rec.value.ref.shardId && at == rec.value.ref.txDataPosition
         && Resolve(indexes, rec.value.ref) == Ok(env)
       case Boundary(_, marker) => rec.value.BoundaryStart? && marker == rec.value.boundary
       case RemoteEpoch(_, record) => rec.value.RemoteEpochMsg? && record == rec.value.epoch
  }

  /** Every record the walk yields comes from one it read, not a voided ref. */
  lemma {:induction false} YieldedComesFrom(indexes: Indexes, voided: set<BPosition>,
                                            items: seq<Outcome<OrderingRecord>>, i: nat, r: ResolvedRecord) returns (k: nat)
    requires i <= |items| && Ok(r) in Walk(indexes, voided, items, i)
    ensures i <= k < |items| && items[k].Ok? && ComesFrom(indexes, r, items[k].value)
    ensures r.Tx? ==> r.position !in voided
    decreases |items| - i
  {
    if Classify(indexes, voided, items[i]) == Some(Ok(r)) {
      k := i;
    } else {
      k := YieldedComesFrom(indexes, voided, items, i + 1, r);
    }
  }

  /** A read error, and a ref that does not resolve and is not voided, stay in
      the stream as errors. */
  lemma {:induction false} ErrorsAreYielded(indexes: Indexes, voided: set<BPosition>,
                                            items: seq<Outcome<OrderingRecord>>, i: nat, k: nat)
    requires i <= k < |items|
    ensures items[k].Err? ==> Err(items[k].error) in Walk(indexes, voided, items, i)
    ensures items[k].Ok? && items[k].value.value.TxRefMsg? && items[k].value.position !in voided
            && Resolve(indexes, items[k].value.value.ref).Err? ==>
              Err(Resolve(indexes, items[k].value.value.ref).error) in Walk(indexes, voided, items, i)
    decreases k - i
  {
    hide Resolve;
    if i < k {
      ErrorsAreYielded(indexes, voided, items, i + 1, k);
    }
  }

  class MultiArchiveReader {
    const indexes: Indexes
    const voided: set<BPosition>
    const items: seq<Outcome<OrderingRecord>>
    var at: nat

    ghost predicate Valid()
      reads this
    {
      at <= |items|
    }

    ghost function Left(): seq<Outcome<ResolvedRecord>>
      requires Valid()
      reads this
    {
      Walk(indexes, voided, items, at)
    }

    constructor (indexes: Indexes, voided: set<BPosition>, items: seq<Outcome<OrderingRecord>>)
      ensures Valid() && Left() == Walk(indexes, voided, items, 0)
    {
      this.indexes, this.voided, this.items, at := indexes, voided, items, 0;
    }

    /** Skip to the next record that classifies to something. */
    method NextRecord() returns (r: Option<Outcome<ResolvedRecord>>)
      requires Valid()
      modifies this
      ensures Valid()
      ensures if old(Left()) == [] then r == None
              else r == Some(old(Left())[0]) && Left() == old(Left())[1..]
    {
      while at < |items|
        invariant Valid() && Left() == old(Left())
      {
        var yielded := Classify(indexes, voided, items[at]);
        at := at + 1;
        if yielded.Some? {
          return yielded;
        }
      }
      return None;
    }
  }

  /** The stream by the one-pass rule: no scan, no set of positions. */
  ghost function Reference(indexes: Indexes, recs: seq<OrderingRecord>, i: nat): seq<Outcome<ResolvedRecord>>
    requires i <= |recs|
    decreases |recs| - i
  {
    if i == |recs| then [] else
      match Yield(indexes, recs[i], Voided(recs, i))
      case None => Reference(indexes, recs, i + 1)
      case Some(r) => [r] + Reference(indexes, recs, i + 1)
  }

  /** The walk after the two-pass scan is the one-pass rule. */
  lemma {:induction false} WalkIsReference(indexes: Indexes, recs: seq<OrderingRecord>, positions: set<BPosition>, i: nat)
    requires DistinctPositions(recs) && i <= |recs|
    requires forall p :: p in positions <==> Removed(recs, |recs|, p)
    ensures Walk(indexes, positions, AllOk(recs), i) == Reference(indexes, recs, i)
    decreases |recs| - i
  {
    hide Voided;
    if i < |recs| {
      ScanMarksVoidedRefs(recs, positions, i);
      WalkIsReference(indexes, recs, positions, i + 1);
    }
  }
}
