/** The local layer: the accounts recently written, with a write-order queue
    that evicts by age, capacity and queue length. Time is a parameter. */
module LiveCache {
  import opened Wrappers
  import opened Bytes
  import opened Kar1
  import opened Records
  import opened Packer
  import opened Projection

  datatype Entry = Entry(nonce: u64, balance: u256, txIdx: u64, seenAt: nat)

  datatype Config = Config(ttl: nat, capacity: positive)

  type Stamp = (nat, Address)

  datatype Live = Live(resident: map<Address, Entry>, order: seq<Stamp>, head: u64)

  const FRESH := Live(map[], [], 0)
  const USIZE_MAX := 0xFFFF_FFFF_FFFF_FFFF

  function QueueBound(cfg: Config): nat {
    if 4 * cfg.capacity <= USIZE_MAX then 4 * cfg.capacity else USIZE_MAX
  }

  // ----- one row

  /** The monotone rule, except that position zero is always overwritable. */
  predicate Applies(s: Live, row: AccountRow, idx: u64) {
    row.address in s.resident ==> s.resident[row.address].txIdx < idx || s.resident[row.address].txIdx == 0
  }

  function ApplyOne(s: Live, row: AccountRow, idx: u64, now: nat): Live {
    if !Applies(s, row, idx) then s else
      s.(resident := s.resident[row.address := Entry(row.nonce, row.balance, idx, now)],
         order := s.order + [(now, row.address)])
  }

  function ApplyRows(s: Live, rows: seq<AccountRow>, idx: u64, now: nat): (Live, nat)
    decreases |rows|
  {
    if rows == [] then (s, 0) else
      var (end, n) := ApplyRows(ApplyOne(s, rows[0], idx, now), rows[1..], idx, now);
      (end, n + if Applies(s, rows[0], idx) then 1 else 0)
  }

  // ----- eviction

  function EvictFront(s: Live): Live
    requires s.order != []
  {
    var (at, address) := s.order[0];
    var kept := if address in s.resident && s.resident[address].seenAt == at then s.resident - {address} else s.resident;
    s.(resident := kept, order := s.order[1..])
  }

  predicate MustEvict(cfg: Config, s: Live, now: nat) {
    && s.order != []
    && (|| (if now >= s.order[0].0 then now - s.order[0].0 else 0) > cfg.ttl
        || |s.resident| > cfg.capacity
        || |s.order| > QueueBound(cfg))
  }

  function Evict(cfg: Config, s: Live, now: nat): Live
    decreases |s.order|
  {
    if MustEvict(cfg, s, now) then Evict(cfg, EvictFront(s), now) else s
  }

  /** One batch: its rows, the head, then the eviction. */
  function ApplyBatch(cfg: Config, s: Live, end: BPosition, rows: seq<AccountRow>, now: nat): (Live, nat) {
    var idx := end.AsIndex();
    var (s1, n) := ApplyRows(s, rows, idx, now);
    (Evict(cfg, s1.(head := if s1.head < idx then idx else s1.head), now), n)
  }

  /** The view a reader gets at `now`: resident and not expired. */
  function Lookup(cfg: Config, s: Live, address: Address, now: nat): Option<Entry> {
    if address in s.resident && (now <= s.resident[address].seenAt || now - s.resident[address].seenAt <= cfg.ttl)
    then Some(s.resident[address]) else None
  }

  class LiveAccountsWriter {
    const cfg: Config
    var resident: map<Address, Entry>
    var order: seq<Stamp>
    var head: u64

    ghost function State(): Live
      reads this
    {
      Live(resident, order, head)
    }

    constructor (cfg: Config)
      ensures this.cfg == cfg && State() == FRESH
    {
      this.cfg := cfg;
      resident, order, head := map[], [], 0;
    }

    method ApplyRow(row: AccountRow, idx: u64, now: nat) returns (applied: bool)
      modifies this
      ensures State() == ApplyOne(old(State()), row, idx, now) && applied == Applies(old(State()), row, idx)
    {
      var entry := if row.address in resident then resident[row.address] else Entry(row.nonce, row.balance, 0, now);
      if entry.txIdx >= idx && entry.txIdx != 0 {
        return false;
      }
      resident := resident[row.address := Entry(row.nonce, row.balance, idx, now)];
      order := order + [(now, row.address)];
      return true;
    }

    method Apply(end: BPosition, rows: seq<AccountRow>, now: nat) returns (applied: nat)
      modifies this
      ensures (State(), applied) == ApplyBatch(cfg, old(State()), end, rows, now)
    {
      var idx := end.AsIndex();
      applied := 0;
      for i := 0 to |rows|
        invariant
          var (end, n) := ApplyRows(State(), rows[i..], idx, now);
          ApplyRows(old(State()), rows, idx, now) == (end, applied + n)
      {
        assert rows[i..][1..] == rows[i + 1..];
        var took := ApplyRow(rows[i], idx, now);
        applied := applied + if took then 1 else 0;
      }
      head := if head < idx then idx else head;
      EvictAll(now);
    }

    method EvictAll(now: nat)
      modifies this
      ensures State() == Evict(cfg, old(State()), now)
    {
      while MustEvict(cfg, Live(resident, order, head), now)
        invariant Evict(cfg, State(), now) == Evict(cfg, old(State()), now)
        decreases |order|
      {
        var (at, address) := order[0];
        EvictFirst(at, address);
      }
    }

    method EvictFirst(at: nat, address: Address)
      requires order != [] && order[0] == (at, address)
      modifies this
      ensures State() == EvictFront(old(State()))
    {
      order := order[1..];
      if address in resident && resident[address].seenAt == at {
        resident := resident - {address};
      }
    }

    method Clear()
      modifies this
      ensures State() == FRESH
    {
      resident, order, head := map[], [], 0;
    }
  }

  // ----- the invariant of every reachable state

  ghost predicate Sorted(order: seq<Stamp>) {
    forall i, j :: 0 <= i < j < |order| ==> order[i].0 <= order[j].0
  }

  /** At time `now`: the queue is in time order and not ahead of the clock, and
      every resident entry is queued under its own write time. */
  ghost predicate Inv(s: Live, now: nat) {
    && Sorted(s.order)
    && (forall i :: 0 <= i < |s.order| ==> s.order[i].0 <= now)
    && (forall a :: a in s.resident ==> (s.resident[a].seenAt, a) in s.order)
  }

  lemma ApplyOneKeeps(s: Live, row: AccountRow, idx: u64, now: nat)
    requires Inv(s, now)
    ensures Inv(ApplyOne(s, row, idx, now), now)
  {
    var r := ApplyOne(s, row, idx, now);
    if Applies(s, row, idx) {
      assert (now, row.address) in [(now, row.address)];
    }
  }

  lemma {:induction false} ApplyRowsKeeps(s: Live, rows: seq<AccountRow>, idx: u64, now: nat)
    requires Inv(s, now)
    ensures Inv(ApplyRows(s, rows, idx, now).0, now)
    decreases |rows|
  {
    hide Inv;
    hide ApplyOne;
    if rows != [] {
      ApplyOneKeeps(s, rows[0], idx, now);
      ApplyRowsKeeps(ApplyOne(s, rows[0], idx, now), rows[1..], idx, now);
    }
  }

  lemma EvictFrontKeeps(s: Live, now: nat)
    requires Inv(s, now) && s.order != []
    ensures Inv(EvictFront(s), now)
  {
    var r := EvictFront(s);
    assert s.order == [s.order[0]] + s.order[1..];
    forall a | a in r.resident ensures (r.resident[a].seenAt, a) in r.order {
      assert (s.resident[a].seenAt, a) in s.order;
    }
  }

  /** What an eviction leaves: the invariant, a part of what was there, and
      nothing more to evict. */
  lemma {:induction false} EvictKeeps(cfg: Config, s: Live, now: nat)
    requires Inv(s, now)
    ensures Inv(Evict(cfg, s, now), now) && !MustEvict(cfg, Evict(cfg, s, now), now)
    ensures forall a :: a in Evict(cfg, s, now).resident ==> a in s.resident && Evict(cfg, s, now).resident[a] == s.resident[a]
    decreases |s.order|
  {
    hide Inv;
    hide MustEvict;
    if MustEvict(cfg, s, now) {
      EvictNeedsQueue(cfg, s, now);
      EvictFrontKeeps(s, now);
      EvictKeeps(cfg, EvictFront(s), now);
    }
  }

  lemma EvictNeedsQueue(cfg: Config, s: Live, now: nat)
    requires MustEvict(cfg, s, now)
    ensures s.order != []
  {
  }

  lemma FrontIsOldest(s: Live, now: nat, a: Address)
    requires Inv(s, now) && s.order != [] && a in s.resident
    ensures s.order[0].0 <= s.resident[a].seenAt
  {
    assert (s.resident[a].seenAt, a) in s.order;
  }

  /** Every account evicted was last written no later than every survivor. */
  lemma {:induction false} EvictsOldestFirst(cfg: Config, s: Live, now: nat, gone: Address, kept: Address)
    requires Inv(s, now)
    requires gone in s.resident && gone !in Evict(cfg, s, now).resident && kept in Evict(cfg, s, now).resident
    ensures kept in s.resident && s.resident[gone].seenAt <= s.resident[kept].seenAt
    decreases |s.order|
  {
    hide MustEvict;
    hide Inv;
    EvictKeeps(cfg, s, now);
    assert MustEvict(cfg, s, now);
    EvictNeedsQueue(cfg, s, now);
    var s1 := EvictFront(s);
    if gone in s1.resident {
      EvictFrontKeeps(s, now);
      EvictsOldestFirst(cfg, s1, now, gone, kept);
    } else {
      FrontIsOldest(s, now, kept);
    }
  }

  /** The bounds the layer promises after every batch. */
  ghost predicate Bounded(cfg: Config, s: Live, now: nat) {
    && |s.resident| <= cfg.capacity
    && |s.order| <= 4 * cfg.capacity
    && forall a :: a in s.resident ==> s.resident[a].seenAt <= now <= s.resident[a].seenAt + cfg.ttl
  }

  lemma SettledIsBounded(cfg: Config, s: Live, now: nat)
    requires Inv(s, now) && !MustEvict(cfg, s, now)
    ensures Bounded(cfg, s, now)
  {
    forall a | a in s.resident ensures s.order != [] && s.order[0].0 <= s.resident[a].seenAt <= now {
      assert (s.resident[a].seenAt, a) in s.order;
    }
    if s.order == [] {
      assert s.resident == map[];
    }
  }

  // ----- runs

  datatype Op = Apply(batch: BatchWrite, now: nat) | Clear

  function Step(cfg: Config, s: Live, op: Op): Live {
    match op
    case Apply(b, now) => ApplyBatch(cfg, s, b.end, b.rows, now).0
    case Clear => FRESH
  }

  /** The clock at each batch, never before `from`. */
  predicate ClockFrom(ops: seq<Op>, from: nat)
    decreases |ops|
  {
    ops != [] ==>
      match ops[0]
      case Apply(_, now) => from <= now && ClockFrom(ops[1..], now)
      case Clear => ClockFrom(ops[1..], from)
  }

  function RunOps(cfg: Config, s: Live, ops: seq<Op>): Live
    decreases |ops|
  {
    if ops == [] then s else RunOps(cfg, Step(cfg, s, ops[0]), ops[1..])
  }

  function LastTime(ops: seq<Op>, from: nat): nat
    decreases |ops|
  {
    if ops == [] then from else LastTime(ops[1..], if ops[0].Apply? then ops[0].now else from)
  }

  lemma InvLater(s: Live, now: nat, later: nat)
    requires Inv(s, now) && now <= later
    ensures Inv(s, later)
  {
  }

  lemma ApplyBatchKeeps(cfg: Config, s: Live, b: BatchWrite, now: nat)
    requires Inv(s, now)
    ensures Inv(ApplyBatch(cfg, s, b.end, b.rows, now).0, now)
    ensures Bounded(cfg, ApplyBatch(cfg, s, b.end, b.rows, now).0, now)
  {
    hide MustEvict;
    hide Bounded;
    hide Evict;
    hide ApplyRows;
    var idx := b.end.AsIndex();
    ApplyRowsKeeps(s, b.rows, idx, now);
    var s1 := ApplyRows(s, b.rows, idx, now).0;
    var s2 := s1.(head := if s1.head < idx then idx else s1.head);
    EvictKeeps(cfg, s2, now);
    SettledIsBounded(cfg, Evict(cfg, s2, now), now);
  }

  /** Every reachable state keeps the invariant, and right after a batch the
      bounds hold. */
  lemma {:induction false} ReachableIsBounded(cfg: Config, s: Live, ops: seq<Op>, from: nat)
    requires Inv(s, from) && ClockFrom(ops, from)
    ensures Inv(RunOps(cfg, s, ops), LastTime(ops, from))
    ensures ops != [] && ops[|ops| - 1].Apply? ==> Bounded(cfg, RunOps(cfg, s, ops), ops[|ops| - 1].now)
    decreases |ops|
  {
    hide Inv;
    hide Bounded;
    hide ApplyBatch;
    if ops != [] {
      var time := if ops[0].Apply? then ops[0].now else from;
      InvLater(s, from, time);
      FreshInv(time);
      if ops[0].Apply? {
        ApplyBatchKeeps(cfg, s, ops[0].batch, time);
      }
      ReachableIsBounded(cfg, Step(cfg, s, ops[0]), ops[1..], time);
    }
  }

  lemma FreshInv(now: nat)
    ensures Inv(FRESH, now)
  {
  }

  // ----- eviction takes no more than it must

  predicate Expired(cfg: Config, at: nat, now: nat) {
    now > at && now - at > cfg.ttl
  }

  ghost predicate InBounds(cfg: Config, s: Live) {
    |s.resident| <= cfg.capacity && |s.order| <= QueueBound(cfg)
  }

  /** Within capacity and queue length, exactly the expired entries go. */
  lemma {:induction false} OnlyExpiredGo(cfg: Config, s: Live, now: nat, a: Address)
    requires Inv(s, now) && InBounds(cfg, s) && a in s.resident
    ensures a in Evict(cfg, s, now).resident <==> !Expired(cfg, s.resident[a].seenAt, now)
    decreases |s.order|
  {
    hide Inv;
    hide InBounds;
    hide MustEvict;
    hide Expired;
    if MustEvict(cfg, s, now) {
      EvictNeedsQueue(cfg, s, now);
      EvictFrontKeeps(s, now);
      FrontHasExpired(cfg, s, now, a);
      if a in EvictFront(s).resident {
        OnlyExpiredGo(cfg, EvictFront(s), now, a);
      } else {
        EvictKeeps(cfg, EvictFront(s), now);
      }
    } else {
      NothingExpired(cfg, s, now, a);
    }
  }

  /** In bounds, the front goes only for its age. */
  lemma FrontHasExpired(cfg: Config, s: Live, now: nat, a: Address)
    requires MustEvict(cfg, s, now) && InBounds(cfg, s) && a in s.resident
    ensures InBounds(cfg, EvictFront(s))
    ensures a !in EvictFront(s).resident ==> Expired(cfg, s.resident[a].seenAt, now)
  {
    FewerResident(s);
  }

  lemma NothingExpired(cfg: Config, s: Live, now: nat, a: Address)
    requires Inv(s, now) && !MustEvict(cfg, s, now) && a in s.resident
    ensures !Expired(cfg, s.resident[a].seenAt, now)
  {
    FrontIsOldestIn(s, now, a);
  }

  lemma FewerResident(s: Live)
    requires s.order != []
    ensures |s.resident| - 1 <= |EvictFront(s).resident| <= |s.resident|
  {
    var a := s.order[0].1;
    var kept := EvictFront(s).resident;
    if kept != s.resident {
      assert kept.Keys == s.resident.Keys - {a};
      assert |kept| == |kept.Keys| && |s.resident| == |s.resident.Keys|;
    }
  }

  lemma FrontIsOldestIn(s: Live, now: nat, a: Address)
    requires Inv(s, now) && a in s.resident
    ensures s.order != [] && s.order[0].0 <= s.resident[a].seenAt <= now
  {
    assert (s.resident[a].seenAt, a) in s.order;
  }

  /** With nothing expired and the queue in bounds, exactly the excess over the
      capacity goes. */
  lemma {:induction false} OnlyExcessGoes(cfg: Config, s: Live, now: nat)
    requires Inv(s, now) && |s.order| <= QueueBound(cfg)
    requires s.order != [] ==> !Expired(cfg, s.order[0].0, now)
    ensures |Evict(cfg, s, now).resident| == if |s.resident| <= cfg.capacity then |s.resident| else cfg.capacity
    decreases |s.order|
  {
    if MustEvict(cfg, s, now) {
      EvictFrontKeeps(s, now);
      FewerResident(s);
      OnlyExcessGoes(cfg, EvictFront(s), now);
    } else if s.order == [] {
      EvictKeeps(cfg, s, now);
      SettledIsBounded(cfg, s, now);
    }
  }

  /** The count a batch reports is the count of writes it queued. */
  lemma {:induction false} AppliedRowsAreQueued(s: Live, rows: seq<AccountRow>, idx: u64, now: nat)
    ensures |ApplyRows(s, rows, idx, now).0.order| == |s.order| + ApplyRows(s, rows, idx, now).1
    decreases |rows|
  {
    if rows != [] {
      AppliedRowsAreQueued(ApplyOne(s, rows[0], idx, now), rows[1..], idx, now);
    }
  }

  // ----- the head

  predicate UpTo(s: Live, head: u64) {
    forall a :: a in s.resident ==> s.resident[a].txIdx <= head
  }

  lemma {:induction false} RowsUpTo(s: Live, rows: seq<AccountRow>, idx: u64, now: nat, head: u64)
    requires UpTo(s, head) && idx <= head
    ensures UpTo(ApplyRows(s, rows, idx, now).0, head) && ApplyRows(s, rows, idx, now).0.head == s.head
    decreases |rows|
  {
    if rows != [] {
      RowsUpTo(ApplyOne(s, rows[0], idx, now), rows[1..], idx, now, head);
    }
  }

  lemma {:induction false} EvictUpTo(cfg: Config, s: Live, now: nat, head: u64)
    requires UpTo(s, head)
    ensures UpTo(Evict(cfg, s, now), head) && Evict(cfg, s, now).head == s.head
    decreases |s.order|
  {
    if MustEvict(cfg, s, now) {
      EvictUpTo(cfg, EvictFront(s), now, head);
    }
  }

  /** The operations after the last clear. */
  function SinceClear(ops: seq<Op>): seq<Op>
    decreases |ops|
  {
    if ops == [] then []
    else if Clear in ops[1..] then SinceClear(ops[1..])
    else if ops[0].Clear? then ops[1..]
    else ops
  }

  /** `head` is the highest of `base` and the ends of the batches in `ops`. */
  ghost predicate IsHighest(head: u64, base: u64, ops: seq<Op>) {
    && base <= head
    && (forall k :: 0 <= k < |ops| ==> ops[k].Apply? && ops[k].batch.end.AsIndex() <= head)
    && (head == base || exists k :: 0 <= k < |ops| && ops[k].Apply? && ops[k].batch.end.AsIndex() == head)
  }

  /** In every run the head is the highest batch end since the last clear, or
      where the run started, and no resident row is beyond it. */
  lemma {:induction false} HeadIsTheHighest(cfg: Config, s: Live, ops: seq<Op>)
    requires UpTo(s, s.head)
    ensures UpTo(RunOps(cfg, s, ops), RunOps(cfg, s, ops).head)
    ensures IsHighest(RunOps(cfg, s, ops).head, if Clear in ops then 0 else s.head, SinceClear(ops))
    decreases |ops|
  {
    hide UpTo;
    hide Step;
    if ops != [] {
      StepCovers(cfg, s, ops[0]);
      var rest := ops[1..];
      HeadIsTheHighest(cfg, Step(cfg, s, ops[0]), rest);
      assert Clear in ops <==> ops[0].Clear? || Clear in rest by {
        assert ops == [ops[0]] + rest;
      }
      if Clear !in rest && ops[0].Apply? {
        assert SinceClear(rest) == rest;
        HeadStep(RunOps(cfg, s, ops).head, s.head, ops);
      }
    }
  }

  lemma HeadStep(head: u64, base: u64, ops: seq<Op>)
    requires ops != [] && ops[0].Apply?
    requires
      var end := ops[0].batch.end.AsIndex();
      IsHighest(head, if base < end then end else base, ops[1..])
    ensures IsHighest(head, base, ops)
  {
    var end, rest := ops[0].batch.end.AsIndex(), ops[1..];
    forall k | 0 <= k < |ops| ensures ops[k].Apply? && ops[k].batch.end.AsIndex() <= head {
      assert k > 0 ==> ops[k] == rest[k - 1];
    }
    if head != (if base < end then end else base) {
      var k :| 0 <= k < |rest| && rest[k].Apply? && rest[k].batch.end.AsIndex() == head;
      assert ops[k + 1] == rest[k];
    }
  }

  lemma StepCovers(cfg: Config, s: Live, op: Op)
    requires UpTo(s, s.head)
    ensures UpTo(Step(cfg, s, op), Step(cfg, s, op).head)
    ensures Step(cfg, s, op).head ==
              match op
              case Apply(b, _) => (if s.head < b.end.AsIndex() then b.end.AsIndex() else s.head)
              case Clear => 0
  {
    hide ApplyRows;
    hide Evict;
    if op.Apply? {
      var idx := op.batch.end.AsIndex();
      var head := if s.head < idx then idx else s.head;
      RowsUpTo(s, op.batch.rows, idx, op.now, head);
      var s1 := ApplyRows(s, op.batch.rows, idx, op.now).0;
      EvictUpTo(cfg, s1.(head := head), op.now, head);
    }
  }

  // ----- what a reader gets

  /** A reader gets an entry exactly when it is resident and not older than the
      time to live. */
  lemma LookupIff(cfg: Config, s: Live, a: Address, now: nat, e: Entry)
    ensures Lookup(cfg, s, a, now) == Some(e) <==>
              a in s.resident && s.resident[a] == e && now <= e.seenAt + cfg.ttl
  {
  }

  /** A row that applies is what readers of its address get until its time to
      live has passed, and no longer; no other address changes. */
  lemma AppliedRowIsRead(cfg: Config, s: Live, row: AccountRow, idx: u64, now: nat, a: Address, at: nat)
    requires row.address in s.resident ==> s.resident[row.address].txIdx < idx || s.resident[row.address].txIdx == 0
    ensures
      var read := Lookup(cfg, ApplyOne(s, row, idx, now), a, at);
      if a == row.address then
        if at <= now + cfg.ttl then read == Some(Entry(row.nonce, row.balance, idx, now)) else read == None
      else read == Lookup(cfg, s, a, at)
  {
  }

  /** A row that does not apply changes nothing. */
  lemma RefusedRowChangesNothing(s: Live, row: AccountRow, idx: u64, now: nat)
    requires row.address in s.resident
    requires s.resident[row.address].txIdx >= idx && s.resident[row.address].txIdx > 0
    ensures ApplyOne(s, row, idx, now) == s
  {
  }

  /** With the oldest write not expired, the map within capacity and the queue
      within four times that, nothing goes. */
  lemma NothingGoesWithRoom(cfg: Config, s: Live, now: nat)
    requires s.order != [] ==> now <= s.order[0].0 + cfg.ttl
    requires |s.resident| <= cfg.capacity && |s.order| <= 4 * cfg.capacity && |s.order| <= 0xFFFF_FFFF_FFFF_FFFF
    ensures Evict(cfg, s, now) == s
  {
  }

  /** In one batch the first row of an address decides; past position zero the
      later ones are refused. */
  lemma {:induction false} FirstRowWins(s: Live, rows: seq<AccountRow>, idx: u64, now: nat, i: nat)
    requires i < |rows| && idx > 0 && forall k :: 0 <= k < i ==> rows[k].address != rows[i].address
    requires rows[i].address in s.resident ==>
               s.resident[rows[i].address].txIdx < idx || s.resident[rows[i].address].txIdx == 0
    ensures
      var end, a := ApplyRows(s, rows, idx, now).0, rows[i].address;
      a in end.resident && end.resident[a] == Entry(rows[i].nonce, rows[i].balance, idx, now)
    decreases i
  {
    var next := ApplyOne(s, rows[0], idx, now);
    if i == 0 {
      LaterRowsAreRefused(next, rows[1..], idx, now, rows[0].address);
    } else {
      FirstRowWins(next, rows[1..], idx, now, i - 1);
    }
  }

  lemma {:induction false} LaterRowsAreRefused(s: Live, rows: seq<AccountRow>, idx: u64, now: nat, a: Address)
    requires idx > 0 && a in s.resident && s.resident[a].txIdx == idx
    ensures a in ApplyRows(s, rows, idx, now).0.resident && ApplyRows(s, rows, idx, now).0.resident[a] == s.resident[a]
    decreases |rows|
  {
    if rows != [] {
      LaterRowsAreRefused(ApplyOne(s, rows[0], idx, now), rows[1..], idx, now, a);
    }
  }
}
