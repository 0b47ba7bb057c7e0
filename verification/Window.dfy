/** The L1 watcher's window: the confirmed block and the published epochs
    after it that no boundary confirmed yet. Time is a parameter. */
module Window {
  import opened Wrappers
  import opened Bytes
  import opened Kar1

  datatype L1Cursor = L1Cursor(number: u64, hash: B256)

  datatype EpochRecord = EpochRecord(l1Number: u64, l1Hash: B256, deposits: seq<Bytes>)

  const PUBLISH_WINDOW := 2048
  const REPUBLISH_AFTER := 30

  datatype State = State(base: L1Cursor, epochs: seq<EpochRecord>, since: nat)

  datatype Confirm = Inside | Outside

  function CursorOf(e: EpochRecord): L1Cursor {
    L1Cursor(e.l1Number, e.l1Hash)
  }

  function Head(s: State): L1Cursor {
    if s.epochs == [] then s.base else CursorOf(s.epochs[|s.epochs| - 1])
  }

  predicate Full(s: State) {
    |s.epochs| >= PUBLISH_WINDOW
  }

  function Push(s: State, e: EpochRecord, now: nat): State {
    State(s.base, s.epochs + [e], if s.epochs == [] then now else s.since)
  }

  /** How many leading epochs are at or below `origin`. */
  function PartitionPoint(epochs: seq<EpochRecord>, origin: u64): (n: nat)
    ensures n <= |epochs|
    ensures forall i :: 0 <= i < n ==> epochs[i].l1Number <= origin
    ensures n < |epochs| ==> epochs[n].l1Number > origin
  {
    if epochs == [] || epochs[0].l1Number > origin then 0 else 1 + PartitionPoint(epochs[1..], origin)
  }

  function ConfirmOrigin(s: State, origin: u64, now: nat): (State, Confirm) {
    if origin < s.base.number || origin > Head(s).number then (s, Outside) else
      var done := PartitionPoint(s.epochs, origin);
      if done == 0 then (s, Inside)
      else (State(CursorOf(s.epochs[done - 1]), s.epochs[done..], now), Inside)
  }

  /** The window of one watcher. */
  class WatcherWindow {
    var base: L1Cursor
    var epochs: seq<EpochRecord>
    var since: nat

    ghost function Now(): State
      reads this
    {
      State(base, epochs, since)
    }

    constructor (base: L1Cursor, now: nat)
      ensures Now() == State(base, [], now)
    {
      this.base, epochs, since := base, [], now;
    }

    function HeadCursor(): L1Cursor
      reads this
    {
      if epochs == [] then base else CursorOf(epochs[|epochs| - 1])
    }

    predicate IsFull()
      reads this
    {
      Full(State(base, epochs, since))
    }

    method PushEpoch(e: EpochRecord, now: nat)
      modifies this
      ensures Now() == Push(old(Now()), e, now)
    {
      if epochs == [] {
        since := now;
      }
      epochs := epochs + [e];
    }

    method ConfirmUpTo(origin: u64, now: nat) returns (r: Confirm)
      modifies this
      ensures (Now(), r) == ConfirmOrigin(old(Now()), origin, now)
    {
      if origin < base.number || origin > HeadCursor().number {
        return Outside;
      }
      var done := PartitionPoint(epochs, origin);
      if done > 0 {
        var confirmed := epochs[done - 1];
        epochs := epochs[done..];
        base := CursorOf(confirmed);
        since := now;
      }
      return Inside;
    }

    function RepublishAt(): Option<nat>
      reads this
    {
      if epochs == [] then None else Some(since + REPUBLISH_AFTER)
    }

    /** The unconfirmed epochs, for a re-publish; restarts the timer. */
    method Republish(now: nat) returns (again: seq<EpochRecord>)
      modifies this
      ensures Now() == old(Now()).(since := now) && again == old(epochs)
      ensures again != [] ==> RepublishAt() == Some(now + 30)
    {
      since := now;
      again := epochs;
    }
  }

  // ----- the window is base+1 ..= head

  /** Ascending from the block after the base, without a hole. */
  ghost predicate Dense(s: State) {
    forall i :: 0 <= i < |s.epochs| ==> s.epochs[i].l1Number == s.base.number + 1 + i
  }

  lemma PushKeepsDense(s: State, e: EpochRecord, now: nat)
    requires Dense(s) && e.l1Number == Head(s).number + 1
    ensures Dense(Push(s, e, now)) && Head(Push(s, e, now)) == CursorOf(e)
  {
  }

  lemma HeadIsLast(s: State)
    requires Dense(s)
    ensures Head(s).number == s.base.number + |s.epochs|
  {
  }

  lemma PartitionOfDense(s: State, origin: u64)
    requires Dense(s) && s.base.number <= origin <= Head(s).number
    ensures PartitionPoint(s.epochs, origin) == origin - s.base.number
  {
    HeadIsLast(s);
    var n := PartitionPoint(s.epochs, origin);
    assert n > 0 ==> s.epochs[n - 1].l1Number == s.base.number + n;
  }

  /** An origin confirms inside exactly when it is in `base..=head`; then the
      base moves to it with the pushed epoch's own hash, the head stays, and
      the window is still dense. Outside, nothing changes. */
  lemma ConfirmMovesBase(s: State, origin: u64, now: nat)
    requires Dense(s)
    ensures
      var (r, c) := ConfirmOrigin(s, origin, now);
      && (c.Inside? <==> s.base.number <= origin <= Head(s).number)
      && (c.Outside? ==> r == s)
      && (c.Inside? ==>
            && Dense(r) && Head(r) == Head(s) && r.base.number == origin
            && r.epochs == s.epochs[origin - s.base.number..]
            && r.base == (if origin == s.base.number then s.base
                          else CursorOf(s.epochs[origin - s.base.number - 1])))
  {
    HeadIsLast(s);
    if s.base.number <= origin <= Head(s).number {
      PartitionOfDense(s, origin);
    }
  }

  /** Confirming `a` and then a later `b` is confirming `b`, the timer aside. */
  lemma ConfirmsCompose(s: State, a: u64, b: u64, t0: nat, t1: nat, t2: nat)
    requires Dense(s) && s.base.number <= a <= b <= Head(s).number
    ensures
      var twice := ConfirmOrigin(ConfirmOrigin(s, a, t0).0, b, t1);
      var once := ConfirmOrigin(s, b, t2);
      twice.1 == once.1 == Inside && twice.0.base == once.0.base && twice.0.epochs == once.0.epochs
  {
    hide ConfirmOrigin;
    hide Head;
    HeadIsLast(s);
    ConfirmMovesBase(s, a, t0);
    var mid := ConfirmOrigin(s, a, t0).0;
    ConfirmMovesBase(mid, b, t1);
    ConfirmMovesBase(s, b, t2);
    assert s.epochs[a - s.base.number..][b - a..] == s.epochs[b - s.base.number..];
    if b > a {
      assert mid.epochs[b - a - 1] == s.epochs[b - s.base.number - 1];
    }
  }

  // ----- runs

  datatype Op = PushOp(epoch: EpochRecord, now: nat) | ConfirmOp(origin: u64, now: nat) | RepublishOp(now: nat)

  function Step(s: State, op: Op): State {
    match op
    case PushOp(e, now) => Push(s, e, now)
    case ConfirmOp(origin, now) => ConfirmOrigin(s, origin, now).0
    case RepublishOp(now) => s.(since := now)
  }

  /** Every push is the block after the head, as the watcher publishes them. */
  predicate InOrder(s: State, ops: seq<Op>)
    decreases |ops|
  {
    ops != [] ==>
      && (ops[0].PushOp? ==> ops[0].epoch.l1Number == Head(s).number + 1)
      && InOrder(Step(s, ops[0]), ops[1..])
  }

  function Run(s: State, ops: seq<Op>): State
    decreases |ops|
  {
    if ops == [] then s else Run(Step(s, ops[0]), ops[1..])
  }

  function Pushed(ops: seq<Op>): seq<EpochRecord> {
    if ops == [] then [] else (if ops[0].PushOp? then [ops[0].epoch] else []) + Pushed(ops[1..])
  }

  /** The epoch is confirmed, or a re-publish still offers it. */
  predicate Accounted(s: State, e: EpochRecord) {
    e.l1Number <= s.base.number || e in s.epochs
  }

  lemma StepAccounts(s: State, op: Op, e: EpochRecord)
    requires Dense(s) && (op.PushOp? ==> op.epoch.l1Number == Head(s).number + 1)
    requires Accounted(s, e) || (op.PushOp? && op.epoch == e)
    ensures Dense(Step(s, op)) && Accounted(Step(s, op), e)
    ensures s.base.number <= Step(s, op).base.number && Head(s).number <= Head(Step(s, op)).number
  {
    HeadIsLast(s);
    match op
    case PushOp(p, now) =>
      PushKeepsDense(s, p, now);
      assert e in s.epochs + [p] || e.l1Number <= s.base.number;
    case ConfirmOp(origin, now) =>
      ConfirmAccounts(s, origin, now, e);
    case RepublishOp(now) =>
  }

  lemma ConfirmAccounts(s: State, origin: u64, now: nat, e: EpochRecord)
    requires Dense(s) && Accounted(s, e)
    ensures
      var r := ConfirmOrigin(s, origin, now).0;
      Dense(r) && Accounted(r, e) && s.base.number <= r.base.number && Head(s).number <= Head(r).number
  {
    hide ConfirmOrigin;
    hide Head;
    ConfirmMovesBase(s, origin, now);
    if ConfirmOrigin(s, origin, now).1.Inside? && e in s.epochs {
      var i :| 0 <= i < |s.epochs| && s.epochs[i] == e;
      var k := origin - s.base.number;
      if i >= k {
        assert s.epochs[k..][i - k] == e;
      }
    }
  }

  /** Over every run the window stays exact, base and head never move back, and
      no epoch that was ever pushed is forgotten before it is confirmed. */
  lemma {:induction false} RunForgetsNothing(s: State, ops: seq<Op>, e: EpochRecord)
    requires Dense(s) && InOrder(s, ops)
    ensures Dense(Run(s, ops))
    ensures s.base.number <= Run(s, ops).base.number && Head(s).number <= Head(Run(s, ops)).number
    ensures Accounted(s, e) || e in Pushed(ops) ==> Accounted(Run(s, ops), e)
    decreases |ops|
  {
    hide Accounted;
    if ops != [] {
      var next := Step(s, ops[0]);
      if Accounted(s, e) || (ops[0].PushOp? && ops[0].epoch == e) {
        StepAccounts(s, ops[0], e);
      } else {
        BaseAccounted(s);
        StepAccounts(s, ops[0], EpochRecord(s.base.number, s.base.hash, []));
      }
      RunForgetsNothing(next, ops[1..], e);
    }
  }

  lemma BaseAccounted(s: State)
    ensures Accounted(s, EpochRecord(s.base.number, s.base.hash, []))
  {
  }

  /** The watcher publishes only while the window is not full. */
  predicate PublishesWithRoom(s: State, ops: seq<Op>)
    decreases |ops|
  {
    ops != [] ==> (ops[0].PushOp? ==> !Full(s)) && PublishesWithRoom(Step(s, ops[0]), ops[1..])
  }

  /** Then no run holds more than the window, so a re-publish never sends
      more than that. */
  lemma {:induction false} RunStaysInTheWindow(s: State, ops: seq<Op>)
    requires |s.epochs| <= 2048 && PublishesWithRoom(s, ops)
    ensures |Run(s, ops).epochs| <= 2048
    decreases |ops|
  {
    hide Head;
    if ops != [] {
      RunStaysInTheWindow(Step(s, ops[0]), ops[1..]);
    }
  }

  // ----- the re-publish timer

  /** What restarts the wait: the first epoch of an empty window, a base that
      moves, and a re-publish. */
  predicate Restarts(s: State, op: Op) {
    match op
    case PushOp(_, _) => s.epochs == []
    case ConfirmOp(origin, _) => s.base.number < origin <= Head(s).number
    case RepublishOp(_) => true
  }

  /** The states before each operation of a run. */
  function Before(s: State, ops: seq<Op>, k: nat): State
    requires k < |ops|
  {
    Run(s, ops[..k])
  }

  /** In every run the wait began at the last operation that restarts it, or
      where it stood; more pushes do not put off the re-publish. */
  lemma {:induction false} WaitsSinceTheLastRestart(s: State, ops: seq<Op>)
    requires Dense(s) && InOrder(s, ops)
    ensures
      || (Run(s, ops).since == s.since && forall k :: 0 <= k < |ops| ==> !Restarts(Before(s, ops, k), ops[k]))
      || exists k :: 0 <= k < |ops| && Restarts(Before(s, ops, k), ops[k]) && Run(s, ops).since == ops[k].now
                     && forall j :: k < j < |ops| ==> !Restarts(Before(s, ops, j), ops[j])
    decreases |ops|
  {
    if ops != [] {
      var next, rest := Step(s, ops[0]), ops[1..];
      StepRestarts(s, ops[0]);
      WaitsSinceTheLastRestart(next, rest);
      forall k | 0 <= k < |rest| ensures Before(s, ops, k + 1) == Before(next, rest, k) {
        assert ops[..k + 1][0] == ops[0] && ops[..k + 1][1..] == rest[..k];
      }
      assert Before(s, ops, 0) == s;
      if k :| 0 <= k < |rest| && Restarts(Before(next, rest, k), rest[k]) && Run(next, rest).since == rest[k].now
              && forall j :: k < j < |rest| ==> !Restarts(Before(next, rest, j), rest[j])
      {
        forall j | k + 1 < j < |ops| ensures !Restarts(Before(s, ops, j), ops[j]) {
          assert Before(s, ops, (j - 1) + 1) == Before(next, rest, j - 1);
        }
        assert Restarts(Before(s, ops, k + 1), ops[k + 1]);
      } else {
        forall j | 0 < j < |ops| ensures !Restarts(Before(s, ops, j), ops[j]) {
          assert Before(s, ops, (j - 1) + 1) == Before(next, rest, j - 1);
        }
        if Restarts(s, ops[0]) {
          assert Restarts(Before(s, ops, 0), ops[0]);
        }
      }
    }
  }

  lemma StepRestarts(s: State, op: Op)
    requires Dense(s) && (op.PushOp? ==> op.epoch.l1Number == Head(s).number + 1)
    ensures Dense(Step(s, op))
    ensures Step(s, op).since == if Restarts(s, op) then op.now else s.since
  {
    match op
    case PushOp(e, now) => PushKeepsDense(s, e, now);
    case ConfirmOp(origin, now) =>
      ConfirmMovesBase(s, origin, now);
      if s.base.number <= origin <= Head(s).number {
        PartitionOfDense(s, origin);
      }
    case RepublishOp(_) =>
  }
}
