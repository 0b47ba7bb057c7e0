/** The local layer in front of the Redis projection: what a local answer says
    about the projected one, when both are fed the same rows. */
module CacheAgreement {
  import opened Bytes
  import opened Kar1
  import opened Keys
  import opened Seqs
  import opened Projection
  import opened ProjectionLaws
  import opened LiveCache

  function WriteOf(a: Address, e: Entry): RowWrite {
    RowWrite(a, e.txIdx, e.nonce, e.balance)
  }

  /** The batches a run of the local layer applied, cleared ones included. */
  function BatchesOf(ops: seq<Op>): seq<BatchWrite> {
    if ops == [] then [] else
      (if ops[0].Apply? then [ops[0].batch] else []) + BatchesOf(ops[1..])
  }

  ghost function WrittenBy(ops: seq<Op>): set<RowWrite> {
    WriteSet(WritesOf(BatchesOf(ops)))
  }

  // ----- a resident row was written

  ghost predicate Written(s: Live, all: set<RowWrite>) {
    forall a :: a in s.resident ==> WriteOf(a, s.resident[a]) in all
  }

  function RowWriteOf(row: AccountRow, idx: u64): RowWrite {
    RowWrite(row.address, idx, row.nonce, row.balance)
  }

  lemma {:induction false} RowsWritten(s: Live, rows: seq<AccountRow>, idx: u64, now: nat, all: set<RowWrite>)
    requires Written(s, all) && forall i :: 0 <= i < |rows| ==> RowWriteOf(rows[i], idx) in all
    ensures Written(ApplyRows(s, rows, idx, now).0, all)
    decreases |rows|
  {
    if rows != [] {
      assert RowWriteOf(rows[0], idx) in all;
      RowsWritten(ApplyOne(s, rows[0], idx, now), rows[1..], idx, now, all);
    }
  }

  lemma {:induction false} EvictWritten(cfg: Config, s: Live, now: nat, all: set<RowWrite>)
    requires Written(s, all)
    ensures Written(Evict(cfg, s, now), all)
    decreases |s.order|
  {
    if MustEvict(cfg, s, now) {
      EvictWritten(cfg, EvictFront(s), now, all);
    }
  }

  lemma StepWritten(cfg: Config, s: Live, op: Op, all: set<RowWrite>)
    requires Written(s, all) && (op.Apply? ==> WriteSet(WritesOfBatch(op.batch)) <= all)
    ensures Written(Step(cfg, s, op), all)
  {
    hide Evict;
    hide ApplyRows;
    if op.Apply? {
      var b, idx := op.batch, op.batch.end.AsIndex();
      forall i | 0 <= i < |b.rows| ensures RowWriteOf(b.rows[i], idx) in all {
        assert WritesOfBatch(b)[i] in WriteSet(WritesOfBatch(b));
      }
      RowsWritten(s, b.rows, idx, op.now, all);
      var s1 := ApplyRows(s, b.rows, idx, op.now).0;
      EvictWritten(cfg, s1.(head := if s1.head < idx then idx else s1.head), op.now, all);
    }
  }

  lemma {:induction false} RunWritten(cfg: Config, s: Live, ops: seq<Op>, all: set<RowWrite>)
    requires Written(s, all) && WrittenBy(ops) <= all
    ensures Written(RunOps(cfg, s, ops), all)
    decreases |ops|
  {
    hide Written;
    hide Step;
    if ops != [] {
      SplitWrites(ops);
      StepWritten(cfg, s, ops[0], all);
      RunWritten(cfg, Step(cfg, s, ops[0]), ops[1..], all);
    }
  }

  lemma SplitWrites(ops: seq<Op>)
    requires ops != []
    ensures WrittenBy(ops) == WrittenBy(ops[1..]) + if ops[0].Apply? then WriteSet(WritesOfBatch(ops[0].batch)) else {}
  {
    var rest := BatchesOf(ops[1..]);
    if ops[0].Apply? {
      assert ([ops[0].batch] + rest)[1..] == rest;
    } else {
      assert [] + rest == rest;
    }
  }

  /** A local answer is never ahead of the projection, and at the same position
      the two agree. The projection may have seen any history that holds the
      local layer's rows, in any order and with repeats; the local layer may
      have evicted and cleared at any time. */
  lemma LocalNeverAhead(cfg: Config, ops: seq<Op>, codec: ReceiptCodec, calls: seq<seq<BatchWrite>>, a: Address,
                        now: nat)
    requires Agree(SentWrites(codec, calls)) && WrittenBy(ops) <= SentWrites(codec, calls)
    requires Lookup(cfg, RunOps(cfg, FRESH, ops), a, now).Some?
    ensures
      var local := Lookup(cfg, RunOps(cfg, FRESH, ops), a, now).value;
      var projected := WriteCalls(codec, NOTHING, calls).0.accounts;
      && a in projected
      && ParseTag(projected[a].txIdx).Some?
      && local.txIdx <= ParseTag(projected[a].txIdx).value
      && (local.txIdx == ParseTag(projected[a].txIdx).value ==>
            projected[a].nonce == Decimal(local.nonce) && projected[a].balance == Decimal(local.balance))
  {
    hide RunOps;
    hide WriteCalls;
    hide Sent;
    hide WritesOf;
    var all := SentWrites(codec, calls);
    var live := RunOps(cfg, FRESH, ops);
    RunWritten(cfg, FRESH, ops, all);
    var mine := WriteOf(a, live.resident[a]);
    assert mine in all;
    WritesConverge(codec, calls, calls);
    var projected := WriteCalls(codec, NOTHING, calls).0.accounts;
    var top :| Highest(all, top) && top.address == a && projected[a] == HashOf(top);
    TagRoundTrip(top.index);
  }

  // ----- with nothing evicted, the two layers are equal

  /** Every run of eviction on the way found nothing to do. */
  ghost predicate NothingEvicted(cfg: Config, s: Live, ops: seq<Op>)
    decreases |ops|
  {
    ops != [] ==>
      && ops[0].Apply?
      && Step(cfg, s, ops[0]).resident == ApplyRows(s, ops[0].batch.rows, ops[0].batch.end.AsIndex(), ops[0].now).0.resident
      && NothingEvicted(cfg, Step(cfg, s, ops[0]), ops[1..])
  }

  /** The resident entries are the highest write of each address written. */
  ghost predicate HoldsHighest(resident: map<Address, Entry>, all: set<RowWrite>) {
    && (forall a :: a in resident ==> Highest(all, WriteOf(a, resident[a])))
    && (forall w :: w in all ==> w.address in resident)
  }

  lemma RowHoldsHighest(s: Live, row: AccountRow, idx: u64, now: nat, all: set<RowWrite>)
    requires HoldsHighest(s.resident, all) && Agree(all + {RowWriteOf(row, idx)})
    ensures HoldsHighest(ApplyOne(s, row, idx, now).resident, all + {RowWriteOf(row, idx)})
  {
    var w, r := RowWriteOf(row, idx), ApplyOne(s, row, idx, now).resident;
    forall a | a in r ensures Highest(all + {w}, WriteOf(a, r[a])) {
      if row.address in s.resident {
        assert Highest(all, WriteOf(row.address, s.resident[row.address]));
        assert WriteOf(row.address, s.resident[row.address]) in all + {w} && w in all + {w};
      }
    }
  }

  function RowWrites(rows: seq<AccountRow>, idx: u64): seq<RowWrite> {
    Map((row: AccountRow) => RowWriteOf(row, idx), rows)
  }

  lemma {:induction false} RowsHoldHighest(s: Live, rows: seq<AccountRow>, idx: u64, now: nat, all: set<RowWrite>)
    requires HoldsHighest(s.resident, all) && Agree(all + WriteSet(RowWrites(rows, idx)))
    ensures HoldsHighest(ApplyRows(s, rows, idx, now).0.resident, all + WriteSet(RowWrites(rows, idx)))
    decreases |rows|
  {
    hide HoldsHighest;
    hide ApplyOne;
    var ws := RowWrites(rows, idx);
    if rows == [] {
      assert all + WriteSet(ws) == all;
    } else {
      assert ws == [ws[0]] + RowWrites(rows[1..], idx);
      assert all + WriteSet(ws) == (all + {ws[0]}) + WriteSet(RowWrites(rows[1..], idx));
      RowHoldsHighest(s, rows[0], idx, now, all);
      RowsHoldHighest(ApplyOne(s, rows[0], idx, now), rows[1..], idx, now, all + {ws[0]});
    }
  }

  lemma {:induction false} RunHoldsHighest(cfg: Config, s: Live, ops: seq<Op>, all: set<RowWrite>)
    requires NothingEvicted(cfg, s, ops) && HoldsHighest(s.resident, all) && Agree(all + WrittenBy(ops))
    ensures HoldsHighest(RunOps(cfg, s, ops).resident, all + WrittenBy(ops))
    decreases |ops|
  {
    hide HoldsHighest;
    hide ApplyRows;
    hide Step;
    if ops == [] {
      assert all + WrittenBy(ops) == all;
    } else {
      var b, idx := ops[0].batch, ops[0].batch.end.AsIndex();
      var ws := WritesOfBatch(b);
      assert ws == RowWrites(b.rows, idx);
      SplitWrites(ops);
      assert all + WrittenBy(ops) == (all + WriteSet(ws)) + WrittenBy(ops[1..]);
      RowsHoldHighest(s, b.rows, idx, ops[0].now, all);
      RunHoldsHighest(cfg, Step(cfg, s, ops[0]), ops[1..], all + WriteSet(ws));
    }
  }

  /** Fed the same rows, each in any order and with repeats, a local layer that
      evicted nothing and the projection hold the same accounts. */
  lemma LayersEqual(cfg: Config, ops: seq<Op>, codec: ReceiptCodec, calls: seq<seq<BatchWrite>>)
    requires Agree(SentWrites(codec, calls))
    requires WrittenBy(ops) == SentWrites(codec, calls) && NothingEvicted(cfg, FRESH, ops)
    ensures
      var local := RunOps(cfg, FRESH, ops).resident;
      var projected := WriteCalls(codec, NOTHING, calls).0.accounts;
      && (forall a :: a in local <==> a in projected)
      && (forall a :: a in local ==> projected[a] == HashOf(WriteOf(a, local[a])))
  {
    hide WriteCalls;
    hide Sent;
    hide RunOps;
    hide WritesOf;
    hide BatchesOf;
    var all := WrittenBy(ops);
    assert {} + all == all;
    RunHoldsHighest(cfg, FRESH, ops, {});
    WritesConverge(codec, calls, calls);
    var local := RunOps(cfg, FRESH, ops).resident;
    var projected := WriteCalls(codec, NOTHING, calls).0.accounts;
    forall a | a in projected ensures a in local && projected[a] == HashOf(WriteOf(a, local[a])) {
      var top :| Highest(all, top) && top.address == a && projected[a] == HashOf(top);
      assert Highest(all, WriteOf(a, local[a]));
    }
    forall a | a in local ensures a in projected {
      assert WriteOf(a, local[a]) in all;
    }
  }

  // ----- the one row on which the two rules differ

  ghost predicate Corresponds(resident: map<Address, Entry>, accounts: map<Address, AccountHash>) {
    && (forall a :: a in resident <==> a in accounts)
    && (forall a :: a in resident ==> accounts[a] == HashOf(WriteOf(a, resident[a])))
  }

  /** The row rewrites position zero at position zero with other content. */
  predicate RewritesZero(s: Live, row: AccountRow, idx: u64) {
    && row.address in s.resident && s.resident[row.address].txIdx == 0 && idx == 0
    && (s.resident[row.address].nonce != row.nonce || s.resident[row.address].balance != row.balance)
  }

  /** Without any agreement between rows: one row, given to both layers, keeps
      them equal exactly when it does not rewrite position zero. The local
      layer takes such a row; the script refuses it. */
  lemma RowKeepsLayersEqualIff(s: Live, row: AccountRow, idx: u64, now: nat, accounts: map<Address, AccountHash>)
    requires Corresponds(s.resident, accounts)
    ensures Corresponds(ApplyOne(s, row, idx, now).resident, ApplyWrite(accounts, RowWriteOf(row, idx)).0)
            <==> !RewritesZero(s, row, idx)
  {
    hide Decimal;
    hide IndexTag;
    var w := RowWriteOf(row, idx);
    var local, projected := ApplyOne(s, row, idx, now).resident, ApplyWrite(accounts, w).0;
    if row.address in s.resident {
      var had := WriteOf(row.address, s.resident[row.address]);
      TagsOrderAsIndexes(had.index, idx);
      DecimalsDiffer(had.nonce, row.nonce);
      DecimalsDiffer(had.balance, row.balance);
      assert projected[row.address] == HashOf(WriteOf(row.address, local[row.address])) <==> !RewritesZero(s, row, idx);
    }
  }

  /** Such a row: two rows of one address at position zero, with different
      nonces. Both layers take the first, and the second parts them. */
  lemma ZeroRewritePartsTheLayers(a: Address)
    ensures
      var first, second := AccountRow(a, 1, 0), AccountRow(a, 2, 0);
      var s, accounts := ApplyOne(FRESH, first, 0, 0), ApplyWrite(map[], RowWriteOf(first, 0)).0;
      && Corresponds(s.resident, accounts)
      && RewritesZero(s, second, 0)
      && !Corresponds(ApplyOne(s, second, 0, 0).resident, ApplyWrite(accounts, RowWriteOf(second, 0)).0)
  {
    hide Decimal;
    hide IndexTag;
    var first, second := AccountRow(a, 1, 0), AccountRow(a, 2, 0);
    var s, accounts := ApplyOne(FRESH, first, 0, 0), ApplyWrite(map[], RowWriteOf(first, 0)).0;
    assert Corresponds(FRESH.resident, map[]);
    RowKeepsLayersEqualIff(FRESH, first, 0, 0, map[]);
    RowKeepsLayersEqualIff(s, second, 0, 0, accounts);
  }
}
