/** Where the projection's writes end: at the highest row of each account and
    at the one nonce-using receipt of each key, in any order, with repeats. */
module ProjectionLaws {
  import opened Wrappers
  import opened Bytes
  import opened Kar1
  import opened Keys
  import opened Seqs
  import opened Projection

  /** A row at the index its batch ends at. */
  datatype RowWrite = RowWrite(address: Address, index: u64, nonce: u64, balance: u256)

  function HashOf(w: RowWrite): AccountHash {
    AccountHash(Decimal(w.nonce), Decimal(w.balance), IndexTag(w.index))
  }

  function WritesOfBatch(b: BatchWrite): seq<RowWrite> {
    Map((row: AccountRow) => RowWrite(row.address, b.end.AsIndex(), row.nonce, row.balance), b.rows)
  }

  function WritesOf(batches: seq<BatchWrite>): seq<RowWrite> {
    if batches == [] then [] else WritesOfBatch(batches[0]) + WritesOf(batches[1..])
  }

  ghost function WriteSet(ws: seq<RowWrite>): set<RowWrite> {
    set w | w in ws
  }

  // ----- the pipeline on accounts is the writes in order

  function ApplyWrite(accounts: map<Address, AccountHash>, w: RowWrite): (map<Address, AccountHash>, int) {
    var (hash, code) := RowRule(Get(accounts, w.address), HashOf(w));
    (accounts[w.address := hash], code)
  }

  function ApplyWrites(accounts: map<Address, AccountHash>, ws: seq<RowWrite>): (map<Address, AccountHash>, seq<int>)
    decreases |ws|
  {
    if ws == [] then (accounts, []) else
      var (next, code) := ApplyWrite(accounts, ws[0]);
      var (end, codes) := ApplyWrites(next, ws[1..]);
      (end, [code] + codes)
  }

  lemma {:induction false} ExecAppend(s: Store, a: seq<Command>, b: seq<Command>)
    ensures
      var (mid, left) := Exec(s, a);
      var (end, right) := Exec(mid, b);
      Exec(s, a + b) == (end, left + right)
    decreases |a|
  {
    hide ExecOne;
    if a == [] {
      assert a + b == b;
      assert [] + Exec(s, b).1 == Exec(s, b).1;
    } else {
      var (s1, first) := ExecOne(s, a[0]);
      ExecAppend(s1, a[1..], b);
      assert (a + b)[1..] == a[1..] + b;
      var (mid, left) := Exec(s1, a[1..]);
      assert (first + left) + Exec(mid, b).1 == first + (left + Exec(mid, b).1);
    }
  }

  lemma {:induction false} ApplyAppend(accounts: map<Address, AccountHash>, a: seq<RowWrite>, b: seq<RowWrite>)
    ensures
      var (mid, left) := ApplyWrites(accounts, a);
      var (end, right) := ApplyWrites(mid, b);
      ApplyWrites(accounts, a + b) == (end, left + right)
    decreases |a|
  {
    hide ApplyWrite;
    if a == [] {
      assert a + b == b;
      assert [] + ApplyWrites(accounts, b).1 == ApplyWrites(accounts, b).1;
    } else {
      var (next, code) := ApplyWrite(accounts, a[0]);
      ApplyAppend(next, a[1..], b);
      assert (a + b)[1..] == a[1..] + b;
      var (mid, left) := ApplyWrites(next, a[1..]);
      assert ([code] + left) + ApplyWrites(mid, b).1 == [code] + (left + ApplyWrites(mid, b).1);
    }
  }

  lemma {:induction false} RowsExec(s: Store, b: BatchWrite, i: nat)
    requires i <= |b.rows|
    ensures
      var (accounts, codes) := ApplyWrites(s.accounts, WritesOfBatch(b)[i..]);
      Exec(s, RowCommands(b.end, b.rows)[i..]) == (s.(accounts := accounts), codes)
    decreases |b.rows| - i
  {
    hide RowRule;
    var cs, ws := RowCommands(b.end, b.rows), WritesOfBatch(b);
    if i < |b.rows| {
      assert cs[i..][1..] == cs[i + 1..] && ws[i..][1..] == ws[i + 1..];
      RowsExec(ExecOne(s, cs[i]).0, b, i + 1);
    }
  }

  lemma {:induction false} ReceiptsExec(codec: ReceiptCodec, s: Store, receipts: seq<Receipt>)
    requires ReceiptCommands(codec, receipts).Ok?
    ensures
      var (end, codes) := Exec(s, ReceiptCommands(codec, receipts).value);
      end.accounts == s.accounts && codes == []
    decreases |receipts|
  {
    if receipts != [] {
      if receipts[0].Indexed() {
        var cs := ReceiptCommands(codec, receipts).value;
        assert cs[1..] == ReceiptCommands(codec, receipts[1..]).value;
        ReceiptsExec(codec, ExecOne(s, cs[0]).0, receipts[1..]);
      } else {
        ReceiptsExec(codec, s, receipts[1..]);
      }
    }
  }

  lemma BatchExec(codec: ReceiptCodec, s: Store, b: BatchWrite)
    requires ReceiptCommands(codec, b.receipts).Ok?
    ensures
      var (end, codes) := Exec(s, RowCommands(b.end, b.rows) + ReceiptCommands(codec, b.receipts).value);
      (end.accounts, codes) == ApplyWrites(s.accounts, WritesOfBatch(b))
  {
    hide Exec;
    hide ApplyWrites;
    var rows, receipts := RowCommands(b.end, b.rows), ReceiptCommands(codec, b.receipts).value;
    ExecAppend(s, rows, receipts);
    RowsExec(s, b, 0);
    assert rows[0..] == rows && WritesOfBatch(b)[0..] == WritesOfBatch(b);
    ReceiptsExec(codec, Exec(s, rows).0, b.receipts);
    assert Exec(s, rows).1 + [] == Exec(s, rows).1;
  }

  lemma {:induction false} PipeAppliesWrites(codec: ReceiptCodec, s: Store, batches: seq<BatchWrite>)
    requires PipeOf(codec, batches).Ok?
    ensures
      var (end, codes) := Exec(s, PipeOf(codec, batches).value);
      (end.accounts, codes) == ApplyWrites(s.accounts, WritesOf(batches))
    decreases |batches|
  {
    hide ReceiptCommands;
    if batches != [] {
      var b := batches[0];
      var head := RowCommands(b.end, b.rows) + ReceiptCommands(codec, b.receipts).value;
      BatchExec(codec, s, b);
      ExecAppend(s, head, PipeOf(codec, batches[1..]).value);
      ApplyAppend(s.accounts, WritesOfBatch(b), WritesOf(batches[1..]));
      PipeAppliesWrites(codec, Exec(s, head).0, batches[1..]);
    }
  }

  // ----- convergence

  /** Writes of one account at one index carry one content. */
  ghost predicate Agree(all: set<RowWrite>) {
    forall v, w :: v in all && w in all && v.address == w.address && v.index == w.index ==> v == w
  }

  ghost predicate Highest(all: set<RowWrite>, w: RowWrite) {
    w in all && forall v :: v in all && v.address == w.address ==> v.index <= w.index
  }

  /** The accounts hold the highest write of each address written. */
  ghost predicate Projects(accounts: map<Address, AccountHash>, all: set<RowWrite>) {
    && (forall a :: a in accounts ==> exists w :: Highest(all, w) && w.address == a && accounts[a] == HashOf(w))
    && (forall w :: w in all ==> w.address in accounts)
  }

  /** The script on strings is the rule on numbers: a later index replaces, an
      equal one with other content is reported, and the first row wins. */
  lemma RuleOnWrites(v: RowWrite, w: RowWrite)
    requires v.address == w.address
    ensures RowRule(Some(HashOf(v)), HashOf(w)) ==
              if v.index < w.index then (HashOf(w), 1)
              else if v.index == w.index && v != w then (HashOf(v), -1)
              else (HashOf(v), 0)
  {
    hide Decimal;
    hide IndexTag;
    hide Less;
    TagsOrderAsIndexes(v.index, w.index);
    DecimalsDiffer(v.nonce, w.nonce);
    DecimalsDiffer(v.balance, w.balance);
  }

  lemma DecimalsDiffer(a: nat, b: nat)
    ensures Decimal(a) == Decimal(b) <==> a == b
  {
    if Decimal(a) == Decimal(b) {
      DecimalInjective(a, b);
    }
  }

  /** The write of one account leaves its account at the highest write. */
  lemma WriteSettlesAccount(accounts: map<Address, AccountHash>, all: set<RowWrite>, w: RowWrite) returns (top: RowWrite)
    requires Projects(accounts, all) && Agree(all + {w})
    ensures Highest(all + {w}, top) && top.address == w.address
    ensures RowRule(Get(accounts, w.address), HashOf(w)).0 == HashOf(top)
    ensures RowRule(Get(accounts, w.address), HashOf(w)).1 != DISAGREED
  {
    hide HashOf;
    hide RowRule;
    if w.address in accounts {
      var v :| Highest(all, v) && v.address == w.address && accounts[w.address] == HashOf(v);
      assert v in all + {w} && w in all + {w};
      RuleOnWrites(v, w);
      top := if v.index < w.index then w else v;
    } else {
      FirstWrite(HashOf(w));
      top := w;
    }
  }

  lemma WriteProjects(accounts: map<Address, AccountHash>, all: set<RowWrite>, w: RowWrite)
    requires Projects(accounts, all) && Agree(all + {w})
    ensures ApplyWrite(accounts, w).1 != DISAGREED
    ensures Projects(ApplyWrite(accounts, w).0, all + {w})
  {
    hide HashOf;
    hide RowRule;
    hide Highest;
    var more, after := all + {w}, ApplyWrite(accounts, w).0;
    var top := WriteSettlesAccount(accounts, all, w);
    forall a | a in after
      ensures exists u :: Highest(more, u) && u.address == a && after[a] == HashOf(u)
    {
      if a == w.address {
        assert after[a] == HashOf(top);
      } else {
        var u :| Highest(all, u) && u.address == a && accounts[a] == HashOf(u);
        OthersStayHighest(all, w, u);
      }
    }
  }

  lemma OthersStayHighest(all: set<RowWrite>, w: RowWrite, u: RowWrite)
    requires Highest(all, u) && u.address != w.address
    ensures Highest(all + {w}, u)
  {
  }

  lemma FirstWrite(row: AccountHash)
    ensures RowRule(None, row) == (row, APPLIED)
  {
  }

  lemma {:induction false} WritesProject(accounts: map<Address, AccountHash>, all: set<RowWrite>, ws: seq<RowWrite>)
    requires Projects(accounts, all) && Agree(all + WriteSet(ws))
    ensures Projects(ApplyWrites(accounts, ws).0, all + WriteSet(ws))
    ensures DISAGREED !in ApplyWrites(accounts, ws).1
    decreases |ws|
  {
    hide ApplyWrite;
    hide Projects;
    if ws == [] {
      assert all + WriteSet(ws) == all;
    } else {
      assert ws == [ws[0]] + ws[1..];
      assert all + WriteSet(ws) == (all + {ws[0]}) + WriteSet(ws[1..]);
      WriteProjects(accounts, all, ws[0]);
      WritesProject(ApplyWrite(accounts, ws[0]).0, all + {ws[0]}, ws[1..]);
    }
  }

  /** The first write of an account at an index decides, when nothing stored is
      as late; the others at that index do not change it. */
  lemma {:induction false} FirstWriteWins(accounts: map<Address, AccountHash>, ws: seq<RowWrite>, i: nat, had: RowWrite)
    requires i < |ws| && forall k :: 0 <= k < |ws| && ws[k].address == ws[i].address ==> ws[k].index == ws[i].index
    requires forall k :: 0 <= k < i ==> ws[k].address != ws[i].address
    requires ws[i].address in accounts ==>
               accounts[ws[i].address] == HashOf(had) && had.address == ws[i].address && had.index < ws[i].index
    ensures
      var end := ApplyWrites(accounts, ws).0;
      ws[i].address in end && end[ws[i].address] == HashOf(ws[i])
    decreases i
  {
    hide HashOf;
    hide RowRule;
    var w, next := ws[i], ApplyWrite(accounts, ws[0]).0;
    if i == 0 {
      if w.address in accounts {
        RuleOnWrites(had, w);
      } else {
        FirstWrite(HashOf(w));
      }
      WriteStays(next, ws[1..], w);
    } else {
      FirstWriteWins(next, ws[1..], i - 1, had);
    }
  }

  lemma {:induction false} WriteStays(accounts: map<Address, AccountHash>, ws: seq<RowWrite>, w: RowWrite)
    requires w.address in accounts && accounts[w.address] == HashOf(w)
    requires forall k :: 0 <= k < |ws| && ws[k].address == w.address ==> ws[k].index == w.index
    ensures w.address in ApplyWrites(accounts, ws).0 && ApplyWrites(accounts, ws).0[w.address] == HashOf(w)
    decreases |ws|
  {
    hide HashOf;
    hide RowRule;
    if ws != [] {
      if ws[0].address == w.address {
        RuleOnWrites(w, ws[0]);
      }
      WriteStays(ApplyWrite(accounts, ws[0]).0, ws[1..], w);
    }
  }

  /** A set of writes has one projection. */
  lemma ProjectionIsUnique(a: map<Address, AccountHash>, b: map<Address, AccountHash>, all: set<RowWrite>)
    requires Agree(all) && Projects(a, all) && Projects(b, all)
    ensures a == b
  {
    hide HashOf;
    assert forall x :: x in a <==> x in b;
    forall x | x in a ensures a[x] == b[x] {
      var v :| Highest(all, v) && v.address == x && a[x] == HashOf(v);
      var w :| Highest(all, w) && w.address == x && b[x] == HashOf(w);
      assert v.index == w.index;
    }
  }

  /** The counts a write reports are the counts of its replies. */
  lemma {:induction false} CodesAreCounted(codes: seq<int>)
    ensures FromCodes(codes).applied == multiset(codes)[1]
    ensures FromCodes(codes).disagreed == multiset(codes)[-1]
    ensures FromCodes(codes).discarded == |codes| - multiset(codes)[1] - multiset(codes)[-1]
  {
    if codes != [] {
      var n := |codes| - 1;
      CodesAreCounted(codes[..n]);
      assert codes == codes[..n] + [codes[n]];
    }
  }

  // ----- histories of calls

  const NOTHING := Store(map[], map[])

  /** The store after a history of write calls, and their answers. The calls of
      several writers come in the order the primary took them. */
  function WriteCalls(codec: ReceiptCodec, s: Store, calls: seq<seq<BatchWrite>>)
    : (Store, seq<Result<RowsWritten, CacheError>>)
    decreases |calls|
  {
    if calls == [] then (s, []) else
      var (next, answer) := WriteBatches(codec, s, calls[0]);
      var (end, answers) := WriteCalls(codec, next, calls[1..]);
      (end, [answer] + answers)
  }

  /** The batches of the calls that were sent: a call with a receipt that does
      not encode sends nothing. */
  function Sent(codec: ReceiptCodec, calls: seq<seq<BatchWrite>>): seq<BatchWrite> {
    if calls == [] then [] else
      (if PipeOf(codec, calls[0]).Ok? then calls[0] else []) + Sent(codec, calls[1..])
  }

  ghost function SentWrites(codec: ReceiptCodec, calls: seq<seq<BatchWrite>>): set<RowWrite> {
    WriteSet(WritesOf(Sent(codec, calls)))
  }

  lemma {:induction false} WritesOfAppend(a: seq<BatchWrite>, b: seq<BatchWrite>)
    ensures WritesOf(a + b) == WritesOf(a) + WritesOf(b)
  {
    hide WritesOfBatch;
    if a == [] {
      assert a + b == b;
    } else {
      WritesOfAppend(a[1..], b);
      assert (a + b)[0] == a[0] && (a + b)[1..] == a[1..] + b;
      Assoc(WritesOfBatch(a[0]), WritesOf(a[1..]), WritesOf(b));
    }
  }

  ghost predicate NoDisagreement(answer: Result<RowsWritten, CacheError>) {
    answer.Ok? ==> answer.value.disagreed == 0
  }

  /** One call keeps the projection, over the writes it sent. */
  lemma CallProjects(codec: ReceiptCodec, s: Store, all: set<RowWrite>, batches: seq<BatchWrite>)
    requires PipeOf(codec, batches).Ok?
    requires Projects(s.accounts, all) && Agree(all + WriteSet(WritesOf(batches)))
    ensures Projects(WriteBatches(codec, s, batches).0.accounts, all + WriteSet(WritesOf(batches)))
    ensures NoDisagreement(WriteBatches(codec, s, batches).1)
  {
    hide Projects;
    hide ApplyWrites;
    hide Exec;
    hide PipeOf;
    WritesProject(s.accounts, all, WritesOf(batches));
    PipeAppliesWrites(codec, s, batches);
    CodesAreCounted(ApplyWrites(s.accounts, WritesOf(batches)).1);
  }

  /** Every history of calls keeps each account at its highest row, and reports
      no disagreement. */
  lemma {:induction false} CallsProject(codec: ReceiptCodec, s: Store, all: set<RowWrite>, calls: seq<seq<BatchWrite>>)
    requires Projects(s.accounts, all) && Agree(all + SentWrites(codec, calls))
    ensures Projects(WriteCalls(codec, s, calls).0.accounts, all + SentWrites(codec, calls))
    ensures forall r :: r in WriteCalls(codec, s, calls).1 ==> NoDisagreement(r)
    decreases |calls|
  {
    hide Projects;
    hide PipeOf;
    hide Exec;
    hide WritesOf;
    hide NoDisagreement;
    if calls == [] {
      assert all + SentWrites(codec, calls) == all by { NoWrites(); }
    } else {
      var first, rest := if PipeOf(codec, calls[0]).Ok? then calls[0] else [], calls[1..];
      var more := all + WriteSet(WritesOf(first));
      WritesOfAppend(first, Sent(codec, rest));
      assert all + SentWrites(codec, calls) == more + SentWrites(codec, rest);
      var (next, answer) := WriteBatches(codec, s, calls[0]);
      if PipeOf(codec, calls[0]).Ok? {
        CallProjects(codec, s, all, calls[0]);
      } else {
        NoWrites();
        assert more == all;
        FailedCall(answer);
      }
      CallsProject(codec, next, more, rest);
    }
  }

  lemma NoWrites()
    ensures WritesOf([]) == []
  {
  }

  lemma FailedCall(answer: Result<RowsWritten, CacheError>)
    requires answer.Err?
    ensures NoDisagreement(answer)
  {
  }

  /** Any two histories of calls that sent the same rows, whatever the order,
      the grouping, the repeats and the failed calls, leave an empty store at
      the same accounts: the highest row of each. No answer reports a
      disagreement. */
  lemma WritesConverge(codec: ReceiptCodec, one: seq<seq<BatchWrite>>, two: seq<seq<BatchWrite>>)
    requires SentWrites(codec, one) == SentWrites(codec, two) && Agree(SentWrites(codec, one))
    ensures
      var (end, answers) := WriteCalls(codec, NOTHING, one);
      && end.accounts == WriteCalls(codec, NOTHING, two).0.accounts
      && Projects(end.accounts, SentWrites(codec, one))
      && forall r :: r in answers ==> NoDisagreement(r)
  {
    hide Projects;
    hide WriteCalls;
    hide Sent;
    hide NoDisagreement;
    var all := SentWrites(codec, one);
    EmptyProjects();
    assert {} + all == all;
    CallsProject(codec, NOTHING, {}, one);
    CallsProject(codec, NOTHING, {}, two);
    ProjectionIsUnique(WriteCalls(codec, NOTHING, one).0.accounts, WriteCalls(codec, NOTHING, two).0.accounts, all);
  }

  lemma EmptyProjects()
    ensures Projects(map[], {})
  {
  }

  // ----- receipts

  /** The pipe sets `key` to `bytes`, overwriting. */
  ghost predicate Overwrites(cs: seq<Command>, key: ReceiptKey, bytes: Bytes) {
    SetReceipt(key, bytes, false) in cs
  }

  lemma {:induction false} KeySettles(s: Store, cs: seq<Command>, key: ReceiptKey, bytes: Bytes)
    requires forall other :: Overwrites(cs, key, other) ==> other == bytes
    requires Overwrites(cs, key, bytes) || Get(s.receipts, key) == Some(bytes)
    ensures Get(Exec(s, cs).0.receipts, key) == Some(bytes)
    decreases |cs|
  {
    if cs != [] {
      var s1 := ExecOne(s, cs[0]).0;
      assert cs == [cs[0]] + cs[1..];
      forall other | Overwrites(cs[1..], key, other) ensures other == bytes {
        assert Overwrites(cs, key, other);
      }
      if cs[0].SetReceipt? && cs[0].key == key && !cs[0].onlyIfAbsent {
        assert Overwrites(cs, key, cs[0].bytes);
      }
      KeySettles(s1, cs[1..], key, bytes);
    }
  }

  /** The receipt of a transaction with a sender and a nonce: no deposit and no
      cross-chain delivery. */
  predicate HasKey(r: Receipt) {
    r.txType != 0x7E && r.txType != 0x7D
  }

  /** It proves its nonce used: it ran, or it is a skip that wrote the nonce,
      for a reason that can. */
  predicate ProvesNonce(r: Receipt) {
    r.status || r.gasUsed > 0 || (r.skipReason == Some(OtherSkip) && !r.writeSetEmpty)
  }

  predicate UsesKey(r: Receipt, key: ReceiptKey) {
    HasKey(r) && ProvesNonce(r) && (r.from, r.nonce) == key
  }

  /** What one receipt does to the index: none without a key; the key's value,
      whatever was there, when it proves the nonce; otherwise the key's value
      only while there is none. */
  ghost function Indexing(codec: ReceiptCodec, receipts: map<ReceiptKey, Bytes>, r: Receipt): map<ReceiptKey, Bytes>
    requires HasKey(r) ==> codec(r).Some?
  {
    if !HasKey(r) || (!ProvesNonce(r) && (r.from, r.nonce) in receipts) then receipts
    else receipts[(r.from, r.nonce) := codec(r).value]
  }

  ghost function IndexAll(codec: ReceiptCodec, receipts: map<ReceiptKey, Bytes>, rs: seq<Receipt>): map<ReceiptKey, Bytes>
    requires forall r :: r in rs && HasKey(r) ==> codec(r).Some?
    decreases |rs|
  {
    if rs == [] then receipts else IndexAll(codec, Indexing(codec, receipts, rs[0]), rs[1..])
  }

  /** The receipts of a batch are written in order under that rule, unless one
      with a key does not encode: then nothing is. */
  lemma {:induction false} ReceiptsAreIndexed(codec: ReceiptCodec, s: Store, rs: seq<Receipt>)
    ensures ReceiptCommands(codec, rs).Ok? <==> forall r :: r in rs && HasKey(r) ==> codec(r).Some?
    ensures ReceiptCommands(codec, rs).Ok? ==>
              Exec(s, ReceiptCommands(codec, rs).value).0.receipts == IndexAll(codec, s.receipts, rs)
    decreases |rs|
  {
    if rs != [] {
      assert rs == [rs[0]] + rs[1..];
      assert forall r :: r in rs <==> r == rs[0] || r in rs[1..];
      if HasKey(rs[0]) && codec(rs[0]).Some? && ReceiptCommands(codec, rs[1..]).Ok? {
        var cs := ReceiptCommands(codec, rs).value;
        assert cs[1..] == ReceiptCommands(codec, rs[1..]).value;
        ReceiptsAreIndexed(codec, ExecOne(s, cs[0]).0, rs[1..]);
      } else {
        ReceiptsAreIndexed(codec, s, rs[1..]);
      }
    }
  }

  ghost predicate Carries(batches: seq<BatchWrite>, r: Receipt) {
    exists b :: b in batches && r in b.receipts
  }

  lemma {:induction false} ReceiptsOverwrite(codec: ReceiptCodec, receipts: seq<Receipt>, key: ReceiptKey, bytes: Bytes)
    requires ReceiptCommands(codec, receipts).Ok?
    ensures Overwrites(ReceiptCommands(codec, receipts).value, key, bytes) <==>
              exists r :: r in receipts && UsesKey(r, key) && codec(r) == Some(bytes)
    decreases |receipts|
  {
    if receipts != [] {
      ReceiptsOverwrite(codec, receipts[1..], key, bytes);
      assert receipts == [receipts[0]] + receipts[1..];
    }
  }

  lemma {:induction false} PipeOverwrites(codec: ReceiptCodec, batches: seq<BatchWrite>, key: ReceiptKey, bytes: Bytes)
    requires PipeOf(codec, batches).Ok?
    ensures Overwrites(PipeOf(codec, batches).value, key, bytes) <==>
              exists r :: Carries(batches, r) && UsesKey(r, key) && codec(r) == Some(bytes)
    decreases |batches|
  {
    hide UsesKey;
    if batches == [] {
      assert forall r :: !Carries(batches, r);
    } else {
      var b, rest := batches[0], batches[1..];
      ReceiptsOverwrite(codec, b.receipts, key, bytes);
      PipeOverwrites(codec, rest, key, bytes);
      assert forall r :: Carries(batches, r) <==> r in b.receipts || Carries(rest, r) by {
        assert batches == [b] + rest;
        assert forall x :: x in batches <==> x == b || x in rest;
      }
      var rows, receipts := RowCommands(b.end, b.rows), ReceiptCommands(codec, b.receipts).value;
      assert !Overwrites(rows, key, bytes);
      assert PipeOf(codec, batches).value == rows + receipts + PipeOf(codec, rest).value;
    }
  }

  /** A key ends at the form of its one nonce-using receipt once that receipt
      is written, in whatever order the skips of that nonce come, and stays
      there under every later write. Expiry aside. */
  lemma ReceiptKeySettles(codec: ReceiptCodec, s: Store, batches: seq<BatchWrite>, key: ReceiptKey, bytes: Bytes)
    requires PipeOf(codec, batches).Ok?
    requires forall r :: Carries(batches, r) && UsesKey(r, key) ==> codec(r) == Some(bytes)
    requires (exists r :: Carries(batches, r) && UsesKey(r, key)) || Get(s.receipts, key) == Some(bytes)
    ensures Get(WriteBatches(codec, s, batches).0.receipts, key) == Some(bytes)
  {
    hide UsesKey;
    hide Exec;
    hide PipeOf;
    forall other ensures Overwrites(PipeOf(codec, batches).value, key, other) <==>
                           exists r :: Carries(batches, r) && UsesKey(r, key) && codec(r) == Some(other)
    {
      PipeOverwrites(codec, batches, key, other);
    }
    KeySettles(s, PipeOf(codec, batches).value, key, bytes);
  }
}
