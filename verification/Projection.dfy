/** The Redis account projection and receipt index: the write script, the
    pipeline that carries it, and where any order of writes ends. */
module Projection {
  import opened Wrappers
  import opened Bytes
  import opened Kar1
  import opened Records
  import opened Keys
  import opened Seqs

  // ----- data model

  datatype AccountRow = AccountRow(address: Address, nonce: u64, balance: u256)

  datatype SkipReason = Undecodable | NonceTooLow | NonceTooHigh | Header | OtherSkip

  predicate CanUseNonce(r: SkipReason) {
    r.OtherSkip?
  }

  const TX_TYPE_DEPOSIT: byte := 0x7E
  const TX_TYPE_XCHAIN: byte := 0x7D

  datatype Receipt = Receipt(
    txType: byte, status: bool, gasUsed: u64, skipReason: Option<SkipReason>, writeSetEmpty: bool,
    nonce: u64, from: Address, body: Bytes)
  {
    predicate IsInvalidSkip() {
      !status && gasUsed == 0
    }

    predicate IsDeposit() {
      txType == TX_TYPE_DEPOSIT
    }

    predicate BurnsNonce() {
      && IsInvalidSkip() && !IsDeposit() && !writeSetEmpty
      && skipReason.Some? && CanUseNonce(skipReason.value)
    }

    predicate UsesNonce() {
      (!IsInvalidSkip() && !IsDeposit()) || BurnsNonce()
    }

    /** The receipt has a key: its transaction came from a sender, under a nonce. */
    predicate Indexed() {
      !IsDeposit() && txType != TX_TYPE_XCHAIN
    }
  }

  datatype BatchWrite = BatchWrite(end: BPosition, rows: seq<AccountRow>, receipts: seq<Receipt>)

  /** The fields of an account hash, as Redis stores them. */
  datatype AccountHash = AccountHash(nonce: string, balance: string, txIdx: string)

  type ReceiptKey = (Address, u64)

  datatype Store = Store(accounts: map<Address, AccountHash>, receipts: map<ReceiptKey, Bytes>)

  datatype Command =
    | ApplyRow(address: Address, tag: string, nonce: string, balance: string)
    | SetReceipt(key: ReceiptKey, bytes: Bytes, onlyIfAbsent: bool)

  datatype RowsWritten = RowsWritten(applied: nat, discarded: nat, disagreed: nat)

  const APPLIED := 1
  const DISAGREED := -1

  // ----- the write script

  function Get<K, V>(m: map<K, V>, k: K): Option<V> {
    if k in m then Some(m[k]) else None
  }

  /** The script on one account: what it stores and what it answers. */
  function RowRule(stored: Option<AccountHash>, row: AccountHash): (AccountHash, int) {
    match stored
    case None => (row, APPLIED)
    case Some(had) =>
      if Less(had.txIdx, row.txIdx) then (row, APPLIED)
      else if row.txIdx == had.txIdx && (had.nonce != row.nonce || had.balance != row.balance) then (had, DISAGREED)
      else (had, 0)
  }

  /** One command on the store, with the row codes it answers. */
  function ExecOne(s: Store, c: Command): (Store, seq<int>) {
    match c
    case ApplyRow(a, tag, nonce, balance) =>
      var (hash, code) := RowRule(Get(s.accounts, a), AccountHash(nonce, balance, tag));
      (s.(accounts := s.accounts[a := hash]), [code])
    case SetReceipt(key, bytes, onlyIfAbsent) =>
      (if onlyIfAbsent && key in s.receipts then s else s.(receipts := s.receipts[key := bytes]), [])
  }

  function Exec(s: Store, cs: seq<Command>): (Store, seq<int>)
    decreases |cs|
  {
    if cs == [] then (s, []) else
      var (s1, first) := ExecOne(s, cs[0]);
      var (s2, rest) := Exec(s1, cs[1..]);
      (s2, first + rest)
  }

  /** The primary that the pipeline runs on. */
  class Redis {
    var accounts: map<Address, AccountHash>
    var receipts: map<ReceiptKey, Bytes>

    ghost function State(): Store
      reads this
    {
      Store(accounts, receipts)
    }

    constructor ()
      ensures State() == Store(map[], map[])
    {
      accounts, receipts := map[], map[];
    }

    /** The Lua script, statement by statement. */
    method EvalApplyRow(address: Address, tag: string, nonce: string, balance: string) returns (code: int)
      modifies this`accounts
      ensures (State(), [code]) == ExecOne(old(State()), ApplyRow(address, tag, nonce, balance))
    {
      if address !in accounts || Less(accounts[address].txIdx, tag) {
        accounts := accounts[address := AccountHash(nonce, balance, tag)];
        return APPLIED;
      }
      var stored := accounts[address];
      assert accounts[address := stored] == accounts;
      if tag == stored.txIdx {
        if stored.nonce != nonce || stored.balance != balance {
          return DISAGREED;
        }
      }
      return 0;
    }

    method Set(key: ReceiptKey, bytes: Bytes, onlyIfAbsent: bool)
      modifies this`receipts
      ensures (State(), []) == ExecOne(old(State()), SetReceipt(key, bytes, onlyIfAbsent))
    {
      if !(onlyIfAbsent && key in receipts) {
        receipts := receipts[key := bytes];
      }
    }

    method RunPipe(pipe: seq<Command>) returns (codes: seq<int>)
      modifies this
      ensures (State(), codes) == Exec(old(State()), pipe)
    {
      codes := [];
      assert pipe[0..] == pipe && [] + Exec(State(), pipe).1 == Exec(State(), pipe).1;
      for i := 0 to |pipe|
        invariant
          var (end, rest) := Exec(State(), pipe[i..]);
          Exec(old(State()), pipe) == (end, codes + rest)
      {
        assert pipe[i..][1..] == pipe[i + 1..];
        ghost var before, done := State(), codes;
        match pipe[i] {
          case ApplyRow(a, tag, nonce, balance) =>
            var code := EvalApplyRow(a, tag, nonce, balance);
            codes := codes + [code];
          case SetReceipt(key, bytes, onlyIfAbsent) =>
            Set(key, bytes, onlyIfAbsent);
        }
        ghost var (next, answered) := ExecOne(before, pipe[i]);
        assert codes == done + answered;
        assert (done + answered) + Exec(next, pipe[i + 1..]).1 == done + (answered + Exec(next, pipe[i + 1..]).1);
      }
      assert codes + [] == codes;
    }
  }

  // ----- the pipeline

  function RowCommand(end: BPosition, row: AccountRow): Command {
    ApplyRow(row.address, IndexTag(end.AsIndex()), Decimal(row.nonce), Decimal(row.balance))
  }

  datatype CacheError = CodecError

  /** The archived form of a receipt; `None` when it does not encode. */
  type ReceiptCodec = Receipt -> Option<Bytes>

  function ReceiptCommands(codec: ReceiptCodec, receipts: seq<Receipt>): Result<seq<Command>, CacheError> {
    if receipts == [] then Ok([]) else
      var r := receipts[0];
      if !r.Indexed() then ReceiptCommands(codec, receipts[1..]) else
        match codec(r)
        case None => Err(CodecError)
        case Some(bytes) =>
          var rest :- ReceiptCommands(codec, receipts[1..]);
          Ok([SetReceipt((r.from, r.nonce), bytes, !r.UsesNonce())] + rest)
  }

  function RowCommands(end: BPosition, rows: seq<AccountRow>): seq<Command> {
    Map(row => RowCommand(end, row), rows)
  }

  function PipeOf(codec: ReceiptCodec, batches: seq<BatchWrite>): Result<seq<Command>, CacheError> {
    if batches == [] then Ok([]) else
      var receipts :- ReceiptCommands(codec, batches[0].receipts);
      var rest :- PipeOf(codec, batches[1..]);
      Ok(RowCommands(batches[0].end, batches[0].rows) + receipts + rest)
  }

  function FromCodes(codes: seq<int>): (w: RowsWritten)
    ensures w.applied + w.discarded + w.disagreed == |codes|
  {
    if codes == [] then RowsWritten(0, 0, 0) else
      var w := FromCodes(codes[..|codes| - 1]);
      var code := codes[|codes| - 1];
      if code == APPLIED then w.(applied := w.applied + 1)
      else if code == DISAGREED then w.(disagreed := w.disagreed + 1)
      else w.(discarded := w.discarded + 1)
  }

  /** The client's write of several batches: the store after it, and the
      answer. Nothing is sent when a receipt does not encode. */
  function WriteBatches(codec: ReceiptCodec, s: Store, batches: seq<BatchWrite>)
    : (Store, Result<RowsWritten, CacheError>)
  {
    match PipeOf(codec, batches)
    case Err(e) => (s, Err(e))
    case Ok(pipe) =>
      var (end, codes) := Exec(s, pipe);
      (end, Ok(FromCodes(codes)))
  }

  class AccountCache {
    const redis: Redis
    const codec: ReceiptCodec

    constructor (redis: Redis, codec: ReceiptCodec)
      ensures this.redis == redis && this.codec == codec
    {
      this.redis, this.codec := redis, codec;
    }

    method PushRows(pipe: seq<Command>, end: BPosition, rows: seq<AccountRow>) returns (longer: seq<Command>)
      ensures longer == pipe + RowCommands(end, rows)
    {
      longer := pipe;
      var tag := IndexTag(end.AsIndex());
      for i := 0 to |rows|
        invariant longer == pipe + RowCommands(end, rows)[..i]
      {
        longer := longer + [ApplyRow(rows[i].address, tag, Decimal(rows[i].nonce), Decimal(rows[i].balance))];
      }
    }

    method PushReceipts(pipe: seq<Command>, receipts: seq<Receipt>) returns (r: Result<seq<Command>, CacheError>)
      ensures
        var more := ReceiptCommands(codec, receipts);
        r == if more.Ok? then Ok(pipe + more.value) else Err(more.error)
    {
      var longer := pipe;
      for i := 0 to |receipts|
        invariant
          var more, left := ReceiptCommands(codec, receipts), ReceiptCommands(codec, receipts[i..]);
          if left.Ok? then more.Ok? && pipe + more.value == longer + left.value else more == left
      {
        assert receipts[i..][1..] == receipts[i + 1..];
        var receipt := receipts[i];
        if receipt.Indexed() {
          match codec(receipt) {
            case None =>
              return Err(CodecError);
            case Some(bytes) =>
              longer := longer + [SetReceipt((receipt.from, receipt.nonce), bytes, !receipt.UsesNonce())];
          }
        }
      }
      assert longer + [] == longer;
      return Ok(longer);
    }

    method BuildPipe(batches: seq<BatchWrite>) returns (r: Result<seq<Command>, CacheError>)
      ensures r == PipeOf(codec, batches)
    {
      var pipe: seq<Command> := [];
      for i := 0 to |batches|
        invariant
          var whole, left := PipeOf(codec, batches), PipeOf(codec, batches[i..]);
          if left.Ok? then whole.Ok? && whole.value == pipe + left.value else whole == left
      {
        assert batches[i..][1..] == batches[i + 1..];
        var withRows := PushRows(pipe, batches[i].end, batches[i].rows);
        var longer :- PushReceipts(withRows, batches[i].receipts);
        PipeStep(pipe, RowCommands(batches[i].end, batches[i].rows),
                 ReceiptCommands(codec, batches[i].receipts).value, PipeOf(codec, batches[i + 1..]));
        pipe := longer;
      }
      assert pipe + [] == pipe;
      return Ok(pipe);
    }

    lemma PipeStep(pipe: seq<Command>, rows: seq<Command>, receipts: seq<Command>, rest: Result<seq<Command>, CacheError>)
      ensures rest.Ok? ==> pipe + (rows + receipts + rest.value) == ((pipe + rows) + receipts) + rest.value
    {
    }

    method Write(batches: seq<BatchWrite>) returns (r: Result<RowsWritten, CacheError>)
      modifies redis
      ensures (redis.State(), r) == WriteBatches(codec, old(redis.State()), batches)
    {
      var pipe :- BuildPipe(batches);
      if pipe == [] {
        return Ok(RowsWritten(0, 0, 0));
      }
      var codes := redis.RunPipe(pipe);
      r := CountCodes(codes);
    }

    method CountCodes(codes: seq<int>) returns (r: Result<RowsWritten, CacheError>)
      ensures r == Ok(FromCodes(codes))
    {
      var w := RowsWritten(0, 0, 0);
      for i := 0 to |codes|
        invariant w == FromCodes(codes[..i])
      {
        assert codes[..i + 1][..i] == codes[..i];
        match codes[i] {
          case 1 => w := w.(applied := w.applied + 1);
          case -1 => w := w.(disagreed := w.disagreed + 1);
          case _ => w := w.(discarded := w.discarded + 1);
        }
      }
      assert codes[..|codes|] == codes;
      r := Ok(w);
    }
  }
}
