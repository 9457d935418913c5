/**
 Building one block: executing a list of candidate transactions on the ledger, one receipt for each
 that executes, and the header that sums them up. A byte string and its hash are told apart by
 equality only, so both are the number of the byte string; a block hash is the header hashed.
 */
module BlockBuild {
  import opened Wrappers
  import opened Arith
  import opened Ledger
  import opened Canonical
  import BaseFee
  import GasFees

  type Encoding = nat

  const U128_MAX: nat := 0xFFFF_FFFF_FFFF_FFFF_FFFF_FFFF_FFFF_FFFF

  /** `Unsupported` stands for a transaction that does not normalize, such as one with a bad signature. */
  datatype Call =
    | UserCall(nonce: nat, chainId: Option<nat>, gasLimit: nat, caps: GasFees.FeeCaps)
    | DepositCall(deposit: DepositTx)
    | Unsupported

  /** `encoded` is the EIP-2718 encoding; its hash is the one that blocks list. */
  datatype Tx = Tx(encoded: Encoding, sender: Account, to: Option<Account>, call: Call) {
    function From(): Account {
      if call.DepositCall? then call.deposit.from else sender
    }
  }

  /** A log sets some bits of the bloom filter. */
  datatype Log = Log(bits: set<nat>)

  /** What the virtual machine does when this transaction's turn comes. */
  datatype Vm = Vm(user: Behaviour, deposit: DepositBehaviour, logs: seq<Log>, deployed: Option<Account>)

  /** `key` is the byte string the transaction arrived as; its hash is the one receipts go by. */
  datatype Candidate = Candidate(key: Encoding, tx: Tx, l1Cost: nat, l1Info: Option<nat>, vm: Vm)

  datatype Receipt = Receipt(
    key: Encoding, from: Account, to: Option<Account>, success: bool, gasUsed: nat, price: nat, cumulativeGas: nat,
    txIndex: nat, logs: seq<Log>, logsOffset: nat, bloom: set<nat>, deployed: Option<Account>, l1Info: Option<nat>,
    blockNumber: nat)

  datatype Env = Env(config: Config, baseFee: nat, chargeL1: bool, blockNumber: nat)

  datatype Panic = ExecutionError | GasOverflow | NoTarget | NoParent

  /** What has been added up so far while executing a block. */
  datatype Tally =
    Tally(state: State, receipts: seq<Receipt>, gas: nat, bloom: set<nat>, logOffset: nat, tip: nat)

  function Bloom(logs: seq<Log>): (bits: set<nat>)
    ensures forall bit :: bit in bits <==> exists i :: 0 <= i < |logs| && bit in logs[i].bits
  {
    set i, bit | 0 <= i < |logs| && bit in logs[i].bits :: bit
  }

  // ----- One transaction -----

  function Normalized(env: Env, c: Candidate): CanonicalTx
    requires c.tx.call.UserCall?
  {
    var call := c.tx.call;
    CanonicalTx(c.tx.sender, call.nonce, call.chainId, call.gasLimit,
      GasFees.EffectiveGasPrice(call.caps, env.baseFee), if env.chargeL1 then c.l1Cost else 0)
  }

  function Outcome(env: Env, s: State, c: Candidate): Result<TxOutcome, Error>
    requires !c.tx.call.Unsupported?
  {
    match c.tx.call
    case UserCall(_, _, _, _) => Execute(env.config, s, Normalized(env, c), c.vm.user)
    case DepositCall(d) => ExecuteDeposit(s, d, c.vm.deposit)
  }

  /** The transaction gets a receipt. */
  predicate Runs(env: Env, s: State, c: Candidate) {
    !c.tx.call.Unsupported? && Outcome(env, s, c).Ok?
  }

  /** Deposits pay nothing for gas on layer 2. */
  function PriceOf(env: Env, c: Candidate): nat {
    if c.tx.call.UserCall? then GasFees.EffectiveGasPrice(c.tx.call.caps, env.baseFee) else 0
  }

  function TipPerGasOf(env: Env, c: Candidate): nat {
    if c.tx.call.UserCall? then GasFees.TipPerGas(c.tx.call.caps, env.baseFee) else 0
  }

  function ReceiptFor(env: Env, t: Tally, c: Candidate, o: TxOutcome): Receipt {
    var total := SatAdd(t.gas, o.gasUsed, U128_MAX);
    Receipt(c.key, c.tx.From(), c.tx.to, o.vmError.None?, o.gasUsed, PriceOf(env, c), Min(total, U64_MAX),
      |t.receipts|, c.vm.logs, t.logOffset, Bloom(c.vm.logs),
      if c.tx.call.UserCall? && o.vmError.None? then c.vm.deployed else None,
      if env.chargeL1 then c.l1Info else None, env.blockNumber)
  }

  function Include(env: Env, t: Tally, c: Candidate): Result<Tally, Panic> {
    if c.tx.call.Unsupported? then Ok(t)
    else
      match Outcome(env, t.state, c)
      case Err(Invalid(_)) => Ok(t)
      case Err(_) => Err(ExecutionError)
      case Ok(o) =>
        Ok(Tally(o.state, t.receipts + [ReceiptFor(env, t, c, o)], SatAdd(t.gas, o.gasUsed, U128_MAX),
          t.bloom + Bloom(c.vm.logs), t.logOffset + |c.vm.logs|,
          SatAdd(t.tip, SatMul(o.gasUsed, TipPerGasOf(env, c), U256_MAX), U256_MAX)))
  }

  // ----- All transactions -----

  function IncludeAll(env: Env, t: Tally, cs: seq<Candidate>): Result<Tally, Panic>
    decreases cs
  {
    if cs == [] then Ok(t)
    else
      var next :- Include(env, t, cs[0]);
      IncludeAll(env, next, cs[1..])
  }

  /** Where the candidates that get receipts stand in the list, counting from `start`. */
  function RanAt(env: Env, t: Tally, cs: seq<Candidate>, start: nat): seq<nat>
    decreases cs
  {
    if cs == [] || Include(env, t, cs[0]).Err? then []
    else
      (if Runs(env, t.state, cs[0]) then [start] else [])
      + RanAt(env, Include(env, t, cs[0]).value, cs[1..], start + 1)
  }

  lemma {:induction false} IncludeAllSnoc(env: Env, t: Tally, cs: seq<Candidate>, c: Candidate)
    ensures IncludeAll(env, t, cs + [c]) ==
      if IncludeAll(env, t, cs).Err? then IncludeAll(env, t, cs)
      else Include(env, IncludeAll(env, t, cs).value, c)
    decreases cs
  {
    if cs == [] {
      assert [] + [c] == [c] && [c][1..] == [];
    } else {
      assert (cs + [c])[1..] == cs[1..] + [c];
      var next := Include(env, t, cs[0]);
      if next.Ok? {
        IncludeAllSnoc(env, next.value, cs[1..], c);
      }
    }
  }

  lemma {:induction false} IncludeAllFails(env: Env, t: Tally, cs: seq<Candidate>, i: nat)
    requires i <= |cs| && IncludeAll(env, t, cs[..i]).Err?
    ensures IncludeAll(env, t, cs) == IncludeAll(env, t, cs[..i])
    decreases |cs| - i
  {
    if i == |cs| {
      assert cs[..i] == cs;
    } else {
      IncludeAllSnoc(env, t, cs[..i], cs[i]);
      assert cs[..i] + [cs[i]] == cs[..i + 1];
      IncludeAllFails(env, t, cs, i + 1);
    }
  }

  function Start(s: State): Tally {
    Tally(s, [], 0, {}, 0, 0)
  }

  // ----- What a tally adds up to -----

  function GasOf(receipts: seq<Receipt>): nat {
    if receipts == [] then 0 else GasOf(receipts[..|receipts| - 1]) + receipts[|receipts| - 1].gasUsed
  }

  /** The index reported for each log of a block, in the order the logs are reported. */
  function LogIndices(receipts: seq<Receipt>): seq<nat> {
    if receipts == [] then []
    else LogIndices(receipts[..|receipts| - 1]) + ReportedIndices(receipts[|receipts| - 1])
  }

  function ReportedIndices(r: Receipt): seq<nat> {
    seq(|r.logs|, i requires 0 <= i < |r.logs| => r.logsOffset + i)
  }

  function AllLogs(receipts: seq<Receipt>): seq<Log> {
    if receipts == [] then []
    else AllLogs(receipts[..|receipts| - 1]) + receipts[|receipts| - 1].logs
  }

  function UpTo(n: nat): seq<nat> {
    seq(n, i => i)
  }

  /** Receipt `k` carries its own index, and the gas of all receipts up to itself. */
  ghost predicate Numbered(receipts: seq<Receipt>, k: nat)
    requires k < |receipts|
  {
    receipts[k].txIndex == k && receipts[k].cumulativeGas == Min(GasOf(receipts[..k + 1]), U64_MAX)
  }

  ghost predicate AddsUp(t: Tally) {
    && t.gas == Min(GasOf(t.receipts), U128_MAX)
    && (forall k :: 0 <= k < |t.receipts| ==> Numbered(t.receipts, k))
    && LogIndices(t.receipts) == UpTo(t.logOffset)
    && |AllLogs(t.receipts)| == t.logOffset
    && t.bloom == Bloom(AllLogs(t.receipts))
  }

  lemma BloomConcat(a: seq<Log>, b: seq<Log>)
    ensures Bloom(a + b) == Bloom(a) + Bloom(b)
  {
    forall bit | bit in Bloom(a) + Bloom(b) ensures bit in Bloom(a + b) {
      if bit in Bloom(a) {
        var i :| 0 <= i < |a| && bit in a[i].bits;
        assert (a + b)[i] == a[i];
      } else {
        var i :| 0 <= i < |b| && bit in b[i].bits;
        assert (a + b)[|a| + i] == b[i];
      }
    }
  }

  function With(t: Tally, state: State, r: Receipt, tip: nat): Tally {
    Tally(state, t.receipts + [r], SatAdd(t.gas, r.gasUsed, U128_MAX), t.bloom + r.bloom, t.logOffset + |r.logs|, tip)
  }

  lemma AddsUpWith(t: Tally, state: State, r: Receipt, tip: nat)
    requires AddsUp(t) && r.txIndex == |t.receipts| && r.logsOffset == t.logOffset && r.bloom == Bloom(r.logs)
    requires r.cumulativeGas == Min(SatAdd(t.gas, r.gasUsed, U128_MAX), U64_MAX)
    ensures AddsUp(With(t, state, r, tip))
  {
    var receipts := t.receipts + [r];
    assert receipts[..|receipts| - 1] == t.receipts && receipts[..|receipts|] == receipts;
    forall k | 0 <= k < |receipts| ensures Numbered(receipts, k) {
      if k < |t.receipts| {
        assert Numbered(t.receipts, k);
        assert receipts[..k + 1] == t.receipts[..k + 1];
      }
    }
    BloomConcat(AllLogs(t.receipts), r.logs);
    assert LogIndices(receipts) == UpTo(t.logOffset) + ReportedIndices(r) == UpTo(t.logOffset + |r.logs|);
  }

  lemma AddsUpNext(env: Env, t: Tally, c: Candidate)
    requires AddsUp(t) && Include(env, t, c).Ok?
    ensures AddsUp(Include(env, t, c).value)
  {
    hide Outcome;
    if Runs(env, t.state, c) {
      var o := Outcome(env, t.state, c).value;
      AddsUpWith(t, o.state, ReceiptFor(env, t, c, o), Include(env, t, c).value.tip);
    }
  }

  /** Indices, running gas, log indices and bloom fit together in every block that gets executed. */
  lemma {:induction false} AddsUpAlways(env: Env, t: Tally, cs: seq<Candidate>)
    requires AddsUp(t) && IncludeAll(env, t, cs).Ok?
    ensures AddsUp(IncludeAll(env, t, cs).value)
    decreases cs
  {
    if cs != [] {
      AddsUpNext(env, t, cs[0]);
      AddsUpAlways(env, Include(env, t, cs[0]).value, cs[1..]);
    }
  }

  /** What receipts pay above the base fee, product by product as wide as the source's. */
  function TipsOf(baseFee: nat, receipts: seq<Receipt>): nat {
    if receipts == [] then 0
    else
      var last := receipts[|receipts| - 1];
      TipsOf(baseFee, receipts[..|receipts| - 1]) + SatMul(last.gasUsed, SatSub(last.price, baseFee), U256_MAX)
  }

  lemma PriceAboveBase(env: Env, c: Candidate)
    ensures SatSub(PriceOf(env, c), env.baseFee) == TipPerGasOf(env, c)
  {
  }

  /** The total tip is what the receipts of the block pay above the base fee. */
  lemma {:induction false} TipAddsUp(env: Env, t: Tally, cs: seq<Candidate>)
    requires t.tip == Min(TipsOf(env.baseFee, t.receipts), U256_MAX) && IncludeAll(env, t, cs).Ok?
    ensures var after := IncludeAll(env, t, cs).value; after.tip == Min(TipsOf(env.baseFee, after.receipts), U256_MAX)
    decreases cs
  {
    hide Outcome, PriceOf, TipPerGasOf, SatMul;
    if cs != [] {
      var next := Include(env, t, cs[0]).value;
      if Runs(env, t.state, cs[0]) {
        PriceAboveBase(env, cs[0]);
        assert next.receipts[..|next.receipts| - 1] == t.receipts;
      }
      TipAddsUp(env, next, cs[1..]);
    }
  }

  // ----- Receipts against transactions -----

  ghost predicate Increasing(s: seq<nat>) {
    forall i, j :: 0 <= i < j < |s| ==> s[i] < s[j]
  }

  lemma IncreasingAtLeast(s: seq<nat>, k: nat)
    requires Increasing(s) && k < |s|
    ensures s[k] >= k
  {
    if k > 0 {
      IncreasingAtLeast(s, k - 1);
    }
  }

  predicate ReceiptOf(r: Receipt, c: Candidate) {
    r.key == c.key && r.from == c.tx.From() && r.to == c.tx.to && r.logs == c.vm.logs
  }

  lemma IncludeRan(env: Env, t: Tally, c: Candidate)
    requires Include(env, t, c).Ok?
    ensures !Runs(env, t.state, c) ==> Include(env, t, c).value == t
    ensures Runs(env, t.state, c) ==>
      var after := Include(env, t, c).value.receipts;
      |after| == |t.receipts| + 1 && after[..|t.receipts|] == t.receipts && ReceiptOf(after[|t.receipts|], c)
  {
    hide Outcome;
  }

  /** The receipts are those of the candidates that ran, in the order of the candidates. */
  lemma {:induction false} ReceiptsFollowTransactions(env: Env, t: Tally, cs: seq<Candidate>, start: nat)
    requires IncludeAll(env, t, cs).Ok?
    ensures var ran, after, n := RanAt(env, t, cs, start), IncludeAll(env, t, cs).value.receipts, |t.receipts|;
      && Increasing(ran) && (forall k :: 0 <= k < |ran| ==> start <= ran[k] < start + |cs|)
      && |after| == n + |ran| && after[..n] == t.receipts
      && forall k :: 0 <= k < |ran| ==> ReceiptOf(after[n + k], cs[ran[k] - start])
    decreases cs
  {
    hide Include, Runs;
    if cs != [] {
      var next := Include(env, t, cs[0]).value;
      IncludeRan(env, t, cs[0]);
      ReceiptsFollowTransactions(env, next, cs[1..], start + 1);
      var ran, after, n := RanAt(env, t, cs, start), IncludeAll(env, t, cs).value.receipts, |t.receipts|;
      var rest := RanAt(env, next, cs[1..], start + 1);
      var first := if Runs(env, t.state, cs[0]) then 1 else 0;
      forall k | first <= k < |ran| ensures ReceiptOf(after[n + k], cs[ran[k] - start]) {
        assert ran[k] == rest[k - first] && cs[ran[k] - start] == cs[1..][rest[k - first] - (start + 1)];
      }
      assert after[..n] == after[..|next.receipts|][..n];
      if first == 1 {
        assert after[n] == after[..|next.receipts|][n];
      }
    }
  }

  /** No transaction before the one of receipt `k` was skipped. */
  ghost predicate NoneSkippedBefore(ran: seq<nat>, k: nat)
    requires k < |ran|
  {
    forall p :: 0 <= p < ran[k] ==> p in ran
  }

  /** A receipt's index is its transaction's index exactly when nothing before it was skipped. */
  lemma {:induction false} IndexMatchesIff(ran: seq<nat>, k: nat)
    requires Increasing(ran) && k < |ran|
    ensures ran[k] == k <==> NoneSkippedBefore(ran, k)
  {
    IncreasingAtLeast(ran, k);
    if ran[k] == k {
      forall p | 0 <= p < k ensures p in ran {
        FixedBelow(ran, k, p);
      }
    } else {
      if NoneSkippedBefore(ran, k) {
        Dense(ran, k, k);
      }
    }
  }

  lemma FixedBelow(ran: seq<nat>, k: nat, p: nat)
    requires Increasing(ran) && p <= k < |ran| && ran[k] == k
    ensures ran[p] == p
    decreases k - p
  {
    IncreasingAtLeast(ran, p);
    if p < k {
      FixedBelow(ran, k, p + 1);
    }
  }

  lemma {:induction false} Dense(ran: seq<nat>, k: nat, j: nat)
    requires Increasing(ran) && j <= k < |ran| && NoneSkippedBefore(ran, k)
    ensures ran[j] == j
  {
    if j > 0 {
      Dense(ran, k, j - 1);
    }
    IncreasingAtLeast(ran, j);
    if ran[j] > j {
      Missing(ran, j);
    }
  }

  lemma Missing(ran: seq<nat>, j: nat)
    requires Increasing(ran) && j < |ran| && ran[j] > j && (j > 0 ==> ran[j - 1] == j - 1)
    ensures j !in ran
  {
    forall i | 0 <= i < |ran| ensures ran[i] != j {
      assert i < j - 1 ==> ran[i] < ran[j - 1];
      assert i > j ==> ran[i] > ran[j];
    }
  }

  // ----- Nonces -----

  /** The nonces of the user transactions of `x` among those that ran, in order. */
  function NoncesRun(env: Env, t: Tally, cs: seq<Candidate>, x: Account): seq<nat>
    decreases cs
  {
    if cs == [] || Include(env, t, cs[0]).Err? then []
    else
      (if Runs(env, t.state, cs[0]) && cs[0].tx.call.UserCall? && cs[0].tx.sender == x
       then [cs[0].tx.call.nonce] else [])
      + NoncesRun(env, Include(env, t, cs[0]).value, cs[1..], x)
  }

  function Range(from: nat, to: nat): seq<nat>
    requires from <= to
  {
    seq(to - from, i requires 0 <= i => from + i)
  }

  lemma NonceStep(env: Env, t: Tally, c: Candidate, x: Account)
    requires Include(env, t, c).Ok?
    ensures var before, after := NonceOf(t.state.nonces, x), NonceOf(Include(env, t, c).value.state.nonces, x);
      if Runs(env, t.state, c) && c.tx.call.UserCall? && c.tx.sender == x
      then c.tx.call.nonce == before && after == before + 1
      else after == before
  {
    if Runs(env, t.state, c) && c.tx.call.UserCall? {
      ExecuteRaisesNonce(env.config, t.state, Normalized(env, c), c.vm.user);
    }
  }

  /** What one signer runs in a block carries the next nonces, one after the other. */
  lemma {:induction false} NoncesConsecutive(env: Env, t: Tally, cs: seq<Candidate>, x: Account)
    requires IncludeAll(env, t, cs).Ok?
    ensures NonceOf(t.state.nonces, x) <= NonceOf(IncludeAll(env, t, cs).value.state.nonces, x)
    ensures NoncesRun(env, t, cs, x)
      == Range(NonceOf(t.state.nonces, x), NonceOf(IncludeAll(env, t, cs).value.state.nonces, x))
    decreases cs
  {
    hide Outcome;
    if cs != [] {
      NonceStep(env, t, cs[0], x);
      NoncesConsecutive(env, Include(env, t, cs[0]).value, cs[1..], x);
    }
  }

  // ----- What can run twice -----

  /** The same bytes always decode to the same transaction. */
  ghost predicate KeysTellTransactions(cs: seq<Candidate>) {
    forall i, j :: 0 <= i < |cs| && 0 <= j < |cs| && cs[i].key == cs[j].key ==> cs[i].tx == cs[j].tx
  }

  /** A deposit whose EVM call ends in a way that gives it a receipt. */
  predicate DepositEnds(c: Candidate) {
    c.tx.call.DepositCall? && (c.vm.deposit.vm.None? || c.vm.deposit.vm.value.User?)
  }

  lemma DepositRunsIff(env: Env, t: Tally, c: Candidate)
    requires c.tx.call.DepositCall?
    ensures Runs(env, t.state, c) <==> DepositEnds(c)
  {
  }

  /** Whether the first candidate runs decides the first place, the others the rest. */
  lemma RanAtFirst(env: Env, t: Tally, cs: seq<Candidate>, start: nat, p: nat)
    requires cs != [] && IncludeAll(env, t, cs).Ok?
    ensures p in RanAt(env, t, cs, start) <==>
      (p == start && Runs(env, t.state, cs[0])) || p in RanAt(env, Include(env, t, cs[0]).value, cs[1..], start + 1)
    ensures p in RanAt(env, Include(env, t, cs[0]).value, cs[1..], start + 1) ==> start < p < start + |cs|
  {
    hide Include, Runs;
    var rest := RanAt(env, Include(env, t, cs[0]).value, cs[1..], start + 1);
    ReceiptsFollowTransactions(env, Include(env, t, cs[0]).value, cs[1..], start + 1);
    if p in rest {
      var k :| 0 <= k < |rest| && rest[k] == p;
      assert start + 1 <= rest[k];
    }
  }

  /** A nonce that is behind its sender's never runs again. */
  lemma {:induction false} SpentNonceNeverRuns(env: Env, t: Tally, cs: seq<Candidate>, start: nat, q: nat)
    requires IncludeAll(env, t, cs).Ok? && start <= q < start + |cs|
    requires var tx := cs[q - start].tx; tx.call.UserCall? && tx.call.nonce < NonceOf(t.state.nonces, tx.sender)
    ensures q !in RanAt(env, t, cs, start)
    decreases cs
  {
    hide Include, Runs, RanAt;
    var tx := cs[q - start].tx;
    RanAtFirst(env, t, cs, start, q);
    NonceStep(env, t, cs[0], tx.sender);
    if q > start {
      SpentNonceNeverRuns(env, Include(env, t, cs[0]).value, cs[1..], start + 1, q);
    }
  }

  lemma {:induction false} DepositRunsAt(env: Env, t: Tally, cs: seq<Candidate>, start: nat, p: nat)
    requires IncludeAll(env, t, cs).Ok? && start <= p < start + |cs| && cs[p - start].tx.call.DepositCall?
    ensures p in RanAt(env, t, cs, start) <==> DepositEnds(cs[p - start])
    decreases cs
  {
    hide Include, Runs, RanAt;
    RanAtFirst(env, t, cs, start, p);
    if p == start {
      DepositRunsIff(env, t, cs[0]);
    } else {
      DepositRunsAt(env, Include(env, t, cs[0]).value, cs[1..], start + 1, p);
    }
  }

  lemma {:induction false} UserRunsOnce(env: Env, t: Tally, cs: seq<Candidate>, start: nat, p: nat, q: nat)
    requires IncludeAll(env, t, cs).Ok? && start <= p < q < start + |cs|
    requires cs[p - start].tx == cs[q - start].tx && !cs[p - start].tx.call.DepositCall?
    ensures !(p in RanAt(env, t, cs, start) && q in RanAt(env, t, cs, start))
    decreases cs
  {
    hide Include, RanAt, Outcome;
    var next := Include(env, t, cs[0]).value;
    RanAtFirst(env, t, cs, start, p);
    RanAtFirst(env, t, cs, start, q);
    if p == start {
      if Runs(env, t.state, cs[0]) {
        NonceStep(env, t, cs[0], cs[0].tx.sender);
        SpentNonceNeverRuns(env, next, cs[1..], start + 1, q);
      }
    } else {
      UserRunsOnce(env, next, cs[1..], start + 1, p, q);
    }
  }

  /**
   Two places of a block that hold the same bytes both run exactly when they hold a deposit whose EVM
   call ends both times with a result or a user error. Everything else runs at most once.
   */
  lemma RunsTwiceIff(env: Env, s: State, cs: seq<Candidate>, p: nat, q: nat)
    requires IncludeAll(env, Start(s), cs).Ok? && KeysTellTransactions(cs)
    requires p < q < |cs| && cs[p].key == cs[q].key
    ensures p in RanAt(env, Start(s), cs, 0) && q in RanAt(env, Start(s), cs, 0)
      <==> DepositEnds(cs[p]) && DepositEnds(cs[q])
  {
    hide IncludeAll, RanAt;
    if cs[p].tx.call.DepositCall? {
      DepositRunsAt(env, Start(s), cs, 0, p);
      DepositRunsAt(env, Start(s), cs, 0, q);
    } else {
      UserRunsOnce(env, Start(s), cs, 0, p, q);
    }
  }

  // ----- The block -----

  datatype BlockHash = Given(id: nat) | HashOf(header: Header)

  /** Only what the model speaks about; an ordered trie root is as good as the list it is the root of. */
  datatype Header = Header(
    parentHash: BlockHash, number: nat, transactionsRoot: seq<Tx>, receiptsRoot: seq<Receipt>,
    stateRoot: nat, gasLimit: nat, gasUsed: nat, baseFee: nat, bloom: set<nat>, timestamp: nat)

  datatype Block = Block(hash: BlockHash, value: nat, payloadId: nat, header: Header, transactions: seq<Encoding>)

  datatype Attributes = Attributes(transactions: seq<Option<Candidate>>, gasLimit: nat, timestamp: nat)

  datatype Setup = Setup(config: Config, gasFee: BaseFee.GasFee)

  /** A block with what it was built from. */
  datatype Built =
    Built(block: Block, attrs: Attributes, candidates: seq<Candidate>, env: Env, before: State, tally: Tally)

  /** The transactions of a payload that decode. */
  function Decoded(txs: seq<Option<Candidate>>): seq<Candidate> {
    if txs == [] then []
    else Decoded(txs[..|txs| - 1]) + (if txs[|txs| - 1].Some? then [txs[|txs| - 1].value] else [])
  }

  function HeaderFor(parent: Block, attrs: Attributes, cs: seq<Candidate>, env: Env, t: Tally): Header {
    Header(parent.hash, parent.header.number + 1, TxsOf(cs), t.receipts, t.state.root,
      attrs.gasLimit, t.gas, Min(env.baseFee, U64_MAX), t.bloom, attrs.timestamp)
  }

  function TxsOf(cs: seq<Candidate>): (r: seq<Tx>)
    ensures |r| == |cs|
  {
    seq(|cs|, i requires 0 <= i < |cs| => cs[i].tx)
  }

  function HashesOf(cs: seq<Candidate>): (r: seq<Encoding>)
    ensures |r| == |cs|
  {
    seq(|cs|, i requires 0 <= i < |cs| => cs[i].tx.encoded)
  }

  function EnvFor(setup: Setup, parent: Block, cs: seq<Candidate>): Result<Env, Panic> {
    var fee, h := setup.gasFee, parent.header;
    if !fee.Valid() || (BaseFee.Target(fee, h.gasLimit) == 0 && h.gasUsed != 0) then Err(NoTarget)
    else
      Ok(Env(setup.config, BaseFee.BaseFeePerGas(fee, h.gasLimit, h.gasUsed, h.baseFee),
        cs != [] && cs[0].tx.call.DepositCall?, h.number + 1))
  }

  function Build(setup: Setup, s: State, parent: Block, attrs: Attributes, id: nat, cs: seq<Candidate>)
    : Result<Built, Panic>
  {
    var env :- EnvFor(setup, parent, cs);
    var t :- IncludeAll(env, Start(s), cs);
    if t.gas > U64_MAX then Err(GasOverflow)
    else
      var header := HeaderFor(parent, attrs, cs, env, t);
      Ok(Built(Block(HashOf(header), t.tip, id, header, HashesOf(cs)), attrs, cs, env, s, t))
  }

  /**
   Log indices count up without a gap; gas sums up to the header's; the bloom is that of all logs; the
   block's value is what its receipts pay above the base fee.
   */
  lemma BuiltTotals(setup: Setup, s: State, parent: Block, attrs: Attributes, id: nat, cs: seq<Candidate>)
    requires Build(setup, s, parent, attrs, id, cs).Ok?
    ensures var b := Build(setup, s, parent, attrs, id, cs).value; var receipts := b.tally.receipts;
      && LogIndices(receipts) == UpTo(|AllLogs(receipts)|)
      && (forall k :: 0 <= k < |receipts| ==> receipts[k].cumulativeGas == GasOf(receipts[..k + 1]))
      && b.block.header.gasUsed == GasOf(receipts) <= U64_MAX
      && b.block.header.bloom == Bloom(AllLogs(receipts))
      && b.block.value == Min(TipsOf(b.env.baseFee, receipts), U256_MAX)
  {
    hide Include, IncludeAll;
    var b := Build(setup, s, parent, attrs, id, cs).value;
    var receipts := b.tally.receipts;
    AddsUpAlways(b.env, Start(s), cs);
    TipAddsUp(b.env, Start(s), cs);
    forall k | 0 <= k < |receipts| ensures receipts[k].cumulativeGas == GasOf(receipts[..k + 1]) {
      assert Numbered(receipts, k);
      GasMonotone(receipts, k + 1);
    }
  }

  /**
   In every built block the receipts are those of a subsequence of its transactions, in order, each
   numbered by its place among them; that is the transaction's own place exactly when no transaction
   before it was skipped.
   */
  lemma BuiltReceipts(setup: Setup, s: State, parent: Block, attrs: Attributes, id: nat, cs: seq<Candidate>)
    requires Build(setup, s, parent, attrs, id, cs).Ok?
    ensures var b := Build(setup, s, parent, attrs, id, cs).value;
      var ran, receipts := RanAt(b.env, Start(s), cs, 0), b.tally.receipts;
      && Increasing(ran) && |ran| == |receipts| && |cs| == |b.block.transactions|
      && forall k :: 0 <= k < |ran| ==>
        && ran[k] < |cs| && b.block.transactions[ran[k]] == cs[ran[k]].tx.encoded
        && ReceiptOf(receipts[k], cs[ran[k]])
        && receipts[k].txIndex == k
        && (k == ran[k] <==> NoneSkippedBefore(ran, k))
  {
    hide Include, IncludeAll, RanAt, NoneSkippedBefore, AddsUp, Increasing, ReceiptOf, EnvFor;
    var b := Build(setup, s, parent, attrs, id, cs).value;
    AddsUpAlways(b.env, Start(s), cs) by { EmptyAddsUp(s); }
    ReceiptsFollowTransactions(b.env, Start(s), cs, 0);
    NumbersMatch(b.tally, RanAt(b.env, Start(s), cs, 0));
  }

  lemma EmptyAddsUp(s: State)
    ensures AddsUp(Start(s))
  {
  }

  lemma NumbersMatch(t: Tally, ran: seq<nat>)
    requires AddsUp(t) && Increasing(ran) && |ran| == |t.receipts|
    ensures forall k :: 0 <= k < |ran| ==>
      t.receipts[k].txIndex == k && (k == ran[k] <==> NoneSkippedBefore(ran, k))
  {
    forall k | 0 <= k < |ran|
      ensures t.receipts[k].txIndex == k && (k == ran[k] <==> NoneSkippedBefore(ran, k))
    {
      IndexMatchesIff(ran, k);
      assert Numbered(t.receipts, k);
    }
  }

  lemma {:induction false} GasMonotone(receipts: seq<Receipt>, k: nat)
    requires k <= |receipts|
    ensures GasOf(receipts[..k]) <= GasOf(receipts)
    decreases |receipts|
  {
    if k == |receipts| {
      assert receipts[..k] == receipts;
    } else {
      var init := receipts[..|receipts| - 1];
      GasMonotone(init, k);
      assert init[..k] == receipts[..k];
    }
  }

  /** Block building panics on gas exactly when the gas of its receipts does not fit 64 bits. */
  lemma GasOverflowIff(setup: Setup, s: State, parent: Block, attrs: Attributes, id: nat, cs: seq<Candidate>)
    requires EnvFor(setup, parent, cs).Ok? && IncludeAll(EnvFor(setup, parent, cs).value, Start(s), cs).Ok?
    ensures Build(setup, s, parent, attrs, id, cs).Ok?
      <==> GasOf(IncludeAll(EnvFor(setup, parent, cs).value, Start(s), cs).value.receipts) <= U64_MAX
  {
    AddsUpAlways(EnvFor(setup, parent, cs).value, Start(s), cs);
  }

  /** The loop over candidates, with its running sums in variables of their own. */
  method ExecuteTransactions(env: Env, s: State, cs: seq<Candidate>) returns (r: Result<Tally, Panic>)
    ensures r == IncludeAll(env, Start(s), cs)
  {
    var state, receipts, bloom := s, [], {};
    var gas: nat, txIndex: nat, logOffset: nat, tip: nat := 0, 0, 0, 0;
    var i := 0;
    while i < |cs|
      invariant 0 <= i <= |cs| && txIndex == |receipts|
      invariant IncludeAll(env, Start(s), cs[..i]) == Ok(Tally(state, receipts, gas, bloom, logOffset, tip))
    {
      var c := cs[i];
      IncludeAllSnoc(env, Start(s), cs[..i], c);
      assert cs[..i] + [c] == cs[..i + 1];
      i := i + 1;
      if c.tx.call.Unsupported? {
        continue;
      }
      var outcome := Outcome(env, state, c);
      if outcome.Err? {
        if outcome.error.Invalid? {
          continue;
        }
        IncludeAllFails(env, Start(s), cs, i);
        return Err(ExecutionError);
      }
      var o := outcome.value;
      var l1Info := if env.chargeL1 then c.l1Info else None;
      state := o.state;
      gas := SatAdd(gas, o.gasUsed, U128_MAX);
      var txBloom := Bloom(c.vm.logs);
      bloom := bloom + txBloom;
      var txLogOffset := logOffset;
      logOffset := logOffset + |c.vm.logs|;
      tip := SatAdd(tip, SatMul(o.gasUsed, TipPerGasOf(env, c), U256_MAX), U256_MAX);
      receipts := receipts + [Receipt(c.key, c.tx.From(), c.tx.to, o.vmError.None?, o.gasUsed, PriceOf(env, c),
        if gas < U64_MAX then gas else U64_MAX, txIndex, c.vm.logs, txLogOffset, txBloom,
        if c.tx.call.UserCall? && o.vmError.None? then c.vm.deployed else None, l1Info, env.blockNumber)];
      txIndex := txIndex + 1;
    }
    assert cs[..i] == cs;
    return Ok(Tally(state, receipts, gas, bloom, logOffset, tip));
  }
}
