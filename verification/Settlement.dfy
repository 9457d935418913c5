/**
 What each receipt of a block says, and what each of its transactions leaves on the accounts, told from the
 transaction, the state it ran on and the parent block.
 */
module Settlement {
  import opened Wrappers
  import opened Arith
  import opened Ledger
  import opened Replay
  import opened Canonical
  import opened BlockBuild
  import BaseFee
  import GasFees

  // ----- What a user transaction is charged -----

  /** The price per unit of gas, as EIP-1559 sets it, whenever the sender's cap covers the base fee. */
  function PriceSaid(caps: GasFees.FeeCaps, baseFee: nat): nat {
    if caps.maxFee < baseFee then baseFee
    else if baseFee + caps.maxPriorityFee <= caps.maxFee then baseFee + caps.maxPriorityFee
    else caps.maxFee
  }

  /** The first transaction of the block is a deposit, which tells what layer 1 costs. */
  predicate BeginsWithDeposit(cs: seq<Candidate>) {
    cs != [] && cs[0].tx.call.DepositCall?
  }

  /** Layer 1 cost and payment for some gas. */
  function ChargeFor(env: Env, c: Candidate, gas: nat): nat
    requires c.tx.call.UserCall?
  {
    (if env.chargeL1 then c.l1Cost else 0) + GasPayment(env.config, PriceSaid(c.tx.call.caps, env.baseFee), gas)
  }

  /** What `x` has once the sender has been charged for the whole gas limit. */
  function ChargedAt(env: Env, s: State, c: Candidate, x: Account): int
    requires c.tx.call.UserCall?
  {
    Bal(s.balances, x) + PaidToTreasury(env.config, c.tx.sender, ChargeFor(env, c, c.tx.call.gasLimit), x)
  }

  /** Body and replay can run to their end. */
  ghost predicate Succeeds(env: Env, s: State, c: Candidate)
    requires !c.tx.call.Unsupported?
  {
    if c.tx.call.UserCall? then
      && c.vm.user.verdict.None?
      && forall x :: ChargedAt(env, s, c, x) >= Need(AllOps(c.vm.user), x)
    else
      var d := c.tx.call.deposit;
      && c.vm.deposit.vm.None?
      && c.vm.deposit.evmSuccess
      && d.value <= Bal(s.balances, EVM_NATIVE) + d.mint
      && forall x :: AfterValue(s, d, x) >= Need(c.vm.deposit.transfers, x)
  }

  function GasSaid(c: Candidate): nat {
    if c.tx.call.UserCall? then c.vm.user.gasUsed else c.vm.deposit.gasUsed
  }

  /** The receipt says what happened to the transaction on this state. */
  ghost predicate Says(r: Receipt, env: Env, s: State, c: Candidate)
    requires !c.tx.call.Unsupported?
  {
    && r.from == (if c.tx.call.DepositCall? then c.tx.call.deposit.from else c.tx.sender)
    && r.success == Succeeds(env, s, c)
    && r.gasUsed == GasSaid(c)
    && r.price == (if c.tx.call.UserCall? then PriceSaid(c.tx.call.caps, env.baseFee) else 0)
    && r.deployed == (if c.tx.call.UserCall? && Succeeds(env, s, c) then c.vm.deployed else None)
    && r.l1Info == (if env.chargeL1 then c.l1Info else None)
    && r.bloom == Bloom(r.logs)
    && r.blockNumber == env.blockNumber
  }

  /** The transaction that is run is the one that was sent, at the block's price. */
  lemma NormalizedIs(env: Env, c: Candidate)
    requires c.tx.call.UserCall?
    ensures var tx := Normalized(env, c);
      && tx.signer == c.tx.sender
      && tx.nonce == c.tx.call.nonce
      && tx.chainId == c.tx.call.chainId
      && tx.gasLimit == c.tx.call.gasLimit
      && tx.gasPrice == PriceSaid(c.tx.call.caps, env.baseFee) == PriceOf(env, c)
      && tx.l1Cost == if env.chargeL1 then c.l1Cost else 0
  {
  }

  lemma UserOutcome(env: Env, s: State, c: Candidate)
    requires c.tx.call.UserCall? && Outcome(env, s, c).Ok?
    ensures var o := Outcome(env, s, c).value;
      && o.gasUsed == GasSaid(c)
      && o.state.root == c.vm.user.root
      && (o.vmError.None? <==> Succeeds(env, s, c))
  {
    hide Execute, Verify, Need, Normalized, AllOps, Performed, GasPayment, PriceSaid, PriceOf;
    var tx := Normalized(env, c);
    NormalizedIs(env, c);
    SucceedsIff(env.config, s, tx, c.vm.user);
    OutcomeWasLetIn(env.config, s, tx, c.vm.user);
    forall x ensures Bal(Verify(env.config, s, tx, c.vm.user).value.balances, x) == ChargedAt(env, s, c, x) {
      ChargedUpFront(env.config, s, tx, c.vm.user, x);
    }
  }

  lemma OutcomeWasLetIn(cfg: Config, s: State, tx: CanonicalTx, beh: Behaviour)
    requires Execute(cfg, s, tx, beh).Ok?
    ensures Verify(cfg, s, tx, beh).Ok?
  {
    hide Verify;
  }

  lemma DepositOutcome(env: Env, s: State, c: Candidate)
    requires c.tx.call.DepositCall? && Outcome(env, s, c).Ok?
    ensures var o := Outcome(env, s, c).value;
      && o.gasUsed == GasSaid(c)
      && o.state.root == c.vm.deposit.root
      && (o.vmError.None? <==> Succeeds(env, s, c))
  {
    hide ExecuteDeposit, Need, AfterValue;
    var d, beh := c.tx.call.deposit, c.vm.deposit;
    DepositChange(s, d, beh, 0);
    if beh.vm.None? && beh.evmSuccess {
      DepositCompletes(s, d, beh);
    }
  }

  /** A candidate that runs gets the receipt that tells what happened to it. */
  lemma IncludeSays(env: Env, t: Tally, c: Candidate)
    requires Include(env, t, c).Ok? && Runs(env, t.state, c)
    ensures var after := Include(env, t, c).value;
      && |after.receipts| == |t.receipts| + 1
      && Says(after.receipts[|t.receipts|], env, t.state, c)
      && after.state.root == if c.tx.call.UserCall? then c.vm.user.root else c.vm.deposit.root
  {
    hide Outcome, Succeeds, GasSaid, PriceSaid, GasFees.EffectiveGasPrice, SatAdd;
    if c.tx.call.UserCall? {
      UserOutcome(env, t.state, c);
      NormalizedIs(env, c);
    } else {
      DepositOutcome(env, t.state, c);
    }
  }

  // ----- When a candidate stops the node -----

  /**
   A candidate stops the node exactly when it normalizes and its execution ends with an error that does not only
   make the transaction invalid: for a deposit an invariant of its EVM call, for a user transaction what `Ending`
   says. Everything else gets a receipt or is skipped.
   */
  lemma StopsIff(env: Env, t: Tally, c: Candidate)
    requires c.vm.user.verdict != Some(Invariant(RefundAlwaysSucceeds))
    ensures Include(env, t, c).Err? <==>
      match c.tx.call
      case Unsupported => false
      case DepositCall(_) => c.vm.deposit.vm.Some? && c.vm.deposit.vm.value.Invariant?
      case UserCall(_, _, _, _) =>
        var ending := Ending(env.config, t.state, Normalized(env, c), c.vm.user);
        ending.Some? && !ending.value.Invalid?
  {
    hide Execute, Ending, Normalized;
    if c.tx.call.UserCall? {
      ExecuteEnds(env.config, t.state, Normalized(env, c), c.vm.user);
    }
  }

  // ----- Every place of a block -----

  /** The tally when the first `p` candidates have had their turn. */
  function TallyAt(env: Env, s: State, cs: seq<Candidate>, p: nat): Tally
    requires p <= |cs|
  {
    if IncludeAll(env, Start(s), cs[..p]).Err? then Start(s)
    else IncludeAll(env, Start(s), cs[..p]).value
  }

  lemma TallyNext(env: Env, s: State, cs: seq<Candidate>, p: nat)
    requires p < |cs| && IncludeAll(env, Start(s), cs).Ok?
    ensures Include(env, TallyAt(env, s, cs, p), cs[p]) == Ok(TallyAt(env, s, cs, p + 1))
  {
    hide IncludeAll, Include;
    if IncludeAll(env, Start(s), cs[..p]).Err? {
      IncludeAllFails(env, Start(s), cs, p);
    }
    if IncludeAll(env, Start(s), cs[..p + 1]).Err? {
      IncludeAllFails(env, Start(s), cs, p + 1);
    }
    IncludeAllSnoc(env, Start(s), cs[..p], cs[p]);
    assert cs[..p] + [cs[p]] == cs[..p + 1];
  }

  /** Receipts already given stay, in front of those still to come. */
  lemma {:induction false} ReceiptsStay(env: Env, s: State, cs: seq<Candidate>, p: nat)
    requires p <= |cs| && IncludeAll(env, Start(s), cs).Ok?
    ensures TallyAt(env, s, cs, p).receipts <= IncludeAll(env, Start(s), cs).value.receipts
    decreases |cs| - p
  {
    hide Include, IncludeAll, TallyAt, Runs;
    if p == |cs| {
      LastTally(env, s, cs);
    } else {
      TallyNext(env, s, cs, p);
      ReceiptsStay(env, s, cs, p + 1);
      IncludeRan(env, TallyAt(env, s, cs, p), cs[p]);
    }
  }

  lemma LastTally(env: Env, s: State, cs: seq<Candidate>)
    requires IncludeAll(env, Start(s), cs).Ok?
    ensures TallyAt(env, s, cs, |cs|) == IncludeAll(env, Start(s), cs).value
  {
    hide IncludeAll;
    assert cs[..|cs|] == cs;
  }

  /** What the turn of the candidate at one place comes to: a receipt that says what happened, or nothing at all. */
  ghost predicate Turn(receipts: seq<Receipt>, env: Env, before: Tally, after: Tally, c: Candidate) {
    if Runs(env, before.state, c) then
      && |after.receipts| == |before.receipts| + 1 <= |receipts|
      && after.receipts == receipts[..|after.receipts|]
      && ReceiptOf(receipts[|before.receipts|], c)
      && Says(receipts[|before.receipts|], env, before.state, c)
      && after.state.root == (if c.tx.call.UserCall? then c.vm.user.root else c.vm.deposit.root)
    else after == before
  }

  lemma EveryTurn(env: Env, s: State, cs: seq<Candidate>, p: nat)
    requires p < |cs| && IncludeAll(env, Start(s), cs).Ok?
    ensures Turn(IncludeAll(env, Start(s), cs).value.receipts, env,
      TallyAt(env, s, cs, p), TallyAt(env, s, cs, p + 1), cs[p])
  {
    hide Include, IncludeAll, TallyAt, Runs, Says, ReceiptOf;
    TallyNext(env, s, cs, p);
    ReceiptsStay(env, s, cs, p);
    ReceiptsStay(env, s, cs, p + 1);
    var t := TallyAt(env, s, cs, p);
    IncludeRan(env, t, cs[p]);
    if Runs(env, t.state, cs[p]) {
      IncludeSays(env, t, cs[p]);
    }
  }

  /**
   In every built block the environment is that of the parent: its number plus one, the base fee its header leads
   to, and layer 1 costs exactly when the first transaction is a deposit. Each transaction that runs gets a receipt
   that says, on the state it ran on, whether body and replay ran to their end, the gas the virtual machine used,
   the price, and what was deployed; the others leave no trace.
   */
  lemma BlockSays(setup: Setup, s: State, parent: Block, attrs: Attributes, id: nat, cs: seq<Candidate>, p: nat)
    requires Build(setup, s, parent, attrs, id, cs).Ok? && p < |cs|
    ensures var b := Build(setup, s, parent, attrs, id, cs).value;
      && Follows(b.env, setup, parent, cs)
      && IncludeAll(b.env, Start(s), cs) == Ok(b.tally)
      && Turn(b.tally.receipts, b.env, TallyAt(b.env, s, cs, p), TallyAt(b.env, s, cs, p + 1), cs[p])
  {
    BuiltEnv(setup, s, parent, attrs, id, cs);
    hide Build, IncludeAll, TallyAt, Turn, Follows;
    EveryTurn(Build(setup, s, parent, attrs, id, cs).value.env, s, cs, p);
  }

  /** The environment a block is executed in, told from its parent and its candidates. */
  ghost predicate Follows(env: Env, setup: Setup, parent: Block, cs: seq<Candidate>) {
    var h := parent.header;
    && env.config == setup.config
    && env.blockNumber == h.number + 1
    && env.chargeL1 == BeginsWithDeposit(cs)
    && setup.gasFee.Valid() && (BaseFee.Target(setup.gasFee, h.gasLimit) > 0 || h.gasUsed == 0)
    && env.baseFee == BaseFee.BaseFeePerGas(setup.gasFee, h.gasLimit, h.gasUsed, h.baseFee)
  }

  lemma BuiltEnv(setup: Setup, s: State, parent: Block, attrs: Attributes, id: nat, cs: seq<Candidate>)
    requires Build(setup, s, parent, attrs, id, cs).Ok?
    ensures var b := Build(setup, s, parent, attrs, id, cs).value;
      Follows(b.env, setup, parent, cs) && IncludeAll(b.env, Start(s), cs) == Ok(b.tally)
  {
    hide IncludeAll, BaseFee.BaseFeePerGas;
  }

  /** Every receipt of a block carries the block's number. */
  lemma {:induction false} ReceiptsCarryNumber(env: Env, t: Tally, cs: seq<Candidate>)
    requires IncludeAll(env, t, cs).Ok?
    requires forall k :: 0 <= k < |t.receipts| ==> t.receipts[k].blockNumber == env.blockNumber
    ensures var receipts := IncludeAll(env, t, cs).value.receipts;
      forall k :: 0 <= k < |receipts| ==> receipts[k].blockNumber == env.blockNumber
    decreases cs
  {
    hide Outcome;
    if cs != [] {
      ReceiptsCarryNumber(env, Include(env, t, cs[0]).value, cs[1..]);
    }
  }

  lemma {:induction false} AllLogsHas(receipts: seq<Receipt>, l: Log)
    ensures l in AllLogs(receipts) <==> exists k :: 0 <= k < |receipts| && l in receipts[k].logs
  {
    if receipts != [] {
      var init, last := receipts[..|receipts| - 1], receipts[|receipts| - 1];
      AllLogsHas(init, l);
      assert receipts == init + [last];
      if l in AllLogs(init) {
        var k :| 0 <= k < |init| && l in init[k].logs;
        assert receipts[k] == init[k];
      }
    }
  }

  /** The bits of the header's bloom filter are those set by the logs of the block's receipts. */
  lemma HeaderBloom(setup: Setup, s: State, parent: Block, attrs: Attributes, id: nat, cs: seq<Candidate>, bit: nat)
    requires Build(setup, s, parent, attrs, id, cs).Ok?
    ensures var b := Build(setup, s, parent, attrs, id, cs).value;
      bit in b.block.header.bloom <==>
        exists k, l :: 0 <= k < |b.tally.receipts| && l in b.tally.receipts[k].logs && bit in l.bits
  {
    hide Build, AllLogs;
    BuiltTotals(setup, s, parent, attrs, id, cs);
    var b := Build(setup, s, parent, attrs, id, cs).value;
    var logs := AllLogs(b.tally.receipts);
    if bit in b.block.header.bloom {
      var i :| 0 <= i < |logs| && bit in logs[i].bits;
      AllLogsHas(b.tally.receipts, logs[i]);
    }
    forall k, l | 0 <= k < |b.tally.receipts| && l in b.tally.receipts[k].logs && bit in l.bits
      ensures bit in b.block.header.bloom
    {
      AllLogsHas(b.tally.receipts, l);
    }
  }

  // ----- What each transaction leaves on the accounts -----

  /** The sender has paid an amount to the treasury, and some transfers were done. */
  ghost predicate Settled(
    cfg: Config, before: State, after: State, sender: Account, amount: nat, done: seq<Transfer>)
  {
    forall x: Account ::
      Bal(after.balances, x) == Bal(before.balances, x)
        + (if x == cfg.treasury then amount else 0) - (if x == sender then amount else 0) + Net(done, x)
  }

  /**
   Every account after a user transaction: what its transfers net to, the sender without layer 1 cost and payment
   for the gas used, the treasury with both. A transaction that succeeds has done all its transfers; one that
   fails has done the first of them.
   */
  lemma UserSettles(env: Env, t: Tally, c: Candidate) returns (done: seq<Transfer>)
    requires Include(env, t, c).Ok? && Runs(env, t.state, c) && c.tx.call.UserCall?
    requires c.vm.user.gasUsed <= c.tx.call.gasLimit
    ensures done <= AllOps(c.vm.user) && (Succeeds(env, t.state, c) ==> done == AllOps(c.vm.user))
    ensures Settled(env.config, t.state, Include(env, t, c).value.state, c.tx.sender,
      ChargeFor(env, c, c.vm.user.gasUsed), done)
  {
    hide Execute, Verify, Normalized, AllOps, Performed, GasPayment, PriceSaid, Succeeds, Net;
    var tx := Normalized(env, c);
    NormalizedIs(env, c);
    UserOutcome(env, t.state, c);
    OutcomeWasLetIn(env.config, t.state, tx, c.vm.user);
    SucceedsIff(env.config, t.state, tx, c.vm.user);
    done := Performed(Verify(env.config, t.state, tx, c.vm.user).value.balances, c.vm.user);
    forall x: Account ensures Bal(Include(env, t, c).value.state.balances, x) == Bal(t.state.balances, x)
      + PaidToTreasury(env.config, c.tx.sender, ChargeFor(env, c, c.vm.user.gasUsed), x) + Net(done, x)
    {
      ExecuteChange(env.config, t.state, tx, c.vm.user, x);
    }
  }

  /** The same at a place of a built block, where layer 1 costs are due exactly when a deposit comes first. */
  lemma BlockSettles(setup: Setup, s: State, parent: Block, attrs: Attributes, id: nat, cs: seq<Candidate>, p: nat)
      returns (done: seq<Transfer>)
    requires Build(setup, s, parent, attrs, id, cs).Ok? && p < |cs| && cs[p].tx.call.UserCall?
    requires var b := Build(setup, s, parent, attrs, id, cs).value;
      Runs(b.env, TallyAt(b.env, s, cs, p).state, cs[p])
    requires cs[p].vm.user.gasUsed <= cs[p].tx.call.gasLimit
    ensures var b, c := Build(setup, s, parent, attrs, id, cs).value, cs[p];
      var before, after := TallyAt(b.env, s, cs, p).state, TallyAt(b.env, s, cs, p + 1).state;
      var l1 := if BeginsWithDeposit(cs) then c.l1Cost else 0;
      var gas := GasPayment(setup.config, PriceSaid(c.tx.call.caps, b.env.baseFee), c.vm.user.gasUsed);
      && done <= AllOps(c.vm.user)
      && (Succeeds(b.env, before, c) ==> done == AllOps(c.vm.user))
      && Settled(setup.config, before, after, c.tx.sender, l1 + gas, done)
  {
    BuiltEnv(setup, s, parent, attrs, id, cs);
    hide Build, Include, IncludeAll, TallyAt, Runs, Succeeds, AllOps, GasPayment, PriceSaid, Settled;
    var b := Build(setup, s, parent, attrs, id, cs).value;
    TallyNext(b.env, s, cs, p);
    done := UserSettles(b.env, TallyAt(b.env, s, cs, p), cs[p]);
  }

  // ----- The header -----

  lemma {:induction false} LastRoot(env: Env, s: State, cs: seq<Candidate>, p: nat)
    requires p <= |cs| && IncludeAll(env, Start(s), cs).Ok?
    requires forall q :: p <= q < |cs| ==> !Runs(env, TallyAt(env, s, cs, q).state, cs[q])
    ensures IncludeAll(env, Start(s), cs).value == TallyAt(env, s, cs, p)
    decreases |cs| - p
  {
    hide Include, IncludeAll, TallyAt, Runs;
    if p == |cs| {
      LastTally(env, s, cs);
    } else {
      TallyNext(env, s, cs, p);
      IncludeRan(env, TallyAt(env, s, cs, p), cs[p]);
      LastRoot(env, s, cs, p + 1);
    }
  }

  /**
   The header takes limit and time from the payload, lists transactions and receipts, and carries the root the
   last transaction that ran left behind, or the one before the block when none ran.
   */
  lemma HeaderSays(setup: Setup, s: State, parent: Block, attrs: Attributes, id: nat, cs: seq<Candidate>, p: nat)
    requires Build(setup, s, parent, attrs, id, cs).Ok? && p <= |cs|
    requires var env := Build(setup, s, parent, attrs, id, cs).value.env;
      && (p < |cs| ==> Runs(env, TallyAt(env, s, cs, p).state, cs[p]))
      && forall q :: (if p == |cs| then 0 else p + 1) <= q < |cs| ==> !Runs(env, TallyAt(env, s, cs, q).state, cs[q])
    ensures var b := Build(setup, s, parent, attrs, id, cs).value; var h := b.block.header;
      && b.block.payloadId == id
      && h.gasLimit == attrs.gasLimit
      && h.timestamp == attrs.timestamp
      && h.baseFee == Min(b.env.baseFee, U64_MAX)
      && h.receiptsRoot == b.tally.receipts
      && |h.transactionsRoot| == |cs| && (forall i :: 0 <= i < |cs| ==> h.transactionsRoot[i] == cs[i].tx)
      && h.stateRoot ==
        (if p == |cs| then s.root
         else if cs[p].tx.call.UserCall? then cs[p].vm.user.root else cs[p].vm.deposit.root)
  {
    BuiltHeader(setup, s, parent, attrs, id, cs);
    hide Build, Include, IncludeAll, TallyAt, Runs, Says, ReceiptOf;
    var env := Build(setup, s, parent, attrs, id, cs).value.env;
    if p == |cs| {
      LastRoot(env, s, cs, 0);
      FirstTally(env, s, cs);
    } else {
      LastRoot(env, s, cs, p + 1);
      EveryTurn(env, s, cs, p);
    }
  }

  lemma FirstTally(env: Env, s: State, cs: seq<Candidate>)
    requires IncludeAll(env, Start(s), cs).Ok?
    ensures TallyAt(env, s, cs, 0) == Start(s)
  {
    assert cs[..0] == [];
  }

  lemma BuiltHeader(setup: Setup, s: State, parent: Block, attrs: Attributes, id: nat, cs: seq<Candidate>)
    requires Build(setup, s, parent, attrs, id, cs).Ok?
    ensures var b := Build(setup, s, parent, attrs, id, cs).value;
      && b.block.payloadId == id
      && b.block.header == HeaderFor(parent, attrs, cs, b.env, b.tally)
      && IncludeAll(b.env, Start(s), cs) == Ok(b.tally)
  {
    hide IncludeAll, EnvFor, HeaderFor;
  }
}
