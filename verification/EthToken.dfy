/**
 The session a transaction executes in: balances and nonces changed in place, and the log of what
 the EVM did, which is drained into the ledger when the body is over.
 */
module EthToken {
  import opened Wrappers
  import opened Arith
  import opened Ledger
  import opened Replay
  import opened Canonical

  type Origin = (Account, nat)

  function Credits(origins: seq<Origin>): (r: seq<Transfer>)
    ensures |r| == |origins|
  {
    seq(|origins|, i requires 0 <= i < |origins| => Transfer(EVM_NATIVE, origins[i].0, origins[i].1))
  }

  class Session {
    var balances: Balances
    var nonces: map<Account, nat>
    /** The state root the session reads from. */
    const root: nat
    var origins: seq<Origin>
    var transfers: seq<Transfer>

    constructor (s: State)
      ensures balances == s.balances && nonces == s.nonces && root == s.root
      ensures origins == [] && transfers == []
    {
      balances, nonces, root := s.balances, s.nonces, s.root;
      origins, transfers := [], [];
    }

    method TransferEth(from: Account, to: Account, amount: nat) returns (r: Result<(), Error>)
      modifies this`balances
      ensures Run(old(balances), [Transfer(from, to, amount)]) == Progress(balances, r.Ok?)
      ensures r.Err? ==> r.error == User(VmError)
    {
      RunFirst(balances, Transfer(from, to, amount), []);
      assert [Transfer(from, to, amount)] + [] == [Transfer(from, to, amount)];
      if amount == 0 {
        return Ok(());
      }
      if Bal(balances, from) < amount {
        return Err(User(VmError));
      }
      balances := balances[from := Bal(balances, from) - amount];
      balances := balances[to := Bal(balances, to) + amount];
      return Ok(());
    }

    method MintEth(to: Account, amount: nat)
      modifies this`balances
      ensures balances == Minted(old(balances), to, amount)
    {
      if amount != 0 {
        balances := balances[to := Bal(balances, to) + amount];
      }
    }

    /** Drains the log into the ledger: the result and the balances are those of running it in order. */
    method ReplicateTransfers() returns (r: Result<(), Error>)
      modifies this
      ensures nonces == old(nonces)
      ensures Run(old(balances), Credits(old(origins)) + old(transfers)) == Progress(balances, r.Ok?)
      ensures r.Err? ==> r.error == User(VmError)
      ensures origins == [] && (transfers == [] || transfers == old(transfers)) && (r.Ok? ==> transfers == [])
    {
      var taken := origins;
      origins := [];
      var i := 0;
      while i < |taken|
        invariant 0 <= i <= |taken|
        invariant nonces == old(nonces) && origins == [] && transfers == old(transfers)
        invariant Run(old(balances), Credits(taken)[..i]) == Progress(balances, true)
      {
        RunTaken(old(balances), Credits(taken), i);
        if taken[i].1 != 0 {
          r := TransferEth(EVM_NATIVE, taken[i].0, taken[i].1);
          if r.Err? {
            RunConcat(old(balances), Credits(taken), transfers);
            return;
          }
        } else {
          RunFirst(balances, Credits(taken)[i], []);
          assert [Credits(taken)[i]] + [] == [Credits(taken)[i]];
        }
        i := i + 1;
      }
      assert Credits(taken)[..i] == Credits(taken);
      RunConcat(old(balances), Credits(taken), transfers);
      ghost var credited := balances;
      var log := transfers;
      transfers := [];
      i := 0;
      while i < |log|
        invariant 0 <= i <= |log|
        invariant nonces == old(nonces) && origins == [] && transfers == []
        invariant Run(credited, log[..i]) == Progress(balances, true)
      {
        RunTaken(credited, log, i);
        r := TransferEth(log[i].from, log[i].to, log[i].amount);
        if r.Err? {
          return;
        }
        i := i + 1;
      }
      assert log[..i] == log;
      return Ok(());
    }

    /** The account is created before its nonce is read, and keeps nonce zero if the check fails. */
    method CheckNonce(signer: Account, given: nat) returns (r: Result<(), Error>)
      modifies this`nonces
      ensures r.Ok? ==> Canonical.CheckNonce(old(nonces), signer, given) == Ok(nonces)
      ensures r.Err? ==> Canonical.CheckNonce(old(nonces), signer, given) == Err(r.error)
      ensures r.Err? ==> forall x :: NonceOf(nonces, x) == NonceOf(old(nonces), x)
    {
      if signer !in nonces {
        nonces := nonces[signer := 0];
      }
      var expected := nonces[signer];
      if given != expected {
        return Err(Invalid(IncorrectNonce(expected, given)));
      }
      if expected == U64_MAX {
        return Err(Invalid(ExhaustedAccount));
      }
      nonces := nonces[signer := expected + 1];
      assert nonces == old(nonces)[signer := expected + 1];
      return Ok(());
    }

    method VerifyTransaction(cfg: Config, tx: CanonicalTx, beh: Behaviour) returns (r: Result<(), Error>)
      modifies this`balances, this`nonces
      ensures r.Ok? ==> Verify(cfg, old(State(balances, nonces, root)), tx, beh) == Ok(State(balances, nonces, root))
      ensures r.Err? ==> Verify(cfg, old(State(balances, nonces, root)), tx, beh) == Err(r.error)
    {
      if tx.chainId.Some? && tx.chainId.value != cfg.chainId {
        return Err(Invalid(IncorrectChainId));
      }
      if !beh.intrinsicPaid {
        return Err(Invalid(InsufficientIntrinsicGas));
      }
      r := TransferEth(tx.signer, cfg.treasury, tx.l1Cost);
      if r.Err? {
        return Err(Invalid(FailedToPayL1Fee));
      }
      r := TransferEth(tx.signer, cfg.treasury, L2Cost(cfg, tx, tx.gasLimit));
      if r.Err? {
        return Err(Invalid(FailedToPayL2Fee));
      }
      r := CheckNonce(tx.signer, tx.nonce);
    }

    /** One step of the body: a payment, or an EVM call that is paid for and then logged. */
    method RunEvent(e: Event) returns (r: Result<(), Error>)
      modifies this
      ensures nonces == old(nonces)
      ensures Run(old(balances), MovePart(e)) == Progress(balances, r.Ok?)
      ensures r.Err? ==> r.error == User(VmError)
      ensures r.Ok? ==> Credits(origins) == Credits(old(origins)) + OriginPart(e)
      ensures r.Ok? ==> transfers == old(transfers) + EvmPart(e)
    {
      match e {
        case Pay(t) =>
          r := TransferEth(t.from, t.to, t.amount);
        case Call(c) =>
          r := TransferEth(c.payer, EVM_NATIVE, c.value);
          if r.Ok? {
            origins := origins + [(c.origin, c.value)];
            transfers := transfers + c.transfers;
          }
      }
    }

    /** Runs the body up to its first step that is not covered, logging every EVM call it makes. */
    method RunBody(events: seq<Event>, verdict: Option<Error>) returns (r: Result<(), Error>)
      requires origins == [] && transfers == []
      modifies this
      ensures nonces == old(nonces)
      ensures var moved := Run(old(balances), MoveOps(events));
        && balances == moved.balances
        && (!moved.complete ==> r == Err(User(VmError)))
        && (moved.complete ==> r == (if verdict.Some? then Err(verdict.value) else Ok(())))
        && (moved.complete ==> Credits(origins) + transfers == ReplayOps(events))
    {
      var i := 0;
      while i < |events|
        invariant 0 <= i <= |events|
        invariant nonces == old(nonces)
        invariant Run(old(balances), MoveOps(events[..i])) == Progress(balances, true)
        invariant Credits(origins) == Collect(events[..i], OriginPart)
        invariant transfers == Collect(events[..i], EvmPart)
      {
        CollectAt(events, i, OriginPart);
        CollectAt(events, i, EvmPart);
        RunNextPart(old(balances), events, i);
        r := RunEvent(events[i]);
        if r.Err? {
          return;
        }
        i := i + 1;
      }
      assert events[..i] == events;
      r := if verdict.Some? then Err(verdict.value) else Ok(());
    }
  }

  lemma RunNextPart(b: Balances, events: seq<Event>, i: nat)
    requires i < |events| && Run(b, MoveOps(events[..i])).complete
    ensures Run(b, MoveOps(events[..i + 1])) == Run(Run(b, MoveOps(events[..i])).balances, MovePart(events[i]))
    ensures !Run(b, MoveOps(events[..i + 1])).complete ==> Run(b, MoveOps(events)) == Run(b, MoveOps(events[..i + 1]))
  {
    CollectAt(events, i, MovePart);
    RunConcat(b, MoveOps(events[..i]), MovePart(events[i]));
    RunConcat(b, MoveOps(events[..i + 1]), Collect(events[i + 1..], MovePart));
  }

  lemma RunTaken(b: Balances, ts: seq<Transfer>, i: nat)
    requires i < |ts| && Run(b, ts[..i]).complete
    ensures Run(b, ts[..i + 1]) == Run(Run(b, ts[..i]).balances, [ts[i]])
    ensures !Run(b, ts[..i + 1]).complete ==> Run(b, ts) == Run(b, ts[..i + 1])
  {
    RunConcat(b, ts[..i], [ts[i]]);
    assert ts[..i] + [ts[i]] == ts[..i + 1];
    RunConcat(b, ts[..i + 1], ts[i + 1..]);
    assert ts[..i + 1] + ts[i + 1..] == ts;
  }

  /** The sequence of steps on one session has the outcome that the ledger model gives. */
  method ExecuteCanonicalTransaction(cfg: Config, s: State, tx: CanonicalTx, beh: Behaviour)
      returns (r: Result<TxOutcome, Error>)
    ensures r == Execute(cfg, s, tx, beh)
  {
    if beh.parse.Some? {
      return Err(beh.parse.value);
    }
    var session := new Session(s);
    var verified := session.VerifyTransaction(cfg, tx, beh);
    if verified.Err? {
      return Err(verified.error);
    }
    var outcome := session.RunBody(beh.events, beh.verdict);
    if outcome.Ok? {
      outcome := session.ReplicateTransfers();
    }
    var refunded := session.TransferEth(cfg.treasury, tx.signer,
      SatSub(L2Cost(cfg, tx, tx.gasLimit), L2Cost(cfg, tx, beh.gasUsed)));
    if refunded.Err? {
      return Err(Invariant(RefundAlwaysSucceeds));
    }
    var state := State(session.balances, session.nonces, beh.root);
    match outcome {
      case Ok(_) =>
        r := Ok(TxOutcome(state, None, beh.gasUsed));
      case Err(User(e)) =>
        r := Ok(TxOutcome(state, Some(e), beh.gasUsed));
      case Err(e) =>
        r := Err(e);
    }
  }

  method ExecuteDepositedTransaction(s: State, tx: DepositTx, beh: DepositBehaviour)
      returns (r: Result<TxOutcome, Error>)
    ensures r == ExecuteDeposit(s, tx, beh)
  {
    var session := new Session(s);
    if beh.vm.Some? {
      if beh.vm.value.User? {
        return Ok(TxOutcome(s.(root := beh.root), Some(beh.vm.value.user), beh.gasUsed));
      }
      return Err(beh.vm.value);
    }
    session.origins := [(tx.from, tx.value)];
    session.transfers := beh.transfers;
    if !beh.evmSuccess {
      return Ok(TxOutcome(s.(root := beh.root), Some(DepositFailure), beh.gasUsed));
    }
    if tx.mint != 0 {
      session.MintEth(EVM_NATIVE, tx.mint);
    }
    var replayed := session.ReplicateTransfers();
    assert Credits([(tx.from, tx.value)]) == [Transfer(EVM_NATIVE, tx.from, tx.value)];
    var state := State(session.balances, session.nonces, beh.root);
    if replayed.Err? {
      return Ok(TxOutcome(state, Some(VmError), beh.gasUsed));
    }
    return Ok(TxOutcome(state, None, beh.gasUsed));
  }
}
