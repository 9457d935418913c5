/**
 Executing one transaction against the base token ledger: charge for layer 1 and layer 2, check
 and raise the nonce, run the body, replay the transfers made inside the EVM, refund unused gas.
 */
module Canonical {
  import opened Wrappers
  import opened Arith
  import opened Ledger
  import opened Replay
  import GasFees

  datatype UserError = VmError | DepositFailure

  datatype InvalidCause =
    | IncorrectChainId
    | InsufficientIntrinsicGas
    | FailedToPayL1Fee
    | FailedToPayL2Fee
    | IncorrectNonce(expected: nat, given: nat)
    | ExhaustedAccount
    | OtherCause

  datatype Violation = RefundAlwaysSucceeds | OtherViolation

  datatype Error = User(user: UserError) | Invalid(cause: InvalidCause) | Invariant(violation: Violation)

  /** Balances and nonces, and the root of the trie that holds them with everything else. */
  datatype State = State(balances: Balances, nonces: map<Account, nat>, root: nat)

  datatype Config = Config(chainId: nat, treasury: Account, multiplier: nat)

  datatype CanonicalTx =
    CanonicalTx(signer: Account, nonce: nat, chainId: Option<nat>, gasLimit: nat, gasPrice: nat, l1Cost: nat)

  /**
   What the virtual machine does with a transaction: whether its data parses and its size can be
   paid, the balance changes of its body in order, how the body ends on its own, the gas used, and
   the root the state has once all changes are applied.
   */
  datatype Behaviour =
    Behaviour(
      parse: Option<Error>, intrinsicPaid: bool, events: seq<Event>, verdict: Option<Error>, gasUsed: nat, root: nat)

  datatype TxOutcome = TxOutcome(state: State, vmError: Option<UserError>, gasUsed: nat)

  // ----- Steps -----

  function NonceOf(nonces: map<Account, nat>, signer: Account): nat {
    if signer in nonces then nonces[signer] else 0
  }

  function CheckNonce(nonces: map<Account, nat>, signer: Account, given: nat): Result<map<Account, nat>, Error> {
    var expected := NonceOf(nonces, signer);
    if given != expected then Err(Invalid(IncorrectNonce(expected, given)))
    else if expected == U64_MAX then Err(Invalid(ExhaustedAccount))
    else Ok(nonces[signer := expected + 1])
  }

  function L2Cost(cfg: Config, tx: CanonicalTx, gas: nat): nat {
    GasFees.L2Fee(tx.gasPrice, gas, cfg.multiplier)
  }

  function Verify(cfg: Config, s: State, tx: CanonicalTx, beh: Behaviour): Result<State, Error> {
    if tx.chainId.Some? && tx.chainId.value != cfg.chainId then Err(Invalid(IncorrectChainId))
    else if !beh.intrinsicPaid then Err(Invalid(InsufficientIntrinsicGas))
    else
      var l1 := Run(s.balances, [Transfer(tx.signer, cfg.treasury, tx.l1Cost)]);
      if !l1.complete then Err(Invalid(FailedToPayL1Fee))
      else
        var l2 := Run(l1.balances, [Transfer(tx.signer, cfg.treasury, L2Cost(cfg, tx, tx.gasLimit))]);
        if !l2.complete then Err(Invalid(FailedToPayL2Fee))
        else
          var nonces :- CheckNonce(s.nonces, tx.signer, tx.nonce);
          Ok(State(l2.balances, nonces, s.root))
  }

  /** Balances after the body and, when it went well, the replay; and the error they end with. */
  function AfterBody(b: Balances, beh: Behaviour): (Balances, Option<Error>) {
    var moved := Run(b, MoveOps(beh.events));
    if !moved.complete then (moved.balances, Some(User(VmError)))
    else if beh.verdict.Some? then (moved.balances, beh.verdict)
    else
      var replayed := Run(moved.balances, ReplayOps(beh.events));
      (replayed.balances, if replayed.complete then None else Some(User(VmError)))
  }

  function Refund(cfg: Config, tx: CanonicalTx, gasUsed: nat): nat {
    SatSub(L2Cost(cfg, tx, tx.gasLimit), L2Cost(cfg, tx, gasUsed))
  }

  /** An error leaves no trace; a user error still has an outcome, with the changes made so far. */
  function Execute(cfg: Config, s: State, tx: CanonicalTx, beh: Behaviour): Result<TxOutcome, Error> {
    if beh.parse.Some? then Err(beh.parse.value)
    else
      var v :- Verify(cfg, s, tx, beh);
      var (b, error) := AfterBody(v.balances, beh);
      var refunded := Run(b, [Transfer(cfg.treasury, tx.signer, Refund(cfg, tx, beh.gasUsed))]);
      if !refunded.complete then Err(Invariant(RefundAlwaysSucceeds))
      else
        match error
        case None => Ok(TxOutcome(State(refunded.balances, v.nonces, beh.root), None, beh.gasUsed))
        case Some(User(e)) => Ok(TxOutcome(State(refunded.balances, v.nonces, beh.root), Some(e), beh.gasUsed))
        case Some(e) => Err(e)
  }

  // ----- Conservation -----

  lemma AfterBodyKeepsTotal(b: Balances, beh: Behaviour)
    ensures Total(AfterBody(b, beh).0) == Total(b)
  {
    RunKeepsTotal(b, MoveOps(beh.events));
    RunKeepsTotal(Run(b, MoveOps(beh.events)).balances, ReplayOps(beh.events));
  }

  lemma VerifyKeepsTotal(cfg: Config, s: State, tx: CanonicalTx, beh: Behaviour)
    requires Verify(cfg, s, tx, beh).Ok?
    ensures Total(Verify(cfg, s, tx, beh).value.balances) == Total(s.balances)
  {
    var l1 := [Transfer(tx.signer, cfg.treasury, tx.l1Cost)];
    RunKeepsTotal(s.balances, l1);
    RunKeepsTotal(Run(s.balances, l1).balances, [Transfer(tx.signer, cfg.treasury, L2Cost(cfg, tx, tx.gasLimit))]);
  }

  /** Every transaction that has an outcome, success or user error, keeps the sum of all balances. */
  lemma ExecuteKeepsTotal(cfg: Config, s: State, tx: CanonicalTx, beh: Behaviour)
    requires Execute(cfg, s, tx, beh).Ok?
    ensures Total(Execute(cfg, s, tx, beh).value.state.balances) == Total(s.balances)
  {
    var v := Verify(cfg, s, tx, beh).value;
    VerifyKeepsTotal(cfg, s, tx, beh);
    AfterBodyKeepsTotal(v.balances, beh);
    RunKeepsTotal(AfterBody(v.balances, beh).0,
      [Transfer(cfg.treasury, tx.signer, Refund(cfg, tx, beh.gasUsed))]);
  }

  /** An outcome means the nonce was the expected one, and that it was raised by one for the signer only. */
  lemma ExecuteRaisesNonce(cfg: Config, s: State, tx: CanonicalTx, beh: Behaviour)
    requires Execute(cfg, s, tx, beh).Ok?
    ensures tx.nonce == NonceOf(s.nonces, tx.signer) != U64_MAX
    ensures var nonces := Execute(cfg, s, tx, beh).value.state.nonces;
      forall x :: NonceOf(nonces, x) == NonceOf(s.nonces, x) + (if x == tx.signer then 1 else 0)
  {
  }

  /** The product of price, gas and multiplier, held in 256 bits. */
  function GasPayment(cfg: Config, price: nat, gas: nat): nat {
    var product := price * gas * cfg.multiplier;
    if product <= U256_MAX then product else U256_MAX
  }

  /** The sender can pay both charges; the treasury pays itself, so it needs the larger one only. */
  predicate CanPay(cfg: Config, s: State, tx: CanonicalTx) {
    var l1, l2 := tx.l1Cost, GasPayment(cfg, tx.gasPrice, tx.gasLimit);
    (if tx.signer == cfg.treasury then Max(l1, l2) else l1 + l2) <= Bal(s.balances, tx.signer)
  }

  /** What keeps a transaction out: the first of chain, gas, funds and nonce that is not in order. */
  function Objection(cfg: Config, s: State, tx: CanonicalTx, beh: Behaviour): Option<InvalidCause> {
    var nonce := NonceOf(s.nonces, tx.signer);
    if !(tx.chainId.None? || tx.chainId.value == cfg.chainId) then Some(IncorrectChainId)
    else if !beh.intrinsicPaid then Some(InsufficientIntrinsicGas)
    else if Bal(s.balances, tx.signer) < tx.l1Cost then Some(FailedToPayL1Fee)
    else if !CanPay(cfg, s, tx) then Some(FailedToPayL2Fee)
    else if tx.nonce != nonce then Some(IncorrectNonce(nonce, tx.nonce))
    else if nonce == U64_MAX then Some(ExhaustedAccount)
    else None
  }

  /**
   A transaction is let in exactly when chain, gas, funds and nonce are all in order, and refused with the first
   cause that is not.
   */
  lemma VerifyIff(cfg: Config, s: State, tx: CanonicalTx, beh: Behaviour)
    ensures Verify(cfg, s, tx, beh).Ok? <==>
      && (tx.chainId.None? || tx.chainId.value == cfg.chainId)
      && beh.intrinsicPaid
      && CanPay(cfg, s, tx)
      && tx.nonce == NonceOf(s.nonces, tx.signer) != U64_MAX
    ensures Verify(cfg, s, tx, beh).Err? ==>
      && Objection(cfg, s, tx, beh).Some?
      && Verify(cfg, s, tx, beh) == Err(Invalid(Objection(cfg, s, tx, beh).value))
  {
    hide Run, GasFees.L2Fee;
    var t1 := Transfer(tx.signer, cfg.treasury, tx.l1Cost);
    var t2 := Transfer(tx.signer, cfg.treasury, L2Cost(cfg, tx, tx.gasLimit));
    RunOne(s.balances, t1);
    RunOne(Run(s.balances, [t1]).balances, t2);
  }

  // ----- What the body and the replay may do to the treasury -----

  function Performed(b: Balances, beh: Behaviour): seq<Transfer> {
    var moves := MoveOps(beh.events);
    var moved := Run(b, moves);
    if !moved.complete then moves[..Done(b, moves)]
    else if beh.verdict.Some? then moves
    else moves + ReplayOps(beh.events)[..Done(moved.balances, ReplayOps(beh.events))]
  }

  lemma PerformedNet(b: Balances, beh: Behaviour, x: Account)
    ensures Bal(AfterBody(b, beh).0, x) == Bal(b, x) + Net(Performed(b, beh), x)
  {
    var moves, replay := MoveOps(beh.events), ReplayOps(beh.events);
    var moved := Run(b, moves);
    RunNet(b, moves, x);
    if moved.complete {
      assert moves[..|moves|] == moves;
      RunNet(moved.balances, replay, x);
      NetConcat(moves, replay[..Done(moved.balances, replay)], x);
    }
  }

  /** Nothing in the body, inside or outside the EVM, spends from account `x`. */
  ghost predicate NeverSpends(events: seq<Event>, x: Account) {
    && !MoveDebited(events, x)
    && forall i | 0 <= i < |events| && events[i].Call? :: Debits(events[i].c.transfers, x) == 0
  }

  lemma {:induction false} DebitsConcat(s: seq<Transfer>, t: seq<Transfer>, x: Account)
    ensures Debits(s + t, x) == Debits(s, x) + Debits(t, x)
  {
    if s == [] {
      assert s + t == t;
    } else {
      DebitsConcat(s[1..], t, x);
      assert (s + t)[1..] == s[1..] + t;
    }
  }

  lemma {:induction false} CollectedDebits(events: seq<Event>, x: Account)
    requires NeverSpends(events, x)
    ensures Debits(MoveOps(events), x) == 0
    ensures Debits(Collect(events, EvmPart), x) == 0
    ensures Debits(Collect(events, OriginPart), x) == if x == EVM_NATIVE then Values(events) else 0
  {
    if events != [] {
      var init, e := events[..|events| - 1], events[|events| - 1];
      assert NeverSpends(init, x) by {
        forall i | 0 <= i < |init| ensures Payer(init[i]) != x { assert init[i] == events[i]; }
        forall i | 0 <= i < |init| && init[i].Call? ensures Debits(init[i].c.transfers, x) == 0 {
          assert init[i] == events[i];
        }
      }
      CollectedDebits(init, x);
      DebitsConcat(MoveOps(init), MovePart(e), x);
      DebitsConcat(Collect(init, EvmPart), EvmPart(e), x);
      DebitsConcat(Collect(init, OriginPart), OriginPart(e), x);
      assert Payer(e) != x;
      DebitsOne(MovePart(e)[0], x);
      if e.Call? {
        DebitsOne(Credit(e.c), x);
      }
    }
  }

  lemma DebitsOne(t: Transfer, x: Account)
    ensures Debits([t], x) == if t.from == x then t.amount else 0
  {
    assert [t][1..] == [];
  }

  /** An account the body never spends from is never poorer for it, however far body and replay got. */
  lemma NeverSpendsKeeps(b: Balances, beh: Behaviour, x: Account)
    requires NeverSpends(beh.events, x)
    ensures Bal(AfterBody(b, beh).0, x) >= Bal(b, x)
  {
    PerformedNet(b, beh, x);
    CollectedDebits(beh.events, x);
    var moves, replay := MoveOps(beh.events), ReplayOps(beh.events);
    var moved := Run(b, moves);
    DebitsConcat(Collect(beh.events, OriginPart), Collect(beh.events, EvmPart), x);
    if !moved.complete {
      DebitsPrefix(moves, Done(b, moves), x);
      DebitsNet(moves[..Done(b, moves)], x);
    } else {
      DebitsNet(moves, x);
      if beh.verdict.None? {
        var n := Done(moved.balances, replay);
        DebitsPrefix(replay, n, x);
        DebitsNet(replay[..n], x);
        NetConcat(moves, replay[..n], x);
        if x == EVM_NATIVE {
          NativeHoldsValues(beh.events);
        }
      }
    }
  }

  lemma RunOne(b: Balances, t: Transfer)
    ensures Run(b, [t]).complete <==> t.amount == 0 || t.amount <= Bal(b, t.from)
    ensures Run(b, [t]).complete ==> forall x :: Bal(Run(b, [t]).balances, x) == Bal(b, x) + Delta(t, x)
  {
    assert [t] == [t] + [];
    RunFirst(b, t, []);
  }

  /** After both charges the treasury can pay back the whole layer 2 charge. */
  lemma TreasuryCanRefund(cfg: Config, s: State, tx: CanonicalTx, beh: Behaviour)
    requires Verify(cfg, s, tx, beh).Ok?
    ensures Bal(Verify(cfg, s, tx, beh).value.balances, cfg.treasury) >= L2Cost(cfg, tx, tx.gasLimit)
    ensures Bal(Verify(cfg, s, tx, beh).value.balances, cfg.treasury) == Bal(s.balances, cfg.treasury)
      + (if tx.signer == cfg.treasury then 0 else tx.l1Cost + L2Cost(cfg, tx, tx.gasLimit))
  {
    var t1 := Transfer(tx.signer, cfg.treasury, tx.l1Cost);
    var t2 := Transfer(tx.signer, cfg.treasury, L2Cost(cfg, tx, tx.gasLimit));
    RunOne(s.balances, t1);
    RunOne(Run(s.balances, [t1]).balances, t2);
  }

  /** What the treasury has to pay the refund from, besides what the body does to it. */
  function TreasuryBefore(cfg: Config, s: State, tx: CanonicalTx): nat {
    Bal(s.balances, cfg.treasury)
    + (if tx.signer == cfg.treasury then 0 else tx.l1Cost + L2Cost(cfg, tx, tx.gasLimit))
  }

  /**
   The refund of a transaction that was let in fails exactly when there is something to refund and
   the body has taken so much from the treasury that it is not left.
   */
  lemma RefundFailsIff(cfg: Config, s: State, tx: CanonicalTx, beh: Behaviour)
    requires beh.parse.None? && Verify(cfg, s, tx, beh).Ok?
    requires beh.verdict != Some(Invariant(RefundAlwaysSucceeds))
    ensures Execute(cfg, s, tx, beh) == Err(Invariant(RefundAlwaysSucceeds)) <==>
      && Refund(cfg, tx, beh.gasUsed) > 0
      && TreasuryBefore(cfg, s, tx) + Net(Performed(Verify(cfg, s, tx, beh).value.balances, beh), cfg.treasury)
         < Refund(cfg, tx, beh.gasUsed)
  {
    hide Verify, Performed, L2Cost;
    var v := Verify(cfg, s, tx, beh).value;
    TreasuryCanRefund(cfg, s, tx, beh);
    PerformedNet(v.balances, beh, cfg.treasury);
    RunOne(AfterBody(v.balances, beh).0, Transfer(cfg.treasury, tx.signer, Refund(cfg, tx, beh.gasUsed)));
  }

  /** For another sender and gas within the limit: exactly when the body leaves less than nothing of fees and funds. */
  lemma RefundFailsForSenderIff(cfg: Config, s: State, tx: CanonicalTx, beh: Behaviour)
    requires beh.parse.None? && Verify(cfg, s, tx, beh).Ok?
    requires beh.verdict != Some(Invariant(RefundAlwaysSucceeds))
    requires tx.signer != cfg.treasury && beh.gasUsed <= tx.gasLimit
    ensures Execute(cfg, s, tx, beh) == Err(Invariant(RefundAlwaysSucceeds)) <==>
      && L2Cost(cfg, tx, beh.gasUsed) < L2Cost(cfg, tx, tx.gasLimit)
      && Bal(s.balances, cfg.treasury) + tx.l1Cost + L2Cost(cfg, tx, beh.gasUsed)
         + Net(Performed(Verify(cfg, s, tx, beh).value.balances, beh), cfg.treasury) < 0
  {
    hide Verify, Performed, Execute;
    RefundFailsIff(cfg, s, tx, beh);
    GasFees.L2FeeMonotone(tx.gasPrice, beh.gasUsed, tx.gasLimit, cfg.multiplier);
  }

  /** In particular it cannot fail as long as nothing in the body spends from the treasury. */
  lemma RefundSucceeds(cfg: Config, s: State, tx: CanonicalTx, beh: Behaviour)
    requires NeverSpends(beh.events, cfg.treasury) && beh.parse.None?
    requires beh.verdict != Some(Invariant(RefundAlwaysSucceeds))
    ensures Execute(cfg, s, tx, beh) != Err(Invariant(RefundAlwaysSucceeds))
    ensures Verify(cfg, s, tx, beh).Ok? && (beh.verdict.None? || beh.verdict.value.User?)
      ==> Execute(cfg, s, tx, beh).Ok?
  {
    if Verify(cfg, s, tx, beh).Ok? {
      RefundFailsIff(cfg, s, tx, beh);
      var v := Verify(cfg, s, tx, beh).value;
      TreasuryCanRefund(cfg, s, tx, beh);
      PerformedNet(v.balances, beh, cfg.treasury);
      NeverSpendsKeeps(v.balances, beh, cfg.treasury);
    }
  }

  /** When the treasury itself sends a transaction it can spend what it would have to pay back. */
  lemma TreasuryAsSenderLosesRefund(cfg: Config, tx: CanonicalTx, beh: Behaviour)
    requires cfg == Config(0, 7, 1) && tx == CanonicalTx(7, 0, None, 10, 1, 0)
    requires beh == Behaviour(None, true, [Pay(Transfer(7, 8, 10))], None, 0, 1)
    ensures Execute(cfg, State(map[7 := 10], map[], 0), tx, beh) == Err(Invariant(RefundAlwaysSucceeds))
  {
    var b: Balances := map[7 := 10];
    var charge, spend, refund := Transfer(7, 7, 10), Transfer(7, 8, 10), Transfer(7, 7, 10);
    assert [spend] == [] + MovePart(beh.events[0]) && beh.events[..0] == [];
    assert MoveOps(beh.events) == [spend];
    assert Collect(beh.events, OriginPart) == [] + OriginPart(beh.events[0]);
    assert Collect(beh.events, EvmPart) == [] + EvmPart(beh.events[0]);
    assert ReplayOps(beh.events) == [];
    RunOne(b, Transfer(7, 7, 0));
    assert Run(b, [Transfer(7, 7, 0)]).balances == b;
    RunOne(b, charge);
    var charged := Run(b, [charge]).balances;
    RunOne(charged, spend);
    RunOne(Run(charged, [spend]).balances, refund);
    assert L2Cost(cfg, tx, 10) == 10 && L2Cost(cfg, tx, 0) == 0;
  }

  /** Whatever the body did, the treasury gained the two fees plus the net of the transfers made. */
  lemma TreasuryChange(cfg: Config, s: State, tx: CanonicalTx, beh: Behaviour)
    requires Execute(cfg, s, tx, beh).Ok? && tx.signer != cfg.treasury && beh.gasUsed <= tx.gasLimit
    ensures Bal(Execute(cfg, s, tx, beh).value.state.balances, cfg.treasury)
      == Bal(s.balances, cfg.treasury) + tx.l1Cost + L2Cost(cfg, tx, beh.gasUsed)
         + Net(Performed(Verify(cfg, s, tx, beh).value.balances, beh), cfg.treasury)
  {
    var v := Verify(cfg, s, tx, beh).value;
    TreasuryCanRefund(cfg, s, tx, beh);
    PerformedNet(v.balances, beh, cfg.treasury);
    RunOne(AfterBody(v.balances, beh).0,
      Transfer(cfg.treasury, tx.signer, Refund(cfg, tx, beh.gasUsed)));
    GasFees.L2FeeMonotone(tx.gasPrice, beh.gasUsed, tx.gasLimit, cfg.multiplier);
  }

  // ----- What every account has in the end -----

  /** What a payment from the sender to the treasury does to one account: nothing when they are the same. */
  function PaidToTreasury(cfg: Config, sender: Account, amount: nat, x: Account): int {
    (if x == cfg.treasury then amount else 0) - (if x == sender then amount else 0)
  }

  /** Letting a transaction in moves the layer 1 cost and the payment for the whole gas limit. */
  lemma ChargedUpFront(cfg: Config, s: State, tx: CanonicalTx, beh: Behaviour, x: Account)
    requires Verify(cfg, s, tx, beh).Ok?
    ensures Bal(Verify(cfg, s, tx, beh).value.balances, x)
      == Bal(s.balances, x) + PaidToTreasury(cfg, tx.signer, tx.l1Cost + GasPayment(cfg, tx.gasPrice, tx.gasLimit), x)
  {
    hide GasFees.L2Fee, Run;
    var t1 := Transfer(tx.signer, cfg.treasury, tx.l1Cost);
    var t2 := Transfer(tx.signer, cfg.treasury, L2Cost(cfg, tx, tx.gasLimit));
    RunOne(s.balances, t1);
    RunOne(Run(s.balances, [t1]).balances, t2);
  }

  /**
   An outcome leaves every account with what the transfers it performed net to, the sender without the layer 1
   cost and the payment for the gas used, and the treasury with both.
   */
  lemma ExecuteChange(cfg: Config, s: State, tx: CanonicalTx, beh: Behaviour, x: Account)
    requires Execute(cfg, s, tx, beh).Ok? && beh.gasUsed <= tx.gasLimit
    ensures Bal(Execute(cfg, s, tx, beh).value.state.balances, x)
      == Bal(s.balances, x)
         + PaidToTreasury(cfg, tx.signer, tx.l1Cost + GasPayment(cfg, tx.gasPrice, beh.gasUsed), x)
         + Net(Performed(Verify(cfg, s, tx, beh).value.balances, beh), x)
  {
    hide Verify, Performed, AfterBody, GasFees.L2Fee, Run;
    var v := Verify(cfg, s, tx, beh).value;
    ChargedUpFront(cfg, s, tx, beh, x);
    PerformedNet(v.balances, beh, x);
    RunOne(AfterBody(v.balances, beh).0, Transfer(cfg.treasury, tx.signer, Refund(cfg, tx, beh.gasUsed)));
    GasFees.L2FeeMonotone(tx.gasPrice, beh.gasUsed, tx.gasLimit, cfg.multiplier);
  }

  /** What `x` has once the sender has been charged for the whole gas limit. */
  function ChargedBal(cfg: Config, s: State, tx: CanonicalTx, x: Account): int {
    Bal(s.balances, x) + PaidToTreasury(cfg, tx.signer, tx.l1Cost + GasPayment(cfg, tx.gasPrice, tx.gasLimit), x)
  }

  /** The balances a body starts from, when the transaction is let in. */
  function Charged(cfg: Config, s: State, tx: CanonicalTx, beh: Behaviour): Balances {
    if Verify(cfg, s, tx, beh).Ok? then Verify(cfg, s, tx, beh).value.balances else s.balances
  }

  /** The body has taken so much from the treasury that what has to be paid back is not left. */
  ghost predicate RefundFallsShort(cfg: Config, s: State, tx: CanonicalTx, beh: Behaviour) {
    var all, used := GasPayment(cfg, tx.gasPrice, tx.gasLimit), GasPayment(cfg, tx.gasPrice, beh.gasUsed);
    && used < all
    && ChargedBal(cfg, s, tx, cfg.treasury) + Net(Performed(Charged(cfg, s, tx, beh), beh), cfg.treasury) < all - used
  }

  /** Every account can do the body's own transfers. */
  ghost predicate BodyEnds(cfg: Config, s: State, tx: CanonicalTx, beh: Behaviour) {
    forall x :: ChargedBal(cfg, s, tx, x) >= Need(MoveOps(beh.events), x)
  }

  /** The error a transaction ends with instead of an outcome. */
  ghost function Ending(cfg: Config, s: State, tx: CanonicalTx, beh: Behaviour): Option<Error> {
    if beh.parse.Some? then beh.parse
    else if Objection(cfg, s, tx, beh).Some? then Some(Invalid(Objection(cfg, s, tx, beh).value))
    else if RefundFallsShort(cfg, s, tx, beh) then Some(Invariant(RefundAlwaysSucceeds))
    else if BodyEnds(cfg, s, tx, beh) && beh.verdict.Some? && !beh.verdict.value.User? then beh.verdict
    else None
  }

  /** A transaction has an outcome exactly when nothing ends it, and otherwise the error that does. */
  lemma ExecuteEnds(cfg: Config, s: State, tx: CanonicalTx, beh: Behaviour)
    requires beh.verdict != Some(Invariant(RefundAlwaysSucceeds))
    ensures Ending(cfg, s, tx, beh) ==
      if Execute(cfg, s, tx, beh).Ok? then None else Some(Execute(cfg, s, tx, beh).error)
  {
    VerifyIff(cfg, s, tx, beh);
    if beh.parse.None? && Verify(cfg, s, tx, beh).Ok? {
      LetInEnds(cfg, s, tx, beh);
    }
  }

  lemma LetInEnds(cfg: Config, s: State, tx: CanonicalTx, beh: Behaviour)
    requires beh.verdict != Some(Invariant(RefundAlwaysSucceeds))
    requires beh.parse.None? && Verify(cfg, s, tx, beh).Ok? && Objection(cfg, s, tx, beh).None?
    ensures Ending(cfg, s, tx, beh) ==
      if Execute(cfg, s, tx, beh).Ok? then None else Some(Execute(cfg, s, tx, beh).error)
  {
    hide Verify, Run, Need, MoveOps, ReplayOps, Performed, GasFees.L2Fee, Objection, Net;
    var charged := Charged(cfg, s, tx, beh);
    forall x ensures Bal(charged, x) == ChargedBal(cfg, s, tx, x) {
      ChargedUpFront(cfg, s, tx, beh, x);
    }
    RefundFailsIff(cfg, s, tx, beh);
    TreasuryCanRefund(cfg, s, tx, beh);
    RunIffNeeds(charged, MoveOps(beh.events));
  }

  /** The body's transfers, then the replay's. */
  function AllOps(beh: Behaviour): seq<Transfer> {
    MoveOps(beh.events) + ReplayOps(beh.events)
  }

  /**
   A transaction succeeds exactly when its body ends well by itself and every account, once charged, has what
   body and replay need of it; then all their transfers were performed. Otherwise some of them were, in order.
   The gas of the outcome is what the virtual machine used.
   */
  lemma SucceedsIff(cfg: Config, s: State, tx: CanonicalTx, beh: Behaviour)
    requires Execute(cfg, s, tx, beh).Ok?
    ensures var o := Execute(cfg, s, tx, beh).value;
      var charged := Verify(cfg, s, tx, beh).value.balances;
      && o.gasUsed == beh.gasUsed
      && o.state.root == beh.root
      && (o.vmError.None? <==> beh.verdict.None? && forall x :: Bal(charged, x) >= Need(AllOps(beh), x))
      && (o.vmError.None? ==> Performed(charged, beh) == AllOps(beh))
      && Performed(charged, beh) <= AllOps(beh)
      && (beh.verdict.Some? ==> Performed(charged, beh) <= MoveOps(beh.events))
      && (o.vmError.Some? ==>
        var bodyEnds := forall x :: Bal(charged, x) >= Need(MoveOps(beh.events), x);
        if bodyEnds && beh.verdict.Some? then beh.verdict == Some(User(o.vmError.value))
        else o.vmError == Some(VmError))
  {
    hide Verify, Run, Need, MoveOps, ReplayOps;
    var charged := Verify(cfg, s, tx, beh).value.balances;
    RunConcat(charged, MoveOps(beh.events), ReplayOps(beh.events));
    RunIffNeeds(charged, AllOps(beh));
    RunIffNeeds(charged, MoveOps(beh.events));
  }

  /** The body deals with the treasury only through the EVM native account's part in calls. */
  ghost predicate LeavesAlone(events: seq<Event>, x: Account) {
    forall i | 0 <= i < |events| :: EventLeavesAlone(events[i], x)
  }

  ghost predicate EventLeavesAlone(e: Event, x: Account) {
    match e
    case Pay(t) => t.from != x && t.to != x
    case Call(c) =>
      && c.payer != x
      && c.origin != x
      && forall k | 0 <= k < |c.transfers| :: c.transfers[k].from != x && c.transfers[k].to != x
  }

  lemma {:induction false} NetZero(ts: seq<Transfer>, x: Account)
    requires forall k :: 0 <= k < |ts| ==> ts[k].from != x && ts[k].to != x
    ensures Net(ts, x) == 0
  {
    if ts != [] {
      NetZero(ts[1..], x);
    }
  }

  lemma {:induction false} CollectedAlone(events: seq<Event>, part: Event -> seq<Transfer>, x: Account)
    requires forall i | 0 <= i < |events| ::
      forall k | 0 <= k < |part(events[i])| :: part(events[i])[k].from != x && part(events[i])[k].to != x
    ensures forall k :: 0 <= k < |Collect(events, part)| ==>
      Collect(events, part)[k].from != x && Collect(events, part)[k].to != x
  {
    if events != [] {
      var init := events[..|events| - 1];
      forall i | 0 <= i < |init|
        ensures forall k | 0 <= k < |part(init[i])| :: part(init[i])[k].from != x && part(init[i])[k].to != x
      {
        assert init[i] == events[i];
      }
      CollectedAlone(init, part, x);
    }
  }

  ghost predicate NoCalls(events: seq<Event>) {
    forall i | 0 <= i < |events| :: events[i].Pay?
  }

  /**
   The treasury gains exactly the layer 1 cost and the layer 2 fee of the gas used whenever the body
   made no EVM call or the replay ran to its end. With the default treasury, which is the EVM native
   account, payments into it and credits out of it cancel.
   */
  lemma TreasuryGainsFees(cfg: Config, s: State, tx: CanonicalTx, beh: Behaviour)
    requires Execute(cfg, s, tx, beh).Ok? && tx.signer != cfg.treasury && beh.gasUsed <= tx.gasLimit
    requires LeavesAlone(beh.events, cfg.treasury)
    requires NoCalls(beh.events) || Execute(cfg, s, tx, beh).value.vmError.None? || cfg.treasury != EVM_NATIVE
    ensures Bal(Execute(cfg, s, tx, beh).value.state.balances, cfg.treasury)
      == Bal(s.balances, cfg.treasury) + tx.l1Cost + L2Cost(cfg, tx, beh.gasUsed)
  {
    TreasuryChange(cfg, s, tx, beh);
    var b := Verify(cfg, s, tx, beh).value.balances;
    if NoCalls(beh.events) || cfg.treasury != EVM_NATIVE {
      AloneUntouched(b, beh, cfg.treasury);
    } else {
      assert AfterBody(b, beh).1.None?;
      NativeUntouched(b, beh);
    }
  }

  lemma PartsAlone(e: Event, x: Account)
    requires EventLeavesAlone(e, x) && (e.Pay? || x != EVM_NATIVE)
    ensures forall k | 0 <= k < |MovePart(e)| :: MovePart(e)[k].from != x && MovePart(e)[k].to != x
    ensures forall k | 0 <= k < |OriginPart(e)| :: OriginPart(e)[k].from != x && OriginPart(e)[k].to != x
    ensures forall k | 0 <= k < |EvmPart(e)| :: EvmPart(e)[k].from != x && EvmPart(e)[k].to != x
  {
  }

  lemma AloneUntouched(b: Balances, beh: Behaviour, x: Account)
    requires LeavesAlone(beh.events, x) && (NoCalls(beh.events) || x != EVM_NATIVE)
    ensures Net(Performed(b, beh), x) == 0
  {
    hide EventLeavesAlone, Run, Done, Net, Collect;
    var events := beh.events;
    forall i | 0 <= i < |events|
      ensures forall k | 0 <= k < |MovePart(events[i])| ::
        MovePart(events[i])[k].from != x && MovePart(events[i])[k].to != x
      ensures forall k | 0 <= k < |OriginPart(events[i])| ::
        OriginPart(events[i])[k].from != x && OriginPart(events[i])[k].to != x
      ensures forall k | 0 <= k < |EvmPart(events[i])| ::
        EvmPart(events[i])[k].from != x && EvmPart(events[i])[k].to != x
    {
      assert EventLeavesAlone(events[i], x);
      PartsAlone(events[i], x);
    }
    CollectedAlone(events, MovePart, x);
    CollectedAlone(events, OriginPart, x);
    CollectedAlone(events, EvmPart, x);
    NetZero(Performed(b, beh), x);
  }

  lemma NativeUntouched(b: Balances, beh: Behaviour)
    requires LeavesAlone(beh.events, EVM_NATIVE) && AfterBody(b, beh).1.None?
    ensures Net(Performed(b, beh), EVM_NATIVE) == 0
  {
    var events := beh.events;
    var replay := ReplayOps(events);
    assert replay[..|replay|] == replay;
    forall i | 0 <= i < |events|
      ensures events[i].Call? ==> events[i].c.payer != EVM_NATIVE && events[i].c.origin != EVM_NATIVE
      ensures forall k | 0 <= k < |DirectPart(events[i])| ::
        DirectPart(events[i])[k].from != EVM_NATIVE && DirectPart(events[i])[k].to != EVM_NATIVE
      ensures forall k | 0 <= k < |EvmPart(events[i])| ::
        EvmPart(events[i])[k].from != EVM_NATIVE && EvmPart(events[i])[k].to != EVM_NATIVE
    {
      assert EventLeavesAlone(events[i], EVM_NATIVE);
    }
    PassedNet(events, EVM_NATIVE);
    PassedIsDirect(events);
    CollectedAlone(events, DirectPart, EVM_NATIVE);
    CollectedAlone(events, EvmPart, EVM_NATIVE);
    NetZero(Collect(events, DirectPart), EVM_NATIVE);
    NetZero(Collect(events, EvmPart), EVM_NATIVE);
  }

  // ----- Deposits -----

  datatype DepositTx = DepositTx(from: Account, value: nat, mint: nat)

  /** The EVM call a deposit makes, which pays nothing in, and how it ends. */
  datatype DepositBehaviour =
    DepositBehaviour(vm: Option<Error>, evmSuccess: bool, transfers: seq<Transfer>, gasUsed: nat, root: nat)

  function Minted(b: Balances, to: Account, amount: nat): Balances {
    if amount == 0 then b else b[to := Bal(b, to) + amount]
  }

  function DepositOps(tx: DepositTx, beh: DepositBehaviour): seq<Transfer> {
    [Transfer(EVM_NATIVE, tx.from, tx.value)] + beh.transfers
  }

  function ExecuteDeposit(s: State, tx: DepositTx, beh: DepositBehaviour): Result<TxOutcome, Error> {
    if beh.vm.Some? then
      if beh.vm.value.User? then Ok(TxOutcome(s.(root := beh.root), Some(beh.vm.value.user), beh.gasUsed))
      else Err(beh.vm.value)
    else if !beh.evmSuccess then Ok(TxOutcome(s.(root := beh.root), Some(DepositFailure), beh.gasUsed))
    else
      var replayed := Run(Minted(s.balances, EVM_NATIVE, tx.mint), DepositOps(tx, beh));
      Ok(TxOutcome(State(replayed.balances, s.nonces, beh.root),
        if replayed.complete then None else Some(VmError), beh.gasUsed))
  }

  /** A deposit adds exactly what it mints, and mints exactly when its EVM call succeeded. */
  lemma DepositTotal(s: State, tx: DepositTx, beh: DepositBehaviour)
    requires ExecuteDeposit(s, tx, beh).Ok?
    ensures Total(ExecuteDeposit(s, tx, beh).value.state.balances)
      == Total(s.balances) + (if beh.vm.None? && beh.evmSuccess then tx.mint else 0)
  {
    if beh.vm.None? && beh.evmSuccess {
      TotalUpdate(s.balances, EVM_NATIVE, Bal(s.balances, EVM_NATIVE) + tx.mint);
      RunKeepsTotal(Minted(s.balances, EVM_NATIVE, tx.mint), DepositOps(tx, beh));
    }
  }

  /**
   A deposit whose EVM call failed changes no balance and no nonce. Otherwise every account has the mint, the value
   and the transfers' net as far as they were performed, which is all of them exactly when it ends without error.
   */
  lemma DepositChange(s: State, tx: DepositTx, beh: DepositBehaviour, x: Account)
    requires ExecuteDeposit(s, tx, beh).Ok?
    ensures var o := ExecuteDeposit(s, tx, beh).value;
      var value := Transfer(EVM_NATIVE, tx.from, tx.value);
      && o.gasUsed == beh.gasUsed
      && o.state.root == beh.root
      && o.state.nonces == s.nonces
      && (beh.vm.Some? || !beh.evmSuccess ==> o.state.balances == s.balances)
      && (beh.vm.Some? ==> o.vmError.Some? && beh.vm == Some(User(o.vmError.value)))
      && (beh.vm.None? && !beh.evmSuccess ==> o.vmError == Some(DepositFailure))
      && (beh.vm.None? && beh.evmSuccess ==> o.vmError.None? || o.vmError == Some(VmError))
      && (o.vmError.None? ==>
        Bal(o.state.balances, x)
          == Bal(s.balances, x) + (if x == EVM_NATIVE then tx.mint else 0) + Delta(value, x) + Net(beh.transfers, x))
      && (o.vmError == Some(VmError) && beh.vm.None? ==>
        exists n | 0 <= n < 1 + |beh.transfers| ::
          Bal(o.state.balances, x) == Bal(s.balances, x) + (if x == EVM_NATIVE then tx.mint else 0)
            + Net(([value] + beh.transfers)[..n], x))
  {
    if beh.vm.None? && beh.evmSuccess {
      var minted, ops := Minted(s.balances, EVM_NATIVE, tx.mint), DepositOps(tx, beh);
      RunNet(minted, ops, x);
      var n := Done(minted, ops);
      assert Bal(minted, x) == Bal(s.balances, x) + if x == EVM_NATIVE then tx.mint else 0;
      if Run(minted, ops).complete {
        assert ops[..n] == ops;
        NetConcat([Transfer(EVM_NATIVE, tx.from, tx.value)], beh.transfers, x);
        NetOne(Transfer(EVM_NATIVE, tx.from, tx.value), x);
      }
    }
  }

  /**
   A finished deposit changes the EVM native account by what was minted, less what went to another
   sender, plus what the EVM's transfers moved to or from it; it is unchanged exactly when these cancel.
   */
  lemma DepositNativeChange(s: State, tx: DepositTx, beh: DepositBehaviour)
    requires ExecuteDeposit(s, tx, beh).Ok? && ExecuteDeposit(s, tx, beh).value.vmError.None?
    ensures var after := ExecuteDeposit(s, tx, beh).value.state.balances;
      var spent := if tx.from == EVM_NATIVE then 0 else tx.value;
      && Bal(after, EVM_NATIVE) == Bal(s.balances, EVM_NATIVE) + tx.mint - spent + Net(beh.transfers, EVM_NATIVE)
      && (Bal(after, EVM_NATIVE) == Bal(s.balances, EVM_NATIVE) <==> tx.mint + Net(beh.transfers, EVM_NATIVE) == spent)
  {
    var minted := Minted(s.balances, EVM_NATIVE, tx.mint);
    CompleteNet(minted, DepositOps(tx, beh), EVM_NATIVE);
    NetConcat([Transfer(EVM_NATIVE, tx.from, tx.value)], beh.transfers, EVM_NATIVE);
    NetOne(Transfer(EVM_NATIVE, tx.from, tx.value), EVM_NATIVE);
  }

  /** Where nothing else names it, that is exactly when mint and value are equal. */
  lemma DepositNative(s: State, tx: DepositTx, beh: DepositBehaviour)
    requires ExecuteDeposit(s, tx, beh).Ok? && ExecuteDeposit(s, tx, beh).value.vmError.None?
    requires tx.from != EVM_NATIVE
    requires forall k :: 0 <= k < |beh.transfers| ==>
      beh.transfers[k].from != EVM_NATIVE && beh.transfers[k].to != EVM_NATIVE
    ensures var after := ExecuteDeposit(s, tx, beh).value.state.balances;
      && Bal(after, EVM_NATIVE) == Bal(s.balances, EVM_NATIVE) + tx.mint - tx.value
      && (Bal(after, EVM_NATIVE) == Bal(s.balances, EVM_NATIVE) <==> tx.mint == tx.value)
  {
    DepositNativeChange(s, tx, beh);
    NetZero(beh.transfers, EVM_NATIVE);
  }

  /** What `x` has when the EVM's transfers of a deposit begin, if the native account can pay the value. */
  function AfterValue(s: State, tx: DepositTx, x: Account): int {
    Bal(s.balances, x)
    + (if x == EVM_NATIVE then tx.mint - tx.value else 0) + (if x == tx.from then tx.value else 0)
  }

  /**
   A deposit runs to its end exactly when the native account can pay its value, and every account then
   has what the EVM's transfers need of it.
   */
  lemma DepositCompletes(s: State, tx: DepositTx, beh: DepositBehaviour)
    requires beh.vm.None? && beh.evmSuccess
    ensures ExecuteDeposit(s, tx, beh).value.vmError.None? <==>
      && tx.value <= Bal(s.balances, EVM_NATIVE) + tx.mint
      && forall x :: AfterValue(s, tx, x) >= Need(beh.transfers, x)
  {
    hide Run, Need;
    var minted, credit := Minted(s.balances, EVM_NATIVE, tx.mint), Transfer(EVM_NATIVE, tx.from, tx.value);
    RunConcat(minted, [credit], beh.transfers);
    RunOne(minted, credit);
    if tx.value <= Bal(s.balances, EVM_NATIVE) + tx.mint {
      var paid := Run(minted, [credit]).balances;
      RunIffNeeds(paid, beh.transfers);
      forall x ensures Bal(paid, x) == AfterValue(s, tx, x) {
      }
    }
  }
}
