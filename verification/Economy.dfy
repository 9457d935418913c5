/** Base fee and token supply along a whole chain of blocks. */
module Economy {
  import opened Arith
  import opened Ledger
  import opened Canonical
  import opened BlockBuild
  import opened Chain
  import BaseFee

  // ----- Base fee -----

  function GasOfParent(setup: Setup, b: Built): BaseFee.BlockGas
    requires setup.gasFee.Valid()
  {
    BaseFee.BlockGas(BaseFee.Target(setup.gasFee, b.block.header.gasLimit), b.block.header.gasUsed)
  }

  ghost predicate HasTargets(setup: Setup, h: seq<Built>)
    requires setup.gasFee.Valid()
  {
    forall i :: 0 <= i < |h| ==> GasOfParent(setup, h[i]).target > 0
  }

  /** Each header carries the base fee that its parent's header leads to, as far as it fits 64 bits. */
  lemma FeeFollowsParent(setup: Setup, h: seq<Built>, i: nat)
    requires setup.gasFee.Valid() && HasTargets(setup, h)
    requires 0 < i < |h| && BuiltOn(setup, h, i)
    ensures h[i].block.header.baseFee == BaseFee.HeaderFee(
      setup.gasFee.denominator, GasOfParent(setup, h[i - 1]), h[i - 1].block.header.baseFee)
    ensures var parent := h[i - 1].block.header;
      var fee := BaseFee.BaseFeePerGas(setup.gasFee, parent.gasLimit, parent.gasUsed, parent.baseFee);
      h[i].block.header.baseFee == if fee <= U64_MAX then fee else U64_MAX
  {
    assert GasOfParent(setup, h[i - 1]).target > 0;
    hide IncludeAll, BaseFee.NextFee;
    assert EnvFor(setup, h[i - 1].block, h[i].candidates).Ok?;
  }

  /** With a denominator of at least two, a chain that starts with a positive base fee keeps one. */
  lemma ChainFeePositive(setup: Setup, h: seq<Built>, i: nat)
    requires setup.gasFee.Valid() && setup.gasFee.denominator >= 2 && HasTargets(setup, h)
    requires ChainOk(setup, h) && i < |h| && 0 < h[0].block.header.baseFee <= U64_MAX
    ensures 0 < h[i].block.header.baseFee <= U64_MAX
  {
    hide BuiltOn, HasTargets;
    if i > 0 {
      ChainFeePositive(setup, h, i - 1);
      FeeFollowsParent(setup, h, i);
      var gas := GasOfParent(setup, h[i - 1]);
      TargetAt(setup, h, i - 1);
      BaseFee.PositiveStep(setup.gasFee.denominator, gas.target, gas.used, h[i - 1].block.header.baseFee);
    }
  }

  lemma TargetAt(setup: Setup, h: seq<Built>, i: nat)
    requires setup.gasFee.Valid() && HasTargets(setup, h) && i < |h|
    ensures GasOfParent(setup, h[i]).target > 0
  {
  }

  // ----- Supply -----

  /** What one candidate mints when its turn comes: a deposit's mint, if its EVM call succeeds. */
  function MintedBy(c: Candidate): nat {
    if c.tx.call.DepositCall? && c.vm.deposit.vm.None? && c.vm.deposit.evmSuccess then c.tx.call.deposit.mint else 0
  }

  function MintedIn(cs: seq<Candidate>): nat {
    if cs == [] then 0 else MintedBy(cs[0]) + MintedIn(cs[1..])
  }

  lemma IncludeTotal(env: Env, t: Tally, c: Candidate)
    requires Include(env, t, c).Ok?
    ensures Total(Include(env, t, c).value.state.balances) == Total(t.state.balances) + MintedBy(c)
  {
    match c.tx.call
    case Unsupported =>
    case UserCall(_, _, _, _) =>
      if Outcome(env, t.state, c).Ok? {
        hide Execute;
        ExecuteKeepsTotal(env.config, t.state, Normalized(env, c), c.vm.user);
      }
    case DepositCall(d) =>
      DepositRuns(t.state, d, c.vm.deposit);
      if ExecuteDeposit(t.state, d, c.vm.deposit).Ok? {
        hide ExecuteDeposit;
        DepositTotal(t.state, d, c.vm.deposit);
      }
  }

  lemma DepositRuns(s: State, d: DepositTx, beh: DepositBehaviour)
    ensures beh.vm.None? ==> ExecuteDeposit(s, d, beh).Ok?
  {
  }

  lemma {:induction false} IncludeAllTotal(env: Env, t: Tally, cs: seq<Candidate>)
    requires IncludeAll(env, t, cs).Ok?
    ensures Total(IncludeAll(env, t, cs).value.state.balances) == Total(t.state.balances) + MintedIn(cs)
    decreases cs
  {
    hide Include, MintedBy;
    if cs != [] {
      IncludeTotal(env, t, cs[0]);
      IncludeAllTotal(env, Include(env, t, cs[0]).value, cs[1..]);
    }
  }

  function MintedAlong(h: seq<Built>): nat {
    if h == [] then 0 else MintedAlong(h[..|h| - 1]) + MintedIn(h[|h| - 1].candidates)
  }

  /**
   Along every chain the sum of all balances is what the genesis state held plus what successful
   deposits minted: no fee, refund, replay or failed transaction creates or destroys tokens.
   */
  lemma {:induction false} ChainSupply(setup: Setup, h: seq<Built>)
    requires ChainOk(setup, h)
    ensures Total(h[|h| - 1].tally.state.balances) == Total(h[0].before.balances) + MintedAlong(h)
    decreases |h|
  {
    hide BuiltOn, Build, IncludeAll, EnvFor, MintedIn;
    var n := |h| - 1;
    if n > 0 {
      ChainPrefix(setup, h, n);
      ChainSupply(setup, h[..n]);
      BuildLinks(setup, h, n);
      BuiltFrom(setup, h, n);
      IncludeAllTotal(h[n].env, Start(h[n].before), h[n].candidates);
    } else {
      GenesisMintsNothing(h[0]);
      assert h[..n] == [];
    }
  }

  lemma BuiltFrom(setup: Setup, h: seq<Built>, i: nat)
    requires 0 < i < |h| && BuiltOn(setup, h, i)
    ensures h[i].before == h[i - 1].tally.state
  {
    hide Build;
  }

  lemma GenesisMintsNothing(b: Built)
    requires IsGenesis(b)
    ensures MintedIn(b.candidates) == 0 && b.tally.state == b.before
  {
  }
}
