/** What a transaction pays for gas, and how EVM gas is charged to the Move gas meter. */
module GasFees {
  import opened Arith

  // ----- Price of a unit of gas -----

  datatype FeeCaps = FeeCaps(maxPriorityFee: nat, maxFee: nat)

  /** The tip is one of its two caps, whichever binds, and nothing when the base fee is above the sender's cap. */
  function TipPerGas(caps: FeeCaps, baseFee: nat): (tip: nat)
    ensures tip <= caps.maxPriorityFee
    ensures tip > 0 ==> tip + baseFee <= caps.maxFee
    ensures tip == caps.maxPriorityFee || tip + baseFee >= caps.maxFee
  {
    Min(caps.maxPriorityFee, SatSub(caps.maxFee, baseFee))
  }

  function EffectiveGasPrice(caps: FeeCaps, baseFee: nat): nat {
    TipPerGas(caps, baseFee) + baseFee
  }

  /**
   The price stays within the sender's cap exactly when the cap covers the base fee; the tip never
   makes the difference, and the sum never leaves the range of its operands.
   */
  lemma PriceWithinCap(caps: FeeCaps, baseFee: nat)
    ensures EffectiveGasPrice(caps, baseFee) <= caps.maxFee <==> baseFee <= caps.maxFee
    ensures baseFee <= EffectiveGasPrice(caps, baseFee) <= Max(caps.maxFee, baseFee)
  {
  }

  // ----- Layer 2 fee -----

  /** The two capped products in turn are one capped product. */
  function L2Fee(price: nat, gas: nat, multiplier: nat): (fee: nat)
    ensures fee == if price * gas * multiplier <= U256_MAX then price * gas * multiplier else U256_MAX
  {
    assert price * gas > U256_MAX && multiplier > 0 ==> price * gas * multiplier > U256_MAX by {
      if price * gas > U256_MAX && multiplier > 0 {
        MulMono(price * gas, 1, multiplier);
      }
    }
    assert multiplier > 0 ==> U256_MAX * multiplier >= U256_MAX;
    SatMul(SatMul(price, gas, U256_MAX), multiplier, U256_MAX)
  }

  /** Gas within the limit costs no more than was charged for the limit, saturation included. */
  lemma L2FeeMonotone(price: nat, used: nat, limit: nat, multiplier: nat)
    requires used <= limit
    ensures L2Fee(price, used, multiplier) <= L2Fee(price, limit, multiplier)
  {
    MulMono(price, used, limit);
    MulMono(multiplier, SatMul(price, used, U256_MAX), SatMul(price, limit, U256_MAX));
  }

  // ----- EVM gas inside the Move gas meter -----

  const EVM_SCALE_FACTOR: nat := 600
  const EVM_BASE_GAS: nat := 21_000

  /** The gas limit handed to the EVM for a remaining balance of internal gas units. */
  function EvmGasLimit(balance: nat): nat {
    SatAdd(balance / EVM_SCALE_FACTOR, EVM_BASE_GAS, U64_MAX)
  }

  /** Internal gas units charged for the EVM gas a call used. */
  function EvmCharge(evmGas: nat): nat {
    SatMul(SatSub(evmGas, EVM_BASE_GAS), EVM_SCALE_FACTOR, U64_MAX)
  }

  /** A call that keeps within its limit never costs more than the balance the limit came from. */
  lemma ChargeFits(balance: nat, evmGas: nat)
    requires evmGas <= EvmGasLimit(balance)
    ensures EvmCharge(evmGas) <= balance
  {
    assert SatSub(evmGas, EVM_BASE_GAS) <= balance / EVM_SCALE_FACTOR;
  }

  /** The limit is the largest the balance can pay for: one more scaled unit would not fit. */
  lemma LimitIsTight(balance: nat)
    requires balance / EVM_SCALE_FACTOR + EVM_BASE_GAS < U64_MAX && balance < U64_MAX
    ensures EvmCharge(EvmGasLimit(balance) + 1) > balance
  {
  }

  /** The balance left after a sequence of EVM calls, each using some gas up to its own limit. */
  function BalanceAfter(balance: nat, used: seq<nat>): (left: nat)
    requires WithinLimits(balance, used)
    ensures left <= balance
    ensures left + Charged(used) == balance
  {
    if used == [] then balance
    else
      ChargeFits(balance, used[0]);
      BalanceAfter(balance - EvmCharge(used[0]), used[1..])
  }

  ghost predicate WithinLimits(balance: nat, used: seq<nat>) {
    used == [] ||
    (used[0] <= EvmGasLimit(balance) && WithinLimits(SatSub(balance, EvmCharge(used[0])), used[1..]))
  }

  function Charged(used: seq<nat>): nat {
    if used == [] then 0 else EvmCharge(used[0]) + Charged(used[1..])
  }
}
