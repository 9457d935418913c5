/** The next block's base fee, as the "Specification" section of EIP-1559 computes it. */
module BaseFee {
  import opened Arith

  datatype GasFee = GasFee(elasticity: nat, denominator: nat) {
    /** The constructor rejects a zero parameter. */
    predicate Valid() {
      elasticity > 0 && denominator > 0
    }
  }

  function Target(fee: GasFee, gasLimit: nat): nat
    requires fee.Valid()
  {
    gasLimit / fee.elasticity
  }

  /** How far the fee moves when gas used is `distance` away from the target. */
  function Step(parentFee: nat, distance: nat, target: nat, denominator: nat): nat
    requires target > 0 && denominator > 0
  {
    SatMul(parentFee, distance, U256_MAX) / target / denominator
  }

  /** A zero target leaves no block above it to divide for: the source would divide by zero. */
  function BaseFeePerGas(fee: GasFee, gasLimit: nat, gasUsed: nat, parentFee: nat): nat
    requires fee.Valid() && (Target(fee, gasLimit) > 0 || gasUsed == 0)
  {
    NextFee(fee.denominator, Target(fee, gasLimit), gasUsed, parentFee)
  }

  function NextFee(denominator: nat, target: nat, gasUsed: nat, parentFee: nat): nat
    requires denominator > 0 && (target > 0 || gasUsed == 0)
  {
    if gasUsed > target then
      SatAdd(parentFee, Max(Step(parentFee, gasUsed - target, target, denominator), 1), U256_MAX)
    else if gasUsed < target then
      SatSub(parentFee, Step(parentFee, target - gasUsed, target, denominator))
    else parentFee
  }

  lemma StepMono(p: nat, p': nat, d: nat, d': nat, target: nat, den: nat)
    requires p <= p' && d <= d' && target > 0 && den > 0
    ensures Step(p, d, target, den) <= Step(p', d', target, den)
  {
    MulMono(p, d, d');
    MulMono(d', p, p');
    DivMono(SatMul(p, d, U256_MAX), SatMul(p', d', U256_MAX), target);
    DivMono(SatMul(p, d, U256_MAX) / target, SatMul(p', d', U256_MAX) / target, den);
  }

  /** Within the target, a step never exceeds the fee's own share. */
  lemma StepBound(p: nat, d: nat, target: nat, den: nat)
    requires 0 < target && den > 0 && d <= target
    ensures Step(p, d, target, den) <= p / den <= p
  {
    MulMono(p, d, target);
    DivMono(SatMul(p, d, U256_MAX), p * target, target);
    DivCancel(p, target);
    DivMono(SatMul(p, d, U256_MAX) / target, p, den);
    MulMono(p, 1, den);
    DivMono(p, p * den, den);
    DivCancel(p, den);
  }

  lemma DivSlow(a: nat, a': nat, c: nat, k: nat)
    requires c > 0 && a' <= a + c * k
    ensures a' / c <= a / c + k
  {
    DivMono(a', a + c * k, c);
    DivAdd(a, c, k);
  }

  lemma SatMulSlow(p: nat, k: nat, d: nat, target: nat)
    requires d <= target
    ensures SatMul(p + k, d, U256_MAX) <= SatMul(p, d, U256_MAX) + target * k
  {
    MulMono(k, d, target);
    assert (p + k) * d == p * d + k * d;
  }

  /** Raising the fee by `k` raises a downward step by at most `k`. */
  lemma StepSlow(p: nat, k: nat, d: nat, target: nat, den: nat)
    requires target > 0 && den > 0 && d <= target
    ensures Step(p + k, d, target, den) <= Step(p, d, target, den) + k
  {
    SatMulSlow(p, k, d, target);
    TwoFloorsSlow(SatMul(p, d, U256_MAX), SatMul(p + k, d, U256_MAX), k, target, den);
  }

  lemma TwoFloorsSlow(a: nat, a': nat, k: nat, target: nat, den: nat)
    requires target > 0 && den > 0 && a' <= a + target * k
    ensures a' / target / den <= a / target / den + k
  {
    DivSlow(a, a', target, k);
    MulMono(k, 1, den);
    DivSlow(a / target, a' / target, den, k);
  }

  /** More gas used never means a lower fee. */
  lemma MonotoneInGas(den: nat, target: nat, used: nat, used': nat, p: nat)
    requires den > 0 && target > 0 && used <= used' && p <= U256_MAX
    ensures NextFee(den, target, used, p) <= NextFee(den, target, used', p)
  {
    if used' < target {
      StepMono(p, p, target - used', target - used, target, den);
    } else if used > target {
      StepMono(p, p, used - target, used' - target, target, den);
    }
  }

  /** A higher parent fee never means a lower fee. */
  lemma MonotoneInParent(den: nat, target: nat, used: nat, p: nat, p': nat)
    requires den > 0 && target > 0 && p <= p' <= U256_MAX
    ensures NextFee(den, target, used, p) <= NextFee(den, target, used, p')
  {
    if used > target {
      StepMono(p, p', used - target, used - target, target, den);
    } else if used < target {
      StepSlow(p, p' - p, target - used, target, den);
    }
  }

  /** The fee drops by at most one part in `den`, and rises above target unless it cannot. */
  lemma Bounds(den: nat, target: nat, used: nat, p: nat)
    requires den > 0 && target > 0 && p <= U256_MAX
    ensures NextFee(den, target, used, p) >= p - p / den
    ensures used <= target ==> NextFee(den, target, used, p) <= p
    ensures used > target ==> NextFee(den, target, used, p) > p || p == U256_MAX
    ensures NextFee(den, target, used, p) <= U256_MAX
  {
    StepBound(p, 0, target, den);
    if used < target {
      StepBound(p, target - used, target, den);
    }
  }

  /** Short of overflow, the two floors of the source are the one exact fraction. */
  lemma ExactStep(p: nat, d: nat, target: nat, den: nat)
    requires target > 0 && den > 0 && p * d <= U256_MAX
    ensures target * den > 0 && Step(p, d, target, den) == p * d / (target * den)
  {
    DivDiv(p * d, target, den);
  }

  /** A product held in 256 bits. */
  function Capped(n: nat): nat {
    if n <= U256_MAX then n else U256_MAX
  }

  lemma NextFeeIs(den: nat, target: nat, used: nat, p: nat)
    requires den > 0 && target > 0 && p <= U256_MAX
    ensures target * den > 0
    ensures used > target ==>
      var step := Capped(p * (used - target)) / (target * den);
      NextFee(den, target, used, p) == Capped(p + if step == 0 then 1 else step)
    ensures used == target ==> NextFee(den, target, used, p) == p
    ensures used < target ==>
      var step := Capped(p * (target - used)) / (target * den);
      p >= step && NextFee(den, target, used, p) == p - step
  {
    MulMono(den, 1, target);
    if used > target {
      DivDiv(Capped(p * (used - target)), target, den);
    } else if used < target {
      DivDiv(Capped(p * (target - used)), target, den);
      StepBound(p, target - used, target, den);
    }
  }

  /**
   The fee in numbers: the parent's, moved by its share of the distance to the target over the denominator,
   with at least one added above the target; products and sums stop at 256 bits.
   */
  lemma FeeIs(fee: GasFee, gasLimit: nat, used: nat, p: nat)
    requires fee.Valid() && p <= U256_MAX && (gasLimit >= fee.elasticity || used == 0)
    ensures var target := gasLimit / fee.elasticity;
      && (used > target ==>
        && target * fee.denominator > 0
        && var step := Capped(p * (used - target)) / (target * fee.denominator);
        BaseFeePerGas(fee, gasLimit, used, p) == Capped(p + if step == 0 then 1 else step))
      && (used == target ==> BaseFeePerGas(fee, gasLimit, used, p) == p)
      && (used < target ==>
        && target * fee.denominator > 0
        && var step := Capped(p * (target - used)) / (target * fee.denominator);
        p >= step && BaseFeePerGas(fee, gasLimit, used, p) == p - step)
  {
    var target := gasLimit / fee.elasticity;
    if gasLimit >= fee.elasticity {
      DivMono(fee.elasticity, gasLimit, fee.elasticity);
      NextFeeIs(fee.denominator, target, used, p);
    } else {
      DivIs(gasLimit, fee.elasticity, 0);
    }
  }

  // ----- Chains of blocks -----

  datatype BlockGas = BlockGas(target: nat, used: nat)

  /** A block header has room for a 64-bit base fee only. */
  function HeaderFee(den: nat, block: BlockGas, p: nat): nat
    requires den > 0 && block.target > 0
  {
    Min(NextFee(den, block.target, block.used, p), U64_MAX)
  }

  function FeeAfter(den: nat, p: nat, blocks: seq<BlockGas>): nat
    requires den > 0 && forall i :: 0 <= i < |blocks| ==> blocks[i].target > 0
    decreases blocks
  {
    if blocks == [] then p else FeeAfter(den, HeaderFee(den, blocks[0], p), blocks[1..])
  }

  lemma PositiveStep(den: nat, target: nat, used: nat, p: nat)
    requires den >= 2 && target > 0 && 0 < p <= U256_MAX
    ensures 0 < NextFee(den, target, used, p) <= U256_MAX
  {
    Bounds(den, target, used, p);
    MulMono(p, 2, den);
    DivMono(p, p * den - 1, den);
    DivIs(p * den - 1, den, p - 1) by { assert den * (p - 1) == p * den - den; }
  }

  lemma {:induction false} StaysPositive(den: nat, p: nat, blocks: seq<BlockGas>)
    requires den >= 2 && 0 < p <= U64_MAX
    requires forall i :: 0 <= i < |blocks| ==> blocks[i].target > 0
    ensures 0 < FeeAfter(den, p, blocks) <= U64_MAX
    decreases blocks
  {
    if blocks != [] {
      PositiveStep(den, blocks[0].target, blocks[0].used, p);
      StaysPositive(den, HeaderFee(den, blocks[0], p), blocks[1..]);
    }
  }

  ghost predicate KeepsPositive(den: nat)
    requires den > 0
  {
    forall p: nat, blocks: seq<BlockGas> |
      0 < p <= U64_MAX && (forall i :: 0 <= i < |blocks| ==> blocks[i].target > 0) ::
      FeeAfter(den, p, blocks) > 0
  }

  /** A positive fee survives every chain exactly when the denominator is at least two. */
  lemma PositiveIff(den: nat)
    requires den > 0
    ensures KeepsPositive(den) <==> den >= 2
  {
    if den >= 2 {
      forall p: nat, blocks: seq<BlockGas> |
        0 < p <= U64_MAX && (forall i :: 0 <= i < |blocks| ==> blocks[i].target > 0)
        ensures FeeAfter(den, p, blocks) > 0
      {
        StaysPositive(den, p, blocks);
      }
    } else {
      var idle := [BlockGas(1, 0)];
      assert idle[1..] == [];
      assert FeeAfter(1, 1, idle) == HeaderFee(1, idle[0], 1) == 0;
    }
  }

  /** Blocks at or below their target never raise the fee, however many there are. */
  lemma {:induction false} NeverRaised(den: nat, p: nat, blocks: seq<BlockGas>)
    requires den > 0 && p <= U64_MAX
    requires forall i :: 0 <= i < |blocks| ==> blocks[i].target > 0 && blocks[i].used <= blocks[i].target
    ensures FeeAfter(den, p, blocks) <= p
    decreases blocks
  {
    if blocks != [] {
      Bounds(den, blocks[0].target, blocks[0].used, p);
      NeverRaised(den, HeaderFee(den, blocks[0], p), blocks[1..]);
    }
  }
}
