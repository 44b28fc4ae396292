/**
 * The economics helpers of the older simulator: the quantised effective-balance
 * update, the base-reward formula and the ETH-to-Gwei conversion. Their constants
 * come from a `constants` module that is not part of this model, so they are
 * parameters here.
 */
module Eth2Arith {
  import opened IntegerMath

  /** Whole multiples of `increment`. */
  predicate IsMultipleOf(x: nat, increment: nat)
    requires increment > 0
  {
    x % increment == 0
  }

  /**
   * `quantised_update`: round the balance down to a whole increment and cap it
   * at the maximum effective balance.
   */
  function QuantisedUpdate(balance: nat, increment: nat, maxEffectiveBalance: nat): (r: nat)
    requires increment > 0
    ensures r <= balance && r <= maxEffectiveBalance
    ensures IsMultipleOf(maxEffectiveBalance, increment) ==> IsMultipleOf(r, increment)
  {
    var floored := balance - balance % increment;
    assert floored == (balance / increment) * increment;
    DivUnique(floored, increment, balance / increment, 0);
    Min(floored, maxEffectiveBalance)
  }

  /**
   * The quantised value is the largest whole multiple of the increment that is
   * at most both the balance and the maximum.
   */
  lemma QuantisedUpdateIsLargestMultiple(balance: nat, increment: nat, maxEffectiveBalance: nat, m: nat)
    requires increment > 0 && IsMultipleOf(maxEffectiveBalance, increment)
    requires IsMultipleOf(m, increment) && m <= balance && m <= maxEffectiveBalance
    ensures m <= QuantisedUpdate(balance, increment, maxEffectiveBalance)
  {
    var k := m / increment;
    assert m == k * increment;
    DivMonotone(m, balance, increment);
    assert k <= balance / increment;
    MulLeMonotone(increment, k, balance / increment);
    assert balance - balance % increment == (balance / increment) * increment;
  }

  /** Quantising twice is the same as quantising once. */
  lemma {:induction false} QuantisedUpdateIdempotent(balance: nat, increment: nat, maxEffectiveBalance: nat)
    requires increment > 0 && IsMultipleOf(maxEffectiveBalance, increment)
    ensures var q := QuantisedUpdate(balance, increment, maxEffectiveBalance);
            QuantisedUpdate(q, increment, maxEffectiveBalance) == q
  {
    var q := QuantisedUpdate(balance, increment, maxEffectiveBalance);
    assert q % increment == 0;
    assert q - q % increment == q;
  }

  /**
   * `get_base_reward(effective_balance, total_balance)`: the effective balance times
   * the base reward factor, divided by the square root of the total balance and by
   * the number of base rewards per epoch. A total of 0 would divide by zero.
   */
  function BaseReward(effectiveBalance: nat, totalBalance: nat, baseRewardFactor: nat, baseRewardsPerEpoch: nat): nat
    requires totalBalance >= 1 && baseRewardsPerEpoch > 0
  {
    assert FloorSqrt(totalBalance) >= 1;
    effectiveBalance * baseRewardFactor / FloorSqrt(totalBalance) / baseRewardsPerEpoch
  }

  /**
   * The base rewards of one epoch, times the square root of the total balance,
   * never exceed the effective balance times the base reward factor.
   */
  lemma BaseRewardBound(effectiveBalance: nat, totalBalance: nat, baseRewardFactor: nat, baseRewardsPerEpoch: nat)
    requires totalBalance >= 1 && baseRewardsPerEpoch > 0
    ensures var r := BaseReward(effectiveBalance, totalBalance, baseRewardFactor, baseRewardsPerEpoch);
            r * baseRewardsPerEpoch <= effectiveBalance * baseRewardFactor / FloorSqrt(totalBalance) &&
            r * baseRewardsPerEpoch * FloorSqrt(totalBalance) <= effectiveBalance * baseRewardFactor
  {
    var s := FloorSqrt(totalBalance);
    assert s >= 1;
    MulLeMonotone(effectiveBalance, 0, baseRewardFactor);
    var a := effectiveBalance * baseRewardFactor / s;
    var r := a / baseRewardsPerEpoch;
    DivMulBelow(a, baseRewardsPerEpoch);
    DivMulBelow(effectiveBalance * baseRewardFactor, s);
    MulLeMonotone(s, r * baseRewardsPerEpoch, a);
  }

  /** A larger effective balance never earns a smaller base reward. */
  lemma BaseRewardMonotoneInBalance(eb1: nat, eb2: nat, totalBalance: nat, baseRewardFactor: nat, baseRewardsPerEpoch: nat)
    requires eb1 <= eb2 && totalBalance >= 1 && baseRewardsPerEpoch > 0
    ensures BaseReward(eb1, totalBalance, baseRewardFactor, baseRewardsPerEpoch)
         <= BaseReward(eb2, totalBalance, baseRewardFactor, baseRewardsPerEpoch)
  {
    var s := FloorSqrt(totalBalance);
    MulLeMonotone(baseRewardFactor, eb1, eb2);
    DivMonotone(eb1 * baseRewardFactor, eb2 * baseRewardFactor, s);
    DivMonotone(eb1 * baseRewardFactor / s, eb2 * baseRewardFactor / s, baseRewardsPerEpoch);
  }

  /** A larger total balance never makes an individual base reward larger. */
  lemma BaseRewardAntitoneInTotal(effectiveBalance: nat, total1: nat, total2: nat, baseRewardFactor: nat, baseRewardsPerEpoch: nat)
    requires 1 <= total1 <= total2 && baseRewardsPerEpoch > 0
    ensures BaseReward(effectiveBalance, total2, baseRewardFactor, baseRewardsPerEpoch)
         <= BaseReward(effectiveBalance, total1, baseRewardFactor, baseRewardsPerEpoch)
  {
    var s1 := FloorSqrt(total1);
    var s2 := FloorSqrt(total2);
    FloorSqrtMonotone(total1, total2);
    DivAntitone(effectiveBalance * baseRewardFactor, s1, s2);
    DivMonotone(effectiveBalance * baseRewardFactor / s2, effectiveBalance * baseRewardFactor / s1, baseRewardsPerEpoch);
  }

  lemma FloorSqrtMonotone(a: nat, b: nat)
    requires a <= b
    ensures FloorSqrt(a) <= FloorSqrt(b)
  {
    var x := FloorSqrt(a);
    var y := FloorSqrt(b);
    if y < x {
      SquareMonotone(y + 1, x);
    }
  }

  const GWEI_PER_ETH: nat := 1_000_000_000

  /** `eth_to_gwei`: whole ether to Gwei. */
  function EthToGwei(eth: nat): (gwei: nat)
    ensures gwei % GWEI_PER_ETH == 0 && gwei / GWEI_PER_ETH == eth
  {
    DivUnique(eth * GWEI_PER_ETH, GWEI_PER_ETH, eth, 0);
    eth * GWEI_PER_ETH
  }
}
