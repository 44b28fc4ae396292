/**
 * Attestation rewards and penalties of phase 0: the base reward, the source,
 * target and head components, the inclusion-delay rewards, the inactivity
 * penalties, and `process_rewards_and_penalties`, which applies them.
 */
module Rewards {
  import opened Wrappers
  import opened Constants
  import opened Types
  import opened IntegerMath
  import opened Eth2Arith
  import opened Helpers
  import opened Mutators
  import opened EpochProcessing

  /** Per-validator rewards and penalties, as `get_*_deltas` return them. */
  datatype Deltas = Deltas(rewards: seq<Gwei>, penalties: seq<Gwei>)

  /** One reward and one penalty for each of n validators. */
  predicate DeltasFor(d: Deltas, n: nat) {
    |d.rewards| == n && |d.penalties| == n
  }

  /** A list of n zeros. */
  function Zeros(n: nat): (r: seq<Gwei>)
    ensures |r| == n && forall k :: 0 <= k < n ==> r[k] == 0
  {
    seq(n, _ => 0)
  }

  /** x * numerator / denominator, in whole units. */
  function Scale(x: nat, numerator: nat, denominator: nat): nat
    requires denominator > 0
  {
    x * numerator / denominator
  }

  /** x * a / b grows with a, and is at most x when a is at most b. */
  lemma ScaleBounds(x: nat, a: nat, larger: nat, b: nat)
    requires 0 < b && a <= larger
    ensures Scale(x, a, b) <= Scale(x, larger, b)
    ensures larger <= b ==> Scale(x, larger, b) <= x
  {
    MulLeMonotone(x, a, larger);
    DivMonotone(x * a, x * larger, b);
    if larger <= b {
      MulLeMonotone(x, larger, b);
      DivMonotone(x * larger, x * b, b);
      DivUnique(x * b, b, x, 0);
    }
  }

  // ---------------------------------------------------------------------------
  // Base rewards, finality delay, eligibility

  /** `get_base_reward`. */
  function BaseRewardOf(s: State, index: ValidatorIndex): Gwei
    requires index < |s.validators|
  {
    BaseReward(s.validators[index].effectiveBalance, TotalActiveBalance(s), BASE_REWARD_FACTOR, BASE_REWARDS_PER_EPOCH)
  }

  /** The base reward of every validator. */
  function BaseRewards(s: State): (r: seq<Gwei>)
    ensures |r| == |s.validators|
  {
    seq(|s.validators|, i requires 0 <= i < |s.validators| => BaseRewardOf(s, i))
  }

  /** `get_proposer_reward`, from the attester's base reward: an eighth of it. */
  function ProposerShare(baseReward: Gwei): (r: Gwei)
    ensures r * PROPOSER_REWARD_QUOTIENT <= baseReward
  {
    baseReward / PROPOSER_REWARD_QUOTIENT
  }

  /** Finality lies in the past, so the finality delay is a natural number. */
  predicate FinalityInPast(s: State) {
    s.finalizedCheckpoint.epoch <= PreviousEpoch(s)
  }

  /** `get_finality_delay`. */
  function FinalityDelay(s: State): nat
    requires FinalityInPast(s)
  {
    PreviousEpoch(s) - s.finalizedCheckpoint.epoch
  }

  /** `is_in_inactivity_leak`. */
  predicate InInactivityLeak(s: State)
    requires FinalityInPast(s)
  {
    FinalityDelay(s) > MIN_EPOCHS_TO_INACTIVITY_PENALTY
  }

  /** Active in the previous epoch, or slashed and not yet withdrawable. */
  predicate IsEligibleValidator(s: State, index: ValidatorIndex)
    requires index < |s.validators|
  {
    var v := s.validators[index];
    var previousEpoch := PreviousEpoch(s);
    IsActiveValidator(v, previousEpoch) || (v.slashed && previousEpoch + 1 < v.withdrawableEpoch)
  }

  /** `get_eligible_validator_indices`. */
  function EligibleValidatorIndices(s: State): (r: seq<ValidatorIndex>)
    ensures forall k :: 0 <= k < |r| ==> r[k] < |s.validators| && IsEligibleValidator(s, r[k])
    ensures forall i :: 0 <= i < |s.validators| && IsEligibleValidator(s, i) ==> i in r
    ensures StrictlyIncreasing(r)
  {
    IndicesWhere(|s.validators|, (i: nat) => i < |s.validators| && IsEligibleValidator(s, i))
  }

  /** Eligibility of every validator, by index. */
  function Eligibility(s: State): (r: seq<bool>)
    ensures |r| == |s.validators|
    ensures forall i :: 0 <= i < |s.validators| ==> (r[i] <==> i in EligibleValidatorIndices(s))
  {
    seq(|s.validators|, i requires 0 <= i < |s.validators| => IsEligibleValidator(s, i))
  }

  // ---------------------------------------------------------------------------
  // Source, target and head components

  /**
   * The component reward of an attester: the full base reward during an
   * inactivity leak, otherwise the base reward scaled by the attesting share of
   * the total active balance, both counted in whole increments.
   */
  function ComponentReward(baseReward: Gwei, leak: bool, attestingBalance: Gwei, totalBalance: Gwei): Gwei
    requires totalBalance >= EFFECTIVE_BALANCE_INCREMENT
  {
    if leak then baseReward
    else Scale(baseReward, attestingBalance / EFFECTIVE_BALANCE_INCREMENT, totalBalance / EFFECTIVE_BALANCE_INCREMENT)
  }

  /**
   * An attester's component reward never exceeds its base reward, as long as the
   * attesting balance does not exceed the total balance, and it grows with the
   * attesting balance.
   */
  lemma ComponentRewardBounds(baseReward: Gwei, leak: bool, attestingBalance: Gwei, larger: Gwei, totalBalance: Gwei)
    requires totalBalance >= EFFECTIVE_BALANCE_INCREMENT && attestingBalance <= larger
    ensures larger <= totalBalance ==> ComponentReward(baseReward, leak, larger, totalBalance) <= baseReward
    ensures ComponentReward(baseReward, leak, attestingBalance, totalBalance) <= ComponentReward(baseReward, leak, larger, totalBalance)
  {
    DivMonotone(attestingBalance, larger, EFFECTIVE_BALANCE_INCREMENT);
    ScaleBounds(baseReward, attestingBalance / EFFECTIVE_BALANCE_INCREMENT, larger / EFFECTIVE_BALANCE_INCREMENT,
                totalBalance / EFFECTIVE_BALANCE_INCREMENT);
    if larger <= totalBalance {
      DivMonotone(larger, totalBalance, EFFECTIVE_BALANCE_INCREMENT);
      ScaleBounds(baseReward, larger / EFFECTIVE_BALANCE_INCREMENT, larger / EFFECTIVE_BALANCE_INCREMENT,
                  totalBalance / EFFECTIVE_BALANCE_INCREMENT);
    }
  }

  /**
   * The loop of `get_attestation_component_deltas`: each eligible attester gets
   * the component reward, each other eligible validator is penalised its base
   * reward, and validators that are not eligible get neither.
   */
  function ComponentDeltas(baseRewards: seq<Gwei>, eligible: seq<bool>, attesters: set<ValidatorIndex>, leak: bool,
                           attestingBalance: Gwei, totalBalance: Gwei): (d: Deltas)
    requires |eligible| == |baseRewards| && totalBalance >= EFFECTIVE_BALANCE_INCREMENT
    ensures DeltasFor(d, |baseRewards|)
  {
    var n := |baseRewards|;
    Deltas(
      seq(n, i requires 0 <= i < n => ComponentRewardAt(baseRewards, eligible, attesters, leak, attestingBalance, totalBalance, i)),
      seq(n, i requires 0 <= i < n => ComponentPenaltyAt(baseRewards, eligible, attesters, i)))
  }

  /** The component reward of validator `i`: only an eligible attester gets one. */
  function ComponentRewardAt(baseRewards: seq<Gwei>, eligible: seq<bool>, attesters: set<ValidatorIndex>, leak: bool,
                             attestingBalance: Gwei, totalBalance: Gwei, i: nat): Gwei
    requires |eligible| == |baseRewards| && i < |baseRewards| && totalBalance >= EFFECTIVE_BALANCE_INCREMENT
  {
    if eligible[i] && i in attesters then ComponentReward(baseRewards[i], leak, attestingBalance, totalBalance) else 0
  }

  /** The component penalty of validator `i`: only an eligible non-attester pays its base reward. */
  function ComponentPenaltyAt(baseRewards: seq<Gwei>, eligible: seq<bool>, attesters: set<ValidatorIndex>, i: nat): Gwei
    requires |eligible| == |baseRewards| && i < |baseRewards|
  {
    if eligible[i] && i !in attesters then baseRewards[i] else 0
  }

  /**
   * Each validator gets either the reward or the penalty of a component, never
   * both: an eligible attester is not penalised, an eligible non-attester loses
   * exactly its base reward, and an ineligible validator is untouched.
   */
  lemma ComponentDeltasSplit(baseRewards: seq<Gwei>, eligible: seq<bool>, attesters: set<ValidatorIndex>, leak: bool,
                             attestingBalance: Gwei, totalBalance: Gwei, i: nat)
    requires |eligible| == |baseRewards| && totalBalance >= EFFECTIVE_BALANCE_INCREMENT && i < |baseRewards|
    ensures var d := ComponentDeltas(baseRewards, eligible, attesters, leak, attestingBalance, totalBalance);
            (eligible[i] && i in attesters ==>
               d.penalties[i] == 0 && d.rewards[i] == ComponentReward(baseRewards[i], leak, attestingBalance, totalBalance)) &&
            (eligible[i] && i !in attesters ==> d.rewards[i] == 0 && d.penalties[i] == baseRewards[i]) &&
            (!eligible[i] ==> d.rewards[i] == 0 && d.penalties[i] == 0) &&
            (attestingBalance <= totalBalance ==> d.rewards[i] <= baseRewards[i])
  {
    if eligible[i] && i in attesters {
      ComponentRewardBounds(baseRewards[i], leak, attestingBalance, attestingBalance, totalBalance);
    }
  }

  /** `get_attestation_component_deltas`. */
  function AttestationComponentDeltas(env: Env, s: State, attestations: seq<PendingAttestation>): (d: Deltas)
    requires WellFormed(s) && FinalityInPast(s)
    ensures DeltasFor(d, |s.validators|)
  {
    ComponentDeltas(BaseRewards(s), Eligibility(s), UnslashedAttestingIndices(env, s, attestations), InInactivityLeak(s),
                    AttestingBalance(env, s, attestations), TotalActiveBalance(s))
  }

  /** `get_source_deltas`. */
  function SourceDeltas(env: Env, s: State): (d: Deltas)
    requires WellFormed(s) && FinalityInPast(s)
    ensures DeltasFor(d, |s.validators|)
  {
    AttestationComponentDeltas(env, s, MatchingSourceAttestations(s, PreviousEpoch(s)))
  }

  /** `get_target_deltas`. */
  function TargetDeltas(env: Env, s: State): (d: Deltas)
    requires WellFormed(s) && EpochEnd(s) && FinalityInPast(s)
    ensures DeltasFor(d, |s.validators|)
  {
    AttestationComponentDeltas(env, s, MatchingTargetAttestations(s, PreviousEpoch(s)))
  }

  /** `get_head_deltas`. */
  function HeadDeltas(env: Env, s: State): (d: Deltas)
    requires WellFormed(s) && EpochEnd(s) && FinalityInPast(s)
    ensures DeltasFor(d, |s.validators|)
  {
    AttestationComponentDeltas(env, s, MatchingHeadAttestations(s, PreviousEpoch(s)))
  }

  // ---------------------------------------------------------------------------
  // Inclusion delay

  /** Pending attestations included at least a slot late that name one of n proposers. */
  predicate Recorded(attestations: seq<PendingAttestation>, n: nat) {
    forall a :: a in attestations ==> a.inclusionDelay >= 1 && a.proposerIndex < n
  }

  /** The attestations recorded in a well-formed state are. */
  lemma MatchingSourceRecorded(s: State)
    requires WellFormed(s)
    ensures Recorded(MatchingSourceAttestations(s, PreviousEpoch(s)), |s.validators|)
  {
    var attestations := MatchingSourceAttestations(s, PreviousEpoch(s));
    forall a | a in attestations
      ensures a.inclusionDelay >= 1 && a.proposerIndex < |s.validators|
    {
      var k :| 0 <= k < |attestations| && attestations[k] == a;
    }
  }

  /**
   * The first of the attestations that include `index` among those with the
   * smallest inclusion delay, as Python's `min` picks it; None when no attestation
   * includes `index`.
   */
  function EarliestInclusion(participants: PendingAttestation -> set<ValidatorIndex>, attestations: seq<PendingAttestation>,
                             index: ValidatorIndex)
    : (r: Option<PendingAttestation>)
    ensures r.None? <==> forall a :: a in attestations ==> index !in participants(a)
    ensures r.Some? ==>
              r.value in attestations && index in participants(r.value) &&
              forall a :: a in attestations && index in participants(a) ==> r.value.inclusionDelay <= a.inclusionDelay
  {
    if |attestations| == 0 then None
    else
      var first := attestations[0];
      var rest := EarliestInclusion(participants, attestations[1..], index);
      assert forall a :: a in attestations <==> a == first || a in attestations[1..];
      if index in participants(first) && (rest.None? || first.inclusionDelay <= rest.value.inclusionDelay)
      then Some(first)
      else rest
  }

  /**
   * Among attestations with the same smallest inclusion delay, the earliest
   * inclusion is the first in list order, as the source's `min` returns it.
   */
  lemma EarliestInclusionIsFirst(participants: PendingAttestation -> set<ValidatorIndex>,
                                 attestations: seq<PendingAttestation>, index: ValidatorIndex)
    requires EarliestInclusion(participants, attestations, index).Some?
    ensures var r := EarliestInclusion(participants, attestations, index).value;
            exists k :: 0 <= k < |attestations| && attestations[k] == r &&
              forall j :: 0 <= j < k && index in participants(attestations[j]) ==> attestations[j].inclusionDelay > r.inclusionDelay
  {
    var k := EarliestPosition(participants, attestations, index);
  }

  /** The position of the earliest inclusion in the list, found by induction on the list. */
  lemma {:induction false} EarliestPosition(participants: PendingAttestation -> set<ValidatorIndex>,
                                            attestations: seq<PendingAttestation>, index: ValidatorIndex)
    returns (k: nat)
    requires EarliestInclusion(participants, attestations, index).Some?
    ensures k < |attestations| && attestations[k] == EarliestInclusion(participants, attestations, index).value
    ensures forall j :: 0 <= j < k && index in participants(attestations[j]) ==>
              attestations[j].inclusionDelay > EarliestInclusion(participants, attestations, index).value.inclusionDelay
    decreases |attestations|
  {
    var first := attestations[0];
    var rest := EarliestInclusion(participants, attestations[1..], index);
    if index in participants(first) && (rest.None? || first.inclusionDelay <= rest.value.inclusionDelay) {
      k := 0;
    } else {
      var m := EarliestPosition(participants, attestations[1..], index);
      k := m + 1;
      forall j | 0 <= j < k && index in participants(attestations[j])
        ensures attestations[j].inclusionDelay > rest.value.inclusionDelay
      {
        if j > 0 {
          assert attestations[j] == attestations[1..][j - 1];
        }
      }
    }
  }

  /** An attester's reward divided by the delay with which its attestation was included. */
  function DelayedShare(reward: Gwei, inclusionDelay: nat): (r: Gwei)
    requires inclusionDelay >= 1
    ensures r <= reward
    ensures inclusionDelay == 1 ==> r == reward
  {
    DivAntitone(reward, 1, inclusionDelay);
    reward / inclusionDelay
  }

  /**
   * The inclusion-delay rewards earned by the attesters listed in `attesters`:
   * for each, its proposer reward goes to the proposer that included its
   * earliest attestation, and the rest of its base reward, divided by that
   * attestation's inclusion delay, goes to the attester.
   */
  function InclusionDelayRewardsFor(participants: PendingAttestation -> set<ValidatorIndex>, attestations: seq<PendingAttestation>,
                                    attesters: seq<ValidatorIndex>, baseRewards: seq<Gwei>)
    : (r: seq<Gwei>)
    requires Recorded(attestations, |baseRewards|)
    requires forall k :: 0 <= k < |attesters| ==> attesters[k] < |baseRewards|
    ensures |r| == |baseRewards|
    decreases |attesters|
  {
    if |attesters| == 0 then Zeros(|baseRewards|)
    else
      var index := attesters[|attesters| - 1];
      var rest := InclusionDelayRewardsFor(participants, attestations, attesters[..|attesters| - 1], baseRewards);
      var earliest := EarliestInclusion(participants, attestations, index);
      if earliest.None? then rest else CreditInclusion(rest, baseRewards[index], index, earliest.value)
  }

  /**
   * One step of the inclusion-delay loop: the attester's proposer reward goes to
   * the proposer of its earliest attestation and the rest of its base reward,
   * divided by the inclusion delay, to the attester.
   */
  function CreditInclusion(rewards: seq<Gwei>, baseReward: Gwei, index: ValidatorIndex, attestation: PendingAttestation)
    : (r: seq<Gwei>)
    requires index < |rewards| && attestation.proposerIndex < |rewards| && attestation.inclusionDelay >= 1
    ensures |r| == |rewards|
    ensures forall j :: 0 <= j < |rewards| && j != index && j != attestation.proposerIndex ==> r[j] == rewards[j]
    ensures index != attestation.proposerIndex ==>
              r[attestation.proposerIndex] == rewards[attestation.proposerIndex] + ProposerShare(baseReward) &&
              r[index] == rewards[index] + DelayedShare(baseReward - ProposerShare(baseReward), attestation.inclusionDelay)
    ensures index == attestation.proposerIndex ==>
              r[index] == rewards[index] + ProposerShare(baseReward)
                          + DelayedShare(baseReward - ProposerShare(baseReward), attestation.inclusionDelay)
    ensures forall j :: 0 <= j < |rewards| ==> r[j] >= rewards[j]
    ensures r[index] >= rewards[index] + DelayedShare(baseReward - ProposerShare(baseReward), attestation.inclusionDelay)
  {
    var proposerReward := ProposerShare(baseReward);
    var paid := rewards[attestation.proposerIndex := rewards[attestation.proposerIndex] + proposerReward];
    paid[index := paid[index] + DelayedShare(baseReward - proposerReward, attestation.inclusionDelay)]
  }

  /** Adding an attester never lowers anyone's inclusion-delay reward. */
  lemma InclusionDelayRewardsGrow(participants: PendingAttestation -> set<ValidatorIndex>, attestations: seq<PendingAttestation>,
                                  attesters: seq<ValidatorIndex>, baseRewards: seq<Gwei>, index: ValidatorIndex)
    requires Recorded(attestations, |baseRewards|)
    requires forall k :: 0 <= k < |attesters| ==> attesters[k] < |baseRewards|
    requires |attesters| > 0 && index < |baseRewards|
    ensures InclusionDelayRewardsFor(participants, attestations, attesters, baseRewards)[index]
              >= InclusionDelayRewardsFor(participants, attestations, attesters[..|attesters| - 1], baseRewards)[index]
  {
    var last := attesters[|attesters| - 1];
    var earliest := EarliestInclusion(participants, attestations, last);
    if earliest.Some? {
      assert earliest.value in attestations;
    }
  }

  /**
   * Every listed attester that has an attestation receives at least its own
   * share: its base reward less the proposer reward, divided by the inclusion delay.
   */
  lemma {:induction false} InclusionDelayRewardAtLeast(participants: PendingAttestation -> set<ValidatorIndex>,
                                                      attestations: seq<PendingAttestation>,
                                                      attesters: seq<ValidatorIndex>, baseRewards: seq<Gwei>, index: ValidatorIndex)
    requires Recorded(attestations, |baseRewards|)
    requires forall k :: 0 <= k < |attesters| ==> attesters[k] < |baseRewards|
    requires index in attesters && EarliestInclusion(participants, attestations, index).Some?
    ensures var a := EarliestInclusion(participants, attestations, index).value;
            InclusionDelayRewardsFor(participants, attestations, attesters, baseRewards)[index]
              >= DelayedShare(baseRewards[index] - ProposerShare(baseRewards[index]), a.inclusionDelay)
    decreases |attesters|
  {
    var front := attesters[..|attesters| - 1];
    if index in front {
      InclusionDelayRewardsGrow(participants, attestations, attesters, baseRewards, index);
      InclusionDelayRewardAtLeast(participants, attestations, front, baseRewards, index);
    } else {
      assert attesters == front + [attesters[|attesters| - 1]];
      var a := EarliestInclusion(participants, attestations, index).value;
      assert a in attestations;
      var rest := InclusionDelayRewardsFor(participants, attestations, front, baseRewards);
      assert InclusionDelayRewardsFor(participants, attestations, attesters, baseRewards)
               == CreditInclusion(rest, baseRewards[index], index, a);
    }
  }

  /**
   * The proposer that included an attester's earliest attestation receives at
   * least that attester's proposer reward.
   */
  lemma {:induction false} InclusionProposerRewardAtLeast(participants: PendingAttestation -> set<ValidatorIndex>,
                                                         attestations: seq<PendingAttestation>,
                                                         attesters: seq<ValidatorIndex>, baseRewards: seq<Gwei>, index: ValidatorIndex)
    requires Recorded(attestations, |baseRewards|)
    requires forall k :: 0 <= k < |attesters| ==> attesters[k] < |baseRewards|
    requires index in attesters && EarliestInclusion(participants, attestations, index).Some?
    ensures EarliestInclusion(participants, attestations, index).value.proposerIndex < |baseRewards|
    ensures InclusionDelayRewardsFor(participants, attestations, attesters, baseRewards)
              [EarliestInclusion(participants, attestations, index).value.proposerIndex]
              >= ProposerShare(baseRewards[index])
    decreases |attesters|
  {
    var a := EarliestInclusion(participants, attestations, index).value;
    assert a in attestations;
    var front := attesters[..|attesters| - 1];
    if index in front {
      InclusionDelayRewardsGrow(participants, attestations, attesters, baseRewards, a.proposerIndex);
      InclusionProposerRewardAtLeast(participants, attestations, front, baseRewards, index);
    } else {
      assert attesters == front + [attesters[|attesters| - 1]];
      var rest := InclusionDelayRewardsFor(participants, attestations, front, baseRewards);
      assert InclusionDelayRewardsFor(participants, attestations, attesters, baseRewards)
               == CreditInclusion(rest, baseRewards[index], index, a);
    }
  }

  /**
   * What one attester's step of the inclusion-delay loop pays out in all: its
   * proposer reward and its delayed share, or nothing without an attestation.
   */
  function InclusionPayout(participants: PendingAttestation -> set<ValidatorIndex>, attestations: seq<PendingAttestation>,
                           baseReward: Gwei, index: ValidatorIndex): (r: Gwei)
    requires forall a :: a in attestations ==> a.inclusionDelay >= 1
    ensures r <= baseReward
  {
    match EarliestInclusion(participants, attestations, index)
    case None => 0
    case Some(a) =>
      assert a in attestations;
      ProposerShare(baseReward) + DelayedShare(baseReward - ProposerShare(baseReward), a.inclusionDelay)
  }

  /** The payouts of the listed attesters, added up. */
  function TotalPayout(participants: PendingAttestation -> set<ValidatorIndex>, attestations: seq<PendingAttestation>,
                       attesters: seq<ValidatorIndex>, baseRewards: seq<Gwei>): nat
    requires forall a :: a in attestations ==> a.inclusionDelay >= 1
    requires forall k :: 0 <= k < |attesters| ==> attesters[k] < |baseRewards|
    decreases |attesters|
  {
    if |attesters| == 0 then 0
    else
      var index := attesters[|attesters| - 1];
      TotalPayout(participants, attestations, attesters[..|attesters| - 1], baseRewards)
      + InclusionPayout(participants, attestations, baseRewards[index], index)
  }

  /**
   * The inclusion-delay loop pays out, over all recipients together, exactly
   * each listed attester's proposer reward and delayed share: nothing is lost
   * and nothing is paid twice.
   */
  lemma {:induction false} InclusionRewardsTotal(participants: PendingAttestation -> set<ValidatorIndex>,
                                                attestations: seq<PendingAttestation>,
                                                attesters: seq<ValidatorIndex>, baseRewards: seq<Gwei>)
    requires Recorded(attestations, |baseRewards|)
    requires forall k :: 0 <= k < |attesters| ==> attesters[k] < |baseRewards|
    ensures Sum(InclusionDelayRewardsFor(participants, attestations, attesters, baseRewards))
            == TotalPayout(participants, attestations, attesters, baseRewards)
    decreases |attesters|
  {
    if |attesters| == 0 {
      SumZeros(|baseRewards|);
    } else {
      var index := attesters[|attesters| - 1];
      var front := attesters[..|attesters| - 1];
      var rest := InclusionDelayRewardsFor(participants, attestations, front, baseRewards);
      InclusionRewardsTotal(participants, attestations, front, baseRewards);
      var earliest := EarliestInclusion(participants, attestations, index);
      var b := baseRewards[index];
      var all := InclusionDelayRewardsFor(participants, attestations, attesters, baseRewards);
      assert TotalPayout(participants, attestations, attesters, baseRewards)
             == TotalPayout(participants, attestations, front, baseRewards) + InclusionPayout(participants, attestations, b, index);
      if earliest.Some? {
        var a := earliest.value;
        assert a in attestations;
        var share := ProposerShare(b);
        var delayed := DelayedShare(b - share, a.inclusionDelay);
        assert InclusionPayout(participants, attestations, b, index) == share + delayed;
        assert all == CreditInclusion(rest, b, index, a);
        SumCreditInclusion(rest, b, index, a);
      } else {
        assert all == rest;
      }
    }
  }

  /** One step of the inclusion-delay loop adds the attester's whole payout to the sum of the rewards. */
  lemma {:induction false} SumCreditInclusion(rewards: seq<Gwei>, baseReward: Gwei, index: ValidatorIndex, attestation: PendingAttestation)
    requires index < |rewards| && attestation.proposerIndex < |rewards| && attestation.inclusionDelay >= 1
    ensures Sum(CreditInclusion(rewards, baseReward, index, attestation)) ==
            Sum(rewards) + ProposerShare(baseReward) + DelayedShare(baseReward - ProposerShare(baseReward), attestation.inclusionDelay)
  {
    var share := ProposerShare(baseReward);
    var delayed := DelayedShare(baseReward - share, attestation.inclusionDelay);
    var paid := rewards[attestation.proposerIndex := rewards[attestation.proposerIndex] + share];
    assert CreditInclusion(rewards, baseReward, index, attestation) == paid[index := paid[index] + delayed];
    SumTwoCredits(rewards, attestation.proposerIndex, share, index, delayed);
  }

  /** Crediting two entries of a list, one after the other, adds both credits to its sum. */
  lemma {:induction false} SumTwoCredits(xs: seq<Gwei>, i: nat, x: Gwei, j: nat, y: Gwei)
    requires i < |xs| && j < |xs|
    ensures var once := xs[i := xs[i] + x];
            Sum(once[j := once[j] + y]) == Sum(xs) + x + y
  {
    var once := xs[i := xs[i] + x];
    SumUpdate(xs, i, xs[i] + x);
    SumUpdate(once, j, once[j] + y);
  }

  /** A list of zeros adds up to zero. */
  lemma {:induction false} SumZeros(n: nat)
    ensures Sum(Zeros(n)) == 0
  {
    if n > 0 {
      assert Zeros(n)[..n - 1] == Zeros(n - 1);
      SumZeros(n - 1);
    }
  }

  /**
   * `get_inclusion_delay_deltas`: the inclusion-delay rewards of the unslashed
   * attesters of the previous epoch, and no penalties. The source visits the
   * attesters in set order; the rewards are sums, so any order gives the same
   * result and the model takes increasing index order.
   */
  function InclusionDelayDeltas(env: Env, s: State): (d: Deltas)
    requires WellFormed(s)
    ensures DeltasFor(d, |s.validators|) && d.penalties == Zeros(|s.validators|)
  {
    var attestations := MatchingSourceAttestations(s, PreviousEpoch(s));
    var attesters := SortedIndices(UnslashedAttestingIndices(env, s, attestations), |s.validators|);
    MatchingSourceRecorded(s);
    Deltas(InclusionDelayRewardsFor(Participants(env, s), attestations, attesters, BaseRewards(s)), Zeros(|s.validators|))
  }

  /**
   * The proposer that included an unslashed source attester's earliest
   * attestation earns at least that attester's proposer reward.
   */
  lemma InclusionProposerRewardOf(env: Env, s: State, i: ValidatorIndex)
    requires WellFormed(s) && i < |s.validators|
    requires i in UnslashedAttestingIndices(env, s, MatchingSourceAttestations(s, PreviousEpoch(s)))
    ensures EarliestInclusion(Participants(env, s), MatchingSourceAttestations(s, PreviousEpoch(s)), i).Some?
    ensures EarliestInclusion(Participants(env, s), MatchingSourceAttestations(s, PreviousEpoch(s)), i).value.proposerIndex
              < |s.validators|
    ensures InclusionDelayDeltas(env, s).rewards
              [EarliestInclusion(Participants(env, s), MatchingSourceAttestations(s, PreviousEpoch(s)), i).value.proposerIndex]
              >= ProposerShare(BaseRewards(s)[i])
  {
    var source := MatchingSourceAttestations(s, PreviousEpoch(s));
    var participants := Participants(env, s);
    var attesters := SortedIndices(UnslashedAttestingIndices(env, s, source), |s.validators|);
    MatchingSourceRecorded(s);
    assert i in AttestingUnion(participants, source);
    var a :| a in source && i in participants(a);
    InclusionProposerRewardAtLeast(participants, source, attesters, BaseRewards(s), i);
  }

  // ---------------------------------------------------------------------------
  // Inactivity

  /**
   * The inactivity penalty of an eligible validator during a leak: what an
   * optimal attester earns, and, for one that missed the target, its effective
   * balance times the finality delay over INACTIVITY_PENALTY_QUOTIENT.
   */
  function InactivityPenalty(baseReward: Gwei, effectiveBalance: Gwei, finalityDelay: nat, missedTarget: bool): Gwei {
    BASE_REWARDS_PER_EPOCH * baseReward - ProposerShare(baseReward) +
    (if missedTarget then Scale(effectiveBalance, finalityDelay, INACTIVITY_PENALTY_QUOTIENT) else 0)
  }

  /** `get_inactivity_penalty_deltas`: no rewards, and a penalty for each eligible validator during a leak. */
  function InactivityPenaltyDeltas(env: Env, s: State): (d: Deltas)
    requires WellFormed(s) && EpochEnd(s) && FinalityInPast(s)
    ensures DeltasFor(d, |s.validators|) && d.rewards == Zeros(|s.validators|)
    ensures !InInactivityLeak(s) ==> d.penalties == Zeros(|s.validators|)
  {
    var targetAttesters := UnslashedAttestingIndices(env, s, MatchingTargetAttestations(s, PreviousEpoch(s)));
    var baseRewards := BaseRewards(s);
    var eligible := Eligibility(s);
    var n := |s.validators|;
    var leak := InInactivityLeak(s);
    Deltas(Zeros(n), seq(n, i requires 0 <= i < n =>
      InactivityPenaltyAt(s.validators, baseRewards, eligible, leak, FinalityDelay(s), targetAttesters, i)))
  }

  /** The inactivity penalty of validator `i`: only an eligible validator during a leak pays one. */
  function InactivityPenaltyAt(validators: seq<Validator>, baseRewards: seq<Gwei>, eligible: seq<bool>, leak: bool,
                               finalityDelay: nat, targetAttesters: set<ValidatorIndex>, i: nat): Gwei
    requires |baseRewards| == |validators| && |eligible| == |validators| && i < |validators|
  {
    if leak && eligible[i]
    then InactivityPenalty(baseRewards[i], validators[i].effectiveBalance, finalityDelay, i !in targetAttesters)
    else 0
  }

  /** During a leak an eligible validator pays the inactivity penalty; otherwise it pays none. */
  lemma InactivityPenaltyOfValidator(env: Env, s: State, i: nat)
    requires WellFormed(s) && EpochEnd(s) && FinalityInPast(s) && i < |s.validators|
    ensures InactivityPenaltyDeltas(env, s).penalties[i] ==
              if InInactivityLeak(s) && IsEligibleValidator(s, i)
              then InactivityPenalty(BaseRewardOf(s, i), s.validators[i].effectiveBalance, FinalityDelay(s),
                                     i !in UnslashedAttestingIndices(env, s, MatchingTargetAttestations(s, PreviousEpoch(s))))
              else 0
  {
  }

  // ---------------------------------------------------------------------------
  // All of it

  /** The sum, per validator, of the rewards and of the penalties of several deltas. */
  function AddDeltas(a: Deltas, b: Deltas): (d: Deltas)
    requires DeltasFor(b, |a.rewards|) && |a.penalties| == |a.rewards|
    ensures DeltasFor(d, |a.rewards|)
    ensures forall i :: 0 <= i < |a.rewards| ==>
              d.rewards[i] == a.rewards[i] + b.rewards[i] && d.penalties[i] == a.penalties[i] + b.penalties[i]
  {
    var n := |a.rewards|;
    Deltas(seq(n, i requires 0 <= i < n => a.rewards[i] + b.rewards[i]),
           seq(n, i requires 0 <= i < n => a.penalties[i] + b.penalties[i]))
  }

  /**
   * `get_attestation_deltas`: the source, target, head and inclusion-delay
   * rewards, and the source, target, head and inactivity penalties, added up.
   */
  function AttestationDeltas(env: Env, s: State): (d: Deltas)
    requires WellFormed(s) && EpochEnd(s) && FinalityInPast(s)
    ensures DeltasFor(d, |s.validators|)
  {
    var n := |s.validators|;
    AddDeltas(AddDeltas(AddDeltas(AddDeltas(SourceDeltas(env, s), TargetDeltas(env, s)), HeadDeltas(env, s)),
                        InclusionDelayDeltas(env, s)),
              InactivityPenaltyDeltas(env, s))
  }

  /**
   * The deltas of validator `i` are the sums of its deltas from each pass; the
   * inclusion-delay pass has no penalties and the inactivity pass no rewards.
   */
  lemma AttestationDeltasAt(env: Env, s: State, i: nat)
    requires WellFormed(s) && EpochEnd(s) && FinalityInPast(s) && i < |s.validators|
    ensures var d := AttestationDeltas(env, s);
            d.rewards[i] == SourceDeltas(env, s).rewards[i] + TargetDeltas(env, s).rewards[i] + HeadDeltas(env, s).rewards[i]
                            + InclusionDelayDeltas(env, s).rewards[i] &&
            d.penalties[i] == SourceDeltas(env, s).penalties[i] + TargetDeltas(env, s).penalties[i] + HeadDeltas(env, s).penalties[i]
                              + InactivityPenaltyDeltas(env, s).penalties[i]
  {
  }

  /**
   * The arithmetic behind a neutral balance: three full component rewards and an
   * undelayed inclusion reward add up to the inactivity penalty of an attester
   * that hit the target.
   */
  lemma LeakCancelsOptimalRewards(baseReward: Gwei, effectiveBalance: Gwei, finalityDelay: nat)
    ensures 3 * baseReward + DelayedShare(baseReward - ProposerShare(baseReward), 1)
              == InactivityPenalty(baseReward, effectiveBalance, finalityDelay, false)
  {
  }

  /**
   * During an inactivity leak, a validator that attested to the previous epoch's
   * source, target and head and was included after one slot earns at least as
   * much as it is penalised: the inactivity penalty cancels exactly what it earns
   * as an attester.
   */
  lemma OptimalAttesterBreaksEvenInLeak(env: Env, s: State, index: ValidatorIndex)
    requires WellFormed(s) && EpochEnd(s) && FinalityInPast(s) && InInactivityLeak(s)
    requires index < |s.validators| && IsEligibleValidator(s, index)
    requires index in UnslashedAttestingIndices(env, s, MatchingHeadAttestations(s, PreviousEpoch(s)))
    requires var e := EarliestInclusion(Participants(env, s), MatchingSourceAttestations(s, PreviousEpoch(s)), index);
             e.Some? && e.value.inclusionDelay == 1
    ensures AttestationDeltas(env, s).penalties[index] <= AttestationDeltas(env, s).rewards[index]
  {
    var previousEpoch := PreviousEpoch(s);
    var source := MatchingSourceAttestations(s, previousEpoch);
    var target := MatchingTargetAttestations(s, previousEpoch);
    var head := MatchingHeadAttestations(s, previousEpoch);
    UnslashedAttestingIndicesMonotone(env, s, head, target);
    UnslashedAttestingIndicesMonotone(env, s, target, source);
    var baseRewards := BaseRewards(s);
    var eligible := Eligibility(s);
    var leak := InInactivityLeak(s);
    var total := TotalActiveBalance(s);
    ComponentDeltasSplit(baseRewards, eligible, UnslashedAttestingIndices(env, s, source), leak, AttestingBalance(env, s, source), total, index);
    ComponentDeltasSplit(baseRewards, eligible, UnslashedAttestingIndices(env, s, target), leak, AttestingBalance(env, s, target), total, index);
    ComponentDeltasSplit(baseRewards, eligible, UnslashedAttestingIndices(env, s, head), leak, AttestingBalance(env, s, head), total, index);
    var attesters := SortedIndices(UnslashedAttestingIndices(env, s, source), |s.validators|);
    MatchingSourceRecorded(s);
    InclusionDelayRewardAtLeast(Participants(env, s), source, attesters, baseRewards, index);
    InactivityPenaltyOfValidator(env, s, index);
    LeakCancelsOptimalRewards(baseRewards[index], s.validators[index].effectiveBalance, FinalityDelay(s));
  }

  // ---------------------------------------------------------------------------
  // Applying the deltas

  /**
   * The loop of `process_rewards_and_penalties` over the first n validators:
   * each balance is increased by its reward, then decreased by its penalty.
   */
  function ApplyDeltas(s: State, d: Deltas, n: nat): (r: State)
    requires DeltasFor(d, |s.validators|) && |s.balances| == |s.validators| && n <= |s.validators|
    ensures r == s.(balances := r.balances) && |r.balances| == |s.balances|
    decreases n
  {
    if n == 0 then s
    else
      var before := ApplyDeltas(s, d, n - 1);
      DecreaseBalance(IncreaseBalance(before, n - 1, d.rewards[n - 1]), n - 1, d.penalties[n - 1])
  }

  /**
   * After the loop over the first n validators each of them holds its balance
   * plus its reward minus its penalty, or zero if the penalty is larger, and the
   * others hold their old balances.
   */
  lemma {:induction false} ApplyDeltasBalances(s: State, d: Deltas, n: nat)
    requires DeltasFor(d, |s.validators|) && |s.balances| == |s.validators| && n <= |s.validators|
    ensures forall i :: 0 <= i < |s.balances| ==>
              ApplyDeltas(s, d, n).balances[i] ==
                (if i < n then Max(0, (s.balances[i] + d.rewards[i]) as int - d.penalties[i]) else s.balances[i])
    decreases n
  {
    if n > 0 {
      ApplyDeltasBalances(s, d, n - 1);
    }
  }

  /** `process_rewards_and_penalties`: nothing in the genesis epoch, otherwise the deltas applied. */
  function ProcessRewardsAndPenalties(env: Env, s: State): (r: State)
    requires WellFormed(s) && EpochEnd(s) && FinalityInPast(s)
    ensures WellFormed(r) && r == s.(balances := r.balances)
    ensures CurrentEpoch(s) == GENESIS_EPOCH ==> r == s
  {
    if CurrentEpoch(s) == GENESIS_EPOCH then s
    else
      var r := ApplyDeltas(s, AttestationDeltas(env, s), |s.validators|);
      WellFormedFrame(s, r);
      r
  }

  /** Outside the genesis epoch every balance moves by its reward less its penalty, floored at zero. */
  lemma RewardsAndPenaltiesBalances(env: Env, s: State, index: ValidatorIndex)
    requires WellFormed(s) && EpochEnd(s) && FinalityInPast(s)
    requires CurrentEpoch(s) != GENESIS_EPOCH && index < |s.validators|
    ensures var d := AttestationDeltas(env, s);
            ProcessRewardsAndPenalties(env, s).balances[index] == Max(0, (s.balances[index] + d.rewards[index]) as int - d.penalties[index])
  {
    ApplyDeltasBalances(s, AttestationDeltas(env, s), |s.validators|);
  }
}
