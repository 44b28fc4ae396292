/**
 * The older simulator's epoch and slot processing as it runs: loops that build
 * the reward and penalty lists, and methods that change the beacon state object
 * in place. Each is proved to compute what the older rules of the value model
 * state, from the state it started from.
 */
module OlderStateObject {
  import opened Wrappers
  import opened Constants
  import opened Types
  import opened IntegerMath
  import opened Helpers
  import Mutators
  import EP = EpochProcessing
  import Rewards
  import EpochUpdates
  import SlotProcessing
  import OlderRules
  import opened StateObject

  // ---------------------------------------------------------------------------
  // get_attestation_deltas

  /**
   * One component loop of `get_attestation_deltas`: every eligible attester is
   * rewarded its base reward times the attesting balance over the total balance,
   * every other eligible validator is penalised its base reward. The source walks
   * the list of eligible indices, which is in increasing order; the loop walks
   * every index and skips the ineligible ones, visiting the same validators in
   * the same order.
   */
  method AddComponentDeltas(rewards: seq<Gwei>, penalties: seq<Gwei>, baseRewards: seq<Gwei>, eligible: seq<bool>,
                            attesters: set<ValidatorIndex>, attestingBalance: Gwei, totalBalance: Gwei)
    returns (newRewards: seq<Gwei>, newPenalties: seq<Gwei>)
    requires |rewards| == |baseRewards| && |penalties| == |baseRewards| && |eligible| == |baseRewards| && totalBalance >= 1
    ensures |newRewards| == |rewards| && |newPenalties| == |penalties|
    ensures var d := OlderRules.ComponentDeltas(baseRewards, eligible, attesters, attestingBalance, totalBalance);
            forall i :: 0 <= i < |rewards| ==> newRewards[i] == rewards[i] + d.rewards[i] && newPenalties[i] == penalties[i] + d.penalties[i]
  {
    ghost var d := OlderRules.ComponentDeltas(baseRewards, eligible, attesters, attestingBalance, totalBalance);
    newRewards, newPenalties := rewards, penalties;
    for index := 0 to |baseRewards|
      invariant |newRewards| == |rewards| && |newPenalties| == |penalties|
      invariant forall i :: 0 <= i < index ==> newRewards[i] == rewards[i] + d.rewards[i] && newPenalties[i] == penalties[i] + d.penalties[i]
      invariant forall i :: index <= i < |rewards| ==> newRewards[i] == rewards[i] && newPenalties[i] == penalties[i]
    {
      if eligible[index] {
        if index in attesters {
          newRewards := newRewards[index := newRewards[index] + baseRewards[index] * attestingBalance / totalBalance];
        } else {
          newPenalties := newPenalties[index := newPenalties[index] + baseRewards[index]];
        }
      }
    }
  }

  /**
   * The proposer and inclusion-delay loop of `get_attestation_deltas`, over the
   * attesters in increasing index order: the proposer of an attester's earliest
   * attestation gets the proposer share of the attester's base reward, and the
   * attester the rest divided by the inclusion delay. An attester with no
   * attestation, where the source's `min` would fail, is skipped.
   */
  method AddInclusionRewards(rewards: seq<Gwei>, participants: PendingAttestation -> set<ValidatorIndex>,
                             attestations: seq<PendingAttestation>, attesters: seq<ValidatorIndex>, baseRewards: seq<Gwei>)
    returns (newRewards: seq<Gwei>)
    requires |rewards| == |baseRewards| && Rewards.Recorded(attestations, |baseRewards|)
    requires forall k :: 0 <= k < |attesters| ==> attesters[k] < |baseRewards|
    ensures |newRewards| == |rewards|
    ensures forall i :: 0 <= i < |rewards| ==>
              newRewards[i] == rewards[i] + Rewards.InclusionDelayRewardsFor(participants, attestations, attesters, baseRewards)[i]
  {
    newRewards := rewards;
    for k := 0 to |attesters|
      invariant |newRewards| == |rewards|
      invariant forall i :: 0 <= i < |rewards| ==>
                  newRewards[i] == rewards[i] + Rewards.InclusionDelayRewardsFor(participants, attestations, attesters[..k], baseRewards)[i]
    {
      ghost var before := Rewards.InclusionDelayRewardsFor(participants, attestations, attesters[..k], baseRewards);
      var index := attesters[k];
      assert attesters[..k + 1][..k] == attesters[..k];
      var earliest := Rewards.EarliestInclusion(participants, attestations, index);
      if earliest.Some? {
        var attestation := earliest.value;
        var proposerReward := Rewards.ProposerShare(baseRewards[index]);
        newRewards := newRewards[attestation.proposerIndex := newRewards[attestation.proposerIndex] + proposerReward];
        newRewards := newRewards[index := newRewards[index] +
                                          Rewards.DelayedShare(baseRewards[index] - proposerReward, attestation.inclusionDelay)];
        assert Rewards.InclusionDelayRewardsFor(participants, attestations, attesters[..k + 1], baseRewards)
                 == Rewards.CreditInclusion(before, baseRewards[index], index, attestation);
      } else {
        assert Rewards.InclusionDelayRewardsFor(participants, attestations, attesters[..k + 1], baseRewards) == before;
      }
    }
    assert attesters[..|attesters|] == attesters;
  }

  /**
   * The inactivity loop of `get_attestation_deltas`, run once the finality delay
   * exceeds MIN_EPOCHS_TO_INACTIVITY_PENALTY: every eligible validator pays
   * BASE_REWARDS_PER_EPOCH base rewards, and one that missed the target also its
   * effective balance times the finality delay over INACTIVITY_PENALTY_QUOTIENT.
   */
  method AddInactivityPenalties(penalties: seq<Gwei>, validators: seq<Validator>, baseRewards: seq<Gwei>, eligible: seq<bool>,
                                finalityDelay: nat, targetAttesters: set<ValidatorIndex>)
    returns (newPenalties: seq<Gwei>)
    requires |penalties| == |validators| && |baseRewards| == |validators| && |eligible| == |validators|
    ensures |newPenalties| == |penalties|
    ensures forall i :: 0 <= i < |penalties| ==>
              newPenalties[i] == penalties[i] +
                                 OlderRules.InactivityPenaltyAt(validators, baseRewards, eligible, true, finalityDelay, targetAttesters, i)
  {
    newPenalties := penalties;
    for index := 0 to |validators|
      invariant |newPenalties| == |penalties|
      invariant forall i :: 0 <= i < index ==>
                  newPenalties[i] == penalties[i] +
                                     OlderRules.InactivityPenaltyAt(validators, baseRewards, eligible, true, finalityDelay, targetAttesters, i)
      invariant forall i :: index <= i < |penalties| ==> newPenalties[i] == penalties[i]
    {
      if eligible[index] {
        newPenalties := newPenalties[index := newPenalties[index] + BASE_REWARDS_PER_EPOCH * baseRewards[index]];
        if index !in targetAttesters {
          newPenalties := newPenalties[index := newPenalties[index] +
                                                validators[index].effectiveBalance * finalityDelay / INACTIVITY_PENALTY_QUOTIENT];
        }
      }
    }
  }

  /**
   * `get_attestation_deltas` of the older simulator: the reward and penalty lists
   * start at zero, then the source, target and head loops, the inclusion-delay
   * loop and, during an inactivity leak, the inactivity loop add to them. The
   * result is the older rules' attestation deltas.
   */
  method GetAttestationDeltas(env: Env, s: State) returns (rewards: seq<Gwei>, penalties: seq<Gwei>)
    requires WellFormed(s) && EP.EpochEnd(s) && Rewards.FinalityInPast(s)
    ensures Rewards.Deltas(rewards, penalties) == OlderRules.AttestationDeltas(env, s)
  {
    var componentRewards, componentPenalties := ComponentPasses(env, s);
    rewards := InclusionPass(env, s, componentRewards);
    penalties := InactivityPass(env, s, componentPenalties);
    PassesAddUp(rewards, penalties, OlderRules.ComponentsDeltas(env, s), OlderRules.InclusionDelayDeltas(env, s),
                OlderRules.InactivityDeltas(env, s));
  }

  /** The source, target and head loops, from lists of zeros. */
  method ComponentPasses(env: Env, s: State) returns (rewards: seq<Gwei>, penalties: seq<Gwei>)
    requires WellFormed(s) && EP.EpochEnd(s)
    ensures Rewards.Deltas(rewards, penalties) == OlderRules.ComponentsDeltas(env, s)
  {
    var n := |s.validators|;
    var previousEpoch := PreviousEpoch(s);
    var r0, p0 := Rewards.Zeros(n), Rewards.Zeros(n);
    var r1, p1 := ComponentPass(env, s, EP.MatchingSourceAttestations(s, previousEpoch), r0, p0);
    var r2, p2 := ComponentPass(env, s, EP.MatchingTargetAttestations(s, previousEpoch), r1, p1);
    rewards, penalties := ComponentPass(env, s, OlderRules.MatchingHeadAttestations(s, previousEpoch), r2, p2);
    PassesAddUp(rewards, penalties, OlderRules.AttestationComponentDeltas(env, s, EP.MatchingSourceAttestations(s, previousEpoch)),
                OlderRules.AttestationComponentDeltas(env, s, EP.MatchingTargetAttestations(s, previousEpoch)),
                OlderRules.AttestationComponentDeltas(env, s, OlderRules.MatchingHeadAttestations(s, previousEpoch)));
  }

  /** One of the source, target and head loops, adding the older component deltas of one list of attestations. */
  method ComponentPass(env: Env, s: State, attestations: seq<PendingAttestation>, rewards: seq<Gwei>, penalties: seq<Gwei>)
    returns (newRewards: seq<Gwei>, newPenalties: seq<Gwei>)
    requires WellFormed(s) && |rewards| == |s.validators| && |penalties| == |s.validators|
    ensures |newRewards| == |rewards| && |newPenalties| == |penalties|
    ensures forall i :: 0 <= i < |rewards| ==> newRewards[i] == rewards[i] + OlderRules.AttestationComponentDeltas(env, s, attestations).rewards[i]
    ensures forall i :: 0 <= i < |penalties| ==> newPenalties[i] == penalties[i] + OlderRules.AttestationComponentDeltas(env, s, attestations).penalties[i]
  {
    var attesters := EP.UnslashedAttestingIndices(env, s, attestations);
    newRewards, newPenalties := AddComponentDeltas(rewards, penalties, OlderRules.BaseRewards(s), Rewards.Eligibility(s), attesters,
                                                   OlderRules.TotalBalance(s, attesters), OlderRules.TotalActiveBalance(s));
  }

  /** The proposer and inclusion-delay loop over the unslashed source attesters, adding the older inclusion-delay rewards. */
  method InclusionPass(env: Env, s: State, rewards: seq<Gwei>) returns (newRewards: seq<Gwei>)
    requires WellFormed(s) && |rewards| == |s.validators|
    ensures |newRewards| == |rewards|
    ensures forall i :: 0 <= i < |rewards| ==> newRewards[i] == rewards[i] + OlderRules.InclusionDelayDeltas(env, s).rewards[i]
  {
    var source := EP.MatchingSourceAttestations(s, PreviousEpoch(s));
    var attesters := SortedIndices(EP.UnslashedAttestingIndices(env, s, source), |s.validators|);
    Rewards.MatchingSourceRecorded(s);
    newRewards := AddInclusionRewards(rewards, EP.Participants(env, s), source, attesters, OlderRules.BaseRewards(s));
  }

  /** The inactivity loop, run only once the finality delay exceeds MIN_EPOCHS_TO_INACTIVITY_PENALTY. */
  method InactivityPass(env: Env, s: State, penalties: seq<Gwei>) returns (newPenalties: seq<Gwei>)
    requires WellFormed(s) && EP.EpochEnd(s) && Rewards.FinalityInPast(s) && |penalties| == |s.validators|
    ensures |newPenalties| == |penalties|
    ensures forall i :: 0 <= i < |penalties| ==> newPenalties[i] == penalties[i] + OlderRules.InactivityDeltas(env, s).penalties[i]
  {
    var baseRewards := OlderRules.BaseRewards(s);
    var eligible := Rewards.Eligibility(s);
    var targetAttesters := EP.UnslashedAttestingIndices(env, s, EP.MatchingTargetAttestations(s, PreviousEpoch(s)));
    var finalityDelay := Rewards.FinalityDelay(s);
    var leak := Rewards.InInactivityLeak(s);
    if leak {
      newPenalties := AddInactivityPenalties(penalties, s.validators, baseRewards, eligible, finalityDelay, targetAttesters);
    } else {
      newPenalties := penalties;
    }
    ghost var inactivity := OlderRules.InactivityDeltas(env, s).penalties;
    forall i | 0 <= i < |penalties|
      ensures newPenalties[i] == penalties[i] + inactivity[i]
    {
      assert inactivity[i] == OlderRules.InactivityPenaltyAt(s.validators, baseRewards, eligible, leak, finalityDelay, targetAttesters, i);
    }
  }

  /** Lists holding, validator by validator, the sums of three passes are the three passes' deltas added up. */
  lemma PassesAddUp(rewards: seq<Gwei>, penalties: seq<Gwei>, first: Rewards.Deltas, second: Rewards.Deltas, third: Rewards.Deltas)
    requires Rewards.DeltasFor(first, |rewards|) && Rewards.DeltasFor(second, |rewards|) && Rewards.DeltasFor(third, |rewards|)
    requires |penalties| == |rewards|
    requires forall i :: 0 <= i < |rewards| ==> rewards[i] == first.rewards[i] + second.rewards[i] + third.rewards[i]
    requires forall i :: 0 <= i < |rewards| ==> penalties[i] == first.penalties[i] + second.penalties[i] + third.penalties[i]
    ensures Rewards.Deltas(rewards, penalties) == Rewards.AddDeltas(Rewards.AddDeltas(first, second), third)
  {
    var d := Rewards.AddDeltas(Rewards.AddDeltas(first, second), third);
    assert rewards == d.rewards;
    assert penalties == d.penalties;
  }

  // ---------------------------------------------------------------------------
  // Epoch processing on the state object

  /**
   * `process_justification_and_finalization` of the older simulator: nothing in
   * the first two epochs; otherwise the justification bits and checkpoints are
   * updated in place from the older attesting and total balances.
   */
  method ProcessJustificationAndFinalization(env: Env, st: BeaconState)
    requires st.Valid() && EP.EpochEnd(st.Value())
    modifies st, st.justificationBits
    ensures st.Valid() && st.Value() == OlderRules.ProcessJustificationAndFinalization(env, old(st.Value()))
  {
    var s := st.Value();
    if CurrentEpoch(s) <= GENESIS_EPOCH + 1 {
      return;
    }
    EP.RecentEpochRoots(s);
    var previousEpoch := PreviousEpoch(s);
    var currentEpoch := CurrentEpoch(s);
    var previousBalance := OlderRules.AttestingBalance(env, s, EP.MatchingTargetAttestations(s, previousEpoch));
    var currentBalance := OlderRules.AttestingBalance(env, s, EP.MatchingTargetAttestations(s, currentEpoch));
    st.WeighJustificationAndFinalization(previousBalance, currentBalance, OlderRules.TotalActiveBalance(s),
                                         BlockRoot(s, previousEpoch), BlockRoot(s, currentEpoch));
    WellFormedSameShape(s, st.Value());
  }

  /**
   * `process_rewards_and_penalties` of the older simulator: nothing in the
   * genesis epoch; otherwise the older deltas are computed and each validator is
   * paid its reward and charged its penalty.
   */
  method ProcessRewardsAndPenalties(env: Env, st: BeaconState)
    requires st.Valid() && EP.EpochEnd(st.Value()) && Rewards.FinalityInPast(st.Value())
    modifies st
    ensures st.Valid() && st.Value() == OlderRules.ProcessRewardsAndPenalties(env, old(st.Value()))
  {
    if CurrentEpoch(st.Value()) == GENESIS_EPOCH {
      return;
    }
    ghost var s := st.Value();
    var rewards, penalties := GetAttestationDeltas(env, st.Value());
    st.ApplyDeltas(Rewards.Deltas(rewards, penalties));
    Mutators.WellFormedFrame(s, st.Value());
  }

  /**
   * `process_registry_updates` of the older simulator: the eligibility and
   * ejection loop, then the dequeue loop over the head of the activation queue.
   */
  method ProcessRegistryUpdates(st: BeaconState)
    requires st.Valid()
    modifies st
    ensures st.Valid() && st.Value() == OlderRules.ProcessRegistryUpdates(old(st.Value()))
  {
    EligibilityAndEjections(st);
    ActivateQueue(st);
  }

  /** The first loop of `process_registry_updates`, over every validator in index order. */
  method EligibilityAndEjections(st: BeaconState)
    requires WellFormed(st.Value())
    modifies st
    ensures st.Value() == OlderRules.EligibilityAndEjections(old(st.Value()), |old(st.validators)|)
  {
    ghost var s := st.Value();
    for index := 0 to |st.validators|
      invariant st.Value() == OlderRules.EligibilityAndEjections(s, index)
    {
      MarkEligibleOrEject(st, index);
    }
  }

  /**
   * One pass of the first loop of `process_registry_updates`: the validator
   * becomes eligible in the current epoch if it may join the queue, and the same
   * validator, so updated, is ejected if active with too little balance.
   */
  method MarkEligibleOrEject(st: BeaconState, index: ValidatorIndex)
    requires WellFormed(st.Value()) && index < |st.validators|
    modifies st
    ensures st.Value() == OlderRules.MarkEligibleOrEject(old(st.Value()), index)
  {
    ghost var s := st.Value();
    var epoch := CurrentEpoch(st.Value());
    if IsEligibleForActivationQueue(st.validators[index]) {
      st.validators := st.validators[index := st.validators[index].(activationEligibilityEpoch := epoch)];
    }
    EP.SameSlot(s, st.Value());
    if IsActiveValidator(st.validators[index], epoch) && st.validators[index].effectiveBalance <= EJECTION_BALANCE {
      st.InitiateValidatorExit(index);
    }
  }

  /**
   * The dequeue loop of `process_registry_updates`: the head of the sorted queue,
   * up to the churn limit, gets the activation epoch, unless it already has one.
   */
  method ActivateQueue(st: BeaconState)
    requires WellFormed(st.Value())
    modifies st
    ensures st.Value() == OlderRules.ActivateDequeued(old(st.Value()))
  {
    ghost var t := st.Value();
    var queue := OlderRules.ActivationQueue(st.Value());
    var dequeued := queue[..Min(ValidatorChurnLimit(st.Value()), |queue|)];
    ActivateDequeued(st, dequeued, ComputeActivationExitEpoch(CurrentEpoch(st.Value())));
    assert st.validators == OlderRules.ActivateDequeued(t).validators;
  }

  /**
   * The dequeue loop itself: each dequeued validator with no activation epoch
   * gets `activationEpoch`; one already scheduled keeps its epoch.
   */
  method ActivateDequeued(st: BeaconState, dequeued: seq<ValidatorIndex>, activationEpoch: Epoch)
    requires EpochUpdates.InRange(dequeued, |st.validators|)
    modifies st
    ensures st.Value() == old(st.Value()).(validators := st.validators) && |st.validators| == old(|st.validators|)
    ensures forall i :: 0 <= i < |st.validators| ==>
              st.validators[i] == OlderRules.ActivatedAt(old(st.validators), dequeued, activationEpoch, i)
  {
    ghost var t := st.Value();
    var k := 0;
    while k < |dequeued|
      invariant 0 <= k <= |dequeued|
      invariant st.Value() == t.(validators := st.validators) && |st.validators| == |t.validators|
      invariant forall i :: 0 <= i < |t.validators| ==>
                  st.validators[i] == OlderRules.ActivatedAt(t.validators, dequeued[..k], activationEpoch, i)
    {
      var next := dequeued[k];
      if st.validators[next].activationEpoch == FAR_FUTURE_EPOCH {
        st.validators := st.validators[next := st.validators[next].(activationEpoch := activationEpoch)];
      }
      assert dequeued[..k + 1] == dequeued[..k] + [next];
      k := k + 1;
    }
    assert dequeued[..k] == dequeued;
  }

  /**
   * `process_slashings` of the older simulator: the loop cutting the balance of
   * each validator slashed half a slashings period ago, against the older total
   * active balance.
   */
  method ProcessSlashings(st: BeaconState)
    requires st.Valid()
    modifies st
    ensures st.Valid() && st.Value() == OlderRules.ProcessSlashings(old(st.Value()))
  {
    ghost var s := st.Value();
    var epoch := CurrentEpoch(st.Value());
    var totalBalance := OlderRules.TotalActiveBalance(st.Value());
    var index := 0;
    while index < |st.validators|
      invariant 0 <= index <= |st.validators| == |st.balances| == |s.balances|
      invariant st.Value() == s.(balances := st.balances)
      invariant forall i :: 0 <= i < index ==>
                  st.balances[i] == EpochUpdates.SlashedBalanceAt(s, Mutators.Sum(s.slashings), totalBalance, i)
      invariant forall i :: index <= i < |st.balances| ==> st.balances[i] == s.balances[i]
    {
      var validator := st.validators[index];
      if validator.slashed && epoch + EPOCHS_PER_SLASHINGS_VECTOR / 2 == validator.withdrawableEpoch {
        var penalty := EpochUpdates.SlashingPenalty(validator.effectiveBalance, Mutators.Sum(st.slashings[..]), totalBalance);
        st.DecreaseBalance(index, penalty);
      }
      index := index + 1;
    }
    assert st.balances == OlderRules.ProcessSlashings(s).balances;
    Mutators.WellFormedFrame(s, st.Value());
  }

  /**
   * `process_final_updates` of the older simulator: the eth1 votes, the
   * effective-balance loop with the older hysteresis, then the slashings entry,
   * the randao mix, the historical root and the rotation of the attestations.
   */
  method ProcessFinalUpdates(env: Env, st: BeaconState)
    requires st.Valid()
    modifies st, st.slashings, st.randaoMixes
    ensures st.Valid() && st.Value() == OlderRules.ProcessFinalUpdates(env, old(st.Value()))
  {
    FinalUpdateSteps(env, st);
  }

  /** The steps of the older `process_final_updates`, in the source's order. */
  method FinalUpdateSteps(env: Env, st: BeaconState)
    requires WellFormed(st.Value()) && st.randaoMixes != st.blockRoots && st.randaoMixes != st.stateRoots
    modifies st, st.slashings, st.randaoMixes
    ensures st.Value() == OlderRules.ProcessFinalUpdates(env, old(st.Value()))
  {
    ResetEth1DataVotes(st);
    UpdateEffectiveBalances(st);
    st.ResetSlashings();
    st.CarryRandaoMix();
    st.AppendHistoricalRoot(env);
    st.RotateAttestations();
  }

  /** The first step of the older `process_final_updates`: the votes are cleared when the next slot starts a voting period. */
  method ResetEth1DataVotes(st: BeaconState)
    modifies st
    ensures st.Value() == OlderRules.ResetEth1DataVotes(old(st.Value()))
  {
    if (st.slot + 1) % OlderRules.SLOTS_PER_ETH1_VOTING_PERIOD == 0 {
      st.eth1DataVotes := [];
    }
  }

  /**
   * The effective-balance loop of the older `process_final_updates`: an
   * effective balance is recomputed when the balance is below it or more than
   * three half increments above it.
   */
  method UpdateEffectiveBalances(st: BeaconState)
    requires |st.balances| == |st.validators|
    modifies st
    ensures st.Value() == OlderRules.UpdateEffectiveBalances(old(st.Value()))
  {
    ghost var s := st.Value();
    var index := 0;
    while index < |st.validators|
      invariant 0 <= index <= |st.validators| == |s.validators|
      invariant st.Value() == s.(validators := st.validators)
      invariant forall i :: 0 <= i < index ==> st.validators[i] == OlderRules.UpdatedValidatorAt(s.validators, s.balances, i)
      invariant forall i :: index <= i < |st.validators| ==> st.validators[i] == s.validators[i]
    {
      var validator := st.validators[index];
      var balance := st.balances[index];
      if balance < validator.effectiveBalance || validator.effectiveBalance + 3 * OlderRules.HALF_INCREMENT < balance {
        st.validators := st.validators[index := validator.(effectiveBalance :=
                                          Min(balance - balance % EFFECTIVE_BALANCE_INCREMENT, MAX_EFFECTIVE_BALANCE))];
      }
      index := index + 1;
    }
    assert st.validators == OlderRules.UpdatedValidators(s.validators, s.balances);
  }

  /**
   * `process_epoch` of the older simulator: justification and finalization,
   * rewards and penalties, registry updates, slashings and final updates, each
   * applied in place.
   */
  method ProcessEpoch(env: Env, st: BeaconState)
    requires st.Valid() && EP.EpochEnd(st.Value()) && EP.CheckpointsOrdered(st.Value())
    modifies st, st.justificationBits, st.slashings, st.randaoMixes
    ensures st.Valid() && st.Value() == OlderRules.ProcessEpoch(env, old(st.Value()))
  {
    ghost var s := st.Value();
    ProcessJustificationAndFinalization(env, st);
    OlderRules.JustificationAndFinalizationKeepsOrder(env, s);
    EP.SameSlot(st.Value(), s);
    ProcessRewardsAndPenalties(env, st);
    ProcessRegistryUpdates(st);
    ProcessSlashings(st);
    ProcessFinalUpdates(env, st);
  }

  // ---------------------------------------------------------------------------
  // Slot processing on the state object

  /** One iteration of the older `process_slots` loop: the slot, the epoch transition on an epoch's last slot, and the next slot. */
  method AdvanceSlot(env: Env, st: BeaconState)
    requires st.Valid() && EP.CheckpointsOrdered(st.Value())
    modifies st, st.blockRoots, st.stateRoots, st.randaoMixes, st.slashings, st.justificationBits
    ensures st.Valid() && st.Value() == OlderRules.AdvanceSlot(env, old(st.Value()))
  {
    ghost var s := st.Value();
    st.ProcessSlot(env);
    EP.SameSlot(st.Value(), s);
    if (st.slot + 1) % SLOTS_PER_EPOCH == 0 {
      EpochTransition(env, st);
    } else {
      ghost var cached := st.Value();
      SlotProcessing.NextSlotInEpoch(cached);
      st.IncrementSlot();
    }
  }

  /** The older epoch transition on the last slot of an epoch, then the move to the next slot. */
  method EpochTransition(env: Env, st: BeaconState)
    requires st.Valid() && EP.EpochEnd(st.Value()) && EP.CheckpointsOrdered(st.Value())
    modifies st, st.justificationBits, st.slashings, st.randaoMixes
    ensures st.Valid() && st.Value() == OlderRules.EpochTransition(env, old(st.Value()))
  {
    ghost var s := st.Value();
    ProcessEpoch(env, st);
    st.IncrementSlot();
    assert st.Value() == OlderRules.EpochTransition(env, s);
  }

  /**
   * `process_slots` of the older simulator: the call fails, changing nothing,
   * when the target slot is behind the state; otherwise the slots are processed
   * one by one up to the target, so the current slot as target changes nothing.
   */
  method ProcessSlots(env: Env, st: BeaconState, target: Slot) returns (ok: bool)
    requires st.Valid() && EP.CheckpointsOrdered(st.Value())
    modifies st, st.blockRoots, st.stateRoots, st.randaoMixes, st.slashings, st.justificationBits
    ensures st.Valid()
    ensures ok == OlderRules.ProcessSlots(env, old(st.Value()), target).Some?
    ensures ok ==> st.Value() == OlderRules.ProcessSlots(env, old(st.Value()), target).value
    ensures !ok ==> st.Value() == old(st.Value())
  {
    if target < st.slot {
      return false;
    }
    ghost var s := st.Value();
    while st.slot < target
      invariant st.Valid() && EP.CheckpointsOrdered(st.Value()) && st.slot <= target
      invariant OlderRules.AdvanceSlots(env, st.Value(), target) == OlderRules.AdvanceSlots(env, s, target)
      decreases target - st.slot
    {
      AdvanceSlot(env, st);
    }
    return true;
  }
}
