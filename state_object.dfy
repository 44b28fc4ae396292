/**
 * The beacon state as the mutable object the state transition works on: the
 * mutators, the per-slot and per-epoch processing and the block processing
 * change its fields in place, as the source does. Every method is proved to
 * leave the object holding the value the matching function of the value model
 * computes from the state it started from.
 */
module StateObject {
  import opened Wrappers
  import opened Constants
  import opened Types
  import opened IntegerMath
  import opened ByteCodec
  import opened Helpers
  import Mutators
  import EpochProcessing
  import Rewards
  import EpochUpdates
  import SlotProcessing
  import BlockProcessing

  class BeaconState {
    var genesisTime: nat
    var genesisValidatorsRoot: Root
    var slot: Slot
    var fork: Fork
    var latestBlockHeader: BeaconBlockHeader
    /** The fixed-size vectors of the state are arrays, written entry by entry. */
    const blockRoots: array<Root>
    const stateRoots: array<Root>
    var historicalRoots: seq<Root>
    var eth1Data: Eth1Data
    var eth1DataVotes: seq<Eth1Data>
    var eth1DepositIndex: nat
    var validators: seq<Validator>
    var balances: seq<Gwei>
    const randaoMixes: array<Bytes32>
    const slashings: array<Gwei>
    var previousEpochAttestations: seq<PendingAttestation>
    var currentEpochAttestations: seq<PendingAttestation>
    const justificationBits: array<bool>
    var previousJustifiedCheckpoint: Checkpoint
    var currentJustifiedCheckpoint: Checkpoint
    var finalizedCheckpoint: Checkpoint

    /** The state the object holds, as a value. */
    function Value(): State
      reads this, blockRoots, stateRoots, randaoMixes, slashings, justificationBits
    {
      State(genesisTime, genesisValidatorsRoot, slot, fork, latestBlockHeader, blockRoots[..], stateRoots[..],
            historicalRoots, eth1Data, eth1DataVotes, eth1DepositIndex, validators, balances, randaoMixes[..],
            slashings[..], previousEpochAttestations, currentEpochAttestations, justificationBits[..],
            previousJustifiedCheckpoint, currentJustifiedCheckpoint, finalizedCheckpoint)
    }

    /** The root vectors are three different arrays, and the value is well-formed. */
    ghost predicate Valid()
      reads this, blockRoots, stateRoots, randaoMixes, slashings, justificationBits
    {
      blockRoots != stateRoots && blockRoots != randaoMixes && stateRoots != randaoMixes &&
      WellFormed(Value())
    }

    /** An object holding the state `s`. */
    constructor (s: State)
      requires WellFormed(s)
      ensures Valid() && Value() == s
      ensures fresh(blockRoots) && fresh(stateRoots) && fresh(randaoMixes) && fresh(slashings) && fresh(justificationBits)
    {
      genesisTime := s.genesisTime;
      genesisValidatorsRoot := s.genesisValidatorsRoot;
      slot := s.slot;
      fork := s.fork;
      latestBlockHeader := s.latestBlockHeader;
      blockRoots := new Root[|s.blockRoots|](i requires 0 <= i < |s.blockRoots| => s.blockRoots[i]);
      stateRoots := new Root[|s.stateRoots|](i requires 0 <= i < |s.stateRoots| => s.stateRoots[i]);
      historicalRoots := s.historicalRoots;
      eth1Data := s.eth1Data;
      eth1DataVotes := s.eth1DataVotes;
      eth1DepositIndex := s.eth1DepositIndex;
      validators := s.validators;
      balances := s.balances;
      randaoMixes := new Bytes32[|s.randaoMixes|](i requires 0 <= i < |s.randaoMixes| => s.randaoMixes[i]);
      slashings := new Gwei[|s.slashings|](i requires 0 <= i < |s.slashings| => s.slashings[i]);
      previousEpochAttestations := s.previousEpochAttestations;
      currentEpochAttestations := s.currentEpochAttestations;
      justificationBits := new bool[|s.justificationBits|](i requires 0 <= i < |s.justificationBits| => s.justificationBits[i]);
      previousJustifiedCheckpoint := s.previousJustifiedCheckpoint;
      currentJustifiedCheckpoint := s.currentJustifiedCheckpoint;
      finalizedCheckpoint := s.finalizedCheckpoint;
      new;
      assert blockRoots[..] == s.blockRoots && stateRoots[..] == s.stateRoots && randaoMixes[..] == s.randaoMixes;
      assert slashings[..] == s.slashings && justificationBits[..] == s.justificationBits;
    }

    // -------------------------------------------------------------------------
    // Mutators

    /** `increase_balance`. */
    method IncreaseBalance(index: ValidatorIndex, delta: Gwei)
      requires index < |balances|
      modifies this
      ensures Value() == Mutators.IncreaseBalance(old(Value()), index, delta)
    {
      balances := balances[index := balances[index] + delta];
    }

    /** `decrease_balance`: the balance drops by `delta`, or to zero if `delta` is larger. */
    method DecreaseBalance(index: ValidatorIndex, delta: Gwei)
      requires index < |balances|
      modifies this
      ensures Value() == Mutators.DecreaseBalance(old(Value()), index, delta)
    {
      balances := balances[index := if delta > balances[index] then 0 else balances[index] - delta];
    }

    /** `initiate_validator_exit`. */
    method InitiateValidatorExit(index: ValidatorIndex)
      requires index < |validators|
      modifies this
      ensures Value() == Mutators.InitiateValidatorExit(old(Value()), index)
    {
      var validator := validators[index];
      if validator.exitEpoch != FAR_FUTURE_EPOCH {
        return;
      }
      var exitQueueEpoch := Mutators.ExitQueueEpoch(Value());
      validators := validators[index := validator.(exitEpoch := exitQueueEpoch,
                                                   withdrawableEpoch := exitQueueEpoch + MIN_VALIDATOR_WITHDRAWABILITY_DELAY)];
    }

    /**
     * The bookkeeping half of `slash_validator`: queue the exit, mark the
     * validator slashed, delay its withdrawal and record its effective balance
     * in this epoch's slashings entry.
     */
    method MarkSlashed(index: ValidatorIndex)
      requires Valid() && index < |validators|
      modifies this, slashings
      ensures Valid() && Value() == Mutators.MarkSlashed(old(Value()), index)
    {
      ghost var s := Value();
      var epoch := CurrentEpoch(Value());
      InitiateValidatorExit(index);
      var validator := validators[index];
      validator := validator.(slashed := true, withdrawableEpoch := Max(validator.withdrawableEpoch, epoch + EPOCHS_PER_SLASHINGS_VECTOR));
      validators := validators[index := validator];
      var entry := epoch % EPOCHS_PER_SLASHINGS_VECTOR;
      slashings[entry] := slashings[entry] + validator.effectiveBalance;
      assert Value() == Mutators.MarkSlashed(s, index);
    }

    /** The penalty half of `slash_validator`: MarkSlashed, then the minimum penalty. */
    method PenaliseSlashed(slashedIndex: ValidatorIndex)
      requires Valid() && slashedIndex < |validators|
      modifies this, slashings
      ensures Valid() && Value() == Mutators.PenaliseSlashed(old(Value()), slashedIndex)
    {
      ghost var s := Value();
      MarkSlashed(slashedIndex);
      var effectiveBalance := validators[slashedIndex].effectiveBalance;
      DecreaseBalance(slashedIndex, effectiveBalance / MIN_SLASHING_PENALTY_QUOTIENT);
      assert Value() == Mutators.PenaliseSlashed(s, slashedIndex);
    }

    /** The reward half of `slash_validator`: the proposer's part, then the whistleblower's. */
    method PayWhistleblower(proposerIndex: ValidatorIndex, whistleblower: ValidatorIndex, effectiveBalance: Gwei)
      requires proposerIndex < |balances| && whistleblower < |balances|
      modifies this
      ensures Value() == Mutators.PayWhistleblower(old(Value()), proposerIndex, whistleblower, effectiveBalance)
    {
      var whistleblowerReward := Mutators.WhistleblowerReward(effectiveBalance);
      var proposerReward := Mutators.ProposerReward(effectiveBalance);
      IncreaseBalance(proposerIndex, proposerReward);
      IncreaseBalance(whistleblower, whistleblowerReward - proposerReward);
    }

    /**
     * `slash_validator`. It fails, with the state partly updated, where the
     * source fails to find the block proposer.
     */
    method SlashValidator(env: Env, slashedIndex: ValidatorIndex, whistleblowerIndex: Option<ValidatorIndex>) returns (ok: bool)
      requires Valid() && slashedIndex < |validators|
      requires whistleblowerIndex.Some? ==> whistleblowerIndex.value < |validators|
      modifies this, slashings
      ensures ok == Mutators.SlashValidator(env, old(Value()), slashedIndex, whistleblowerIndex).Some?
      ensures ok ==> Valid() && Value() == Mutators.SlashValidator(env, old(Value()), slashedIndex, whistleblowerIndex).value
    {
      ghost var s := Value();
      var effectiveBalance := validators[slashedIndex].effectiveBalance;
      PenaliseSlashed(slashedIndex);
      var proposerIndex := BeaconProposerIndex(env, Value());
      if proposerIndex.None? {
        return false;
      }
      var whistleblower := if whistleblowerIndex.Some? then whistleblowerIndex.value else proposerIndex.value;
      ghost var penalised := Value();
      PayWhistleblower(proposerIndex.value, whistleblower, effectiveBalance);
      Mutators.WellFormedFrame(penalised, Value());
      ok := true;
    }

    // -------------------------------------------------------------------------
    // Epoch processing

    /**
     * `process_justification_and_finalization`: nothing in the first two epochs;
     * otherwise the attesting balances of the previous and the current epoch's
     * targets decide which checkpoints are justified and finalized.
     */
    method ProcessJustificationAndFinalization(env: Env)
      requires Valid() && EpochProcessing.EpochEnd(Value())
      modifies this, justificationBits
      ensures Valid() && Value() == EpochProcessing.ProcessJustificationAndFinalization(env, old(Value()))
    {
      if CurrentEpoch(Value()) <= GENESIS_EPOCH + 1 {
        return;
      }
      ghost var s := Value();
      EpochProcessing.RecentEpochRoots(Value());
      var previousEpoch := PreviousEpoch(Value());
      var currentEpoch := CurrentEpoch(Value());
      var previousBalance := EpochProcessing.AttestingBalance(env, Value(), EpochProcessing.MatchingTargetAttestations(Value(), previousEpoch));
      var currentBalance := EpochProcessing.AttestingBalance(env, Value(), EpochProcessing.MatchingTargetAttestations(Value(), currentEpoch));
      var totalBalance := TotalActiveBalance(Value());
      WeighJustificationAndFinalization(previousBalance, currentBalance, totalBalance,
                                        BlockRoot(Value(), previousEpoch), BlockRoot(Value(), currentEpoch));
      WellFormedSameShape(s, Value());
    }

    /**
     * The updates of `process_justification_and_finalization`, given the
     * attesting balances of the two epochs' targets, the total active balance
     * and the two target roots: the justification bits shift, a supermajority
     * justifies an epoch, and the four finalization rules are tried in order.
     */
    method WeighJustificationAndFinalization(previousBalance: Gwei, currentBalance: Gwei, totalBalance: Gwei,
                                             previousRoot: Root, currentRoot: Root)
      requires justificationBits.Length == JUSTIFICATION_BITS_LENGTH
      modifies this, justificationBits
      ensures Value() == EpochProcessing.WeighJustificationAndFinalization(old(Value()), previousBalance, currentBalance,
                                                                          totalBalance, previousRoot, currentRoot)
    {
      var oldPrevious := previousJustifiedCheckpoint;
      var oldCurrent := currentJustifiedCheckpoint;
      var currentEpoch := CurrentEpoch(Value());
      JustifyTargets(previousBalance, currentBalance, totalBalance, previousRoot, currentRoot);
      FinalizeCheckpoints(oldPrevious, oldCurrent, currentEpoch);
    }

    /**
     * The justification half of `process_justification_and_finalization`: the
     * checkpoints move down, the bits shift, and each supermajority justifies its target.
     */
    method JustifyTargets(previousBalance: Gwei, currentBalance: Gwei, totalBalance: Gwei,
                          previousRoot: Root, currentRoot: Root)
      requires justificationBits.Length == JUSTIFICATION_BITS_LENGTH
      modifies this, justificationBits
      ensures Value() == EpochProcessing.JustifyTargets(old(Value()), previousBalance, currentBalance,
                                                        totalBalance, previousRoot, currentRoot)
    {
      var previousEpoch := PreviousEpoch(Value());
      var currentEpoch := CurrentEpoch(Value());
      RetireCurrentJustified();
      ShiftJustificationBits();
      if previousBalance * 3 >= totalBalance * 2 {
        Justify(1, Checkpoint(previousEpoch, previousRoot));
      }
      if currentBalance * 3 >= totalBalance * 2 {
        Justify(0, Checkpoint(currentEpoch, currentRoot));
      }
    }

    /** The current justified checkpoint becomes the previous one. */
    method RetireCurrentJustified()
      modifies this
      ensures Value() == old(Value()).(previousJustifiedCheckpoint := old(currentJustifiedCheckpoint))
    {
      previousJustifiedCheckpoint := currentJustifiedCheckpoint;
    }

    /** The justification bits move up by one place and bit 0 is cleared. */
    method ShiftJustificationBits()
      requires justificationBits.Length == JUSTIFICATION_BITS_LENGTH
      modifies justificationBits
      ensures Value() == old(Value()).(justificationBits := [false] + old(justificationBits[..])[..JUSTIFICATION_BITS_LENGTH - 1])
    {
      forall i | 1 <= i < justificationBits.Length {
        justificationBits[i] := justificationBits[i - 1];
      }
      justificationBits[0] := false;
    }

    /** A supermajority justifies `checkpoint` and sets justification bit `bit`. */
    method Justify(bit: nat, checkpoint: Checkpoint)
      requires bit < justificationBits.Length
      modifies this, justificationBits
      ensures Value() == old(Value()).(currentJustifiedCheckpoint := checkpoint,
                                       justificationBits := old(justificationBits[..])[bit := true])
    {
      currentJustifiedCheckpoint := checkpoint;
      justificationBits[bit] := true;
    }

    /** The finalization half: the four rules, tried in order on the new bits. */
    method FinalizeCheckpoints(oldPrevious: Checkpoint, oldCurrent: Checkpoint, currentEpoch: Epoch)
      requires justificationBits.Length == JUSTIFICATION_BITS_LENGTH
      modifies this
      ensures Value() == EpochProcessing.FinalizeCheckpoints(old(Value()), oldPrevious, oldCurrent, currentEpoch)
    {
      var bits := justificationBits[..];
      if EpochProcessing.AllSet(bits, 1, 4) && oldPrevious.epoch + 3 == currentEpoch {
        finalizedCheckpoint := oldPrevious;
      }
      if EpochProcessing.AllSet(bits, 1, 3) && oldPrevious.epoch + 2 == currentEpoch {
        finalizedCheckpoint := oldPrevious;
      }
      if EpochProcessing.AllSet(bits, 0, 3) && oldCurrent.epoch + 2 == currentEpoch {
        finalizedCheckpoint := oldCurrent;
      }
      if EpochProcessing.AllSet(bits, 0, 2) && oldCurrent.epoch + 1 == currentEpoch {
        finalizedCheckpoint := oldCurrent;
      }
    }

    /**
     * `process_rewards_and_penalties`: nothing in the genesis epoch; otherwise the
     * attestation deltas, then the loop paying each validator its reward and
     * charging its penalty.
     */
    method ProcessRewardsAndPenalties(env: Env)
      requires Valid() && EpochProcessing.EpochEnd(Value()) && Rewards.FinalityInPast(Value())
      modifies this
      ensures Valid() && Value() == Rewards.ProcessRewardsAndPenalties(env, old(Value()))
    {
      if CurrentEpoch(Value()) == GENESIS_EPOCH {
        return;
      }
      ghost var s := Value();
      var deltas := Rewards.AttestationDeltas(env, Value());
      ApplyDeltas(deltas);
      Mutators.WellFormedFrame(s, Value());
    }

    /** The loop of `process_rewards_and_penalties`: each validator is paid its reward, then charged its penalty. */
    method ApplyDeltas(deltas: Rewards.Deltas)
      requires Rewards.DeltasFor(deltas, |validators|) && |balances| == |validators|
      modifies this
      ensures Value() == Rewards.ApplyDeltas(old(Value()), deltas, |old(validators)|)
    {
      ghost var s := Value();
      var n := |validators|;
      for index := 0 to n
        invariant |s.validators| == n
        invariant Value() == Rewards.ApplyDeltas(s, deltas, index)
      {
        ApplyDelta(s, deltas, index);
      }
    }

    /** One pass of the loop of `process_rewards_and_penalties`: validator `index` is paid its reward, then charged its penalty. */
    method ApplyDelta(ghost s: State, deltas: Rewards.Deltas, index: ValidatorIndex)
      requires Rewards.DeltasFor(deltas, |s.validators|) && |s.balances| == |s.validators| && index < |s.validators|
      requires Value() == Rewards.ApplyDeltas(s, deltas, index)
      modifies this
      ensures Value() == Rewards.ApplyDeltas(s, deltas, index + 1)
    {
      IncreaseBalance(index, deltas.rewards[index]);
      DecreaseBalance(index, deltas.penalties[index]);
    }

    /**
     * `process_slashings`: the loop over the registry, cutting the balance of each
     * validator slashed half a slashings period ago by its proportional penalty.
     */
    method ProcessSlashings()
      requires Valid()
      modifies this
      ensures Valid() && Value() == EpochUpdates.ProcessSlashings(old(Value()))
    {
      ghost var s := Value();
      var epoch := CurrentEpoch(Value());
      var totalBalance := TotalActiveBalance(Value());
      var index := 0;
      while index < |validators|
        invariant 0 <= index <= |validators| == |balances| == |s.balances|
        invariant Value() == s.(balances := balances)
        invariant forall i :: 0 <= i < index ==> balances[i] == EpochUpdates.SlashedBalanceAt(s, Mutators.Sum(s.slashings), totalBalance, i)
        invariant forall i :: index <= i < |balances| ==> balances[i] == s.balances[i]
      {
        var validator := validators[index];
        if validator.slashed && epoch + EPOCHS_PER_SLASHINGS_VECTOR / 2 == validator.withdrawableEpoch {
          var penalty := EpochUpdates.SlashingPenalty(validator.effectiveBalance, Mutators.Sum(slashings[..]), totalBalance);
          DecreaseBalance(index, penalty);
        }
        index := index + 1;
      }
      assert balances == EpochUpdates.ProcessSlashings(s).balances;
      Mutators.WellFormedFrame(s, Value());
    }

    /** The effective-balance loop of `process_final_updates`, with its hysteresis rule. */
    method UpdateEffectiveBalances()
      requires |balances| == |validators|
      modifies this
      ensures Value() == EpochUpdates.UpdateEffectiveBalances(old(Value()))
    {
      ghost var s := Value();
      var index := 0;
      while index < |validators|
        invariant 0 <= index <= |validators| == |s.validators|
        invariant Value() == s.(validators := validators)
        invariant forall i :: 0 <= i < index ==> validators[i] == EpochUpdates.UpdatedValidatorAt(s.validators, s.balances, i)
        invariant forall i :: index <= i < |validators| ==> validators[i] == s.validators[i]
      {
        var validator := validators[index];
        var balance := balances[index];
        if balance + EpochUpdates.DOWNWARD_THRESHOLD < validator.effectiveBalance ||
           validator.effectiveBalance + EpochUpdates.UPWARD_THRESHOLD < balance {
          validators := validators[index := validator.(effectiveBalance := Min(balance - balance % EFFECTIVE_BALANCE_INCREMENT, MAX_EFFECTIVE_BALANCE))];
        }
        index := index + 1;
      }
      assert validators == EpochUpdates.UpdatedValidators(s.validators, s.balances);
    }

    /**
     * `process_final_updates`: the eth1 votes, the loop updating effective
     * balances, the next epoch's slashings entry and randao mix, the historical
     * roots and the rotation of the pending attestations, in the source's order.
     */
    method ProcessFinalUpdates(env: Env)
      requires Valid()
      modifies this, slashings, randaoMixes
      ensures Valid() && Value() == EpochUpdates.ProcessFinalUpdates(env, old(Value()))
    {
      FinalUpdateSteps(env);
    }

    /** The steps of `process_final_updates`, in the source's order. */
    method FinalUpdateSteps(env: Env)
      requires WellFormed(Value()) && randaoMixes != blockRoots && randaoMixes != stateRoots
      modifies this, slashings, randaoMixes
      ensures Value() == EpochUpdates.ProcessFinalUpdates(env, old(Value()))
    {
      ResetEth1DataVotes();
      UpdateEffectiveBalances();
      ResetSlashings();
      CarryRandaoMix();
      AppendHistoricalRoot(env);
      RotateAttestations();
    }

    /** The first step of `process_final_updates`: the eth1 votes are cleared at the end of a voting period. */
    method ResetEth1DataVotes()
      modifies this
      ensures Value() == EpochUpdates.ResetEth1DataVotes(old(Value()))
    {
      if (CurrentEpoch(Value()) + 1) % EPOCHS_PER_ETH1_VOTING_PERIOD == 0 {
        eth1DataVotes := [];
      }
    }

    /** A step of `process_final_updates`: the next epoch's entry of the slashings vector is cleared. */
    method ResetSlashings()
      requires slashings.Length == EPOCHS_PER_SLASHINGS_VECTOR
      modifies slashings
      ensures Value() == EpochUpdates.ResetSlashings(old(Value()))
    {
      slashings[(CurrentEpoch(Value()) + 1) % EPOCHS_PER_SLASHINGS_VECTOR] := 0;
    }

    /** A step of `process_final_updates`: the next epoch's randao mix starts as the current epoch's. */
    method CarryRandaoMix()
      requires randaoMixes.Length == EPOCHS_PER_HISTORICAL_VECTOR && randaoMixes != blockRoots && randaoMixes != stateRoots
      modifies randaoMixes
      ensures Value() == EpochUpdates.CarryRandaoMix(old(Value()))
    {
      var currentEpoch := CurrentEpoch(Value());
      randaoMixes[(currentEpoch + 1) % EPOCHS_PER_HISTORICAL_VECTOR] := randaoMixes[currentEpoch % EPOCHS_PER_HISTORICAL_VECTOR];
    }

    /** A step of `process_final_updates`: the root of the historical batch is appended every SLOTS_PER_HISTORICAL_ROOT slots. */
    method AppendHistoricalRoot(env: Env)
      modifies this
      ensures Value() == EpochUpdates.AppendHistoricalRoot(env, old(Value()))
    {
      if (CurrentEpoch(Value()) + 1) % (SLOTS_PER_HISTORICAL_ROOT / SLOTS_PER_EPOCH) == 0 {
        historicalRoots := historicalRoots + [env.historicalBatchRoot(blockRoots[..], stateRoots[..])];
      }
    }

    /** The last step of `process_final_updates`: the current epoch's pending attestations become the previous epoch's. */
    method RotateAttestations()
      modifies this
      ensures Value() == EpochUpdates.RotateAttestations(old(Value()))
    {
      previousEpochAttestations := currentEpochAttestations;
      currentEpochAttestations := [];
    }

    /**
     * `process_registry_updates`: the loop marking validators eligible for the
     * activation queue and ejecting those whose effective balance fell to
     * EJECTION_BALANCE, then the loop giving the head of the sorted activation
     * queue, up to the churn limit, its activation epoch.
     */
    method ProcessRegistryUpdates()
      requires Valid()
      modifies this
      ensures Valid() && Value() == EpochUpdates.ProcessRegistryUpdates(old(Value()))
    {
      EligibilityAndEjections();
      ActivateQueue();
    }

    /** The first loop of `process_registry_updates`, over every validator in index order. */
    method EligibilityAndEjections()
      requires WellFormed(Value())
      modifies this
      ensures Value() == EpochUpdates.EligibilityAndEjections(old(Value()), |old(validators)|)
    {
      ghost var s := Value();
      assert WellFormed(s);
      for index := 0 to |validators|
        invariant Value() == EpochUpdates.EligibilityAndEjections(s, index)
      {
        MarkEligibleOrEject(index);
      }
    }

    /** The activation queue of `process_registry_updates`: its head, up to the churn limit, is activated. */
    method ActivateQueue()
      requires WellFormed(Value())
      modifies this
      ensures Value() == EpochUpdates.ActivateDequeued(old(Value()))
    {
      ghost var t := Value();
      var queue := EpochUpdates.ActivationQueue(Value());
      var dequeued := queue[..Min(ValidatorChurnLimit(Value()), |queue|)];
      assert dequeued == EpochUpdates.Dequeued(t);
      ActivateDequeued(dequeued, ComputeActivationExitEpoch(CurrentEpoch(Value())));
      ghost var r := EpochUpdates.ActivateDequeued(t);
      assert forall i :: 0 <= i < |validators| ==> validators[i] == r.validators[i];
      assert validators == r.validators;
    }

    /** The dequeue loop of `process_registry_updates`: each dequeued validator gets the activation epoch. */
    method ActivateDequeued(dequeued: seq<ValidatorIndex>, activationEpoch: Epoch)
      requires EpochUpdates.InRange(dequeued, |validators|)
      modifies this
      ensures Value() == old(Value()).(validators := validators) && |validators| == old(|validators|)
      ensures forall i :: 0 <= i < |validators| ==>
                validators[i] == EpochUpdates.ActivatedAt(old(validators), dequeued, activationEpoch, i)
    {
      ghost var t := Value();
      var k := 0;
      while k < |dequeued|
        invariant 0 <= k <= |dequeued|
        invariant Value() == t.(validators := validators) && |validators| == |t.validators|
        invariant forall i :: 0 <= i < |validators| ==>
                    validators[i] == EpochUpdates.ActivatedAt(t.validators, dequeued[..k], activationEpoch, i)
      {
        var next := dequeued[k];
        validators := validators[next := validators[next].(activationEpoch := activationEpoch)];
        assert dequeued[..k + 1] == dequeued[..k] + [next];
        k := k + 1;
      }
      assert dequeued[..k] == dequeued;
    }

    /** One pass of the first loop of `process_registry_updates`. */
    method MarkEligibleOrEject(index: ValidatorIndex)
      requires WellFormed(Value()) && index < |validators|
      modifies this
      ensures Value() == EpochUpdates.MarkEligibleOrEject(old(Value()), index)
    {
      ghost var s := Value();
      var epoch := CurrentEpoch(Value());
      if IsEligibleForActivationQueue(validators[index]) {
        validators := validators[index := validators[index].(activationEligibilityEpoch := epoch + 1)];
      }
      EpochProcessing.SameSlot(s, Value());
      if IsActiveValidator(validators[index], epoch) && validators[index].effectiveBalance <= EJECTION_BALANCE {
        InitiateValidatorExit(index);
      }
    }

    // -------------------------------------------------------------------------
    // Slot processing

    /**
     * `process_slot`: the state root of the slot is cached, the latest header
     * gets that root if its own is still zero, and the header's root is cached.
     */
    method ProcessSlot(env: Env)
      requires Valid()
      modifies this, stateRoots, blockRoots
      ensures Valid() && Value() == SlotProcessing.ProcessSlot(env, old(Value()))
    {
      ghost var s := Value();
      var index := slot % SLOTS_PER_HISTORICAL_ROOT;
      var previousStateRoot := env.stateRoot(Value());
      stateRoots[index] := previousStateRoot;
      if latestBlockHeader.stateRoot == ZERO_BYTES32 {
        latestBlockHeader := latestBlockHeader.(stateRoot := previousStateRoot);
      }
      blockRoots[index] := env.headerRoot(latestBlockHeader);
      WellFormedSameShape(s, Value());
    }

    /**
     * `process_epoch`: justification and finalization, rewards and penalties,
     * registry updates, slashings and final updates, each applied in place.
     */
    method ProcessEpoch(env: Env)
      requires Valid() && EpochProcessing.EpochEnd(Value()) && EpochProcessing.CheckpointsOrdered(Value())
      modifies this, justificationBits, slashings, randaoMixes
      ensures Valid() && Value() == SlotProcessing.ProcessEpoch(env, old(Value()))
    {
      ghost var s := Value();
      ProcessJustificationAndFinalization(env);
      EpochProcessing.JustificationAndFinalizationKeepsOrder(env, s);
      EpochProcessing.SameSlot(Value(), s);
      ProcessRewardsAndPenalties(env);
      ProcessRegistryUpdates();
      ProcessSlashings();
      ProcessFinalUpdates(env);
    }

    /** One iteration of the `process_slots` loop: the slot, the epoch transition on an epoch's last slot, and the next slot. */
    method AdvanceSlot(env: Env)
      requires Valid() && EpochProcessing.CheckpointsOrdered(Value())
      modifies this, blockRoots, stateRoots, randaoMixes, slashings, justificationBits
      ensures Valid() && Value() == SlotProcessing.AdvanceSlot(env, old(Value()))
    {
      ghost var s := Value();
      ProcessSlot(env);
      EpochProcessing.SameSlot(Value(), s);
      if (slot + 1) % SLOTS_PER_EPOCH == 0 {
        EpochTransition(env);
      } else {
        ghost var cached := Value();
        SlotProcessing.NextSlotInEpoch(cached);
        IncrementSlot();
      }
    }

    /** The epoch transition on the last slot of an epoch, then the move to the next slot. */
    method EpochTransition(env: Env)
      requires Valid() && EpochProcessing.EpochEnd(Value()) && EpochProcessing.CheckpointsOrdered(Value())
      modifies this, justificationBits, slashings, randaoMixes
      ensures Valid() && Value() == SlotProcessing.EpochTransition(env, old(Value()))
    {
      ghost var s := Value();
      ProcessEpoch(env);
      IncrementSlot();
      assert Value() == SlotProcessing.EpochTransition(env, s);
    }

    /** The last step of each iteration of the `process_slots` loop. */
    method IncrementSlot()
      modifies this
      ensures Value() == SlotProcessing.NextSlot(old(Value()))
    {
      slot := slot + 1;
    }

    /**
     * `process_slots`: the call fails, changing nothing, unless the target slot
     * lies ahead; otherwise the slots are processed one by one up to the target.
     */
    method ProcessSlots(env: Env, target: Slot) returns (ok: bool)
      requires Valid() && EpochProcessing.CheckpointsOrdered(Value())
      modifies this, blockRoots, stateRoots, randaoMixes, slashings, justificationBits
      ensures Valid()
      ensures ok == SlotProcessing.ProcessSlots(env, old(Value()), target).Some?
      ensures ok ==> Value() == SlotProcessing.ProcessSlots(env, old(Value()), target).value
      ensures !ok ==> Value() == old(Value())
    {
      if target <= slot {
        return false;
      }
      ghost var s := Value();
      while slot < target
        invariant Valid() && EpochProcessing.CheckpointsOrdered(Value()) && slot <= target
        invariant SlotProcessing.AdvanceSlots(env, Value(), target) == SlotProcessing.AdvanceSlots(env, s, target)
        decreases target - slot
      {
        AdvanceSlot(env);
      }
      return true;
    }

    // -------------------------------------------------------------------------
    // Block processing
    //
    // Each method fails (returns false) exactly where the matching function of
    // BlockProcessing is None. As in the source, a failure may leave the object
    // part-way through its updates; the state is then discarded.

    /**
     * `process_block_header`. The new header is written before the proposer's
     * slashed flag is checked, so a slashed proposer fails the call with the
     * header already replaced.
     */
    method ProcessBlockHeader(env: Env, block: BeaconBlock) returns (ok: bool)
      requires Valid()
      modifies this
      ensures Valid()
      ensures ok == BlockProcessing.ProcessBlockHeader(env, old(Value()), block).Some?
      ensures ok ==> Value() == BlockProcessing.ProcessBlockHeader(env, old(Value()), block).value
      ensures !ok ==> Value() == old(Value()) ||
                      Value() == old(Value()).(latestBlockHeader := BlockProcessing.HeaderOf(env, block))
    {
      ghost var s := Value();
      if block.slot != slot || block.slot <= latestBlockHeader.slot {
        return false;
      }
      var proposer := BeaconProposerIndex(env, Value());
      if proposer != Some(block.proposerIndex) || block.parentRoot != env.headerRoot(latestBlockHeader) {
        return false;
      }
      latestBlockHeader := BlockProcessing.HeaderOf(env, block);
      WellFormedSameShape(s, Value());
      ok := !validators[block.proposerIndex].slashed;
    }

    /** `process_randao`: the proposer's reveal is checked, then mixed into this epoch's entry. */
    method ProcessRandao(env: Env, body: BeaconBlockBody) returns (ok: bool)
      requires Valid()
      modifies randaoMixes
      ensures Valid()
      ensures ok == BlockProcessing.ProcessRandao(env, old(Value()), body).Some?
      ensures ok ==> Value() == BlockProcessing.ProcessRandao(env, old(Value()), body).value
      ensures !ok ==> Value() == old(Value())
    {
      ghost var s := Value();
      var epoch := CurrentEpoch(Value());
      var proposer := BeaconProposerIndex(env, Value());
      if proposer.None? {
        return false;
      }
      var signingRoot := env.signingRoot(EpochObject(epoch), GetDomain(env, Value(), DOMAIN_RANDAO, None));
      if !env.blsVerify(validators[proposer.value].pubkey, signingRoot, body.randaoReveal) {
        return false;
      }
      var mix := Xor(RandaoMix(Value(), epoch), env.hash(body.randaoReveal));
      randaoMixes[epoch % EPOCHS_PER_HISTORICAL_VECTOR] := mix;
      assert Value() == BlockProcessing.ProcessRandao(env, s, body).value;
      ok := true;
    }

    /** `process_eth1_data`: the vote is appended, and a majority vote is adopted. */
    method ProcessEth1Data(body: BeaconBlockBody)
      requires Valid()
      modifies this
      ensures Valid() && Value() == BlockProcessing.ProcessEth1Data(old(Value()), body)
    {
      eth1DataVotes := eth1DataVotes + [body.eth1Data];
      if BlockProcessing.VotesFor(eth1DataVotes, body.eth1Data) * 2 > EPOCHS_PER_ETH1_VOTING_PERIOD * SLOTS_PER_EPOCH {
        eth1Data := body.eth1Data;
      }
    }

    /** `process_proposer_slashing`: the checks on the two headers, then `slash_validator`. */
    method ProcessProposerSlashing(env: Env, slashing: ProposerSlashing) returns (ok: bool)
      requires Valid()
      modifies this, slashings
      ensures ok == BlockProcessing.ProcessProposerSlashing(env, old(Value()), slashing).Some?
      ensures ok ==> Valid() && Value() == BlockProcessing.ProcessProposerSlashing(env, old(Value()), slashing).value
    {
      var header1 := slashing.signedHeader1.message;
      var header2 := slashing.signedHeader2.message;
      if header1.slot != header2.slot || header1.proposerIndex != header2.proposerIndex || header1 == header2 {
        return false;
      }
      if header1.proposerIndex >= |validators| {
        return false;
      }
      var proposer := validators[header1.proposerIndex];
      if !IsSlashableValidator(proposer, CurrentEpoch(Value())) {
        return false;
      }
      if !BlockProcessing.HeaderSignatureValid(env, Value(), proposer, slashing.signedHeader1) ||
         !BlockProcessing.HeaderSignatureValid(env, Value(), proposer, slashing.signedHeader2) {
        return false;
      }
      ok := SlashValidator(env, header1.proposerIndex, None);
    }

    /** One turn of the `process_attester_slashing` loop: `slash_validator` if the validator is slashable. */
    method SlashIfSlashable(env: Env, index: ValidatorIndex, slashedAny: bool) returns (ok: bool, flag: bool)
      requires Valid() && index < |validators|
      modifies this, slashings
      ensures ok == BlockProcessing.SlashIfSlashable(env, old(Value()), index, slashedAny).Some?
      ensures ok ==> Valid() && (Value(), flag) == BlockProcessing.SlashIfSlashable(env, old(Value()), index, slashedAny).value
    {
      if !IsSlashableValidator(validators[index], CurrentEpoch(Value())) {
        return true, slashedAny;
      }
      ok := SlashValidator(env, index, None);
      flag := true;
    }

    /**
     * `process_attester_slashing`: the loop over the validators in both
     * attestations, in increasing index order, slashing each one still
     * slashable when its turn comes; it fails unless one was.
     */
    method ProcessAttesterSlashing(env: Env, slashing: AttesterSlashing) returns (ok: bool)
      requires Valid()
      modifies this, slashings
      ensures ok == BlockProcessing.ProcessAttesterSlashing(env, old(Value()), slashing).Some?
      ensures ok ==> Valid() && Value() == BlockProcessing.ProcessAttesterSlashing(env, old(Value()), slashing).value
    {
      var attestation1 := slashing.attestation1;
      var attestation2 := slashing.attestation2;
      if !IsSlashableAttestationData(attestation1.data, attestation2.data) {
        return false;
      }
      if !IsValidIndexedAttestation(env, Value(), attestation1) || !IsValidIndexedAttestation(env, Value(), attestation2) {
        return false;
      }
      var common := set i | i in attestation1.attestingIndices && i in attestation2.attestingIndices;
      var sorted := SortedIndices(common, |validators|);
      var slashedAny;
      ok, slashedAny := SlashEach(env, sorted);
      ok := ok && slashedAny;
    }

    /** The `process_attester_slashing` loop over the given validators, in order. */
    method SlashEach(env: Env, indices: seq<ValidatorIndex>) returns (ok: bool, slashedAny: bool)
      requires Valid() && forall k :: 0 <= k < |indices| ==> indices[k] < |validators|
      modifies this, slashings
      ensures ok == BlockProcessing.SlashEach(env, old(Value()), indices, false).Some?
      ensures ok ==> Valid() && (Value(), slashedAny) == BlockProcessing.SlashEach(env, old(Value()), indices, false).value
    {
      ghost var s := Value();
      slashedAny := false;
      var k := 0;
      while k < |indices|
        invariant 0 <= k <= |indices|
        invariant Valid() && |validators| == |s.validators|
        invariant BlockProcessing.SlashEach(env, Value(), indices[k..], slashedAny) == BlockProcessing.SlashEach(env, s, indices, false)
      {
        BlockProcessing.SlashEachFirst(env, Value(), indices[k..], slashedAny);
        assert indices[k..][1..] == indices[k + 1..];
        var turnOk, flag := SlashIfSlashable(env, indices[k], slashedAny);
        if !turnOk {
          return false, slashedAny;
        }
        slashedAny := flag;
        k := k + 1;
      }
      ok := true;
    }

    /**
     * `process_attestation`: the checks on the attestation's slot, epoch and
     * committee, then the pending attestation is appended to the list of its
     * target epoch once its source is checked.
     */
    method ProcessAttestation(env: Env, attestation: Attestation) returns (ok: bool)
      requires Valid()
      modifies this
      ensures ok == BlockProcessing.ProcessAttestation(env, old(Value()), attestation).Some?
      ensures ok ==> Valid() && Value() == BlockProcessing.ProcessAttestation(env, old(Value()), attestation).value
      ensures !ok ==> Value() == old(Value())
    {
      ghost var s := Value();
      var data := attestation.data;
      if data.index >= CommitteeCountAtSlot(Value(), data.slot) {
        return false;
      }
      if data.target.epoch != PreviousEpoch(Value()) && data.target.epoch != CurrentEpoch(Value()) {
        return false;
      }
      if data.target.epoch != ComputeEpochAtSlot(data.slot) {
        return false;
      }
      if !(data.slot + MIN_ATTESTATION_INCLUSION_DELAY <= slot <= data.slot + SLOTS_PER_EPOCH) {
        return false;
      }
      var committee := BeaconCommittee(env, Value(), data.slot, data.index).value;
      if |attestation.aggregationBits| != |committee| {
        return false;
      }
      var proposer := BeaconProposerIndex(env, Value());
      if proposer.None? {
        return false;
      }
      ok := RecordAttestation(attestation, proposer.value);
    }

    /** The recording half of `process_attestation`: the source check, then the append. */
    method RecordAttestation(attestation: Attestation, proposer: ValidatorIndex) returns (ok: bool)
      requires Valid() && proposer < |validators|
      requires attestation.data.target.epoch == PreviousEpoch(Value()) || attestation.data.target.epoch == CurrentEpoch(Value())
      requires attestation.data.target.epoch == ComputeEpochAtSlot(attestation.data.slot)
      requires attestation.data.slot + MIN_ATTESTATION_INCLUSION_DELAY <= slot
      modifies this
      ensures ok == BlockProcessing.RecordAttestation(old(Value()), attestation, proposer).Some?
      ensures ok ==> Valid() && Value() == BlockProcessing.RecordAttestation(old(Value()), attestation, proposer).value
      ensures !ok ==> Value() == old(Value())
    {
      var data := attestation.data;
      var pending := PendingAttestation(attestation.aggregationBits, data, slot - data.slot, proposer);
      if data.target.epoch == CurrentEpoch(Value()) {
        if data.source != currentJustifiedCheckpoint {
          return false;
        }
        currentEpochAttestations := currentEpochAttestations + [pending];
      } else {
        if data.source != previousJustifiedCheckpoint {
          return false;
        }
        previousEpochAttestations := previousEpochAttestations + [pending];
      }
      ok := true;
    }


    /**
     * `process_deposit`: the deposit index advances; a known key is topped up,
     * and a new key with a valid proof of possession is appended with its balance.
     */
    method ProcessDeposit(env: Env, deposit: Deposit)
      requires Valid()
      modifies this
      ensures Valid() && Value() == BlockProcessing.ProcessDeposit(env, old(Value()), deposit)
    {
      ghost var s := Value();
      eth1DepositIndex := eth1DepositIndex + 1;
      var data := deposit.data;
      var index := BlockProcessing.PubkeyIndex(validators, data.pubkey);
      if index.Some? {
        IncreaseBalance(index.value, data.amount);
      } else if BlockProcessing.DepositSignatureValid(env, data) {
        validators := validators + [BlockProcessing.NewValidator(data)];
        balances := balances + [data.amount];
      }
      assert Value() == BlockProcessing.ProcessDeposit(env, s, deposit);
    }

    /** `process_voluntary_exit`: the checks on the validator and its signature, then `initiate_validator_exit`. */
    method ProcessVoluntaryExit(env: Env, signed: SignedVoluntaryExit) returns (ok: bool)
      requires Valid()
      modifies this
      ensures ok == BlockProcessing.ProcessVoluntaryExit(env, old(Value()), signed).Some?
      ensures ok ==> Valid() && Value() == BlockProcessing.ProcessVoluntaryExit(env, old(Value()), signed).value
      ensures !ok ==> Value() == old(Value())
    {
      var exit := signed.message;
      if exit.validatorIndex >= |validators| {
        return false;
      }
      var v := validators[exit.validatorIndex];
      var epoch := CurrentEpoch(Value());
      if !IsActiveValidator(v, epoch) || v.exitEpoch != FAR_FUTURE_EPOCH {
        return false;
      }
      if epoch < exit.epoch || epoch < v.activationEpoch + SHARD_COMMITTEE_PERIOD {
        return false;
      }
      if !BlockProcessing.ExitSignatureValid(env, Value(), v, signed) {
        return false;
      }
      InitiateValidatorExit(exit.validatorIndex);
      ok := true;
    }

    /** One operation, by kind. */
    method ApplyOperation(env: Env, op: BlockProcessing.Operation) returns (ok: bool)
      requires Valid()
      modifies this, slashings
      ensures ok == BlockProcessing.ApplyOperation(env, old(Value()), op).Some?
      ensures ok ==> Valid() && Value() == BlockProcessing.ApplyOperation(env, old(Value()), op).value
    {
      match op
      case ProposerSlashingOp(slashing) =>
        ok := ProcessProposerSlashing(env, slashing);
      case AttesterSlashingOp(slashing) =>
        ok := ProcessAttesterSlashing(env, slashing);
      case AttestationOp(attestation) =>
        ok := ProcessAttestation(env, attestation);
      case DepositOp(deposit) =>
        ProcessDeposit(env, deposit);
        ok := true;
      case VoluntaryExitOp(exit) =>
        ok := ProcessVoluntaryExit(env, exit);
    }

    /**
     * `process_operations`: the deposit count is checked, then the five kinds
     * of operations are applied in their order, one loop over all of them.
     */
    method ProcessOperations(env: Env, body: BeaconBlockBody) returns (ok: bool)
      requires Valid()
      modifies this, slashings
      ensures ok == BlockProcessing.ProcessOperations(env, old(Value()), body).Some?
      ensures ok ==> Valid() && Value() == BlockProcessing.ProcessOperations(env, old(Value()), body).value
    {
      if !BlockProcessing.CarriesOutstandingDeposits(Value(), body) {
        return false;
      }
      ok := ApplyOperations(env, BlockProcessing.Operations(body));
    }

    /** The operations in order, one at a time; the first one rejected stops the loop. */
    method ApplyOperations(env: Env, ops: seq<BlockProcessing.Operation>) returns (ok: bool)
      requires Valid()
      modifies this, slashings
      ensures ok == BlockProcessing.ApplyOperations(env, old(Value()), ops).Some?
      ensures ok ==> Valid() && Value() == BlockProcessing.ApplyOperations(env, old(Value()), ops).value
    {
      ghost var s := Value();
      var k := 0;
      while k < |ops|
        invariant 0 <= k <= |ops| && Valid()
        invariant BlockProcessing.ApplyOperations(env, Value(), ops[k..]) == BlockProcessing.ApplyOperations(env, s, ops)
      {
        BlockProcessing.ApplyOperationsFirst(env, Value(), ops[k..]);
        assert ops[k..][1..] == ops[k + 1..];
        ok := ApplyOperation(env, ops[k]);
        if !ok {
          return;
        }
        k := k + 1;
      }
      ok := true;
    }

    /** `process_block`: header, RANDAO, eth1 data and operations, in place. */
    method ProcessBlock(env: Env, block: BeaconBlock) returns (ok: bool)
      requires Valid()
      modifies this, randaoMixes, slashings
      ensures ok == BlockProcessing.ProcessBlock(env, old(Value()), block).Some?
      ensures ok ==> Valid() && Value() == BlockProcessing.ProcessBlock(env, old(Value()), block).value
    {
      ok := ProcessBlockHeader(env, block);
      if ok {
        ok := ProcessBody(env, block.body);
      }
    }

    /** The body half of `process_block`: RANDAO, eth1 data, operations. */
    method ProcessBody(env: Env, body: BeaconBlockBody) returns (ok: bool)
      requires Valid()
      modifies this, randaoMixes, slashings
      ensures ok == BlockProcessing.ProcessBody(env, old(Value()), body).Some?
      ensures ok ==> Valid() && Value() == BlockProcessing.ProcessBody(env, old(Value()), body).value
    {
      ok := ProcessRandao(env, body);
      if !ok {
        return;
      }
      ProcessEth1Data(body);
      ok := ProcessOperations(env, body);
    }

    /** `state_transition`: the empty slots up to the block's, then the block, in place. */
    method StateTransition(env: Env, signed: SignedBeaconBlock, validateResult: bool) returns (ok: bool)
      requires Valid() && EpochProcessing.CheckpointsOrdered(Value())
      modifies this, blockRoots, stateRoots, randaoMixes, slashings, justificationBits
      ensures ok == BlockProcessing.StateTransition(env, old(Value()), signed, validateResult).Some?
      ensures ok ==> Valid() && Value() == BlockProcessing.StateTransition(env, old(Value()), signed, validateResult).value
    {
      ghost var s := Value();
      ok := ProcessSlots(env, signed.message.slot);
      if !ok {
        return;
      }
      ghost var advanced := Value();
      assert BlockProcessing.StateTransition(env, s, signed, validateResult) ==
             BlockProcessing.ApplySignedBlock(env, advanced, signed, validateResult);
      ok := ApplySignedBlock(env, signed, validateResult);
    }

    /**
     * The rest of `state_transition`: the proposer's signature, the block and
     * the state root it commits to; the two checks are skipped when
     * `validateResult` is false.
     */
    method ApplySignedBlock(env: Env, signed: SignedBeaconBlock, validateResult: bool) returns (ok: bool)
      requires Valid()
      modifies this, randaoMixes, slashings
      ensures ok == BlockProcessing.ApplySignedBlock(env, old(Value()), signed, validateResult).Some?
      ensures ok ==> Valid() && Value() == BlockProcessing.ApplySignedBlock(env, old(Value()), signed, validateResult).value
    {
      var block := signed.message;
      if validateResult && BlockProcessing.VerifyBlockSignature(env, Value(), signed) != Some(true) {
        return false;
      }
      ok := ProcessBlock(env, block);
      if ok && validateResult && block.stateRoot != env.stateRoot(Value()) {
        ok := false;
      }
    }
  }
}
