/**
 * The registry mutators of phase 0 as functions from a state to the state they
 * leave behind: balance changes, the exit queue, and slashing. The class in
 * `state_object.dfy` performs the same updates in place and is proved to agree.
 */
module Mutators {
  import opened Wrappers
  import opened Constants
  import opened Types
  import opened IntegerMath
  import opened Helpers

  // ---------------------------------------------------------------------------
  // Balances

  /** The sum of a list of balances. */
  function Sum(balances: seq<Gwei>): nat {
    if |balances| == 0 then 0 else Sum(balances[..|balances| - 1]) + balances[|balances| - 1]
  }

  /** Replacing one balance changes the sum by the difference. */
  lemma {:induction false} SumUpdate(balances: seq<Gwei>, index: nat, value: Gwei)
    requires index < |balances|
    ensures Sum(balances[index := value]) + balances[index] == Sum(balances) + value
  {
    var n := |balances|;
    var updated := balances[index := value];
    if index == n - 1 {
      assert updated[..n - 1] == balances[..n - 1];
    } else {
      assert updated[..n - 1] == balances[..n - 1][index := value];
      SumUpdate(balances[..n - 1], index, value);
    }
  }

  /** `increase_balance`. */
  function IncreaseBalance(s: State, index: ValidatorIndex, delta: Gwei): (r: State)
    requires index < |s.balances|
    ensures |r.balances| == |s.balances| && r.balances[index] == s.balances[index] + delta
    ensures forall j :: 0 <= j < |s.balances| && j != index ==> r.balances[j] == s.balances[j]
    ensures r == s.(balances := r.balances)
  {
    s.(balances := s.balances[index := s.balances[index] + delta])
  }

  /** Increasing a balance by `delta` increases the total by `delta`. */
  lemma IncreaseBalanceSum(s: State, index: ValidatorIndex, delta: Gwei)
    requires index < |s.balances|
    ensures Sum(IncreaseBalance(s, index, delta).balances) == Sum(s.balances) + delta
  {
    SumUpdate(s.balances, index, s.balances[index] + delta);
  }

  /** `decrease_balance`: lowers a balance by `delta`, but never below zero. */
  function DecreaseBalance(s: State, index: ValidatorIndex, delta: Gwei): (r: State)
    requires index < |s.balances|
    ensures |r.balances| == |s.balances| && r.balances[index] == Max(0, s.balances[index] - delta)
    ensures forall j :: 0 <= j < |s.balances| && j != index ==> r.balances[j] == s.balances[j]
    ensures r == s.(balances := r.balances)
  {
    var value := if delta > s.balances[index] then 0 else s.balances[index] - delta;
    s.(balances := s.balances[index := value])
  }

  /** Decreasing a balance lowers the total by `delta`, or by the whole balance if that is smaller. */
  lemma DecreaseBalanceSum(s: State, index: ValidatorIndex, delta: Gwei)
    requires index < |s.balances|
    ensures Sum(DecreaseBalance(s, index, delta).balances) + Min(s.balances[index], delta) == Sum(s.balances)
  {
    SumUpdate(s.balances, index, if delta > s.balances[index] then 0 else s.balances[index] - delta);
  }

  /** Taking back what was just added restores the state. */
  lemma DecreaseUndoesIncrease(s: State, index: ValidatorIndex, delta: Gwei)
    requires index < |s.balances|
    ensures DecreaseBalance(IncreaseBalance(s, index, delta), index, delta) == s
  {
    var r := DecreaseBalance(IncreaseBalance(s, index, delta), index, delta);
    assert r.balances == s.balances;
  }

  // ---------------------------------------------------------------------------
  // The exit queue

  /**
   * The latest of `floor` and the exit epochs of the first n validators that
   * have one (an exit epoch other than FAR_FUTURE_EPOCH).
   */
  function LatestExitEpoch(validators: seq<Validator>, floor: Epoch, n: nat): (r: Epoch)
    requires n <= |validators|
    ensures r >= floor
    ensures forall j :: 0 <= j < n && validators[j].exitEpoch != FAR_FUTURE_EPOCH ==> validators[j].exitEpoch <= r
    ensures r == floor || exists j :: 0 <= j < n && validators[j].exitEpoch != FAR_FUTURE_EPOCH && validators[j].exitEpoch == r
  {
    if n == 0 then floor
    else
      var rest := LatestExitEpoch(validators, floor, n - 1);
      var exit := validators[n - 1].exitEpoch;
      if exit != FAR_FUTURE_EPOCH && exit > rest then exit else rest
  }

  /** How many of the first n validators exit at `epoch`. */
  function CountExitingAt(validators: seq<Validator>, epoch: Epoch, n: nat): (r: nat)
    requires n <= |validators|
    ensures r <= n
  {
    if n == 0 then 0
    else CountExitingAt(validators, epoch, n - 1) + (if validators[n - 1].exitEpoch == epoch then 1 else 0)
  }

  /** Replacing one validator changes the count by what the two entries contribute. */
  lemma {:induction false} CountExitingAtUpdate(validators: seq<Validator>, index: nat, v: Validator, epoch: Epoch, n: nat)
    requires index < |validators| && n <= |validators|
    ensures CountExitingAt(validators[index := v], epoch, n)
              + (if index < n && validators[index].exitEpoch == epoch then 1 else 0)
         == CountExitingAt(validators, epoch, n)
              + (if index < n && v.exitEpoch == epoch then 1 else 0)
  {
    if n > 0 {
      CountExitingAtUpdate(validators, index, v, epoch, n - 1);
    }
  }

  /** No validator exits at an epoch later than every scheduled exit. */
  lemma {:induction false} NoneExitingAfterLatest(validators: seq<Validator>, floor: Epoch, epoch: Epoch, n: nat)
    requires n <= |validators| && LatestExitEpoch(validators, floor, n) < epoch < FAR_FUTURE_EPOCH
    ensures CountExitingAt(validators, epoch, n) == 0
  {
    if n > 0 {
      assert LatestExitEpoch(validators, floor, n - 1) <= LatestExitEpoch(validators, floor, n);
      NoneExitingAfterLatest(validators, floor, epoch, n - 1);
    }
  }

  /**
   * The epoch `initiate_validator_exit` assigns: the latest scheduled exit or the
   * activation-exit epoch of the current epoch, whichever is later, moved one
   * epoch on (once) when that epoch already holds a churn limit's worth of exits.
   */
  function ExitQueueEpoch(s: State): (r: Epoch)
    ensures r >= ComputeActivationExitEpoch(CurrentEpoch(s))
    ensures forall j :: 0 <= j < |s.validators| && s.validators[j].exitEpoch != FAR_FUTURE_EPOCH ==> s.validators[j].exitEpoch <= r
  {
    var latest := LatestExitEpoch(s.validators, ComputeActivationExitEpoch(CurrentEpoch(s)), |s.validators|);
    if CountExitingAt(s.validators, latest, |s.validators|) >= ValidatorChurnLimit(s) then latest + 1 else latest
  }

  /** Two registries of one length whose validators agree on their activation and exit epochs. */
  predicate SameActivationsAndExits(a: seq<Validator>, b: seq<Validator>) {
    |a| == |b| && forall i :: 0 <= i < |a| ==> a[i].activationEpoch == b[i].activationEpoch && a[i].exitEpoch == b[i].exitEpoch
  }

  lemma {:induction false} LatestExitEpochSame(a: seq<Validator>, b: seq<Validator>, floor: Epoch, n: nat)
    requires SameActivationsAndExits(a, b) && n <= |a|
    ensures LatestExitEpoch(a, floor, n) == LatestExitEpoch(b, floor, n)
  {
    if n > 0 {
      LatestExitEpochSame(a, b, floor, n - 1);
    }
  }

  lemma {:induction false} CountExitingAtSame(a: seq<Validator>, b: seq<Validator>, epoch: Epoch, n: nat)
    requires SameActivationsAndExits(a, b) && n <= |a|
    ensures CountExitingAt(a, epoch, n) == CountExitingAt(b, epoch, n)
  {
    if n > 0 {
      CountExitingAtSame(a, b, epoch, n - 1);
    }
  }

  lemma {:induction false} IndicesWhereSame(n: nat, p: nat -> bool, q: nat -> bool)
    requires forall i :: 0 <= i < n ==> p(i) == q(i)
    ensures IndicesWhere(n, p) == IndicesWhere(n, q)
  {
    if n > 0 {
      IndicesWhereSame(n - 1, p, q);
    }
  }

  lemma ActiveValidatorIndicesSame(a: seq<Validator>, b: seq<Validator>, epoch: Epoch)
    requires SameActivationsAndExits(a, b)
    ensures ActiveValidatorIndices(a, epoch) == ActiveValidatorIndices(b, epoch)
  {
    IndicesWhereSame(|a|, (i: nat) => i < |a| && IsActiveValidator(a[i], epoch), (i: nat) => i < |b| && IsActiveValidator(b[i], epoch));
  }

  /**
   * The exit queue epoch depends only on the slot and on the validators'
   * activation and exit epochs: changing anything else in the registry (an
   * eligibility epoch, say) leaves it where it was.
   */
  lemma ExitQueueEpochSame(s: State, t: State)
    requires s.slot == t.slot && SameActivationsAndExits(s.validators, t.validators)
    ensures ExitQueueEpoch(s) == ExitQueueEpoch(t)
  {
    var n := |s.validators|;
    var floor := ComputeActivationExitEpoch(CurrentEpoch(s));
    LatestExitEpochSame(s.validators, t.validators, floor, n);
    CountExitingAtSame(s.validators, t.validators, LatestExitEpoch(s.validators, floor, n), n);
    ActiveValidatorIndicesSame(s.validators, t.validators, CurrentEpoch(s));
  }

  /**
   * `initiate_validator_exit`: nothing changes for a validator that already has an
   * exit epoch; otherwise it gets the exit queue epoch, and can withdraw
   * MIN_VALIDATOR_WITHDRAWABILITY_DELAY epochs later.
   */
  function InitiateValidatorExit(s: State, index: ValidatorIndex): (r: State)
    requires index < |s.validators|
    ensures s.validators[index].exitEpoch != FAR_FUTURE_EPOCH ==> r == s
    ensures s.validators[index].exitEpoch == FAR_FUTURE_EPOCH ==>
              var q := ExitQueueEpoch(s);
              r == s.(validators := s.validators[index := s.validators[index].(exitEpoch := q,
                                                    withdrawableEpoch := q + MIN_VALIDATOR_WITHDRAWABILITY_DELAY)])
  {
    var v := s.validators[index];
    if v.exitEpoch != FAR_FUTURE_EPOCH then s
    else
      var q := ExitQueueEpoch(s);
      s.(validators := s.validators[index := v.(exitEpoch := q, withdrawableEpoch := q + MIN_VALIDATOR_WITHDRAWABILITY_DELAY)])
  }

  /**
   * The exit queue epoch is the latest scheduled exit (or the activation-exit
   * epoch) or one past it: the source bumps it with an `if`, not a loop.
   */
  lemma ExitQueueEpochBumpedAtMostOnce(s: State)
    ensures var latest := LatestExitEpoch(s.validators, ComputeActivationExitEpoch(CurrentEpoch(s)), |s.validators|);
            ExitQueueEpoch(s) == latest || ExitQueueEpoch(s) == latest + 1
  {
  }

  /**
   * After a validator is queued for exit, its exit epoch holds at most the churn
   * limit of exits: either there was room at the latest exit epoch, or the one
   * after it was empty.
   */
  lemma ExitQueueRespectsChurn(s: State, index: ValidatorIndex)
    requires index < |s.validators| && s.validators[index].exitEpoch == FAR_FUTURE_EPOCH
    requires ExitQueueEpoch(s) < FAR_FUTURE_EPOCH
    ensures var r := InitiateValidatorExit(s, index);
            var q := ExitQueueEpoch(s);
            CountExitingAt(r.validators, q, |r.validators|) <= ValidatorChurnLimit(s)
  {
    var n := |s.validators|;
    var floor := ComputeActivationExitEpoch(CurrentEpoch(s));
    var latest := LatestExitEpoch(s.validators, floor, n);
    var q := ExitQueueEpoch(s);
    var v := s.validators[index].(exitEpoch := q, withdrawableEpoch := q + MIN_VALIDATOR_WITHDRAWABILITY_DELAY);
    CountExitingAtUpdate(s.validators, index, v, q, n);
    if q == latest + 1 {
      NoneExitingAfterLatest(s.validators, floor, q, n);
    }
  }

  // ---------------------------------------------------------------------------
  // Slashing

  /** The whistleblower's reward for reporting a validator with this effective balance. */
  function WhistleblowerReward(effectiveBalance: Gwei): Gwei {
    effectiveBalance / WHISTLEBLOWER_REWARD_QUOTIENT
  }

  /** The proposer's part of the whistleblower reward. */
  function ProposerReward(effectiveBalance: Gwei): (r: Gwei)
    ensures r <= WhistleblowerReward(effectiveBalance)
  {
    WhistleblowerReward(effectiveBalance) / PROPOSER_REWARD_QUOTIENT
  }

  /**
   * A state that differs from a well-formed one only in its validators (not their
   * number), balances (not their number) or slashings entries is well-formed.
   */
  lemma WellFormedFrame(s: State, r: State)
    requires WellFormed(s)
    requires r == s.(validators := r.validators, balances := r.balances, slashings := r.slashings)
    requires |r.validators| == |s.validators| && |r.balances| == |s.balances| && |r.slashings| == |s.slashings|
    ensures WellFormed(r)
  {
  }

  /**
   * The bookkeeping half of `slash_validator`: queue the validator's exit, mark it
   * slashed, delay its withdrawal to at least EPOCHS_PER_SLASHINGS_VECTOR epochs
   * from now, and add its effective balance to this epoch's slashings entry.
   */
  function MarkSlashed(s: State, index: ValidatorIndex): (r: State)
    requires WellFormed(s) && index < |s.validators|
    ensures WellFormed(r) && |r.validators| == |s.validators| && r.balances == s.balances
    ensures r == s.(validators := r.validators, slashings := r.slashings)
    ensures var epoch := CurrentEpoch(s);
            var v := r.validators[index];
            var exited := InitiateValidatorExit(s, index).validators[index];
            v.slashed && v.exitEpoch == exited.exitEpoch &&
            v.withdrawableEpoch == Max(exited.withdrawableEpoch, epoch + EPOCHS_PER_SLASHINGS_VECTOR) &&
            v == s.validators[index].(slashed := true, exitEpoch := v.exitEpoch, withdrawableEpoch := v.withdrawableEpoch) &&
            r.slashings == s.slashings[epoch % EPOCHS_PER_SLASHINGS_VECTOR :=
                             s.slashings[epoch % EPOCHS_PER_SLASHINGS_VECTOR] + v.effectiveBalance]
    ensures forall j :: 0 <= j < |s.validators| && j != index ==> r.validators[j] == s.validators[j]
  {
    var epoch := CurrentEpoch(s);
    var exited := InitiateValidatorExit(s, index);
    var v := exited.validators[index];
    var slashedValidator := v.(slashed := true, withdrawableEpoch := Max(v.withdrawableEpoch, epoch + EPOCHS_PER_SLASHINGS_VECTOR));
    var entry := epoch % EPOCHS_PER_SLASHINGS_VECTOR;
    var r := exited.(validators := exited.validators[index := slashedValidator],
                     slashings := exited.slashings[entry := exited.slashings[entry] + v.effectiveBalance]);
    WellFormedFrame(s, r);
    r
  }

  /**
   * The penalty half of `slash_validator`: the bookkeeping of MarkSlashed, then
   * the slashed validator's balance cut by its effective balance divided by
   * MIN_SLASHING_PENALTY_QUOTIENT.
   */
  function PenaliseSlashed(s: State, slashedIndex: ValidatorIndex): (r: State)
    requires WellFormed(s) && slashedIndex < |s.validators|
    ensures WellFormed(r) && |r.validators| == |s.validators| && |r.balances| == |s.balances|
    ensures r == MarkSlashed(s, slashedIndex).(balances := r.balances)
    ensures r.balances[slashedIndex] ==
              Max(0, s.balances[slashedIndex] - s.validators[slashedIndex].effectiveBalance / MIN_SLASHING_PENALTY_QUOTIENT)
    ensures forall j :: 0 <= j < |s.balances| && j != slashedIndex ==> r.balances[j] == s.balances[j]
  {
    var marked := MarkSlashed(s, slashedIndex);
    var eb := marked.validators[slashedIndex].effectiveBalance;
    var r := DecreaseBalance(marked, slashedIndex, eb / MIN_SLASHING_PENALTY_QUOTIENT);
    WellFormedFrame(s, r);
    r
  }

  /**
   * The reward half of `slash_validator`: the proposer receives its part of the
   * whistleblower reward and the whistleblower the rest.
   */
  function PayWhistleblower(s: State, proposerIndex: ValidatorIndex, whistleblower: ValidatorIndex, effectiveBalance: Gwei)
    : (r: State)
    requires proposerIndex < |s.balances| && whistleblower < |s.balances|
    ensures r == s.(balances := r.balances) && |r.balances| == |s.balances|
    ensures forall j :: 0 <= j < |s.balances| ==>
              r.balances[j] == s.balances[j] + (if j == proposerIndex then ProposerReward(effectiveBalance) else 0)
                               + (if j == whistleblower then WhistleblowerReward(effectiveBalance) - ProposerReward(effectiveBalance) else 0)
  {
    var paid := IncreaseBalance(s, proposerIndex, ProposerReward(effectiveBalance));
    IncreaseBalance(paid, whistleblower, WhistleblowerReward(effectiveBalance) - ProposerReward(effectiveBalance))
  }

  /**
   * `slash_validator`: PenaliseSlashed, then PayWhistleblower with the block
   * proposer as the proposer and as the whistleblower when none is named. None
   * where the source fails to find a proposer.
   */
  function SlashValidator(env: Env, s: State, slashedIndex: ValidatorIndex, whistleblowerIndex: Option<ValidatorIndex>)
    : (r: Option<State>)
    requires WellFormed(s) && slashedIndex < |s.validators|
    requires whistleblowerIndex.Some? ==> whistleblowerIndex.value < |s.validators|
    ensures r.Some? ==> WellFormed(r.value) && |r.value.validators| == |s.validators|
    ensures r.Some? ==> r.value == MarkSlashed(s, slashedIndex).(balances := r.value.balances)
    ensures r.Some? <==> BeaconProposerIndex(env, PenaliseSlashed(s, slashedIndex)).Some?
    ensures r.Some? ==>
              var eb := s.validators[slashedIndex].effectiveBalance;
              var proposer := BeaconProposerIndex(env, PenaliseSlashed(s, slashedIndex)).value;
              var whistleblower := if whistleblowerIndex.Some? then whistleblowerIndex.value else proposer;
              SlashedBalances(s.balances, r.value.balances, slashedIndex, eb / MIN_SLASHING_PENALTY_QUOTIENT, proposer, whistleblower, eb)
  {
    var penalised := PenaliseSlashed(s, slashedIndex);
    match BeaconProposerIndex(env, penalised)
    case None => None
    case Some(proposerIndex) =>
      var whistleblower := if whistleblowerIndex.Some? then whistleblowerIndex.value else proposerIndex;
      Some(RewardSlashing(s, slashedIndex, proposerIndex, whistleblower))
  }

  /**
   * PenaliseSlashed, then PayWhistleblower with the given proposer and
   * whistleblower: `slash_validator` once the proposer is known.
   */
  function RewardSlashing(s: State, slashedIndex: ValidatorIndex, proposerIndex: ValidatorIndex, whistleblower: ValidatorIndex)
    : (r: State)
    requires WellFormed(s) && slashedIndex < |s.validators| && proposerIndex < |s.validators| && whistleblower < |s.validators|
    ensures WellFormed(r) && |r.validators| == |s.validators|
    ensures r == MarkSlashed(s, slashedIndex).(balances := r.balances)
    ensures var eb := s.validators[slashedIndex].effectiveBalance;
            SlashedBalances(s.balances, r.balances, slashedIndex, eb / MIN_SLASHING_PENALTY_QUOTIENT, proposerIndex, whistleblower, eb)
  {
    var penalised := PenaliseSlashed(s, slashedIndex);
    var eb := s.validators[slashedIndex].effectiveBalance;
    var r := PayWhistleblower(penalised, proposerIndex, whistleblower, eb);
    WellFormedFrame(s, r);
    SlashedBalancesOfSteps(s.balances, penalised.balances, r.balances, slashedIndex, eb / MIN_SLASHING_PENALTY_QUOTIENT,
                           proposerIndex, whistleblower, eb);
    r
  }

  /**
   * The balances `slash_validator` leaves, `after` from `before`: the slashed
   * validator's cut by `penalty` (floored at zero), the proposer's raised by its
   * part of the whistleblower reward for `effectiveBalance`, the whistleblower's
   * by the rest (both when they are one validator), and no other changed.
   */
  predicate SlashedBalances(before: seq<Gwei>, after: seq<Gwei>, slashedIndex: nat, penalty: Gwei,
                            proposer: nat, whistleblower: nat, effectiveBalance: Gwei)
  {
    |after| == |before| &&
    forall j :: 0 <= j < |before| ==>
      after[j] == (if j == slashedIndex then Max(0, before[j] - penalty) else before[j])
                  + (if j == proposer then ProposerReward(effectiveBalance) else 0)
                  + (if j == whistleblower then WhistleblowerReward(effectiveBalance) - ProposerReward(effectiveBalance) else 0)
  }

  /** The penalty step followed by the reward step leaves SlashedBalances. */
  lemma SlashedBalancesOfSteps(before: seq<Gwei>, penalised: seq<Gwei>, after: seq<Gwei>, slashedIndex: nat, penalty: Gwei,
                               proposer: nat, whistleblower: nat, effectiveBalance: Gwei)
    requires slashedIndex < |before| && |penalised| == |before| && |after| == |before|
    requires penalised[slashedIndex] == Max(0, before[slashedIndex] - penalty)
    requires forall j :: 0 <= j < |before| && j != slashedIndex ==> penalised[j] == before[j]
    requires forall j :: 0 <= j < |before| ==>
               after[j] == penalised[j] + (if j == proposer then ProposerReward(effectiveBalance) else 0)
                           + (if j == whistleblower then WhistleblowerReward(effectiveBalance) - ProposerReward(effectiveBalance) else 0)
    ensures SlashedBalances(before, after, slashedIndex, penalty, proposer, whistleblower, effectiveBalance)
  {
  }

  /**
   * Slashing accounting: the total balance falls by the slashed validator's
   * penalty (its effective balance divided by MIN_SLASHING_PENALTY_QUOTIENT, or
   * its whole balance if that is less) and rises by the whistleblower reward.
   */
  lemma SlashValidatorAccounting(env: Env, s: State, slashedIndex: ValidatorIndex, whistleblowerIndex: Option<ValidatorIndex>)
    requires WellFormed(s) && slashedIndex < |s.validators|
    requires whistleblowerIndex.Some? ==> whistleblowerIndex.value < |s.validators|
    ensures var r := SlashValidator(env, s, slashedIndex, whistleblowerIndex);
            var eb := s.validators[slashedIndex].effectiveBalance;
            r.Some? ==> Sum(r.value.balances) + Min(s.balances[slashedIndex], eb / MIN_SLASHING_PENALTY_QUOTIENT)
                          == Sum(s.balances) + WhistleblowerReward(eb)
  {
    var eb := s.validators[slashedIndex].effectiveBalance;
    var penalised := PenaliseSlashed(s, slashedIndex);
    PenaliseSlashedSum(s, slashedIndex);
    match BeaconProposerIndex(env, penalised)
    case None =>
    case Some(proposerIndex) =>
      var whistleblower := if whistleblowerIndex.Some? then whistleblowerIndex.value else proposerIndex;
      PayWhistleblowerSum(penalised, proposerIndex, whistleblower, eb);
      assert SlashValidator(env, s, slashedIndex, whistleblowerIndex) == Some(PayWhistleblower(penalised, proposerIndex, whistleblower, eb));
  }

  /** The penalty half lowers the total balance by the penalty, or by the whole balance if that is less. */
  lemma PenaliseSlashedSum(s: State, slashedIndex: ValidatorIndex)
    requires WellFormed(s) && slashedIndex < |s.validators|
    ensures var eb := s.validators[slashedIndex].effectiveBalance;
            Sum(PenaliseSlashed(s, slashedIndex).balances) + Min(s.balances[slashedIndex], eb / MIN_SLASHING_PENALTY_QUOTIENT)
              == Sum(s.balances)
  {
    var eb := s.validators[slashedIndex].effectiveBalance;
    var marked := MarkSlashed(s, slashedIndex);
    DecreaseBalanceSum(marked, slashedIndex, eb / MIN_SLASHING_PENALTY_QUOTIENT);
  }

  /** The reward half raises the total balance by the whistleblower reward. */
  lemma PayWhistleblowerSum(s: State, proposerIndex: ValidatorIndex, whistleblower: ValidatorIndex, effectiveBalance: Gwei)
    requires proposerIndex < |s.balances| && whistleblower < |s.balances|
    ensures Sum(PayWhistleblower(s, proposerIndex, whistleblower, effectiveBalance).balances)
              == Sum(s.balances) + WhistleblowerReward(effectiveBalance)
  {
    var paid := IncreaseBalance(s, proposerIndex, ProposerReward(effectiveBalance));
    IncreaseBalanceSum(s, proposerIndex, ProposerReward(effectiveBalance));
    IncreaseBalanceSum(paid, whistleblower, WhistleblowerReward(effectiveBalance) - ProposerReward(effectiveBalance));
  }

  /**
   * The proposer's reward and the whistleblower's share add up to the whistleblower
   * reward; with no whistleblower named, the proposer receives all of it.
   */
  lemma RewardsSplit(effectiveBalance: Gwei)
    ensures ProposerReward(effectiveBalance) + (WhistleblowerReward(effectiveBalance) - ProposerReward(effectiveBalance))
              == WhistleblowerReward(effectiveBalance)
    ensures ProposerReward(effectiveBalance) * PROPOSER_REWARD_QUOTIENT <= WhistleblowerReward(effectiveBalance)
  {
  }

  /**
   * A successful slashing leaves the validator slashed, leaves every validator
   * that was slashed still slashed, and touches nothing outside the registry,
   * the balances and the slashings vector.
   */
  lemma SlashValidatorMarksSlashed(env: Env, s: State, slashedIndex: ValidatorIndex, whistleblowerIndex: Option<ValidatorIndex>)
    requires WellFormed(s) && slashedIndex < |s.validators|
    requires whistleblowerIndex.Some? ==> whistleblowerIndex.value < |s.validators|
    ensures var r := SlashValidator(env, s, slashedIndex, whistleblowerIndex);
            r.Some? ==> r.value.validators[slashedIndex].slashed &&
                        (forall i :: 0 <= i < |s.validators| && s.validators[i].slashed ==> r.value.validators[i].slashed) &&
                        r.value == s.(validators := r.value.validators, balances := r.value.balances, slashings := r.value.slashings)
  {
    var marked := MarkSlashed(s, slashedIndex);
    assert marked.validators[slashedIndex].slashed;
  }
}
