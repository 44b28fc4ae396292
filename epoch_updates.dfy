/**
 * The last three steps of epoch processing as functions on state values:
 * registry updates (activation eligibility, ejections and the activation queue),
 * the proportional slashing penalties, and the final updates (effective balances
 * with hysteresis, the per-epoch vectors, the historical roots and the rotation
 * of the pending attestations).
 */
module EpochUpdates {
  import opened Wrappers
  import opened Constants
  import opened Types
  import opened IntegerMath
  import opened Eth2Arith
  import opened Helpers
  import opened Mutators
  import opened EpochProcessing
  import opened Rewards

  // ---------------------------------------------------------------------------
  // Registry updates

  /**
   * What one pass of the first loop of `process_registry_updates` does to
   * validator `v`, leaving `w`: the eligibility epoch becomes the next epoch if
   * `v` was eligible for the activation queue; an active validator whose
   * effective balance fell to EJECTION_BALANCE and that was not yet exiting gets
   * the exit queue's epoch `queueEpoch` (of the registry as it stands at its turn)
   * as exit epoch and a withdrawable epoch MIN_VALIDATOR_WITHDRAWABILITY_DELAY
   * after it; nothing else changes.
   */
  predicate MarkedOrEjected(epoch: Epoch, queueEpoch: Epoch, v: Validator, w: Validator) {
    var ejected := IsActiveValidator(v, epoch) && v.effectiveBalance <= EJECTION_BALANCE && v.exitEpoch == FAR_FUTURE_EPOCH;
    w.activationEligibilityEpoch == (if IsEligibleForActivationQueue(v) then epoch + 1 else v.activationEligibilityEpoch) &&
    w.activationEpoch == v.activationEpoch && w.effectiveBalance == v.effectiveBalance && w.slashed == v.slashed &&
    w.pubkey == v.pubkey && w.withdrawalCredentials == v.withdrawalCredentials &&
    (!ejected ==> w.exitEpoch == v.exitEpoch && w.withdrawableEpoch == v.withdrawableEpoch) &&
    (ejected ==> w.exitEpoch == queueEpoch && w.withdrawableEpoch == queueEpoch + MIN_VALIDATOR_WITHDRAWABILITY_DELAY)
  }

  /** One pass of the first loop of `process_registry_updates`, for validator `index`. */
  function MarkEligibleOrEject(s: State, index: ValidatorIndex): (r: State)
    requires WellFormed(s) && index < |s.validators|
    ensures WellFormed(r) && r == s.(validators := r.validators) && |r.validators| == |s.validators|
    ensures forall j :: 0 <= j < |s.validators| && j != index ==> r.validators[j] == s.validators[j]
    ensures MarkedOrEjected(CurrentEpoch(s), ExitQueueEpoch(s), s.validators[index], r.validators[index])
  {
    var v := s.validators[index];
    var marked := if IsEligibleForActivationQueue(v)
                  then s.(validators := s.validators[index := v.(activationEligibilityEpoch := CurrentEpoch(s) + 1)])
                  else s;
    var w := marked.validators[index];
    ExitQueueEpochSame(s, marked);
    var r := if IsActiveValidator(w, CurrentEpoch(marked)) && w.effectiveBalance <= EJECTION_BALANCE
             then InitiateValidatorExit(marked, index) else marked;
    WellFormedFrame(s, r);
    r
  }

  /** The first loop of `process_registry_updates`, over the first n validators. */
  function EligibilityAndEjections(s: State, n: nat): (r: State)
    requires WellFormed(s) && n <= |s.validators|
    ensures WellFormed(r) && r == s.(validators := r.validators) && |r.validators| == |s.validators|
    ensures forall j :: n <= j < |s.validators| ==> r.validators[j] == s.validators[j]
    ensures forall j :: 0 <= j < n ==>
              MarkedOrEjected(CurrentEpoch(s), ExitQueueEpoch(s.(validators := r.validators[..j] + s.validators[j..])),
                              s.validators[j], r.validators[j])
    decreases n
  {
    if n == 0 then s
    else
      var before := EligibilityAndEjections(s, n - 1);
      var r := MarkEligibleOrEject(before, n - 1);
      EligibilityAndEjectionsStep(s, before.validators, r.validators, n);
      r
  }

  /** The inductive step of EligibilityAndEjections: validator n - 1's turn, after the first n - 1. */
  lemma {:induction false} EligibilityAndEjectionsStep(s: State, before: seq<Validator>, after: seq<Validator>, n: nat)
    requires 0 < n <= |s.validators| && |before| == |s.validators| && |after| == |s.validators|
    requires forall j :: n - 1 <= j < |s.validators| ==> before[j] == s.validators[j]
    requires forall j :: 0 <= j < n - 1 ==>
               MarkedOrEjected(CurrentEpoch(s), ExitQueueEpoch(s.(validators := before[..j] + s.validators[j..])),
                               s.validators[j], before[j])
    requires forall j :: 0 <= j < |s.validators| && j != n - 1 ==> after[j] == before[j]
    requires MarkedOrEjected(CurrentEpoch(s), ExitQueueEpoch(s.(validators := before)), before[n - 1], after[n - 1])
    ensures forall j :: 0 <= j < n ==>
              MarkedOrEjected(CurrentEpoch(s), ExitQueueEpoch(s.(validators := after[..j] + s.validators[j..])),
                              s.validators[j], after[j])
  {
    forall j | 0 <= j < n
      ensures MarkedOrEjected(CurrentEpoch(s), ExitQueueEpoch(s.(validators := after[..j] + s.validators[j..])),
                              s.validators[j], after[j])
    {
      PrefixReplaced(s.validators, before, after, n, j);
    }
  }

  /**
   * After validator n - 1's turn, the registry as it stood when validator j < n
   * had its turn is what it was before that turn (j == n - 1), or is unchanged.
   */
  lemma PrefixReplaced(vs: seq<Validator>, before: seq<Validator>, after: seq<Validator>, n: nat, j: nat)
    requires 0 < n <= |vs| && |before| == |vs| && |after| == |vs| && j < n
    requires forall k :: n - 1 <= k < |vs| ==> before[k] == vs[k]
    requires forall k :: 0 <= k < |vs| && k != n - 1 ==> after[k] == before[k]
    ensures after[..j] + vs[j..] == if j == n - 1 then before else before[..j] + vs[j..]
  {
    if j == n - 1 {
      assert before == after[..j] + vs[j..];
    } else {
      assert before[..j] == after[..j];
    }
  }

  /**
   * The activation queue order: earlier activation eligibility epoch first, and
   * the lower index first among equal epochs.
   */
  predicate QueuedBefore(validators: seq<Validator>, i: ValidatorIndex, j: ValidatorIndex)
    requires i < |validators| && j < |validators|
  {
    validators[i].activationEligibilityEpoch < validators[j].activationEligibilityEpoch ||
    (validators[i].activationEligibilityEpoch == validators[j].activationEligibilityEpoch && i < j)
  }

  predicate InRange(q: seq<ValidatorIndex>, n: nat) {
    forall k :: 0 <= k < |q| ==> q[k] < n
  }

  /** A queue sorted by QueuedBefore; as the order is strict, no index appears twice. */
  predicate QueueSorted(validators: seq<Validator>, q: seq<ValidatorIndex>)
    requires InRange(q, |validators|)
  {
    forall a, b {:trigger QueuedBefore(validators, q[a], q[b])} :: 0 <= a < b < |q| ==> QueuedBefore(validators, q[a], q[b])
  }

  /** Inserts an index into a sorted queue at its place. */
  function InsertQueued(validators: seq<Validator>, x: ValidatorIndex, q: seq<ValidatorIndex>): (r: seq<ValidatorIndex>)
    requires x < |validators| && InRange(q, |validators|) && QueueSorted(validators, q) && x !in q
    ensures InRange(r, |validators|) && QueueSorted(validators, r)
    ensures multiset(r) == multiset(q) + multiset{x}
  {
    if |q| == 0 then [x]
    else if QueuedBefore(validators, x, q[0]) then
      forall k | 0 < k < |q| ensures QueuedBefore(validators, x, q[k]) {
        assert QueuedBefore(validators, q[0], q[k]);
      }
      ConsSorted(validators, x, q);
      [x] + q
    else
      assert q == [q[0]] + q[1..];
      var rest := InsertQueued(validators, x, q[1..]);
      forall k | 0 <= k < |rest| ensures QueuedBefore(validators, q[0], rest[k]) {
        assert rest[k] in multiset(rest);
        if rest[k] != x {
          assert rest[k] in q[1..];
          var j :| 1 <= j < |q| && q[j] == rest[k];
          assert QueuedBefore(validators, q[0], q[j]);
        }
      }
      ConsSorted(validators, q[0], rest);
      [q[0]] + rest
  }

  /** A sorted queue stays sorted under an index queued before all of it. */
  lemma ConsSorted(validators: seq<Validator>, y: ValidatorIndex, q: seq<ValidatorIndex>)
    requires y < |validators| && InRange(q, |validators|) && QueueSorted(validators, q)
    requires forall k :: 0 <= k < |q| ==> QueuedBefore(validators, y, q[k])
    ensures InRange([y] + q, |validators|) && QueueSorted(validators, [y] + q)
  {
    var r := [y] + q;
    forall a, b | 0 <= a < b < |r| ensures QueuedBefore(validators, r[a], r[b]) {
      if a > 0 { assert r[a] == q[a - 1]; }
      assert r[b] == q[b - 1];
    }
  }

  /** Sorts distinct indices into queue order. */
  function SortQueue(validators: seq<Validator>, xs: seq<ValidatorIndex>): (r: seq<ValidatorIndex>)
    requires InRange(xs, |validators|) && StrictlyIncreasing(xs)
    ensures InRange(r, |validators|) && QueueSorted(validators, r)
    ensures multiset(r) == multiset(xs)
  {
    if |xs| == 0 then []
    else
      var front := xs[..|xs| - 1];
      var x := xs[|xs| - 1];
      assert xs == front + [x];
      var sorted := SortQueue(validators, front);
      assert x !in multiset(front);
      InsertQueued(validators, x, sorted)
  }

  /** The queue of validators eligible for activation, in queue order. */
  function ActivationQueue(s: State): (r: seq<ValidatorIndex>)
    ensures InRange(r, |s.validators|) && QueueSorted(s.validators, r)
    ensures forall i: nat :: i in r <==> i < |s.validators| && IsEligibleForActivation(s, s.validators[i])
  {
    var eligible := IndicesWhere(|s.validators|, (i: nat) => i < |s.validators| && IsEligibleForActivation(s, s.validators[i]));
    var r := SortQueue(s.validators, eligible);
    forall i: nat ensures i in r <==> i in eligible {
      assert i in r <==> i in multiset(r);
      assert i in eligible <==> i in multiset(eligible);
    }
    r
  }

  /** The head of the queue, up to the churn limit. */
  function Dequeued(s: State): (r: seq<ValidatorIndex>)
    ensures |r| <= ValidatorChurnLimit(s)
    ensures |r| == Min(ValidatorChurnLimit(s), |ActivationQueue(s)|) && r == ActivationQueue(s)[..|r|]
  {
    var queue := ActivationQueue(s);
    queue[..Min(ValidatorChurnLimit(s), |queue|)]
  }

  /** Validator `i`, with the given activation epoch if it was dequeued. */
  function ActivatedAt(validators: seq<Validator>, dequeued: seq<ValidatorIndex>, epoch: Epoch, i: nat): Validator
    requires i < |validators|
  {
    if i in dequeued then validators[i].(activationEpoch := epoch) else validators[i]
  }

  /** The dequeue loop of `process_registry_updates`: each dequeued validator gets its activation epoch. */
  function ActivateDequeued(s: State): (r: State)
    requires WellFormed(s)
    ensures WellFormed(r) && r == s.(validators := r.validators) && |r.validators| == |s.validators|
    ensures forall i :: 0 <= i < |s.validators| ==>
              r.validators[i] == (if i in Dequeued(s)
                                  then s.validators[i].(activationEpoch := ComputeActivationExitEpoch(CurrentEpoch(s)))
                                  else s.validators[i])
  {
    var dequeued := Dequeued(s);
    var epoch := ComputeActivationExitEpoch(CurrentEpoch(s));
    var r := s.(validators := seq(|s.validators|, i requires 0 <= i < |s.validators| => ActivatedAt(s.validators, dequeued, epoch, i)));
    WellFormedFrame(s, r);
    r
  }

  /** `process_registry_updates`. */
  function ProcessRegistryUpdates(s: State): (r: State)
    requires WellFormed(s)
    ensures WellFormed(r) && r == s.(validators := r.validators) && |r.validators| == |s.validators|
    ensures var marked := EligibilityAndEjections(s, |s.validators|);
            forall i :: i in Dequeued(marked) ==> i < |s.validators| && IsEligibleForActivation(marked, marked.validators[i])
  {
    var marked := EligibilityAndEjections(s, |s.validators|);
    forall i | i in Dequeued(marked)
      ensures i in ActivationQueue(marked)
    {
    }
    ActivateDequeued(marked)
  }

  /**
   * What `process_registry_updates` leaves for validator i: the first loop's
   * marking or ejection, and then an activation epoch at the activation-exit
   * epoch of the current epoch if it was dequeued.
   */
  lemma RegistryUpdatesAt(s: State, i: ValidatorIndex)
    requires WellFormed(s) && i < |s.validators|
    ensures var marked := EligibilityAndEjections(s, |s.validators|);
            var w := ProcessRegistryUpdates(s).validators[i];
            w == marked.validators[i].(activationEpoch := w.activationEpoch) &&
            w.activationEpoch ==
              (if i in Dequeued(marked) then ComputeActivationExitEpoch(CurrentEpoch(s)) else s.validators[i].activationEpoch)
  {
    var marked := EligibilityAndEjections(s, |s.validators|);
    assert marked.validators[i].activationEpoch == s.validators[i].activationEpoch;
  }

  /**
   * The activation queue is fair and bounded: at most the churn limit of
   * validators is dequeued, every dequeued one was eligible for activation, and
   * an eligible validator left waiting comes after every dequeued one in queue order.
   */
  lemma ActivationQueueFair(s: State, i: ValidatorIndex, j: ValidatorIndex)
    requires i in Dequeued(s) && j < |s.validators| && IsEligibleForActivation(s, s.validators[j]) && j !in Dequeued(s)
    ensures i < |s.validators| && IsEligibleForActivation(s, s.validators[i])
    ensures QueuedBefore(s.validators, i, j)
  {
    var queue := ActivationQueue(s);
    var k := Min(ValidatorChurnLimit(s), |queue|);
    assert j in queue;
    var b :| 0 <= b < |queue| && queue[b] == j;
    var a :| 0 <= a < k && queue[a] == i;
  }

  /**
   * The queue is served up to the churn limit: a validator eligible for activation
   * that is left waiting means the churn limit was reached, and someone is
   * dequeued whenever anyone is eligible for activation.
   */
  lemma WaitingMeansChurnFull(s: State, j: ValidatorIndex)
    requires j < |s.validators| && IsEligibleForActivation(s, s.validators[j])
    ensures j !in Dequeued(s) ==> |Dequeued(s)| == ValidatorChurnLimit(s)
    ensures 0 < |Dequeued(s)|
  {
    assert j in ActivationQueue(s);
  }

  // ---------------------------------------------------------------------------
  // Slashings

  /**
   * The proportional slashing penalty: the effective balance in whole increments,
   * times three times the recent slashings (capped at the total balance) over
   * the total balance, back in Gwei.
   */
  function SlashingPenalty(effectiveBalance: Gwei, totalSlashings: Gwei, totalBalance: Gwei): Gwei
    requires totalBalance > 0
  {
    Scale(effectiveBalance / EFFECTIVE_BALANCE_INCREMENT, Min(totalSlashings * 3, totalBalance), totalBalance)
      * EFFECTIVE_BALANCE_INCREMENT
  }

  /** A slashing penalty never exceeds the effective balance, and grows with the recent slashings. */
  lemma SlashingPenaltyBounds(effectiveBalance: Gwei, totalSlashings: Gwei, more: Gwei, totalBalance: Gwei)
    requires totalBalance > 0 && totalSlashings <= more
    ensures SlashingPenalty(effectiveBalance, totalSlashings, totalBalance) <= effectiveBalance
    ensures SlashingPenalty(effectiveBalance, totalSlashings, totalBalance) <= SlashingPenalty(effectiveBalance, more, totalBalance)
  {
    var increments := effectiveBalance / EFFECTIVE_BALANCE_INCREMENT;
    var capped := Min(totalSlashings * 3, totalBalance);
    ScaleBounds(increments, capped, capped, totalBalance);
    ScaleBounds(increments, capped, Min(more * 3, totalBalance), totalBalance);
    var scaled := Scale(increments, capped, totalBalance);
    MulLeMonotone(EFFECTIVE_BALANCE_INCREMENT, scaled, increments);
    MulLeMonotone(EFFECTIVE_BALANCE_INCREMENT, scaled, Scale(increments, Min(more * 3, totalBalance), totalBalance));
  }

  /** Slashed, and exactly half of EPOCHS_PER_SLASHINGS_VECTOR epochs before its withdrawable epoch. */
  predicate PenalisedNow(s: State, v: Validator) {
    v.slashed && CurrentEpoch(s) + EPOCHS_PER_SLASHINGS_VECTOR / 2 == v.withdrawableEpoch
  }

  /** The balance of validator `i` after the slashing penalty, if it is due now. */
  function SlashedBalanceAt(s: State, totalSlashings: Gwei, total: Gwei, i: nat): Gwei
    requires |s.balances| == |s.validators| && i < |s.validators| && total > 0
  {
    if PenalisedNow(s, s.validators[i])
    then Max(0, s.balances[i] - SlashingPenalty(s.validators[i].effectiveBalance, totalSlashings, total))
    else s.balances[i]
  }

  /** Every balance after the slashing penalties due now, against the total active balance `total`. */
  function SlashedBalances(s: State, total: Gwei): (r: seq<Gwei>)
    requires |s.balances| == |s.validators| && total > 0
    ensures |r| == |s.balances|
    ensures forall i :: 0 <= i < |r| ==> r[i] == SlashedBalanceAt(s, Sum(s.slashings), total, i)
  {
    var totalSlashings := Sum(s.slashings);
    seq(|s.balances|, i requires 0 <= i < |s.balances| => SlashedBalanceAt(s, totalSlashings, total, i))
  }

  /**
   * `process_slashings`: each validator slashed half a slashings period ago loses
   * its slashing penalty. Nothing the penalties depend on changes inside the loop,
   * so each balance is computed from the state before it.
   */
  function ProcessSlashings(s: State): (r: State)
    requires WellFormed(s)
    ensures WellFormed(r) && r == s.(balances := r.balances) && |r.balances| == |s.balances|
    ensures forall i :: 0 <= i < |s.balances| ==>
              r.balances[i] == if PenalisedNow(s, s.validators[i])
                               then Max(0, s.balances[i] - SlashingPenalty(s.validators[i].effectiveBalance, Sum(s.slashings), TotalActiveBalance(s)))
                               else s.balances[i]
  {
    var r := s.(balances := SlashedBalances(s, TotalActiveBalance(s)));
    WellFormedFrame(s, r);
    r
  }

  /**
   * Only validators at the midpoint of their slashing period lose balance, and
   * none loses more than its effective balance.
   */
  lemma SlashingsPenaliseAtMostEffectiveBalance(s: State, index: ValidatorIndex)
    requires WellFormed(s) && index < |s.validators|
    ensures var r := ProcessSlashings(s);
            r.balances[index] <= s.balances[index] &&
            r.balances[index] + s.validators[index].effectiveBalance >= s.balances[index] &&
            (!PenalisedNow(s, s.validators[index]) ==> r.balances[index] == s.balances[index])
  {
    var totalSlashings := Sum(s.slashings);
    SlashingPenaltyBounds(s.validators[index].effectiveBalance, totalSlashings, totalSlashings, TotalActiveBalance(s));
  }

  // ---------------------------------------------------------------------------
  // Final updates

  const HYSTERESIS_INCREMENT: nat := EFFECTIVE_BALANCE_INCREMENT / HYSTERESIS_QUOTIENT
  const DOWNWARD_THRESHOLD: nat := HYSTERESIS_INCREMENT * HYSTERESIS_DOWNWARD_MULTIPLIER
  const UPWARD_THRESHOLD: nat := HYSTERESIS_INCREMENT * HYSTERESIS_UPWARD_MULTIPLIER

  /**
   * The effective balance after the hysteresis rule: it is recomputed from the
   * balance only when the balance has fallen more than DOWNWARD_THRESHOLD below it
   * or risen more than UPWARD_THRESHOLD above it.
   */
  function UpdatedEffectiveBalance(balance: Gwei, effectiveBalance: Gwei): Gwei {
    if balance + DOWNWARD_THRESHOLD < effectiveBalance || effectiveBalance + UPWARD_THRESHOLD < balance
    then QuantisedUpdate(balance, EFFECTIVE_BALANCE_INCREMENT, MAX_EFFECTIVE_BALANCE)
    else effectiveBalance
  }

  /**
   * Inside the hysteresis band the effective balance stays; outside it becomes the
   * largest whole increment at most the balance and MAX_EFFECTIVE_BALANCE; and a
   * second update with the same balance changes nothing.
   */
  lemma HysteresisRule(balance: Gwei, effectiveBalance: Gwei)
    ensures var e := UpdatedEffectiveBalance(balance, effectiveBalance);
            var moved := balance + DOWNWARD_THRESHOLD < effectiveBalance || effectiveBalance + UPWARD_THRESHOLD < balance;
            (!moved ==> e == effectiveBalance) &&
            (moved ==> IsMultipleOf(e, EFFECTIVE_BALANCE_INCREMENT) && e <= MAX_EFFECTIVE_BALANCE && e <= balance &&
                       forall m: nat :: IsMultipleOf(m, EFFECTIVE_BALANCE_INCREMENT) && m <= balance && m <= MAX_EFFECTIVE_BALANCE ==> m <= e) &&
            UpdatedEffectiveBalance(balance, e) == e
  {
    var e := UpdatedEffectiveBalance(balance, effectiveBalance);
    var moved := balance + DOWNWARD_THRESHOLD < effectiveBalance || effectiveBalance + UPWARD_THRESHOLD < balance;
    if moved {
      forall m: nat | IsMultipleOf(m, EFFECTIVE_BALANCE_INCREMENT) && m <= balance && m <= MAX_EFFECTIVE_BALANCE
        ensures m <= e
      {
        QuantisedUpdateIsLargestMultiple(balance, EFFECTIVE_BALANCE_INCREMENT, MAX_EFFECTIVE_BALANCE, m);
      }
      QuantisedUpdateIdempotent(balance, EFFECTIVE_BALANCE_INCREMENT, MAX_EFFECTIVE_BALANCE);
      if e < MAX_EFFECTIVE_BALANCE {
        assert balance - balance % EFFECTIVE_BALANCE_INCREMENT == e;
      }
    }
  }

  /** Effective balances updated for every validator from its balance. */
  function UpdatedValidators(validators: seq<Validator>, balances: seq<Gwei>): (r: seq<Validator>)
    requires |balances| == |validators|
    ensures |r| == |validators|
    ensures forall i :: 0 <= i < |validators| ==>
              r[i] == validators[i].(effectiveBalance := UpdatedEffectiveBalance(balances[i], validators[i].effectiveBalance))
  {
    seq(|validators|, i requires 0 <= i < |validators| => UpdatedValidatorAt(validators, balances, i))
  }

  /** Validator `i` with its effective balance updated from its balance. */
  function UpdatedValidatorAt(validators: seq<Validator>, balances: seq<Gwei>, i: nat): Validator
    requires |balances| == |validators| && i < |validators|
  {
    validators[i].(effectiveBalance := UpdatedEffectiveBalance(balances[i], validators[i].effectiveBalance))
  }

  /**
   * `process_final_updates`: clear the eth1 votes at the end of a voting period,
   * update the effective balances, clear the next epoch's slashings entry, carry
   * the randao mix over to the next epoch, append the historical batch root every
   * SLOTS_PER_HISTORICAL_ROOT slots, and rotate the pending attestations.
   */
  function ProcessFinalUpdates(env: Env, s: State): (r: State)
    requires WellFormed(s)
    ensures WellFormed(r) && r.slot == s.slot
    ensures r.previousEpochAttestations == s.currentEpochAttestations && r.currentEpochAttestations == []
  {
    var updated := UpdateEffectiveBalances(ResetEth1DataVotes(s));
    RotateAttestations(AppendHistoricalRoot(env, CarryRandaoMix(ResetSlashings(updated))))
  }

  /** The first step of the final updates: the eth1 votes are cleared at the end of a voting period. */
  function ResetEth1DataVotes(s: State): State {
    if (CurrentEpoch(s) + 1) % EPOCHS_PER_ETH1_VOTING_PERIOD == 0 then s.(eth1DataVotes := []) else s
  }

  /** The effective balances are updated from the balances. */
  function UpdateEffectiveBalances(s: State): State
    requires |s.balances| == |s.validators|
  {
    s.(validators := UpdatedValidators(s.validators, s.balances))
  }

  /** The next epoch's entry of the slashings vector is cleared. */
  function ResetSlashings(s: State): State
    requires |s.slashings| == EPOCHS_PER_SLASHINGS_VECTOR
  {
    s.(slashings := s.slashings[(CurrentEpoch(s) + 1) % EPOCHS_PER_SLASHINGS_VECTOR := 0])
  }

  /** The next epoch's randao mix starts as the current epoch's. */
  function CarryRandaoMix(s: State): State
    requires |s.randaoMixes| == EPOCHS_PER_HISTORICAL_VECTOR
  {
    var currentEpoch := CurrentEpoch(s);
    s.(randaoMixes := s.randaoMixes[(currentEpoch + 1) % EPOCHS_PER_HISTORICAL_VECTOR :=
                                      s.randaoMixes[currentEpoch % EPOCHS_PER_HISTORICAL_VECTOR]])
  }

  /** Every SLOTS_PER_HISTORICAL_ROOT slots the root of the batch of block and state roots is appended. */
  function AppendHistoricalRoot(env: Env, s: State): State {
    if (CurrentEpoch(s) + 1) % (SLOTS_PER_HISTORICAL_ROOT / SLOTS_PER_EPOCH) == 0
    then s.(historicalRoots := s.historicalRoots + [env.historicalBatchRoot(s.blockRoots, s.stateRoots)])
    else s
  }

  /** The current epoch's pending attestations become the previous epoch's. */
  function RotateAttestations(s: State): State {
    s.(previousEpochAttestations := s.currentEpochAttestations, currentEpochAttestations := [])
  }

  /**
   * What the final updates leave for the next epoch: the eth1 votes are cleared
   * exactly at the end of a voting period, the next epoch's slashings entry is
   * zero and its randao mix is the current one, a historical root is appended
   * exactly every SLOTS_PER_HISTORICAL_ROOT / SLOTS_PER_EPOCH epochs, and the
   * pending attestations of the current epoch become those of the previous one.
   */
  lemma FinalUpdatesEffects(env: Env, s: State)
    requires WellFormed(s)
    ensures var r := ProcessFinalUpdates(env, s);
            var next := CurrentEpoch(s) + 1;
            (r.eth1DataVotes == [] || r.eth1DataVotes == s.eth1DataVotes) &&
            (next % EPOCHS_PER_ETH1_VOTING_PERIOD != 0 ==> r.eth1DataVotes == s.eth1DataVotes) &&
            (next % EPOCHS_PER_ETH1_VOTING_PERIOD == 0 ==> r.eth1DataVotes == []) &&
            r.slashings[next % EPOCHS_PER_SLASHINGS_VECTOR] == 0 &&
            r.randaoMixes[next % EPOCHS_PER_HISTORICAL_VECTOR] == RandaoMix(s, CurrentEpoch(s)) &&
            |r.historicalRoots| == |s.historicalRoots| + (if next % (SLOTS_PER_HISTORICAL_ROOT / SLOTS_PER_EPOCH) == 0 then 1 else 0) &&
            r.historicalRoots[..|s.historicalRoots|] == s.historicalRoots
  ensures var r := ProcessFinalUpdates(env, s);
          r == s.(eth1DataVotes := r.eth1DataVotes, validators := r.validators, slashings := r.slashings,
                  randaoMixes := r.randaoMixes, historicalRoots := r.historicalRoots,
                  previousEpochAttestations := r.previousEpochAttestations, currentEpochAttestations := [])
  {
  }
}
