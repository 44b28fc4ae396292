/**
 * The rules of the older phase-0 simulator where they differ from the newer
 * one: a total balance floored at 1 Gwei, head attestations drawn from the source
 * attestations, a validity check that only asks for sorted indices, attestation
 * deltas computed in one function, the registry update and its activation queue,
 * the hysteresis of the final updates, and a `process_slots` that accepts the
 * current slot as target. What the two versions share is taken from the newer
 * model. The older state has no `genesis_validators_root`; the shared state
 * value carries one, and nothing here reads it.
 */
module OlderRules {
  import opened Wrappers
  import opened Constants
  import opened Types
  import opened IntegerMath
  import opened Eth2Arith
  import opened Helpers
  import Mutators
  import EP = EpochProcessing
  import Rewards
  import EpochUpdates
  import SlotProcessing

  // ---------------------------------------------------------------------------
  // Balances

  /**
   * `get_total_balance`: the effective balances of `indices` added up, but never
   * less than 1 Gwei, so that it can be divided by.
   */
  function TotalBalance(s: State, indices: set<ValidatorIndex>): (r: Gwei)
    requires forall i :: i in indices ==> i < |s.validators|
    ensures r >= 1
    ensures SumOfEffectiveBalances(s.validators, indices, |s.validators|) >= 1 ==>
              r == SumOfEffectiveBalances(s.validators, indices, |s.validators|)
    ensures SumOfEffectiveBalances(s.validators, indices, |s.validators|) == 0 ==> r == 1
  {
    Max(1, SumOfEffectiveBalances(s.validators, indices, |s.validators|))
  }

  /**
   * The newer floor of EFFECTIVE_BALANCE_INCREMENT is the older total raised to
   * that floor, so the older total is never the larger, and a subset never has a
   * larger older total.
   */
  lemma TotalBalanceAgainstNewer(s: State, a: set<ValidatorIndex>, b: set<ValidatorIndex>)
    requires a <= b && forall i :: i in b ==> i < |s.validators|
    ensures Helpers.TotalBalance(s, b) == Max(EFFECTIVE_BALANCE_INCREMENT, TotalBalance(s, b))
    ensures TotalBalance(s, b) <= Helpers.TotalBalance(s, b)
    ensures TotalBalance(s, a) <= TotalBalance(s, b)
  {
    SumOfEffectiveBalancesMonotone(s.validators, a, b, |s.validators|);
  }

  /** `get_total_active_balance` under the older floor. */
  function TotalActiveBalance(s: State): (r: Gwei)
    ensures r >= 1
  {
    TotalBalance(s, ActiveIndexSet(s.validators, CurrentEpoch(s)))
  }

  /** `get_base_reward`, from the older total active balance. */
  function BaseRewardOf(s: State, index: ValidatorIndex): Gwei
    requires index < |s.validators|
  {
    BaseReward(s.validators[index].effectiveBalance, TotalActiveBalance(s), BASE_REWARD_FACTOR, BASE_REWARDS_PER_EPOCH)
  }

  /** The older base reward of every validator. */
  function BaseRewards(s: State): (r: seq<Gwei>)
    ensures |r| == |s.validators|
    ensures forall i :: 0 <= i < |s.validators| ==> r[i] == BaseRewardOf(s, i)
  {
    seq(|s.validators|, i requires 0 <= i < |s.validators| => BaseRewardOf(s, i))
  }

  /** With its smaller total, the older rule never pays a smaller base reward than the newer one. */
  lemma BaseRewardAtLeastNewer(s: State, index: ValidatorIndex)
    requires index < |s.validators|
    ensures BaseRewardOf(s, index) >= Rewards.BaseRewardOf(s, index)
  {
    var active := ActiveIndexSet(s.validators, CurrentEpoch(s));
    TotalBalanceAgainstNewer(s, active, active);
    BaseRewardAntitoneInTotal(s.validators[index].effectiveBalance, TotalActiveBalance(s), Helpers.TotalActiveBalance(s),
                              BASE_REWARD_FACTOR, BASE_REWARDS_PER_EPOCH);
  }

  /** `get_attesting_balance` under the older floor. */
  function AttestingBalance(env: Env, s: State, attestations: seq<PendingAttestation>): (r: Gwei)
    requires WellFormed(s)
    ensures r >= 1
  {
    TotalBalance(s, EP.UnslashedAttestingIndices(env, s, attestations))
  }

  // ---------------------------------------------------------------------------
  // Head attestations

  /**
   * `get_matching_head_attestations`: the source attestations whose head vote
   * agrees with the block root at their slot, whatever their target vote.
   */
  function MatchingHeadAttestations(s: State, epoch: Epoch): (r: seq<PendingAttestation>)
    requires WellFormed(s) && (epoch == PreviousEpoch(s) || epoch == CurrentEpoch(s))
    ensures forall a {:trigger a in r} :: a in r <==> a in EP.MatchingSourceAttestations(s, epoch) && EP.HeadMatches(s, a)
  {
    EP.Filter(EP.MatchingSourceAttestations(s, epoch), (a: PendingAttestation) => EP.HeadMatches(s, a))
  }

  /** Filtering by two conditions gives the same list in either order. */
  lemma {:induction false} FilterCommutes<T(!new)>(xs: seq<T>, p: T -> bool, q: T -> bool)
    ensures EP.Filter(EP.Filter(xs, p), q) == EP.Filter(EP.Filter(xs, q), p)
    decreases |xs|
  {
    if |xs| > 0 {
      var x, tail := xs[0], xs[1..];
      assert xs == [x] + tail;
      var both: seq<T> := if p(x) && q(x) then [x] else [];
      FilterCommutes(tail, p, q);
      FilterCons(x, tail, p);
      FilterCons(x, tail, q);
      if p(x) {
        FilterCons(x, EP.Filter(tail, p), q);
      } else {
        assert EP.Filter(xs, p) == EP.Filter(tail, p);
      }
      assert EP.Filter(EP.Filter(xs, p), q) == both + EP.Filter(EP.Filter(tail, p), q);
      if q(x) {
        FilterCons(x, EP.Filter(tail, q), p);
      } else {
        assert EP.Filter(xs, q) == EP.Filter(tail, q);
      }
      assert EP.Filter(EP.Filter(xs, q), p) == both + EP.Filter(EP.Filter(tail, q), p);
    }
  }

  /** Filtering a list with a head element. */
  lemma FilterCons<T(!new)>(x: T, xs: seq<T>, p: T -> bool)
    ensures EP.Filter([x] + xs, p) == (if p(x) then [x] else []) + EP.Filter(xs, p)
  {
    assert ([x] + xs)[1..] == xs;
  }

  /**
   * The newer head attestations are the older ones that also vote for the
   * epoch's target: the older rule credits a correct head vote even when the
   * target vote is wrong.
   */
  lemma HeadAttestationsAgainstNewer(s: State, epoch: Epoch)
    requires WellFormed(s) && EP.EpochEnd(s) && (epoch == PreviousEpoch(s) || epoch == CurrentEpoch(s))
    ensures EP.MatchingHeadAttestations(s, epoch)
              == EP.Filter(MatchingHeadAttestations(s, epoch),
                           (a: PendingAttestation) => EP.VotesForTarget(a, (EP.RecentEpochRoots(s); BlockRoot(s, epoch))))
  {
    EP.RecentEpochRoots(s);
    FilterCommutes(EP.MatchingSourceAttestations(s, epoch),
                   (a: PendingAttestation) => EP.VotesForTarget(a, BlockRoot(s, epoch)),
                   (a: PendingAttestation) => EP.HeadMatches(s, a));
  }

  // ---------------------------------------------------------------------------
  // Indexed attestations

  /** Each element at most the next. */
  predicate NonDecreasing(xs: seq<nat>) {
    forall a, b :: 0 <= a < b < |xs| ==> xs[a] <= xs[b]
  }

  /** Inserts x before the first element not smaller than it. */
  function Insert(x: nat, xs: seq<nat>): (r: seq<nat>)
    ensures multiset(r) == multiset(xs) + multiset{x}
    ensures forall y :: y in r <==> y == x || y in xs
  {
    if xs == [] || x <= xs[0] then
      [x] + xs
    else
      assert xs == [xs[0]] + xs[1..];
      [xs[0]] + Insert(x, xs[1..])
  }

  /** Inserting into a non-decreasing list keeps it non-decreasing. */
  lemma {:induction false} InsertKeepsOrder(x: nat, xs: seq<nat>)
    requires NonDecreasing(xs)
    ensures NonDecreasing(Insert(x, xs))
    decreases |xs|
  {
    if xs != [] && x > xs[0] {
      var tail := xs[1..];
      assert NonDecreasing(tail) by {
        forall a, b | 0 <= a < b < |tail| ensures tail[a] <= tail[b] {
          assert tail[a] == xs[a + 1] && tail[b] == xs[b + 1];
        }
      }
      InsertKeepsOrder(x, tail);
      var rest := Insert(x, tail);
      var r := [xs[0]] + rest;
      assert r == Insert(x, xs);
      forall a, b | 0 <= a < b < |r| ensures r[a] <= r[b] {
        if a == 0 {
          assert r[b] == rest[b - 1] && r[b] in rest;
          if r[b] != x {
            var k :| 0 <= k < |tail| && tail[k] == r[b];
            assert xs[k + 1] == r[b];
          }
        } else {
          assert r[a] == rest[a - 1] && r[b] == rest[b - 1];
        }
      }
    }
  }

  /** Python's `sorted` on a list of indices: a non-decreasing rearrangement. */
  function Sorted(xs: seq<nat>): (r: seq<nat>)
    ensures multiset(r) == multiset(xs)
  {
    if xs == [] then [] else
      assert xs == [xs[0]] + xs[1..];
      Insert(xs[0], Sorted(xs[1..]))
  }

  /** The sorted copy is non-decreasing. */
  lemma {:induction false} SortedIsOrdered(xs: seq<nat>)
    ensures NonDecreasing(Sorted(xs))
    decreases |xs|
  {
    if xs != [] {
      SortedIsOrdered(xs[1..]);
      InsertKeepsOrder(xs[0], Sorted(xs[1..]));
    }
  }

  /** A list equals its sorted copy exactly when it is non-decreasing. */
  lemma {:induction false} SortedUnchangedExactly(xs: seq<nat>)
    ensures xs == Sorted(xs) <==> NonDecreasing(xs)
    decreases |xs|
  {
    SortedIsOrdered(xs);
    if xs != [] && NonDecreasing(xs) {
      var rest := xs[1..];
      assert NonDecreasing(rest) by {
        forall a, b | 0 <= a < b < |rest| ensures rest[a] <= rest[b] {
          assert rest[a] == xs[a + 1] && rest[b] == xs[b + 1];
        }
      }
      SortedUnchangedExactly(rest);
      assert rest == [] || xs[0] <= rest[0];
      assert xs == [xs[0]] + rest;
    }
  }

  /**
   * `is_valid_indexed_attestation` of the older rules: false with more than
   * MAX_VALIDATORS_PER_COMMITTEE indices or indices out of order; otherwise the
   * aggregate signature check, which the older simulator stubs to succeed, so
   * true. An index past the registry makes the source fail while it collects
   * the public keys: None.
   */
  function IsValidIndexedAttestation(s: State, attestation: IndexedAttestation): (r: Option<bool>)
    ensures var indices := attestation.attestingIndices;
            var fits := |indices| <= MAX_VALIDATORS_PER_COMMITTEE && NonDecreasing(indices);
            (r == Some(false) <==> !fits) &&
            (r == Some(true) <==> fits && forall k :: 0 <= k < |indices| ==> indices[k] < |s.validators|) &&
            (r == None <==> fits && exists k :: 0 <= k < |indices| && indices[k] >= |s.validators|)
  {
    var indices := attestation.attestingIndices;
    SortedUnchangedExactly(indices);
    if !(|indices| <= MAX_VALIDATORS_PER_COMMITTEE) then Some(false)
    else if indices != Sorted(indices) then Some(false)
    else if exists k :: 0 <= k < |indices| && indices[k] >= |s.validators| then None
    else Some(true)
  }

  /**
   * The older check accepts what the newer one rejects: an empty list of
   * indices, and a validator named twice.
   */
  lemma AcceptsEmptyAndRepeated(env: Env, s: State, i: ValidatorIndex, data: AttestationData, signature: BLSSignature)
    requires i < |s.validators|
    ensures IsValidIndexedAttestation(s, IndexedAttestation([], data, signature)) == Some(true)
    ensures !Helpers.IsValidIndexedAttestation(env, s, IndexedAttestation([], data, signature))
    ensures IsValidIndexedAttestation(s, IndexedAttestation([i, i], data, signature)) == Some(true)
    ensures !Helpers.IsValidIndexedAttestation(env, s, IndexedAttestation([i, i], data, signature))
  {
    var repeated := IndexedAttestation([i, i], data, signature);
    assert !StrictlyIncreasing(repeated.attestingIndices) by {
      assert repeated.attestingIndices[0] == repeated.attestingIndices[1];
    }
  }

  // ---------------------------------------------------------------------------
  // Attestation deltas

  /** The component reward of validator `i`: its base reward scaled by the attesting share, for an eligible attester only. */
  function ComponentRewardAt(baseRewards: seq<Gwei>, eligible: seq<bool>, attesters: set<ValidatorIndex>,
                             attestingBalance: Gwei, totalBalance: Gwei, i: nat): Gwei
    requires |eligible| == |baseRewards| && i < |baseRewards| && totalBalance >= 1
  {
    if eligible[i] && i in attesters then Rewards.Scale(baseRewards[i], attestingBalance, totalBalance) else 0
  }

  /**
   * One pass of the component loop of `get_attestation_deltas`: each eligible
   * attester is rewarded its base reward times the attesting balance over the
   * total balance, and each other eligible validator is penalised its base reward.
   */
  function ComponentDeltas(baseRewards: seq<Gwei>, eligible: seq<bool>, attesters: set<ValidatorIndex>,
                           attestingBalance: Gwei, totalBalance: Gwei): (d: Rewards.Deltas)
    requires |eligible| == |baseRewards| && totalBalance >= 1
    ensures Rewards.DeltasFor(d, |baseRewards|)
  {
    var n := |baseRewards|;
    Rewards.Deltas(
      seq(n, i requires 0 <= i < n => ComponentRewardAt(baseRewards, eligible, attesters, attestingBalance, totalBalance, i)),
      seq(n, i requires 0 <= i < n => Rewards.ComponentPenaltyAt(baseRewards, eligible, attesters, i)))
  }

  /**
   * A validator gets the reward or the penalty of a component, never both; the
   * reward is at most the base reward while the attesting balance does not exceed
   * the total balance. Unlike the newer rule, an inactivity leak changes nothing here.
   */
  lemma ComponentDeltasSplit(baseRewards: seq<Gwei>, eligible: seq<bool>, attesters: set<ValidatorIndex>,
                             attestingBalance: Gwei, totalBalance: Gwei, i: nat)
    requires |eligible| == |baseRewards| && totalBalance >= 1 && i < |baseRewards|
    ensures var d := ComponentDeltas(baseRewards, eligible, attesters, attestingBalance, totalBalance);
            (eligible[i] && i in attesters ==>
               d.penalties[i] == 0 && d.rewards[i] == baseRewards[i] * attestingBalance / totalBalance) &&
            (eligible[i] && i !in attesters ==> d.rewards[i] == 0 && d.penalties[i] == baseRewards[i]) &&
            (!eligible[i] ==> d.rewards[i] == 0 && d.penalties[i] == 0) &&
            (attestingBalance <= totalBalance ==> d.rewards[i] <= baseRewards[i])
  {
    if eligible[i] && i in attesters && attestingBalance <= totalBalance {
      Rewards.ScaleBounds(baseRewards[i], attestingBalance, totalBalance, totalBalance);
    }
  }

  /** The component deltas for one list of matching attestations. */
  function AttestationComponentDeltas(env: Env, s: State, attestations: seq<PendingAttestation>): (d: Rewards.Deltas)
    requires WellFormed(s)
    ensures Rewards.DeltasFor(d, |s.validators|)
  {
    ComponentDeltas(BaseRewards(s), Rewards.Eligibility(s), EP.UnslashedAttestingIndices(env, s, attestations),
                    AttestingBalance(env, s, attestations), TotalActiveBalance(s))
  }

  /** The source, target and head passes, the head attestations being the older ones. */
  function ComponentsDeltas(env: Env, s: State): (d: Rewards.Deltas)
    requires WellFormed(s) && EP.EpochEnd(s)
    ensures Rewards.DeltasFor(d, |s.validators|)
  {
    var previousEpoch := PreviousEpoch(s);
    Rewards.AddDeltas(Rewards.AddDeltas(AttestationComponentDeltas(env, s, EP.MatchingSourceAttestations(s, previousEpoch)),
                                        AttestationComponentDeltas(env, s, EP.MatchingTargetAttestations(s, previousEpoch))),
                      AttestationComponentDeltas(env, s, MatchingHeadAttestations(s, previousEpoch)))
  }

  /**
   * The proposer and inclusion-delay pass: the unslashed source attesters, in
   * increasing index order, each credit their earliest attestation's proposer and
   * themselves from their older base reward.
   */
  function InclusionDelayDeltas(env: Env, s: State): (d: Rewards.Deltas)
    requires WellFormed(s)
    ensures Rewards.DeltasFor(d, |s.validators|) && d.penalties == Rewards.Zeros(|s.validators|)
  {
    var attestations := EP.MatchingSourceAttestations(s, PreviousEpoch(s));
    var attesters := SortedIndices(EP.UnslashedAttestingIndices(env, s, attestations), |s.validators|);
    Rewards.MatchingSourceRecorded(s);
    Rewards.Deltas(Rewards.InclusionDelayRewardsFor(EP.Participants(env, s), attestations, attesters, BaseRewards(s)),
                   Rewards.Zeros(|s.validators|))
  }

  /**
   * The older inactivity penalty: BASE_REWARDS_PER_EPOCH base rewards, and for a
   * validator that missed the target its effective balance times the finality
   * delay over INACTIVITY_PENALTY_QUOTIENT.
   */
  function InactivityPenalty(baseReward: Gwei, effectiveBalance: Gwei, finalityDelay: nat, missedTarget: bool): Gwei {
    BASE_REWARDS_PER_EPOCH * baseReward +
    (if missedTarget then Rewards.Scale(effectiveBalance, finalityDelay, INACTIVITY_PENALTY_QUOTIENT) else 0)
  }

  /**
   * For the same base reward the older inactivity penalty is the newer one plus
   * the proposer share: the newer rule stops charging what an attester could not
   * have earned as its own proposer reward.
   */
  lemma InactivityPenaltyAgainstNewer(baseReward: Gwei, effectiveBalance: Gwei, finalityDelay: nat, missedTarget: bool)
    ensures InactivityPenalty(baseReward, effectiveBalance, finalityDelay, missedTarget)
              == Rewards.InactivityPenalty(baseReward, effectiveBalance, finalityDelay, missedTarget) + Rewards.ProposerShare(baseReward)
  {
  }

  /** The inactivity penalty of validator `i`: only an eligible validator during a leak pays one. */
  function InactivityPenaltyAt(validators: seq<Validator>, baseRewards: seq<Gwei>, eligible: seq<bool>, leak: bool,
                               finalityDelay: nat, targetAttesters: set<ValidatorIndex>, i: nat): Gwei
    requires |baseRewards| == |validators| && |eligible| == |validators| && i < |validators|
  {
    if leak && eligible[i]
    then InactivityPenalty(baseRewards[i], validators[i].effectiveBalance, finalityDelay, i !in targetAttesters)
    else 0
  }

  /** The inactivity pass: penalties for the eligible validators once the finality delay exceeds MIN_EPOCHS_TO_INACTIVITY_PENALTY. */
  function InactivityDeltas(env: Env, s: State): (d: Rewards.Deltas)
    requires WellFormed(s) && EP.EpochEnd(s) && Rewards.FinalityInPast(s)
    ensures Rewards.DeltasFor(d, |s.validators|) && d.rewards == Rewards.Zeros(|s.validators|)
  {
    var targetAttesters := EP.UnslashedAttestingIndices(env, s, EP.MatchingTargetAttestations(s, PreviousEpoch(s)));
    var baseRewards := BaseRewards(s);
    var eligible := Rewards.Eligibility(s);
    var n := |s.validators|;
    Rewards.Deltas(Rewards.Zeros(n), seq(n, i requires 0 <= i < n =>
      InactivityPenaltyAt(s.validators, baseRewards, eligible, Rewards.InInactivityLeak(s), Rewards.FinalityDelay(s), targetAttesters, i)))
  }

  /**
   * `get_attestation_deltas` of the older rules: the three component passes, the
   * inclusion-delay pass and the inactivity pass, added up validator by validator.
   */
  function AttestationDeltas(env: Env, s: State): (d: Rewards.Deltas)
    requires WellFormed(s) && EP.EpochEnd(s) && Rewards.FinalityInPast(s)
    ensures Rewards.DeltasFor(d, |s.validators|)
  {
    Rewards.AddDeltas(Rewards.AddDeltas(ComponentsDeltas(env, s), InclusionDelayDeltas(env, s)), InactivityDeltas(env, s))
  }

  /**
   * The deltas of validator `i` are the sums of its deltas from each pass; the
   * inclusion-delay pass has no penalties and the inactivity pass no rewards.
   */
  lemma AttestationDeltasAt(env: Env, s: State, i: nat)
    requires WellFormed(s) && EP.EpochEnd(s) && Rewards.FinalityInPast(s) && i < |s.validators|
    ensures var previousEpoch := PreviousEpoch(s);
            var source := AttestationComponentDeltas(env, s, EP.MatchingSourceAttestations(s, previousEpoch));
            var target := AttestationComponentDeltas(env, s, EP.MatchingTargetAttestations(s, previousEpoch));
            var head := AttestationComponentDeltas(env, s, MatchingHeadAttestations(s, previousEpoch));
            var d := AttestationDeltas(env, s);
            d.rewards[i] == source.rewards[i] + target.rewards[i] + head.rewards[i] + InclusionDelayDeltas(env, s).rewards[i] &&
            d.penalties[i] == source.penalties[i] + target.penalties[i] + head.penalties[i] + InactivityDeltas(env, s).penalties[i]
  {
  }

  /** The deltas of one component pass for validator `i`, as the older rule computes them. */
  lemma ComponentAt(env: Env, s: State, attestations: seq<PendingAttestation>, i: nat)
    requires WellFormed(s) && i < |s.validators|
    ensures var d := AttestationComponentDeltas(env, s, attestations);
            var attested := i in EP.UnslashedAttestingIndices(env, s, attestations);
            var eligible := Rewards.IsEligibleValidator(s, i);
            d.rewards[i] == (if eligible && attested then BaseRewardOf(s, i) * AttestingBalance(env, s, attestations) / TotalActiveBalance(s) else 0) &&
            d.penalties[i] == (if eligible && !attested then BaseRewardOf(s, i) else 0)
  {
    assert Rewards.Eligibility(s)[i] == Rewards.IsEligibleValidator(s, i);
    ComponentDeltasSplit(BaseRewards(s), Rewards.Eligibility(s), EP.UnslashedAttestingIndices(env, s, attestations),
                         AttestingBalance(env, s, attestations), TotalActiveBalance(s), i);
  }

  /**
   * The penalty of each validator in closed form: its base reward for each of
   * source, target and head it missed while eligible, plus, during a leak, the
   * inactivity penalty. An eligible validator that attested to all three still
   * pays BASE_REWARDS_PER_EPOCH base rewards during a leak.
   */
  lemma PenaltyOfValidator(env: Env, s: State, i: nat)
    requires WellFormed(s) && EP.EpochEnd(s) && Rewards.FinalityInPast(s) && i < |s.validators|
    ensures var previousEpoch := PreviousEpoch(s);
            var source := EP.MatchingSourceAttestations(s, previousEpoch);
            var target := EP.MatchingTargetAttestations(s, previousEpoch);
            var head := MatchingHeadAttestations(s, previousEpoch);
            var b := BaseRewardOf(s, i);
            var eligible := Rewards.IsEligibleValidator(s, i);
            AttestationDeltas(env, s).penalties[i] ==
              (if eligible && i !in EP.UnslashedAttestingIndices(env, s, source) then b else 0) +
              (if eligible && i !in EP.UnslashedAttestingIndices(env, s, target) then b else 0) +
              (if eligible && i !in EP.UnslashedAttestingIndices(env, s, head) then b else 0) +
              (if eligible && Rewards.InInactivityLeak(s)
               then InactivityPenalty(b, s.validators[i].effectiveBalance, Rewards.FinalityDelay(s),
                                      i !in EP.UnslashedAttestingIndices(env, s, target))
               else 0)
  {
    var previousEpoch := PreviousEpoch(s);
    AttestationDeltasAt(env, s, i);
    ComponentAt(env, s, EP.MatchingSourceAttestations(s, previousEpoch), i);
    ComponentAt(env, s, EP.MatchingTargetAttestations(s, previousEpoch), i);
    ComponentAt(env, s, MatchingHeadAttestations(s, previousEpoch), i);
    InactivityAt(env, s, i);
  }

  /** During a leak an eligible validator pays the older inactivity penalty; otherwise it pays none. */
  lemma InactivityAt(env: Env, s: State, i: nat)
    requires WellFormed(s) && EP.EpochEnd(s) && Rewards.FinalityInPast(s) && i < |s.validators|
    ensures InactivityDeltas(env, s).penalties[i] ==
              if Rewards.InInactivityLeak(s) && Rewards.IsEligibleValidator(s, i)
              then InactivityPenalty(BaseRewardOf(s, i), s.validators[i].effectiveBalance, Rewards.FinalityDelay(s),
                                     i !in EP.UnslashedAttestingIndices(env, s, EP.MatchingTargetAttestations(s, PreviousEpoch(s))))
              else 0
  {
    assert Rewards.Eligibility(s)[i] == Rewards.IsEligibleValidator(s, i);
  }

  /** A reward that is at least the delayed share, for an inclusion delay of at least one slot, of a base reward. */
  predicate EarnsInclusionShare(reward: Gwei, baseReward: Gwei, inclusionDelay: nat) {
    inclusionDelay >= 1 && reward >= Rewards.DelayedShare(baseReward - Rewards.ProposerShare(baseReward), inclusionDelay)
  }

  /** The inclusion-delay reward of an attester with an earliest attestation is at least its own delayed share. */
  lemma InclusionDelayRewardOf(env: Env, s: State, i: ValidatorIndex)
    requires WellFormed(s) && i < |s.validators|
    requires i in EP.UnslashedAttestingIndices(env, s, EP.MatchingSourceAttestations(s, PreviousEpoch(s)))
    ensures Rewards.EarliestInclusion(EP.Participants(env, s), EP.MatchingSourceAttestations(s, PreviousEpoch(s)), i).Some?
    ensures EarnsInclusionShare(InclusionDelayDeltas(env, s).rewards[i], BaseRewardOf(s, i),
              Rewards.EarliestInclusion(EP.Participants(env, s), EP.MatchingSourceAttestations(s, PreviousEpoch(s)), i).value.inclusionDelay)
  {
    var source := EP.MatchingSourceAttestations(s, PreviousEpoch(s));
    var attesters := SortedIndices(EP.UnslashedAttestingIndices(env, s, source), |s.validators|);
    var participants := EP.Participants(env, s);
    var baseRewards := BaseRewards(s);
    Rewards.MatchingSourceRecorded(s);
    var e := Rewards.EarliestInclusion(participants, source, i);
    var idr := Rewards.InclusionDelayRewardsFor(participants, source, attesters, baseRewards);
    var b := baseRewards[i];
    assert e.Some? && EarnsInclusionShare(idr[i], b, e.value.inclusionDelay) by {
      assert i in EP.AttestingUnion(participants, source);
      var a :| a in source && i in participants(a);
      InclusionShare(participants, source, attesters, baseRewards, i, a);
    }
    assert InclusionDelayDeltas(env, s).rewards[i] == idr[i];
    assert b == BaseRewardOf(s, i);
  }

  /**
   * The proposer that included an unslashed source attester's earliest
   * attestation earns at least that attester's older proposer reward.
   */
  lemma InclusionProposerRewardOf(env: Env, s: State, i: ValidatorIndex)
    requires WellFormed(s) && i < |s.validators|
    requires i in EP.UnslashedAttestingIndices(env, s, EP.MatchingSourceAttestations(s, PreviousEpoch(s)))
    ensures Rewards.EarliestInclusion(EP.Participants(env, s), EP.MatchingSourceAttestations(s, PreviousEpoch(s)), i).Some?
    ensures Rewards.EarliestInclusion(EP.Participants(env, s), EP.MatchingSourceAttestations(s, PreviousEpoch(s)), i)
              .value.proposerIndex < |s.validators|
    ensures InclusionDelayDeltas(env, s).rewards
              [Rewards.EarliestInclusion(EP.Participants(env, s), EP.MatchingSourceAttestations(s, PreviousEpoch(s)), i).value.proposerIndex]
              >= Rewards.ProposerShare(BaseRewardOf(s, i))
  {
    var source := EP.MatchingSourceAttestations(s, PreviousEpoch(s));
    var participants := EP.Participants(env, s);
    var attesters := SortedIndices(EP.UnslashedAttestingIndices(env, s, source), |s.validators|);
    Rewards.MatchingSourceRecorded(s);
    assert i in EP.AttestingUnion(participants, source);
    var a :| a in source && i in participants(a);
    Rewards.InclusionProposerRewardAtLeast(participants, source, attesters, BaseRewards(s), i);
  }

  /** An attester with an attestation in the list receives at least its own delayed share of its base reward. */
  lemma InclusionShare(participants: PendingAttestation -> set<ValidatorIndex>, attestations: seq<PendingAttestation>,
                       attesters: seq<ValidatorIndex>, baseRewards: seq<Gwei>, i: ValidatorIndex, a: PendingAttestation)
    requires Rewards.Recorded(attestations, |baseRewards|)
    requires forall k :: 0 <= k < |attesters| ==> attesters[k] < |baseRewards|
    requires i in attesters && a in attestations && i in participants(a)
    ensures Rewards.EarliestInclusion(participants, attestations, i).Some?
    ensures EarnsInclusionShare(Rewards.InclusionDelayRewardsFor(participants, attestations, attesters, baseRewards)[i],
                                baseRewards[i], Rewards.EarliestInclusion(participants, attestations, i).value.inclusionDelay)
  {
    var e := Rewards.EarliestInclusion(participants, attestations, i);
    assert e.value in attestations;
    Rewards.InclusionDelayRewardAtLeast(participants, attestations, attesters, baseRewards, i);
  }

  /**
   * An eligible validator that attested to the source and was included earns at
   * least its source reward and its own inclusion-delay share.
   */
  lemma IncludedAttesterRewarded(env: Env, s: State, i: ValidatorIndex)
    requires WellFormed(s) && EP.EpochEnd(s) && Rewards.FinalityInPast(s) && i < |s.validators|
    requires Rewards.IsEligibleValidator(s, i)
    requires i in EP.UnslashedAttestingIndices(env, s, EP.MatchingSourceAttestations(s, PreviousEpoch(s)))
    ensures var source := EP.MatchingSourceAttestations(s, PreviousEpoch(s));
            var e := Rewards.EarliestInclusion(EP.Participants(env, s), source, i);
            var b := BaseRewardOf(s, i);
            e.Some? && e.value.inclusionDelay >= 1 &&
            AttestationDeltas(env, s).rewards[i] >=
              b * AttestingBalance(env, s, source) / TotalActiveBalance(s) +
              Rewards.DelayedShare(b - Rewards.ProposerShare(b), e.value.inclusionDelay)
  {
    AttestationDeltasAt(env, s, i);
    ComponentAt(env, s, EP.MatchingSourceAttestations(s, PreviousEpoch(s)), i);
    InclusionDelayRewardOf(env, s, i);
  }

  /** The target and head attesters are among the source attesters, so their attesting balances are no larger. */
  lemma AttestingBalancesWithinSource(env: Env, s: State)
    requires WellFormed(s) && EP.EpochEnd(s)
    ensures var previousEpoch := PreviousEpoch(s);
            var source := AttestingBalance(env, s, EP.MatchingSourceAttestations(s, previousEpoch));
            AttestingBalance(env, s, EP.MatchingTargetAttestations(s, previousEpoch)) <= source &&
            AttestingBalance(env, s, MatchingHeadAttestations(s, previousEpoch)) <= source
  {
    var previousEpoch := PreviousEpoch(s);
    var source := EP.MatchingSourceAttestations(s, previousEpoch);
    var target := EP.MatchingTargetAttestations(s, previousEpoch);
    var head := MatchingHeadAttestations(s, previousEpoch);
    EP.UnslashedAttestingIndicesMonotone(env, s, target, source);
    EP.UnslashedAttestingIndicesMonotone(env, s, head, source);
    var all := EP.UnslashedAttestingIndices(env, s, source);
    TotalBalanceAgainstNewer(s, EP.UnslashedAttestingIndices(env, s, target), all);
    TotalBalanceAgainstNewer(s, EP.UnslashedAttestingIndices(env, s, head), all);
  }

  /** `process_rewards_and_penalties`: nothing in the genesis epoch, otherwise the older deltas applied. */
  function ProcessRewardsAndPenalties(env: Env, s: State): (r: State)
    requires WellFormed(s) && EP.EpochEnd(s) && Rewards.FinalityInPast(s)
    ensures WellFormed(r) && r == s.(balances := r.balances)
    ensures CurrentEpoch(s) == GENESIS_EPOCH ==> r == s
  {
    if CurrentEpoch(s) == GENESIS_EPOCH then s
    else
      var r := Rewards.ApplyDeltas(s, AttestationDeltas(env, s), |s.validators|);
      Mutators.WellFormedFrame(s, r);
      r
  }

  /** Outside the genesis epoch every balance moves by its older reward less its older penalty, floored at zero. */
  lemma RewardsAndPenaltiesBalances(env: Env, s: State, index: ValidatorIndex)
    requires WellFormed(s) && EP.EpochEnd(s) && Rewards.FinalityInPast(s)
    requires CurrentEpoch(s) != GENESIS_EPOCH && index < |s.validators|
    ensures var d := AttestationDeltas(env, s);
            ProcessRewardsAndPenalties(env, s).balances[index] == Max(0, (s.balances[index] + d.rewards[index]) as int - d.penalties[index])
  {
    var d := AttestationDeltas(env, s);
    var applied := Rewards.ApplyDeltas(s, d, |s.validators|);
    Rewards.ApplyDeltasBalances(s, d, |s.validators|);
    assert applied.balances[index] == Max(0, (s.balances[index] + d.rewards[index]) as int - d.penalties[index]);
    assert ProcessRewardsAndPenalties(env, s).balances == applied.balances;
  }

  // ---------------------------------------------------------------------------
  // Justification and finalization

  /**
   * `process_justification_and_finalization` of the older rules: the same
   * justification and finalization, weighed with the older attesting and total
   * balances.
   */
  function ProcessJustificationAndFinalization(env: Env, s: State): (r: State)
    requires WellFormed(s) && EP.EpochEnd(s)
    ensures WellFormed(r) && r == s.(previousJustifiedCheckpoint := r.previousJustifiedCheckpoint,
                                     currentJustifiedCheckpoint := r.currentJustifiedCheckpoint,
                                     justificationBits := r.justificationBits,
                                     finalizedCheckpoint := r.finalizedCheckpoint)
    ensures CurrentEpoch(s) <= GENESIS_EPOCH + 1 ==> r == s
  {
    if CurrentEpoch(s) <= GENESIS_EPOCH + 1 then s
    else
      EP.RecentEpochRoots(s);
      var previousEpoch := PreviousEpoch(s);
      var currentEpoch := CurrentEpoch(s);
      var r := EP.WeighJustificationAndFinalization(s,
                 AttestingBalance(env, s, EP.MatchingTargetAttestations(s, previousEpoch)),
                 AttestingBalance(env, s, EP.MatchingTargetAttestations(s, currentEpoch)),
                 TotalActiveBalance(s), BlockRoot(s, previousEpoch), BlockRoot(s, currentEpoch));
      WellFormedSameShape(s, r);
      r
  }

  /**
   * Justification and finalization keep the checkpoints ordered, never move the
   * finalized checkpoint back, and leave finality in the past.
   */
  lemma JustificationAndFinalizationKeepsOrder(env: Env, s: State)
    requires WellFormed(s) && EP.EpochEnd(s) && EP.CheckpointsOrdered(s)
    ensures var r := ProcessJustificationAndFinalization(env, s);
            r.finalizedCheckpoint.epoch >= s.finalizedCheckpoint.epoch &&
            r.finalizedCheckpoint.epoch <= r.previousJustifiedCheckpoint.epoch <= r.currentJustifiedCheckpoint.epoch <= CurrentEpoch(s) &&
            r.finalizedCheckpoint.epoch <= PreviousEpoch(s)
  {
    if CurrentEpoch(s) > GENESIS_EPOCH + 1 {
      EP.RecentEpochRoots(s);
      var previousEpoch := PreviousEpoch(s);
      var currentEpoch := CurrentEpoch(s);
      EP.JustificationKeepsOrder(s,
        AttestingBalance(env, s, EP.MatchingTargetAttestations(s, previousEpoch)),
        AttestingBalance(env, s, EP.MatchingTargetAttestations(s, currentEpoch)),
        TotalActiveBalance(s), BlockRoot(s, previousEpoch), BlockRoot(s, currentEpoch));
    }
  }

  // ---------------------------------------------------------------------------
  // Registry updates

  /**
   * What one pass of the first loop of `process_registry_updates` does to
   * validator `v`, leaving `w`: a validator with no eligibility epoch and the
   * maximum effective balance becomes eligible in the current epoch itself; an
   * active validator whose effective balance fell to EJECTION_BALANCE and that
   * was not yet exiting gets the exit queue's epoch `queueEpoch` (of the registry
   * as it stands at its turn) as exit epoch and a withdrawable epoch
   * MIN_VALIDATOR_WITHDRAWABILITY_DELAY after it.
   */
  predicate MarkedOrEjected(epoch: Epoch, queueEpoch: Epoch, v: Validator, w: Validator) {
    var ejected := IsActiveValidator(v, epoch) && v.effectiveBalance <= EJECTION_BALANCE && v.exitEpoch == FAR_FUTURE_EPOCH;
    w.activationEligibilityEpoch == (if IsEligibleForActivationQueue(v) then epoch else v.activationEligibilityEpoch) &&
    w.activationEpoch == v.activationEpoch && w.effectiveBalance == v.effectiveBalance && w.slashed == v.slashed &&
    w.pubkey == v.pubkey && w.withdrawalCredentials == v.withdrawalCredentials &&
    (!ejected ==> w.exitEpoch == v.exitEpoch && w.withdrawableEpoch == v.withdrawableEpoch) &&
    (ejected ==> w.exitEpoch == queueEpoch && w.withdrawableEpoch == queueEpoch + MIN_VALIDATOR_WITHDRAWABILITY_DELAY)
  }

  /** One pass of the first loop of `process_registry_updates`, for validator `index`. */
  function MarkEligibleOrEject(s: State, index: ValidatorIndex): (r: State)
    requires WellFormed(s) && index < |s.validators|
    ensures WellFormed(r) && r == s.(validators := r.validators) && |r.validators| == |s.validators|
    ensures forall j :: 0 <= j < |s.validators| && j != index ==> r.validators[j] == s.validators[j]
    ensures MarkedOrEjected(CurrentEpoch(s), Mutators.ExitQueueEpoch(s), s.validators[index], r.validators[index])
  {
    var v := s.validators[index];
    var marked := if IsEligibleForActivationQueue(v)
                  then s.(validators := s.validators[index := v.(activationEligibilityEpoch := CurrentEpoch(s))])
                  else s;
    var w := marked.validators[index];
    Mutators.ExitQueueEpochSame(s, marked);
    var r := if IsActiveValidator(w, CurrentEpoch(marked)) && w.effectiveBalance <= EJECTION_BALANCE
             then Mutators.InitiateValidatorExit(marked, index) else marked;
    Mutators.WellFormedFrame(s, r);
    r
  }

  /** The first loop of `process_registry_updates`, over the first n validators. */
  function EligibilityAndEjections(s: State, n: nat): (r: State)
    requires WellFormed(s) && n <= |s.validators|
    ensures WellFormed(r) && r == s.(validators := r.validators) && |r.validators| == |s.validators|
    ensures forall j :: n <= j < |s.validators| ==> r.validators[j] == s.validators[j]
    ensures forall j :: 0 <= j < n ==>
              MarkedOrEjected(CurrentEpoch(s), Mutators.ExitQueueEpoch(s.(validators := r.validators[..j] + s.validators[j..])),
                              s.validators[j], r.validators[j])
    decreases n
  {
    if n == 0 then s
    else
      var before := EligibilityAndEjections(s, n - 1);
      var r := MarkEligibleOrEject(before, n - 1);
      EligibilityAndEjectionsStep(s, before.validators, r.validators, n);
      r
  }

  /** The inductive step of EligibilityAndEjections: validator n - 1's turn, after the first n - 1. */
  lemma {:induction false} EligibilityAndEjectionsStep(s: State, before: seq<Validator>, after: seq<Validator>, n: nat)
    requires 0 < n <= |s.validators| && |before| == |s.validators| && |after| == |s.validators|
    requires forall j :: n - 1 <= j < |s.validators| ==> before[j] == s.validators[j]
    requires forall j :: 0 <= j < n - 1 ==>
               MarkedOrEjected(CurrentEpoch(s), Mutators.ExitQueueEpoch(s.(validators := before[..j] + s.validators[j..])),
                               s.validators[j], before[j])
    requires forall j :: 0 <= j < |s.validators| && j != n - 1 ==> after[j] == before[j]
    requires MarkedOrEjected(CurrentEpoch(s), Mutators.ExitQueueEpoch(s.(validators := before)), before[n - 1], after[n - 1])
    ensures forall j :: 0 <= j < n ==>
              MarkedOrEjected(CurrentEpoch(s), Mutators.ExitQueueEpoch(s.(validators := after[..j] + s.validators[j..])),
                              s.validators[j], after[j])
  {
    forall j | 0 <= j < n
      ensures MarkedOrEjected(CurrentEpoch(s), Mutators.ExitQueueEpoch(s.(validators := after[..j] + s.validators[j..])),
                              s.validators[j], after[j])
    {
      PrefixReplaced(s.validators, before, after, n, j);
    }
  }

  /**
   * After validator n - 1's turn, the registry as it stood when validator j < n
   * had its turn is what it was before that turn (j == n - 1), or is unchanged.
   */
  lemma PrefixReplaced(vs: seq<Validator>, before: seq<Validator>, after: seq<Validator>, n: nat, j: nat)
    requires 0 < n <= |vs| && |before| == |vs| && |after| == |vs| && j < n
    requires forall k :: n - 1 <= k < |vs| ==> before[k] == vs[k]
    requires forall k :: 0 <= k < |vs| && k != n - 1 ==> after[k] == before[k]
    ensures after[..j] + vs[j..] == if j == n - 1 then before else before[..j] + vs[j..]
  {
    if j == n - 1 {
      assert before == after[..j] + vs[j..];
    } else {
      assert before[..j] == after[..j];
    }
  }

  /**
   * In the older activation queue: eligible at some epoch, and not dequeued
   * before the activation-exit epoch of the finalized checkpoint. A validator
   * already given an activation epoch that late is still queued.
   */
  predicate InActivationQueue(s: State, v: Validator) {
    v.activationEligibilityEpoch != FAR_FUTURE_EPOCH &&
    v.activationEpoch >= ComputeActivationExitEpoch(s.finalizedCheckpoint.epoch)
  }

  /**
   * The activation queue: the queued validators in index order, sorted by their
   * eligibility epoch with a stable sort, which is the order QueuedBefore states.
   */
  function ActivationQueue(s: State): (r: seq<ValidatorIndex>)
    ensures EpochUpdates.InRange(r, |s.validators|) && EpochUpdates.QueueSorted(s.validators, r)
    ensures forall i: nat :: i in r <==> i < |s.validators| && InActivationQueue(s, s.validators[i])
  {
    var queued := IndicesWhere(|s.validators|, (i: nat) => i < |s.validators| && InActivationQueue(s, s.validators[i]));
    var r := EpochUpdates.SortQueue(s.validators, queued);
    forall i: nat ensures i in r <==> i in queued {
      assert i in r <==> i in multiset(r);
      assert i in queued <==> i in multiset(queued);
    }
    r
  }

  /** The head of the queue, up to the churn limit. */
  function Dequeued(s: State): (r: seq<ValidatorIndex>)
    ensures |r| <= ValidatorChurnLimit(s)
    ensures |r| == Min(ValidatorChurnLimit(s), |ActivationQueue(s)|) && r == ActivationQueue(s)[..|r|]
  {
    var queue := ActivationQueue(s);
    queue[..Min(ValidatorChurnLimit(s), |queue|)]
  }

  /** Validator `i`, given the activation epoch if it was dequeued and had none yet. */
  function ActivatedAt(validators: seq<Validator>, dequeued: seq<ValidatorIndex>, epoch: Epoch, i: nat): Validator
    requires i < |validators|
  {
    if i in dequeued && validators[i].activationEpoch == FAR_FUTURE_EPOCH
    then validators[i].(activationEpoch := epoch)
    else validators[i]
  }

  /** The dequeue loop of `process_registry_updates`. */
  function ActivateDequeued(s: State): (r: State)
    requires WellFormed(s)
    ensures WellFormed(r) && r == s.(validators := r.validators) && |r.validators| == |s.validators|
    ensures forall i :: 0 <= i < |s.validators| ==>
              r.validators[i] == ActivatedAt(s.validators, Dequeued(s), ComputeActivationExitEpoch(CurrentEpoch(s)), i)
  {
    var dequeued := Dequeued(s);
    var epoch := ComputeActivationExitEpoch(CurrentEpoch(s));
    var r := s.(validators := seq(|s.validators|, i requires 0 <= i < |s.validators| => ActivatedAt(s.validators, dequeued, epoch, i)));
    Mutators.WellFormedFrame(s, r);
    r
  }

  /** `process_registry_updates` of the older rules. */
  function ProcessRegistryUpdates(s: State): (r: State)
    requires WellFormed(s)
    ensures WellFormed(r) && r == s.(validators := r.validators) && |r.validators| == |s.validators|
    ensures var marked := EligibilityAndEjections(s, |s.validators|);
            forall i :: i in Dequeued(marked) ==> i < |s.validators| && InActivationQueue(marked, marked.validators[i])
  {
    var marked := EligibilityAndEjections(s, |s.validators|);
    forall i | i in Dequeued(marked)
      ensures i in ActivationQueue(marked)
    {
    }
    ActivateDequeued(marked)
  }

  /**
   * What `process_registry_updates` of the older rules leaves for validator i:
   * the first loop's marking or ejection, and then an activation epoch at the
   * activation-exit epoch of the current epoch if it was dequeued without one.
   */
  lemma RegistryUpdatesAt(s: State, i: ValidatorIndex)
    requires WellFormed(s) && i < |s.validators|
    ensures var marked := EligibilityAndEjections(s, |s.validators|);
            var w := ProcessRegistryUpdates(s).validators[i];
            w == marked.validators[i].(activationEpoch := w.activationEpoch) &&
            w.activationEpoch ==
              (if i in Dequeued(marked) && s.validators[i].activationEpoch == FAR_FUTURE_EPOCH
               then ComputeActivationExitEpoch(CurrentEpoch(s)) else s.validators[i].activationEpoch)
  {
    var marked := EligibilityAndEjections(s, |s.validators|);
    var epoch := ComputeActivationExitEpoch(CurrentEpoch(s));
    assert marked.validators[i].activationEpoch == s.validators[i].activationEpoch;
    ActivatedAtKeeps(marked.validators, Dequeued(marked), epoch, i);
    assert ProcessRegistryUpdates(s).validators[i] == ActivatedAt(marked.validators, Dequeued(marked), epoch, i);
  }

  /** ActivatedAt changes at most the activation epoch, and sets it only for a dequeued validator without one. */
  lemma ActivatedAtKeeps(validators: seq<Validator>, dequeued: seq<ValidatorIndex>, epoch: Epoch, i: nat)
    requires i < |validators|
    ensures var w := ActivatedAt(validators, dequeued, epoch, i);
            w == validators[i].(activationEpoch := w.activationEpoch) &&
            w.activationEpoch ==
              (if i in dequeued && validators[i].activationEpoch == FAR_FUTURE_EPOCH then epoch else validators[i].activationEpoch)
  {
  }

  /**
   * The older queue is fair and bounded: at most the churn limit of validators
   * is dequeued, each of them was queued, and a queued validator left waiting
   * comes after every dequeued one in queue order.
   */
  lemma ActivationQueueFair(s: State, i: ValidatorIndex, j: ValidatorIndex)
    requires i in Dequeued(s) && j < |s.validators| && InActivationQueue(s, s.validators[j]) && j !in Dequeued(s)
    ensures i < |s.validators| && InActivationQueue(s, s.validators[i])
    ensures EpochUpdates.QueuedBefore(s.validators, i, j)
  {
    var queue := ActivationQueue(s);
    var k := Min(ValidatorChurnLimit(s), |queue|);
    assert j in queue;
    var b :| 0 <= b < |queue| && queue[b] == j;
    var a :| 0 <= a < k && queue[a] == i;
  }

  /**
   * The queue is served up to the churn limit: a validator in the activation queue
   * that is left waiting means the churn limit was reached, and someone is
   * dequeued whenever anyone is in the activation queue.
   */
  lemma WaitingMeansChurnFull(s: State, j: ValidatorIndex)
    requires j < |s.validators| && InActivationQueue(s, s.validators[j])
    ensures j !in Dequeued(s) ==> |Dequeued(s)| == ValidatorChurnLimit(s)
    ensures 0 < |Dequeued(s)|
  {
    assert j in ActivationQueue(s);
  }

  /**
   * The dequeue loop sets an activation epoch only where there was none, and
   * only for a dequeued validator: a scheduled activation is never moved, though
   * its validator still takes a place under the churn limit.
   */
  lemma ActivationEpochSetOnce(s: State, i: nat)
    requires WellFormed(s) && i < |s.validators|
    ensures var w := ActivateDequeued(s).validators[i];
            var v := s.validators[i];
            w == v.(activationEpoch := w.activationEpoch) &&
            (w.activationEpoch != v.activationEpoch ==>
               v.activationEpoch == FAR_FUTURE_EPOCH && i in Dequeued(s) &&
               w.activationEpoch == ComputeActivationExitEpoch(CurrentEpoch(s))) &&
            (v.activationEpoch != FAR_FUTURE_EPOCH ==> w == v)
  {
  }

  // ---------------------------------------------------------------------------
  // Slashings

  /**
   * `process_slashings` of the older rules: the proportional penalty, computed
   * against the older total active balance.
   */
  function ProcessSlashings(s: State): (r: State)
    requires WellFormed(s)
    ensures WellFormed(r) && r == s.(balances := r.balances) && |r.balances| == |s.balances|
    ensures forall i :: 0 <= i < |s.balances| ==>
              r.balances[i] == if EpochUpdates.PenalisedNow(s, s.validators[i])
                               then Max(0, s.balances[i] - EpochUpdates.SlashingPenalty(s.validators[i].effectiveBalance, Mutators.Sum(s.slashings), TotalActiveBalance(s)))
                               else s.balances[i]
  {
    var r := s.(balances := EpochUpdates.SlashedBalances(s, TotalActiveBalance(s)));
    Mutators.WellFormedFrame(s, r);
    r
  }

  /**
   * Only validators at the midpoint of their slashing period lose balance, and
   * none loses more than its effective balance.
   */
  lemma SlashingsPenaliseAtMostEffectiveBalance(s: State, index: ValidatorIndex)
    requires WellFormed(s) && index < |s.validators|
    ensures var r := ProcessSlashings(s);
            r.balances[index] <= s.balances[index] &&
            r.balances[index] + s.validators[index].effectiveBalance >= s.balances[index] &&
            (!EpochUpdates.PenalisedNow(s, s.validators[index]) ==> r.balances[index] == s.balances[index])
  {
    var totalSlashings := Mutators.Sum(s.slashings);
    EpochUpdates.SlashingPenaltyBounds(s.validators[index].effectiveBalance, totalSlashings, totalSlashings, TotalActiveBalance(s));
  }

  // ---------------------------------------------------------------------------
  // Final updates

  /**
   * The length of an eth1 voting period in slots. The older simulator reads it
   * from a constants module that is not part of this model; the value is the
   * newer configuration's voting period, counted in slots.
   */
  const SLOTS_PER_ETH1_VOTING_PERIOD: nat := EPOCHS_PER_ETH1_VOTING_PERIOD * SLOTS_PER_EPOCH

  const HALF_INCREMENT: nat := EFFECTIVE_BALANCE_INCREMENT / 2

  /**
   * The older hysteresis: the effective balance is recomputed whenever the
   * balance falls below it, or rises more than one and a half increments above it.
   */
  function UpdatedEffectiveBalance(balance: Gwei, effectiveBalance: Gwei): Gwei {
    if balance < effectiveBalance || effectiveBalance + 3 * HALF_INCREMENT < balance
    then QuantisedUpdate(balance, EFFECTIVE_BALANCE_INCREMENT, MAX_EFFECTIVE_BALANCE)
    else effectiveBalance
  }

  /**
   * Inside the band the effective balance stays; outside it, it becomes the
   * largest whole increment at most the balance and MAX_EFFECTIVE_BALANCE. Either
   * way it ends no higher than the balance, and a second update with the same
   * balance changes nothing.
   */
  lemma HysteresisRule(balance: Gwei, effectiveBalance: Gwei)
    ensures var e := UpdatedEffectiveBalance(balance, effectiveBalance);
            var moved := balance < effectiveBalance || effectiveBalance + 3 * HALF_INCREMENT < balance;
            (!moved ==> e == effectiveBalance) &&
            (moved ==> IsMultipleOf(e, EFFECTIVE_BALANCE_INCREMENT) && e <= MAX_EFFECTIVE_BALANCE &&
                       forall m: nat :: IsMultipleOf(m, EFFECTIVE_BALANCE_INCREMENT) && m <= balance && m <= MAX_EFFECTIVE_BALANCE ==> m <= e) &&
            e <= balance &&
            UpdatedEffectiveBalance(balance, e) == e
  {
    var e := UpdatedEffectiveBalance(balance, effectiveBalance);
    var moved := balance < effectiveBalance || effectiveBalance + 3 * HALF_INCREMENT < balance;
    if moved {
      forall m: nat | IsMultipleOf(m, EFFECTIVE_BALANCE_INCREMENT) && m <= balance && m <= MAX_EFFECTIVE_BALANCE
        ensures m <= e
      {
        QuantisedUpdateIsLargestMultiple(balance, EFFECTIVE_BALANCE_INCREMENT, MAX_EFFECTIVE_BALANCE, m);
      }
      QuantisedUpdateIdempotent(balance, EFFECTIVE_BALANCE_INCREMENT, MAX_EFFECTIVE_BALANCE);
    }
  }

  /**
   * The older rule follows a falling balance at once, where the newer one waits
   * until it is DOWNWARD_THRESHOLD below: a balance a quarter increment below a
   * whole effective balance lowers it under the older rule and keeps it under
   * the newer.
   */
  lemma HysteresisAgainstNewer(effectiveBalance: Gwei)
    requires effectiveBalance >= EFFECTIVE_BALANCE_INCREMENT && effectiveBalance <= MAX_EFFECTIVE_BALANCE
    requires IsMultipleOf(effectiveBalance, EFFECTIVE_BALANCE_INCREMENT)
    ensures var balance := effectiveBalance - EpochUpdates.DOWNWARD_THRESHOLD;
            UpdatedEffectiveBalance(balance, effectiveBalance) == effectiveBalance - EFFECTIVE_BALANCE_INCREMENT &&
            EpochUpdates.UpdatedEffectiveBalance(balance, effectiveBalance) == effectiveBalance
  {
    var balance := effectiveBalance - EpochUpdates.DOWNWARD_THRESHOLD;
    var k := effectiveBalance / EFFECTIVE_BALANCE_INCREMENT;
    assert effectiveBalance == k * EFFECTIVE_BALANCE_INCREMENT;
    assert balance == (k - 1) * EFFECTIVE_BALANCE_INCREMENT + 750_000_000;
    DivUnique(balance, EFFECTIVE_BALANCE_INCREMENT, k - 1, 750_000_000);
  }

  /** Effective balances updated for every validator from its balance. */
  function UpdatedValidators(validators: seq<Validator>, balances: seq<Gwei>): (r: seq<Validator>)
    requires |balances| == |validators|
    ensures |r| == |validators|
    ensures forall i :: 0 <= i < |validators| ==>
              r[i] == validators[i].(effectiveBalance := UpdatedEffectiveBalance(balances[i], validators[i].effectiveBalance))
  {
    seq(|validators|, i requires 0 <= i < |validators| => UpdatedValidatorAt(validators, balances, i))
  }

  /** Validator `i` with its effective balance updated from its balance. */
  function UpdatedValidatorAt(validators: seq<Validator>, balances: seq<Gwei>, i: nat): Validator
    requires |balances| == |validators| && i < |validators|
  {
    validators[i].(effectiveBalance := UpdatedEffectiveBalance(balances[i], validators[i].effectiveBalance))
  }

  /** The eth1 votes are cleared when the next slot starts a voting period. */
  function ResetEth1DataVotes(s: State): (r: State)
    ensures r == s.(eth1DataVotes := r.eth1DataVotes)
    ensures r.eth1DataVotes == (if (s.slot + 1) % SLOTS_PER_ETH1_VOTING_PERIOD == 0 then [] else s.eth1DataVotes)
  {
    if (s.slot + 1) % SLOTS_PER_ETH1_VOTING_PERIOD == 0 then s.(eth1DataVotes := []) else s
  }

  /**
   * On the last slot of an epoch, where the final updates run, the older test on
   * the slot and the newer test on the epoch clear the votes at the same time.
   */
  lemma ResetEth1DataVotesAgainstNewer(s: State)
    requires EP.EpochEnd(s)
    ensures ResetEth1DataVotes(s) == EpochUpdates.ResetEth1DataVotes(s)
  {
    var e := CurrentEpoch(s);
    DivUnique(s.slot, SLOTS_PER_EPOCH, e, SLOTS_PER_EPOCH - 1);
    assert s.slot + 1 == (e + 1) * SLOTS_PER_EPOCH;
    var q := (e + 1) / EPOCHS_PER_ETH1_VOTING_PERIOD;
    var m := (e + 1) % EPOCHS_PER_ETH1_VOTING_PERIOD;
    assert s.slot + 1 == q * SLOTS_PER_ETH1_VOTING_PERIOD + m * SLOTS_PER_EPOCH;
    DivUnique(s.slot + 1, SLOTS_PER_ETH1_VOTING_PERIOD, q, m * SLOTS_PER_EPOCH);
  }

  /** The effective balances are updated from the balances. */
  function UpdateEffectiveBalances(s: State): State
    requires |s.balances| == |s.validators|
  {
    s.(validators := UpdatedValidators(s.validators, s.balances))
  }

  /**
   * `process_final_updates` of the older rules: the eth1 votes cleared at the
   * end of a voting period, the older hysteresis, then the slashings entry, the
   * randao mix, the historical root and the attestation rotation as in the newer
   * rules.
   */
  function ProcessFinalUpdates(env: Env, s: State): (r: State)
    requires WellFormed(s)
    ensures WellFormed(r) && r.slot == s.slot && |r.validators| == |s.validators|
    ensures r.previousEpochAttestations == s.currentEpochAttestations && r.currentEpochAttestations == []
    ensures r.finalizedCheckpoint == s.finalizedCheckpoint && r.currentJustifiedCheckpoint == s.currentJustifiedCheckpoint
    ensures r.previousJustifiedCheckpoint == s.previousJustifiedCheckpoint
  {
    CarryOver(env, UpdateEffectiveBalances(ResetEth1DataVotes(s)))
  }

  /** The steps the older final updates share with the newer: slashings entry, randao mix, historical root, rotation. */
  function CarryOver(env: Env, s: State): State
    requires |s.slashings| == EPOCHS_PER_SLASHINGS_VECTOR && |s.randaoMixes| == EPOCHS_PER_HISTORICAL_VECTOR
  {
    EpochUpdates.RotateAttestations(EpochUpdates.AppendHistoricalRoot(env, EpochUpdates.CarryRandaoMix(EpochUpdates.ResetSlashings(s))))
  }

  /** The shared steps neither read nor write the validators. */
  lemma CarryOverIgnoresValidators(env: Env, s: State, validators: seq<Validator>)
    requires |s.slashings| == EPOCHS_PER_SLASHINGS_VECTOR && |s.randaoMixes| == EPOCHS_PER_HISTORICAL_VECTOR
    ensures CarryOver(env, s.(validators := validators)) == CarryOver(env, s).(validators := validators)
  {
    var slashings := EpochUpdates.ResetSlashings(s);
    assert EpochUpdates.ResetSlashings(s.(validators := validators)) == slashings.(validators := validators);
    var mixed := EpochUpdates.CarryRandaoMix(slashings);
    assert EpochUpdates.CarryRandaoMix(slashings.(validators := validators)) == mixed.(validators := validators);
    var appended := EpochUpdates.AppendHistoricalRoot(env, mixed);
    assert EpochUpdates.AppendHistoricalRoot(env, mixed.(validators := validators)) == appended.(validators := validators);
  }

  /**
   * The older final updates differ from the newer ones only in the effective
   * balances: on the last slot of an epoch they agree on every other field.
   */
  lemma FinalUpdatesAgainstNewer(env: Env, s: State)
    requires WellFormed(s) && EP.EpochEnd(s)
    ensures var older := ProcessFinalUpdates(env, s);
            var newer := EpochUpdates.ProcessFinalUpdates(env, s);
            older == newer.(validators := older.validators) &&
            forall i :: 0 <= i < |s.validators| ==>
              older.validators[i] == s.validators[i].(effectiveBalance := UpdatedEffectiveBalance(s.balances[i], s.validators[i].effectiveBalance))
  {
    ResetEth1DataVotesAgainstNewer(s);
    var cleared := ResetEth1DataVotes(s);
    var older := UpdateEffectiveBalances(cleared);
    var newer := EpochUpdates.UpdateEffectiveBalances(cleared);
    assert older == newer.(validators := older.validators);
    assert EpochUpdates.ProcessFinalUpdates(env, s) == CarryOver(env, newer);
    CarryOverIgnoresValidators(env, newer, older.validators);
  }

  // ---------------------------------------------------------------------------
  // Epoch and slot processing

  /** The first two steps of `process_epoch`: justification and finalization, then rewards and penalties. */
  function JustifyAndReward(env: Env, s: State): (r: State)
    requires WellFormed(s) && EP.EpochEnd(s) && EP.CheckpointsOrdered(s)
    ensures WellFormed(r) && r.slot == s.slot && |r.validators| == |s.validators|
    ensures r.currentEpochAttestations == s.currentEpochAttestations
    ensures r.finalizedCheckpoint.epoch >= s.finalizedCheckpoint.epoch
    ensures r.finalizedCheckpoint.epoch <= r.previousJustifiedCheckpoint.epoch <= r.currentJustifiedCheckpoint.epoch <= CurrentEpoch(s)
  {
    var justified := ProcessJustificationAndFinalization(env, s);
    JustificationAndFinalizationKeepsOrder(env, s);
    EP.SameSlot(justified, s);
    ProcessRewardsAndPenalties(env, justified)
  }

  /** The last three steps of `process_epoch`: registry updates, slashings and final updates. */
  function UpdateRegistryAndRotate(env: Env, s: State): (r: State)
    requires WellFormed(s)
    ensures WellFormed(r) && r.slot == s.slot && |r.validators| == |s.validators|
    ensures r.previousEpochAttestations == s.currentEpochAttestations && r.currentEpochAttestations == []
    ensures r.finalizedCheckpoint == s.finalizedCheckpoint && r.currentJustifiedCheckpoint == s.currentJustifiedCheckpoint
    ensures r.previousJustifiedCheckpoint == s.previousJustifiedCheckpoint
  {
    ProcessFinalUpdates(env, ProcessSlashings(ProcessRegistryUpdates(s)))
  }

  /**
   * `process_epoch` of the older rules: the same five steps in the same order,
   * each under the older rules.
   */
  function ProcessEpoch(env: Env, s: State): (r: State)
    requires WellFormed(s) && EP.EpochEnd(s) && EP.CheckpointsOrdered(s)
    ensures WellFormed(r) && r.slot == s.slot && |r.validators| == |s.validators|
    ensures r.previousEpochAttestations == s.currentEpochAttestations && r.currentEpochAttestations == []
    ensures PendingAttestationsWithin(r.previousEpochAttestations, ComputeStartSlotAtEpoch(CurrentEpoch(s)), r)
    ensures r.finalizedCheckpoint.epoch >= s.finalizedCheckpoint.epoch
    ensures r.finalizedCheckpoint.epoch <= r.previousJustifiedCheckpoint.epoch <= r.currentJustifiedCheckpoint.epoch <= CurrentEpoch(s)
  {
    var justified := JustifyAndReward(env, s);
    var r := UpdateRegistryAndRotate(env, justified);
    SlotProcessing.RotatedAttestationsWithin(justified, r);
    r
  }

  /** The epoch transition on the last slot of an epoch, followed by the move to the next slot. */
  function EpochTransition(env: Env, s: State): (r: State)
    requires WellFormed(s) && EP.CheckpointsOrdered(s) && EP.EpochEnd(s)
    ensures WellFormed(r) && EP.CheckpointsOrdered(r) && r.slot == s.slot + 1
    ensures r.finalizedCheckpoint.epoch >= s.finalizedCheckpoint.epoch
    ensures CurrentEpoch(r) == CurrentEpoch(s) + 1
    ensures r.previousEpochAttestations == s.currentEpochAttestations && r.currentEpochAttestations == []
  {
    var processed := ProcessEpoch(env, s);
    SlotProcessing.AfterEpochProcessing(processed, s);
    SlotProcessing.NextSlot(processed)
  }

  /**
   * One iteration of the `process_slots` loop: the slot's roots cached, the
   * older epoch transition on the last slot of an epoch, and the next slot.
   */
  function AdvanceSlot(env: Env, s: State): (r: State)
    requires WellFormed(s) && EP.CheckpointsOrdered(s)
    ensures WellFormed(r) && EP.CheckpointsOrdered(r) && r.slot == s.slot + 1
    ensures r.finalizedCheckpoint.epoch >= s.finalizedCheckpoint.epoch
    ensures EP.EpochEnd(s) ==> CurrentEpoch(r) == CurrentEpoch(s) + 1 &&
                               r.previousEpochAttestations == s.currentEpochAttestations && r.currentEpochAttestations == []
    ensures !EP.EpochEnd(s) ==> CurrentEpoch(r) == CurrentEpoch(s) &&
                                r == s.(slot := s.slot + 1, stateRoots := r.stateRoots, blockRoots := r.blockRoots,
                                        latestBlockHeader := r.latestBlockHeader)
  {
    var cached := SlotProcessing.ProcessSlot(env, s);
    EP.SameSlot(cached, s);
    if EP.EpochEnd(cached) then
      EpochTransition(env, cached)
    else
      SlotProcessing.NextSlotInEpoch(cached);
      SlotProcessing.NextSlot(cached)
  }

  /** The `process_slots` loop from the state's slot up to `target`. */
  function AdvanceSlots(env: Env, s: State, target: Slot): (r: State)
    requires WellFormed(s) && EP.CheckpointsOrdered(s) && s.slot <= target
    ensures WellFormed(r) && EP.CheckpointsOrdered(r) && r.slot == target
    ensures r.finalizedCheckpoint.epoch >= s.finalizedCheckpoint.epoch
    decreases target - s.slot
  {
    if s.slot == target then s else AdvanceSlots(env, AdvanceSlot(env, s), target)
  }

  /**
   * `process_slots` of the older rules: the source asserts only that the target
   * is not behind the state, so the current slot is accepted and changes
   * nothing; otherwise the state ends exactly at the target.
   */
  function ProcessSlots(env: Env, s: State, slot: Slot): (r: Option<State>)
    requires WellFormed(s) && EP.CheckpointsOrdered(s)
    ensures r.Some? <==> s.slot <= slot
    ensures s.slot == slot ==> r == Some(s)
    ensures r.Some? ==> r.value.slot == slot && WellFormed(r.value) && EP.CheckpointsOrdered(r.value) &&
                        r.value.finalizedCheckpoint.epoch >= s.finalizedCheckpoint.epoch
  {
    if s.slot <= slot then Some(AdvanceSlots(env, s, slot)) else None
  }

  /** Advancing in two legs is advancing in one. */
  lemma {:induction false} AdvanceSlotsComposes(env: Env, s: State, middle: Slot, target: Slot)
    requires WellFormed(s) && EP.CheckpointsOrdered(s) && s.slot <= middle <= target
    ensures AdvanceSlots(env, AdvanceSlots(env, s, middle), target) == AdvanceSlots(env, s, target)
    decreases middle - s.slot
  {
    if s.slot < middle {
      AdvanceSlotsComposes(env, AdvanceSlot(env, s), middle, target);
    }
  }
}
