/**
 * Epoch processing of phase 0 as functions on state values: justification and
 * finalization, attestation rewards and penalties, registry updates, slashings
 * and the final updates, in the order `process_epoch` runs them. Each one is
 * called on the last slot of an epoch, before the slot number moves on.
 */
module EpochProcessing {
  import opened Wrappers
  import opened Constants
  import opened Types
  import opened IntegerMath
  import opened Eth2Arith
  import opened Helpers
  import opened Mutators

  /** The last slot of an epoch: the only slot at which `process_slots` runs epoch processing. */
  predicate EpochEnd(s: State) {
    (s.slot + 1) % SLOTS_PER_EPOCH == 0
  }

  /**
   * Two states at the same slot agree on whether it ends an epoch and on their
   * current and previous epochs.
   */
  lemma SameSlot(a: State, b: State)
    requires a.slot == b.slot
    ensures EpochEnd(a) == EpochEnd(b) && CurrentEpoch(a) == CurrentEpoch(b) && PreviousEpoch(a) == PreviousEpoch(b)
  {
  }

  /**
   * The justified and finalized checkpoints are ordered by epoch, the current
   * justified one is at most the previous epoch, and finality lies in the past.
   */
  predicate CheckpointsOrdered(s: State) {
    s.finalizedCheckpoint.epoch <= s.previousJustifiedCheckpoint.epoch <= s.currentJustifiedCheckpoint.epoch <= PreviousEpoch(s)
  }

  /** On the last slot of an epoch the block roots of the previous and current epochs are both recent. */
  lemma RecentEpochRoots(s: State)
    requires EpochEnd(s)
    ensures ComputeStartSlotAtEpoch(CurrentEpoch(s)) < s.slot <= ComputeStartSlotAtEpoch(CurrentEpoch(s)) + SLOTS_PER_HISTORICAL_ROOT
    ensures ComputeStartSlotAtEpoch(PreviousEpoch(s)) < s.slot <= ComputeStartSlotAtEpoch(PreviousEpoch(s)) + SLOTS_PER_HISTORICAL_ROOT
  {
    DivUnique(s.slot, SLOTS_PER_EPOCH, CurrentEpoch(s), SLOTS_PER_EPOCH - 1);
  }

  // ---------------------------------------------------------------------------
  // Matching attestations

  /** The elements of xs that satisfy p, in order. */
  function Filter<T(!new)>(xs: seq<T>, p: T -> bool): (r: seq<T>)
    ensures |r| <= |xs|
    ensures forall x {:trigger x in r} :: x in r <==> x in xs && p(x)
  {
    if |xs| == 0 then [] else (if p(xs[0]) then [xs[0]] else []) + Filter(xs[1..], p)
  }

  /** `get_matching_source_attestations`: the pending attestations recorded for the epoch. */
  function MatchingSourceAttestations(s: State, epoch: Epoch): seq<PendingAttestation>
    requires epoch == PreviousEpoch(s) || epoch == CurrentEpoch(s)
  {
    if epoch == CurrentEpoch(s) then s.currentEpochAttestations else s.previousEpochAttestations
  }

  /** `get_matching_target_attestations`: those that also vote for the epoch's block root as target. */
  function MatchingTargetAttestations(s: State, epoch: Epoch): (r: seq<PendingAttestation>)
    requires WellFormed(s) && EpochEnd(s) && (epoch == PreviousEpoch(s) || epoch == CurrentEpoch(s))
    ensures forall a {:trigger a in r} :: a in r <==> a in MatchingSourceAttestations(s, epoch) && a.data.target.root == (RecentEpochRoots(s); BlockRoot(s, epoch))
  {
    RecentEpochRoots(s);
    var root := BlockRoot(s, epoch);
    Filter(MatchingSourceAttestations(s, epoch), (a: PendingAttestation) => VotesForTarget(a, root))
  }

  /** The target vote of a pending attestation is the given root. */
  predicate VotesForTarget(a: PendingAttestation, root: Root) {
    a.data.target.root == root
  }

  /**
   * The head vote of a pending attestation agrees with the block root at its slot.
   * The slot is recent for every attestation a well-formed state records
   * (HeadVoteSlotIsRecent); elsewhere the source would fail and this is false.
   */
  predicate HeadMatches(s: State, a: PendingAttestation)
    requires WellFormed(s)
  {
    a.data.slot < s.slot <= a.data.slot + SLOTS_PER_HISTORICAL_ROOT && a.data.beaconBlockRoot == BlockRootAtSlot(s, a.data.slot)
  }

  /** Every previous-epoch attestation's slot is recent on the last slot of the epoch. */
  lemma HeadVoteSlotIsRecent(s: State, a: PendingAttestation)
    requires WellFormed(s) && EpochEnd(s) && a in s.previousEpochAttestations
    ensures a.data.slot < s.slot <= a.data.slot + SLOTS_PER_HISTORICAL_ROOT
  {
    RecentEpochRoots(s);
  }

  /** `get_matching_head_attestations`: target-matching attestations whose head vote is also right. */
  function MatchingHeadAttestations(s: State, epoch: Epoch): (r: seq<PendingAttestation>)
    requires WellFormed(s) && EpochEnd(s) && (epoch == PreviousEpoch(s) || epoch == CurrentEpoch(s))
    ensures forall a {:trigger a in r} :: a in r <==> a in MatchingTargetAttestations(s, epoch) && HeadMatches(s, a)
  {
    Filter(MatchingTargetAttestations(s, epoch), (a: PendingAttestation) => HeadMatches(s, a))
  }

  /** The attesting indices of each pending attestation, under the state's committees. */
  function Participants(env: Env, s: State): (r: PendingAttestation -> set<ValidatorIndex>)
    requires WellFormed(s)
    ensures forall a: PendingAttestation {:trigger r(a)} :: r(a) == AttestingIndices(env, s, a.data, a.aggregationBits)
  {
    (a: PendingAttestation) => AttestersOf(env, s, a)
  }

  /** The attesting indices of one pending attestation. */
  function AttestersOf(env: Env, s: State, a: PendingAttestation): set<ValidatorIndex>
    requires WellFormed(s)
  {
    AttestingIndices(env, s, a.data, a.aggregationBits)
  }

  /** The union of the participants of a list of pending attestations. */
  function AttestingUnion(participants: PendingAttestation -> set<ValidatorIndex>, attestations: seq<PendingAttestation>)
    : (r: set<ValidatorIndex>)
    ensures forall i :: i in r <==> exists a :: a in attestations && i in participants(a)
  {
    if |attestations| == 0 then {}
    else
      var last := attestations[|attestations| - 1];
      var rest := AttestingUnion(participants, attestations[..|attestations| - 1]);
      assert attestations == attestations[..|attestations| - 1] + [last];
      rest + participants(last)
  }

  /** `get_unslashed_attesting_indices`. */
  function UnslashedAttestingIndices(env: Env, s: State, attestations: seq<PendingAttestation>): (r: set<ValidatorIndex>)
    requires WellFormed(s)
    ensures forall i :: i in r <==>
              i < |s.validators| && i in AttestingUnion(Participants(env, s), attestations) && !s.validators[i].slashed
  {
    set i: nat | i < |s.validators| && i in AttestingUnion(Participants(env, s), attestations) && !s.validators[i].slashed
  }

  /** An attestation list contained in another has no more unslashed attesters. */
  lemma UnslashedAttestingIndicesMonotone(env: Env, s: State, a: seq<PendingAttestation>, b: seq<PendingAttestation>)
    requires WellFormed(s) && forall x :: x in a ==> x in b
    ensures UnslashedAttestingIndices(env, s, a) <= UnslashedAttestingIndices(env, s, b)
  {
  }

  /** `get_attesting_balance`. */
  function AttestingBalance(env: Env, s: State, attestations: seq<PendingAttestation>): Gwei
    requires WellFormed(s)
  {
    TotalBalance(s, UnslashedAttestingIndices(env, s, attestations))
  }

  // ---------------------------------------------------------------------------
  // Justification and finalization

  /** Two thirds or more of the total active balance. */
  predicate Supermajority(attestingBalance: Gwei, totalActiveBalance: Gwei) {
    attestingBalance * 3 >= totalActiveBalance * 2
  }

  /** All bits in [from, to) are set. */
  predicate AllSet(bits: seq<bool>, from: nat, to: nat)
    requires from <= to <= |bits|
  {
    forall k :: from <= k < to ==> bits[k]
  }

  /**
   * The body of `process_justification_and_finalization` once the balances are
   * known: the target-voting balances of the previous and current epochs, the
   * total active balance and the two epochs' block roots.
   */
  function WeighJustificationAndFinalization(s: State, previousBalance: Gwei, currentBalance: Gwei, totalBalance: Gwei,
                                             previousRoot: Root, currentRoot: Root): (r: State)
    requires |s.justificationBits| == JUSTIFICATION_BITS_LENGTH
    ensures |r.justificationBits| == JUSTIFICATION_BITS_LENGTH
    ensures r == s.(previousJustifiedCheckpoint := r.previousJustifiedCheckpoint,
                    currentJustifiedCheckpoint := r.currentJustifiedCheckpoint,
                    justificationBits := r.justificationBits,
                    finalizedCheckpoint := r.finalizedCheckpoint)
  {
    var justified := JustifyTargets(s, previousBalance, currentBalance, totalBalance, previousRoot, currentRoot);
    FinalizeCheckpoints(justified, s.previousJustifiedCheckpoint, s.currentJustifiedCheckpoint, CurrentEpoch(s))
  }

  /**
   * The justification half: the old current justified checkpoint becomes the
   * previous one, the bits shift up by one, and a supermajority for the previous
   * epoch's target, then for the current epoch's, justifies that checkpoint and
   * sets bit 1, respectively bit 0.
   */
  function JustifyTargets(s: State, previousBalance: Gwei, currentBalance: Gwei, totalBalance: Gwei,
                          previousRoot: Root, currentRoot: Root): (r: State)
    requires |s.justificationBits| == JUSTIFICATION_BITS_LENGTH
    ensures |r.justificationBits| == JUSTIFICATION_BITS_LENGTH
    ensures r == s.(previousJustifiedCheckpoint := r.previousJustifiedCheckpoint,
                    currentJustifiedCheckpoint := r.currentJustifiedCheckpoint,
                    justificationBits := r.justificationBits)
  {
    var shifted := [false] + s.justificationBits[..JUSTIFICATION_BITS_LENGTH - 1];
    var justified1 := if Supermajority(previousBalance, totalBalance) then Checkpoint(PreviousEpoch(s), previousRoot)
                      else s.currentJustifiedCheckpoint;
    var bits1 := if Supermajority(previousBalance, totalBalance) then shifted[1 := true] else shifted;
    var justified2 := if Supermajority(currentBalance, totalBalance) then Checkpoint(CurrentEpoch(s), currentRoot)
                      else justified1;
    var bits := if Supermajority(currentBalance, totalBalance) then bits1[0 := true] else bits1;
    s.(previousJustifiedCheckpoint := s.currentJustifiedCheckpoint,
       currentJustifiedCheckpoint := justified2,
       justificationBits := bits)
  }

  /**
   * The finalization half, from the new bits and the justified checkpoints as
   * they were before the epoch: the four rules are tried in order and the last
   * one that applies moves the finalized checkpoint.
   */
  function FinalizeCheckpoints(s: State, oldPrevious: Checkpoint, oldCurrent: Checkpoint, currentEpoch: Epoch): (r: State)
    requires |s.justificationBits| == JUSTIFICATION_BITS_LENGTH
    ensures r == s.(finalizedCheckpoint := r.finalizedCheckpoint)
  {
    var bits := s.justificationBits;
    var finalized1 := if AllSet(bits, 1, 4) && oldPrevious.epoch + 3 == currentEpoch then oldPrevious else s.finalizedCheckpoint;
    var finalized2 := if AllSet(bits, 1, 3) && oldPrevious.epoch + 2 == currentEpoch then oldPrevious else finalized1;
    var finalized3 := if AllSet(bits, 0, 3) && oldCurrent.epoch + 2 == currentEpoch then oldCurrent else finalized2;
    var finalized4 := if AllSet(bits, 0, 2) && oldCurrent.epoch + 1 == currentEpoch then oldCurrent else finalized3;
    s.(finalizedCheckpoint := finalized4)
  }

  /** `process_justification_and_finalization`: nothing happens in the first two epochs. */
  function ProcessJustificationAndFinalization(env: Env, s: State): (r: State)
    requires WellFormed(s) && EpochEnd(s)
    ensures WellFormed(r) && r == s.(previousJustifiedCheckpoint := r.previousJustifiedCheckpoint,
                                     currentJustifiedCheckpoint := r.currentJustifiedCheckpoint,
                                     justificationBits := r.justificationBits,
                                     finalizedCheckpoint := r.finalizedCheckpoint)
  {
    if CurrentEpoch(s) <= GENESIS_EPOCH + 1 then s
    else
      RecentEpochRoots(s);
      var previousEpoch := PreviousEpoch(s);
      var currentEpoch := CurrentEpoch(s);
      var previousBalance := AttestingBalance(env, s, MatchingTargetAttestations(s, previousEpoch));
      var currentBalance := AttestingBalance(env, s, MatchingTargetAttestations(s, currentEpoch));
      var r := WeighJustificationAndFinalization(s, previousBalance, currentBalance, TotalActiveBalance(s),
                                                 BlockRoot(s, previousEpoch), BlockRoot(s, currentEpoch));
      WellFormedSameShape(s, r);
      r
  }

  /** In the genesis epoch and the one after it, justification and finalization change nothing. */
  lemma JustificationSkippedEarly(env: Env, s: State)
    requires WellFormed(s) && EpochEnd(s) && CurrentEpoch(s) <= GENESIS_EPOCH + 1
    ensures ProcessJustificationAndFinalization(env, s) == s
  {
  }

  /**
   * The justification bits shift up by one; bit 1 is then also set by a supermajority
   * for the previous epoch's target and bit 0 records one for the current epoch's; the old current
   * justified checkpoint becomes the previous one, and the current justified
   * checkpoint moves to the latest epoch with a supermajority.
   */
  lemma JustificationBitsAndCheckpoints(s: State, previousBalance: Gwei, currentBalance: Gwei, totalBalance: Gwei,
                                        previousRoot: Root, currentRoot: Root)
    requires |s.justificationBits| == JUSTIFICATION_BITS_LENGTH
    ensures var r := WeighJustificationAndFinalization(s, previousBalance, currentBalance, totalBalance, previousRoot, currentRoot);
            r.justificationBits[2..] == s.justificationBits[1..3] &&
            r.justificationBits[1] == (Supermajority(previousBalance, totalBalance) || s.justificationBits[0]) &&
            r.justificationBits[0] == Supermajority(currentBalance, totalBalance) &&
            r.previousJustifiedCheckpoint == s.currentJustifiedCheckpoint &&
            r.currentJustifiedCheckpoint ==
              (if Supermajority(currentBalance, totalBalance) then Checkpoint(CurrentEpoch(s), currentRoot)
               else if Supermajority(previousBalance, totalBalance) then Checkpoint(PreviousEpoch(s), previousRoot)
               else s.currentJustifiedCheckpoint)
  {
  }

  /**
   * Finalization: of the four rules (bits 1-3 with the old previous justified
   * checkpoint three epochs back, bits 1-2 with it two back, bits 0-2 with the old
   * current justified checkpoint two back, bits 0-1 with it one back) the last that
   * applies decides the finalized checkpoint; when none applies it stays.
   */
  lemma FinalizationRules(s: State, previousBalance: Gwei, currentBalance: Gwei, totalBalance: Gwei,
                          previousRoot: Root, currentRoot: Root)
    requires |s.justificationBits| == JUSTIFICATION_BITS_LENGTH
    ensures var r := WeighJustificationAndFinalization(s, previousBalance, currentBalance, totalBalance, previousRoot, currentRoot);
            var bits := r.justificationBits;
            var epoch := CurrentEpoch(s);
            var oldPrevious := s.previousJustifiedCheckpoint;
            var oldCurrent := s.currentJustifiedCheckpoint;
            var rule1 := AllSet(bits, 1, 4) && oldPrevious.epoch + 3 == epoch;
            var rule2 := AllSet(bits, 1, 3) && oldPrevious.epoch + 2 == epoch;
            var rule3 := AllSet(bits, 0, 3) && oldCurrent.epoch + 2 == epoch;
            var rule4 := AllSet(bits, 0, 2) && oldCurrent.epoch + 1 == epoch;
            (rule4 ==> r.finalizedCheckpoint == oldCurrent) &&
            (!rule4 && rule3 ==> r.finalizedCheckpoint == oldCurrent) &&
            (!rule4 && !rule3 && rule2 ==> r.finalizedCheckpoint == oldPrevious) &&
            (!rule4 && !rule3 && !rule2 && rule1 ==> r.finalizedCheckpoint == oldPrevious) &&
            (!rule4 && !rule3 && !rule2 && !rule1 ==> r.finalizedCheckpoint == s.finalizedCheckpoint)
  {
  }

  /**
   * Justification and finalization keep the checkpoints ordered and never move
   * finality back; after it the current justified checkpoint is at most the
   * current epoch, which is the previous epoch once the slot moves on.
   */
  lemma JustificationKeepsOrder(s: State, previousBalance: Gwei, currentBalance: Gwei, totalBalance: Gwei,
                                previousRoot: Root, currentRoot: Root)
    requires |s.justificationBits| == JUSTIFICATION_BITS_LENGTH && CheckpointsOrdered(s)
    ensures var r := WeighJustificationAndFinalization(s, previousBalance, currentBalance, totalBalance, previousRoot, currentRoot);
            r.finalizedCheckpoint.epoch >= s.finalizedCheckpoint.epoch &&
            r.finalizedCheckpoint.epoch <= r.previousJustifiedCheckpoint.epoch <= r.currentJustifiedCheckpoint.epoch <= CurrentEpoch(s) &&
            r.finalizedCheckpoint.epoch <= PreviousEpoch(s)
  {
  }

  /**
   * Justification and finalization keep the checkpoints ordered, never move the
   * finalized checkpoint back, and leave finality in the past.
   */
  lemma JustificationAndFinalizationKeepsOrder(env: Env, s: State)
    requires WellFormed(s) && EpochEnd(s) && CheckpointsOrdered(s)
    ensures var r := ProcessJustificationAndFinalization(env, s);
            r.finalizedCheckpoint.epoch >= s.finalizedCheckpoint.epoch &&
            r.finalizedCheckpoint.epoch <= r.previousJustifiedCheckpoint.epoch <= r.currentJustifiedCheckpoint.epoch <= CurrentEpoch(s) &&
            r.finalizedCheckpoint.epoch <= PreviousEpoch(s)
  {
    if CurrentEpoch(s) > GENESIS_EPOCH + 1 {
      RecentEpochRoots(s);
      var previousEpoch := PreviousEpoch(s);
      var currentEpoch := CurrentEpoch(s);
      JustificationKeepsOrder(s,
        AttestingBalance(env, s, MatchingTargetAttestations(s, previousEpoch)),
        AttestingBalance(env, s, MatchingTargetAttestations(s, currentEpoch)),
        TotalActiveBalance(s),
        BlockRoot(s, previousEpoch), BlockRoot(s, currentEpoch));
    }
  }
}
