# Beacon chain phase 0, as the economics simulator runs it

This project models, in Dafny, the core of the Python beacon-chain simulator in
`eth2economics/code`: the phase-0 state transition of the Ethereum beacon chain
and its LMD-GHOST fork choice, as copied and adapted into the simulator's
`beaconrunner2050/specs.py`; the epoch processing and `process_slots` of the
older `beaconrunner/specs.py` (`get_total_balance`, `get_matching_head_attestations`,
`is_valid_indexed_attestation`, `get_attestation_deltas`, `process_registry_updates`,
`process_slashings`, `process_final_updates` and the epoch and slot steps built
on them); the arithmetic helpers of `beaconrunner/eth2.py`; and the gossip
network of `beaconrunner2049/network.py`.

The modules follow the source:

- `IntegerMath`, `ByteCodec`, `Eth2Arith`: `integer_squareroot`, `xor`,
  `int_to_bytes`/`bytes_to_int`, and `quantised_update`, `get_base_reward` and
  `eth_to_gwei` of `eth2.py`.
- `Types`, `Constants`, `Wrappers`: the SSZ containers as datatypes, the
  mainnet values of the constants as literals (the simulator's
  `apply_constants_config` may replace them when it loads; the model fixes
  them), and `Option`/`Result`.
- `Shuffling`, `Helpers`, `Mutators`: the swap-or-not shuffle, committees and
  proposer selection, the accessors and predicates, and the three mutators
  (`initiate_validator_exit`, `slash_validator`, balance changes).
- `EpochProcessing`, `Rewards`, `EpochUpdates`, `SlotProcessing`,
  `BlockProcessing`: `process_epoch` step by step, `process_slots`,
  `process_block` with every operation, `state_transition` and the genesis
  state.
- `StateObject`: the `BeaconState` the simulator mutates in place, as a class
  whose methods (the mutators, slot and epoch processing, and block processing
  down to each operation and `state_transition`) are proved to produce the
  states the functions above define.
- `ForkChoice` and `StoreObject`: the store and its handlers (`on_tick`,
  `on_block`, `on_attestation`, `get_head`) as functions on a store value, and
  the same store as a class updated in place.
- `Networking`: information sets, attestation dissemination, one round of
  gossip (`update_network`) and what a validator knows.
- `OlderRules` and `OlderStateObject`: the older simulator's epoch and slot rules,
  as functions compared lemma by lemma with the newer ones, and as the methods
  that update the state object.

Hashing, `hash_tree_root`, `signing_root` and BLS signature verification are
not modelled: they are fields of an `Env` value that every operation needing
them takes as a parameter, so each property holds for any hash and any
signature scheme. The simulator's `print` calls are not modelled.

## Model

| member | source | states |
|---|---|---|
| IntegerMath.FloorSqrt | eth2economics/code/beaconrunner2050/specs.py:348-357 | the result x is the largest integer whose square is at most n: x*x <= n < (x+1)*(x+1) |
| IntegerMath.FloorSqrtUnique | eth2economics/code/beaconrunner2050/specs.py:348-351 | only one integer satisfies x*x <= n < (x+1)*(x+1), so "the largest such x" is well defined |
| IntegerMath.NewtonStepStaysAbove | eth2economics/code/beaconrunner2050/specs.py:355-356 | a Newton step (x + n // x) // 2 from any positive x never drops below the floor square root of n |
| IntegerMath.NewtonStepPositive | eth2economics/code/beaconrunner2050/specs.py:355-356 | for n > 0 a Newton step from a positive x stays positive, so the division n // x in the next step is defined |
| IntegerMath.NewtonStepStalls | eth2economics/code/beaconrunner2050/specs.py:354-357 | once the step no longer decreases x (the loop exit y >= x), x*x <= n |
| IntegerMath.IntegerSquareRoot | eth2economics/code/beaconrunner2050/specs.py:348-357 | the while loop of integer_squareroot returns the floor square root of n for every n, including 0 |
| ByteCodec.IntToBytes | eth2economics/code/beaconrunner2050/specs.py:367-371 | int_to_bytes yields exactly `length` bytes |
| ByteCodec.BytesToInt | eth2economics/code/beaconrunner2050/specs.py:374-378 | bytes_to_int of s is below 256^|s| |
| ByteCodec.IntToBytesRoundTrip | eth2economics/code/beaconrunner2050/specs.py:367-378 | decoding the little-endian encoding of n < 256^length gives n back |
| ByteCodec.BytesToIntRoundTrip | eth2economics/code/beaconrunner2050/specs.py:367-378 | re-encoding the value of a byte string at its own length gives the string back |
| ByteCodec.XorBits | eth2economics/code/beaconrunner2050/specs.py:360-364 | the bitwise exclusive or of two values below 2^width is below 2^width |
| ByteCodec.XorBitsInvolution | eth2economics/code/beaconrunner2050/specs.py:360-364 | xoring with the same y twice restores x (bit by bit) |
| ByteCodec.XorByteInvolution | eth2economics/code/beaconrunner2050/specs.py:360-364 | the same on single bytes |
| ByteCodec.XorInvolution | eth2economics/code/beaconrunner2050/specs.py:360-364 | xor of two 32-byte strings, applied twice with the same second string, restores the first |
| Eth2Arith.QuantisedUpdate | eth2economics/code/beaconrunner/eth2.py:8-9 | quantised_update never exceeds the balance or MAX_EFFECTIVE_BALANCE and is a whole number of increments |
| Eth2Arith.QuantisedUpdateIsLargestMultiple | eth2economics/code/beaconrunner/eth2.py:8-9 | every multiple of the increment at most both the balance and the cap is at most the quantised value: it is the largest such multiple |
| Eth2Arith.QuantisedUpdateIdempotent | eth2economics/code/beaconrunner/eth2.py:8-9 | quantising an already quantised balance changes nothing |
| Eth2Arith.BaseRewardBound | eth2economics/code/beaconrunner/eth2.py:11-12 | base reward times BASE_REWARDS_PER_EPOCH times the square root of the total never exceeds effective balance times BASE_REWARD_FACTOR |
| Eth2Arith.BaseRewardMonotoneInBalance | eth2economics/code/beaconrunner/eth2.py:11-12 | a larger effective balance never earns a smaller base reward |
| Eth2Arith.BaseRewardAntitoneInTotal | eth2economics/code/beaconrunner/eth2.py:11-12 | a larger total balance never earns an individual a larger base reward |
| Eth2Arith.FloorSqrtMonotone | eth2economics/code/beaconrunner2050/specs.py:348-357 | the floor square root is monotone, the fact the two base-reward lemmas rest on |
| Eth2Arith.EthToGwei | eth2economics/code/beaconrunner/eth2.py:14-15 | eth_to_gwei is a whole multiple of 10^9 Gwei whose quotient by 10^9 is the amount of ether |
| Helpers.SlotWithinItsEpoch | eth2economics/code/beaconrunner2050/specs.py:505-516 | a slot lies between the start slot of its epoch and the start slot of the next epoch |
| Helpers.StartSlotInEpoch | eth2economics/code/beaconrunner2050/specs.py:505-516 | the start slot of an epoch belongs to that epoch |
| Helpers.ComputeActivationExitEpoch | eth2economics/code/beaconrunner2050/specs.py:519-523 | activations and exits take effect strictly after the seed lookahead: the result exceeds epoch + MAX_SEED_LOOKAHEAD |
| Helpers.NoVoteSlashableWithItself | eth2economics/code/beaconrunner2050/specs.py:417-426 | no attestation data is slashable against itself (neither double nor surround vote) |
| Helpers.IncreasingVotesNotSlashable | eth2economics/code/beaconrunner2050/specs.py:417-426 | votes whose source and target epochs both advance are not slashable in either order |
| Helpers.DoubleVoteSymmetric | eth2economics/code/beaconrunner2050/specs.py:421-423 | two different votes for the same target epoch are slashable in either order |
| Helpers.PreviousEpoch | eth2economics/code/beaconrunner2050/specs.py:575-580 | the previous epoch is one less than the current epoch, except at genesis where both are the genesis epoch |
| Helpers.ActiveValidatorIndices | eth2economics/code/beaconrunner2050/specs.py:605-609 | exactly the indices of validators active at the epoch, in increasing order and without repeats |
| Helpers.ValidatorChurnLimit | eth2economics/code/beaconrunner2050/specs.py:612-617 | the churn limit is at least MIN_PER_EPOCH_CHURN_LIMIT and at least the active count over CHURN_LIMIT_QUOTIENT |
| Helpers.SeedMixLookahead | eth2economics/code/beaconrunner2050/specs.py:620-625 | the "avoid underflow" offset reads the mix MIN_SEED_LOOKAHEAD + 1 epochs back, wrapping round the mix vector near genesis |
| Helpers.CommitteeCountAtSlot | eth2economics/code/beaconrunner2050/specs.py:628-636 | between 1 and MAX_COMMITTEES_PER_SLOT committees per slot |
| Helpers.CommitteesMeetTargetSize | eth2economics/code/beaconrunner2050/specs.py:628-636 | with more than one committee per slot, the active set fills every committee of the epoch to TARGET_COMMITTEE_SIZE |
| Helpers.CommitteePositionInRange | eth2economics/code/beaconrunner2050/specs.py:639-650 | the committee position (slot % SLOTS_PER_EPOCH) * committees_per_slot + index is below the epoch's committee count whenever index is below the per-slot count |
| Helpers.BeaconCommittee | eth2economics/code/beaconrunner2050/specs.py:639-650 | a committee exists for every index below the committee count, and its members are validators active in the slot's epoch |
| Helpers.BeaconProposerIndex | eth2economics/code/beaconrunner2050/specs.py:653-660 | the proposer, when there is one, is a validator active in the current epoch; with no active validator there is none |
| Helpers.SumOfEffectiveBalancesMonotone | eth2economics/code/beaconrunner2050/specs.py:663-669 | adding indices never lowers the summed effective balance |
| Helpers.SumOfEffectiveBalancesDisjointUnion | eth2economics/code/beaconrunner2050/specs.py:663-669 | the summed effective balance of two disjoint index sets is the sum of the two sums |
| Helpers.TotalBalance | eth2economics/code/beaconrunner2050/specs.py:663-669 | the total is the summed effective balance of the indices, raised to EFFECTIVE_BALANCE_INCREMENT when smaller |
| Helpers.TotalBalanceMonotone | eth2economics/code/beaconrunner2050/specs.py:663-669 | a subset never has a larger total balance |
| Helpers.ActiveIndexSet | eth2economics/code/beaconrunner2050/specs.py:672-677 | the set of validators active at the epoch, member by member |
| Helpers.TotalActiveBalance | eth2economics/code/beaconrunner2050/specs.py:672-677 | the total active balance is at least EFFECTIVE_BALANCE_INCREMENT, so dividing by it is safe |
| Helpers.ComputeDomain | eth2economics/code/beaconrunner2050/specs.py:546-555 | a domain starts with its four-byte domain type |
| Helpers.DomainSeparation | eth2economics/code/beaconrunner2050/specs.py:546-555 | domains of different types differ, whatever the fork versions and genesis validators roots |
| Helpers.AttestingIndices | eth2economics/code/beaconrunner2050/specs.py:702-709 | attesting indices are indices of existing validators |
| Helpers.AttestingIndicesMembers | eth2economics/code/beaconrunner2050/specs.py:702-709 | a validator attests exactly when one of its committee positions has its aggregation bit set |
| Helpers.SortedIndices | eth2economics/code/beaconrunner2050/specs.py:689-699 | sorted(indices): the same members, in strictly increasing order |
| Helpers.GetIndexedAttestation | eth2economics/code/beaconrunner2050/specs.py:689-699 | the indexed attestation lists exactly the attesting indices, sorted, and keeps the data and signature |
| Helpers.StrictlyIncreasingIsDistinct | eth2economics/code/beaconrunner2050/specs.py:434-436 | an index list equal to sorted(set(indices)) has no repeats |
| Helpers.ValidIndexedAttestationDistinct | eth2economics/code/beaconrunner2050/specs.py:429-441 | a valid indexed attestation names no validator twice |
| Shuffling.Pivot | eth2economics/code/beaconrunner2050/specs.py:466 | the round's pivot is a position below the index count |
| Shuffling.Flip | eth2economics/code/beaconrunner2050/specs.py:467 | the partner (pivot + index_count - index) % index_count is a position below the index count |
| Shuffling.FlipInvolution | eth2economics/code/beaconrunner2050/specs.py:467 | the partner of the partner is the original index |
| Shuffling.ShuffleRound | eth2economics/code/beaconrunner2050/specs.py:466-472 | one swap-or-not round keeps the index below the index count |
| Shuffling.ShuffleRoundInvolution | eth2economics/code/beaconrunner2050/specs.py:466-472 | a round applied twice gives the index back: both members of a pair read the same bit at position max(index, flip) |
| Shuffling.UndoApply | eth2economics/code/beaconrunner2050/specs.py:465-472 | running involutive rounds backwards undoes running them forwards |
| Shuffling.ApplyUndo | eth2economics/code/beaconrunner2050/specs.py:465-472 | running involutive rounds forwards undoes running them backwards |
| Shuffling.RoundsProperties | eth2economics/code/beaconrunner2050/specs.py:465-472 | the round schedule of compute_shuffled_index is involutive round by round and stays below the index count |
| Shuffling.ShuffledIndex | eth2economics/code/beaconrunner2050/specs.py:457-474 | the shuffled index is below the index count |
| Shuffling.ComputeShuffledIndex | eth2economics/code/beaconrunner2050/specs.py:457-474 | the loop over SHUFFLE_ROUND_COUNT rounds, updating the index in place, returns the full shuffle of the index |
| Shuffling.UnshuffledIndex | eth2economics/code/beaconrunner2050/specs.py:457-474 | an inverse of the shuffle: shuffling the result gives the index back |
| Shuffling.UnshuffleShuffle | eth2economics/code/beaconrunner2050/specs.py:457-474 | unshuffling a shuffled index gives it back |
| Shuffling.ShuffleIsBijection | eth2economics/code/beaconrunner2050/specs.py:457-474 | for a fixed seed and count the shuffle is injective and onto [0, index_count) |
| Shuffling.ShuffleHasInverse | eth2economics/code/beaconrunner2050/specs.py:457-474 | the shuffle and the unshuffle are inverse permutations of [0, index_count) |
| Shuffling.CommitteeBounds | eth2economics/code/beaconrunner2050/specs.py:500-501 | the committee slice [start, end) lies inside the index list |
| Shuffling.ComputeCommittee | eth2economics/code/beaconrunner2050/specs.py:493-502 | the committee has end - start members, each taken from the index list |
| Shuffling.CommitteeSizeBalanced | eth2economics/code/beaconrunner2050/specs.py:500-501 | each committee has len(indices) // count or one more members |
| Shuffling.CommitteesOrdered | eth2economics/code/beaconrunner2050/specs.py:500-501 | an earlier committee's slice ends no later than a later committee's slice starts |
| Shuffling.SliceUnique | eth2economics/code/beaconrunner2050/specs.py:500-501 | no position lies in two committee slices |
| Shuffling.SliceOf | eth2economics/code/beaconrunner2050/specs.py:500-501 | every position of the list lies in some committee slice |
| Shuffling.PermutedSliceMembership | eth2economics/code/beaconrunner2050/specs.py:493-502 | a list entry is in a permuted slice exactly when its preimage under the permutation is in the slice's range |
| Shuffling.PermutedSliceDistinct | eth2economics/code/beaconrunner2050/specs.py:493-502 | a permuted slice of a list without repeats has no repeats |
| Shuffling.CommitteeMembership | eth2economics/code/beaconrunner2050/specs.py:493-502 | a validator is in committee k exactly when its unshuffled position lies in committee k's slice |
| Shuffling.EachIndexInOneCommittee | eth2economics/code/beaconrunner2050/specs.py:493-502 | for a list without repeats, every listed validator is in exactly one of the count committees |
| Shuffling.CommitteeDistinct | eth2economics/code/beaconrunner2050/specs.py:493-502 | no committee names a validator twice |
| Shuffling.RandomByte | eth2economics/code/beaconrunner2050/specs.py:485 | the random byte is at most MAX_RANDOM_BYTE = 2**8 - 1 |
| Shuffling.FirstAcceptedDraw | eth2economics/code/beaconrunner2050/specs.py:483-490 | the first accepted draw at or after i: accepted, with every earlier draw rejected; None only when no draw below the limit is accepted |
| Shuffling.SkipRejectedDraw | eth2economics/code/beaconrunner2050/specs.py:488-490 | a rejected draw hands the search on to the next draw |
| Shuffling.ProposerIndex | eth2economics/code/beaconrunner2050/specs.py:477-490 | the proposer, when found, is one of the listed indices |
| Shuffling.ComputeProposerIndex | eth2economics/code/beaconrunner2050/specs.py:477-490 | the sampling loop returns the candidate of the first accepted draw, as ProposerIndex defines it |
| Shuffling.Draw | eth2economics/code/beaconrunner2050/specs.py:484-488 | one draw computes the candidate indices[shuffled(i % n)] and whether it is accepted |
| Shuffling.FullBalanceAccepted | eth2economics/code/beaconrunner2050/specs.py:488 | a candidate with MAX_EFFECTIVE_BALANCE is accepted whatever the random byte |
| Shuffling.AllFullBalanceFirstCandidateProposes | eth2economics/code/beaconrunner2050/specs.py:477-490 | when every listed validator has the maximum effective balance, the first draw's candidate proposes |
| Mutators.SumUpdate | eth2economics/code/beaconrunner2050/specs.py:712-723 | replacing one balance changes the total by the difference |
| Mutators.IncreaseBalance | eth2economics/code/beaconrunner2050/specs.py:712-716 | the balance at the index grows by delta; every other balance and every other field is unchanged |
| Mutators.IncreaseBalanceSum | eth2economics/code/beaconrunner2050/specs.py:712-716 | increasing a balance by delta increases the total of all balances by delta |
| Mutators.DecreaseBalance | eth2economics/code/beaconrunner2050/specs.py:719-723 | the balance at the index falls by delta, or to zero when delta exceeds it; nothing else changes |
| Mutators.DecreaseBalanceSum | eth2economics/code/beaconrunner2050/specs.py:719-723 | the total falls by delta, or by the whole balance when that is smaller |
| Mutators.DecreaseUndoesIncrease | eth2economics/code/beaconrunner2050/specs.py:712-723 | decreasing by the delta just added restores the state |
| Mutators.LatestExitEpoch | eth2economics/code/beaconrunner2050/specs.py:735-736 | max(exit_epochs + [floor]): at least the floor and every scheduled exit epoch, and equal to one of them |
| Mutators.CountExitingAt | eth2economics/code/beaconrunner2050/specs.py:737 | the number of validators exiting at an epoch is at most the number of validators |
| Mutators.CountExitingAtUpdate | eth2economics/code/beaconrunner2050/specs.py:737-743 | replacing one validator changes the exit count by what the old and new entries contribute |
| Mutators.NoneExitingAfterLatest | eth2economics/code/beaconrunner2050/specs.py:735-737 | nobody exits at an epoch later than every scheduled exit |
| Mutators.ExitQueueEpoch | eth2economics/code/beaconrunner2050/specs.py:734-739 | the exit queue epoch is no earlier than the activation-exit epoch of the current epoch and no earlier than any scheduled exit |
| Mutators.InitiateValidatorExit | eth2economics/code/beaconrunner2050/specs.py:726-744 | a validator already exiting is left alone; otherwise only its exit epoch becomes the queue epoch and its withdrawable epoch MIN_VALIDATOR_WITHDRAWABILITY_DELAY later |
| Mutators.ExitQueueEpochBumpedAtMostOnce | eth2economics/code/beaconrunner2050/specs.py:735-739 | the queue epoch is the latest scheduled exit epoch (or the floor) or one more |
| Mutators.ExitQueueEpochSame | eth2economics/code/beaconrunner2050/specs.py:734-739 | the exit queue epoch depends only on the slot and the validators' activation and exit epochs, so marking a validator eligible for activation does not move it |
| Mutators.ExitQueueRespectsChurn | eth2economics/code/beaconrunner2050/specs.py:726-744 | after an exit is initiated, no more validators than the churn limit exit at the queue epoch |
| Mutators.ProposerReward | eth2economics/code/beaconrunner2050/specs.py:764 | the proposer's part never exceeds the whistleblower reward |
| Mutators.MarkSlashed | eth2economics/code/beaconrunner2050/specs.py:751-756 | the validator takes the exit epoch initiate_validator_exit gives it, is marked slashed, becomes withdrawable at max(the withdrawable epoch that exit gives, current epoch + EPOCHS_PER_SLASHINGS_VECTOR), and its effective balance is added to slashings[epoch % EPOCHS_PER_SLASHINGS_VECTOR]; no other validator, balance or field changes |
| Mutators.PenaliseSlashed | eth2economics/code/beaconrunner2050/specs.py:757 | after the marking, the slashed validator's balance becomes max(0, balance - effective_balance // MIN_SLASHING_PENALTY_QUOTIENT) and every other balance is unchanged |
| Mutators.PayWhistleblower | eth2economics/code/beaconrunner2050/specs.py:763-768 | each balance rises by the proposer reward if it is the proposer's and by the whistleblower reward less the proposer reward if it is the whistleblower's (both when they coincide); nothing else changes |
| Mutators.SlashValidator | eth2economics/code/beaconrunner2050/specs.py:745-768 | None exactly when no proposer is found after the penalty; otherwise the state MarkSlashed leaves, with the slashed validator's balance cut by the floored penalty, the proposer paid its reward and the whistleblower (the proposer when none is named) the rest, and no other balance changed |
| Mutators.RewardSlashing | eth2economics/code/beaconrunner2050/specs.py:757-768 | once the proposer is known: the state MarkSlashed leaves, with the slashed validator's balance cut by the floored penalty, the two rewards paid, and no other balance changed |
| Mutators.PenaliseSlashedSum | eth2economics/code/beaconrunner2050/specs.py:761 | the penalty lowers the total balance by the penalty, or by the whole balance if that is smaller |
| Mutators.PayWhistleblowerSum | eth2economics/code/beaconrunner2050/specs.py:763-768 | the two payments raise the total balance by exactly the whistleblower reward |
| Mutators.RewardsSplit | eth2economics/code/beaconrunner2050/specs.py:764-768 | the proposer's and whistleblower's parts add up to the whistleblower reward, and the proposer gets at most 1/PROPOSER_REWARD_QUOTIENT of it |
| Mutators.SlashValidatorAccounting | eth2economics/code/beaconrunner2050/specs.py:747-768 | the total balance after slashing is the total before, plus the whistleblower reward, minus the (floored) penalty |
| Mutators.SlashValidatorMarksSlashed | eth2economics/code/beaconrunner2050/specs.py:747-768 | the validator ends slashed, no slashed validator is unslashed, and only validators, balances and slashings change |
| EpochProcessing.SameSlot | eth2economics/code/beaconrunner2050/specs.py:842-844 | two states at the same slot agree on whether epoch processing runs and on their current and previous epochs |
| EpochProcessing.RecentEpochRoots | eth2economics/code/beaconrunner2050/specs.py:876 | on the last slot of an epoch, the start slots of the previous and current epochs are recent enough for get_block_root's assertion |
| EpochProcessing.MatchingTargetAttestations | eth2economics/code/beaconrunner2050/specs.py:873-877 | exactly the matching source attestations whose target root is the epoch's block root |
| EpochProcessing.HeadVoteSlotIsRecent | eth2economics/code/beaconrunner2050/specs.py:880-884 | a previous-epoch attestation's slot is recent enough for get_block_root_at_slot's assertion |
| EpochProcessing.MatchingHeadAttestations | eth2economics/code/beaconrunner2050/specs.py:880-884 | exactly the matching target attestations whose head vote is the block root at their slot |
| EpochProcessing.Participants | eth2economics/code/beaconrunner2050/specs.py:887-892 | each pending attestation's participants are its attesting indices |
| EpochProcessing.AttestingUnion | eth2economics/code/beaconrunner2050/specs.py:887-891 | the union of the participants of a list of attestations, member by member |
| EpochProcessing.UnslashedAttestingIndices | eth2economics/code/beaconrunner2050/specs.py:887-892 | exactly the validators that took part in some listed attestation and are not slashed |
| EpochProcessing.UnslashedAttestingIndicesMonotone | eth2economics/code/beaconrunner2050/specs.py:887-892 | more attestations never give fewer unslashed attesters |
| EpochProcessing.WeighJustificationAndFinalization | eth2economics/code/beaconrunner2050/specs.py:907-940 | only the two justified checkpoints, the justification bits and the finalized checkpoint change |
| EpochProcessing.JustifyTargets | eth2economics/code/beaconrunner2050/specs.py:907-926 | the justification half changes only the two justified checkpoints and the bits |
| EpochProcessing.FinalizeCheckpoints | eth2economics/code/beaconrunner2050/specs.py:928-940 | the finalization half changes only the finalized checkpoint |
| EpochProcessing.ProcessJustificationAndFinalization | eth2economics/code/beaconrunner2050/specs.py:903-940 | the state stays well formed and only checkpoints and justification bits change |
| EpochProcessing.JustificationSkippedEarly | eth2economics/code/beaconrunner2050/specs.py:904-905 | in the genesis epoch and the one after, nothing changes |
| EpochProcessing.JustificationBitsAndCheckpoints | eth2economics/code/beaconrunner2050/specs.py:910-926 | the bits shift by one; bit 1 is set by a two-thirds previous-epoch target vote, bit 0 by a current-epoch one; the old current checkpoint becomes the previous one; the current checkpoint is the newest epoch with a supermajority, else unchanged |
| EpochProcessing.FinalizationRules | eth2economics/code/beaconrunner2050/specs.py:928-940 | the four finalization rules, the later overriding the earlier, and no change when none applies |
| EpochProcessing.JustificationKeepsOrder | eth2economics/code/beaconrunner2050/specs.py:903-940 | finalized <= previous justified <= current justified <= current epoch is kept, and the finalized epoch never goes back |
| EpochProcessing.JustificationAndFinalizationKeepsOrder | eth2economics/code/beaconrunner2050/specs.py:903-940 | the same for the whole process_justification_and_finalization |
| Rewards.Zeros | eth2economics/code/beaconrunner2050/specs.py:975-976 | a list of n zero Gwei amounts |
| Rewards.ScaleBounds | eth2economics/code/beaconrunner2050/specs.py:988-989 | x * a // b grows with a and is at most x when a <= b |
| Rewards.BaseRewards | eth2economics/code/beaconrunner2050/specs.py:943-946 | one base reward per validator |
| Rewards.ProposerShare | eth2economics/code/beaconrunner2050/specs.py:949-950 | the proposer reward is at most 1/PROPOSER_REWARD_QUOTIENT of the base reward |
| Rewards.EligibleValidatorIndices | eth2economics/code/beaconrunner2050/specs.py:961-966 | exactly the validators active in the previous epoch or slashed and not yet withdrawable, in increasing order |
| Rewards.Eligibility | eth2economics/code/beaconrunner2050/specs.py:961-966 | per validator, whether its index is eligible |
| Rewards.ComponentRewardBounds | eth2economics/code/beaconrunner2050/specs.py:982-989 | a component reward grows with the attesting balance and never exceeds the base reward while the attesting balance is at most the total |
| Rewards.ComponentDeltas | eth2economics/code/beaconrunner2050/specs.py:969-992 | one reward and one penalty per validator |
| Rewards.ComponentDeltasSplit | eth2economics/code/beaconrunner2050/specs.py:969-992 | an eligible unslashed attester gets the full base reward during a leak and base_reward * attesting // total otherwise, and no penalty; an eligible non-attester pays its base reward; an ineligible validator gets nothing |
| Rewards.AttestationComponentDeltas | eth2economics/code/beaconrunner2050/specs.py:969-992 | one reward and one penalty per validator |
| Rewards.SourceDeltas | eth2economics/code/beaconrunner2050/specs.py:995-1000 | one reward and one penalty per validator (the per-validator values are those of ComponentDeltasSplit) |
| Rewards.TargetDeltas | eth2economics/code/beaconrunner2050/specs.py:1003-1008 | one reward and one penalty per validator (values as ComponentDeltasSplit) |
| Rewards.HeadDeltas | eth2economics/code/beaconrunner2050/specs.py:1011-1016 | one reward and one penalty per validator (values as ComponentDeltasSplit) |
| Rewards.MatchingSourceRecorded | eth2economics/code/beaconrunner2050/specs.py:1024-1029 | every previous-epoch pending attestation was included at least one slot late and names an existing proposer |
| Rewards.EarliestInclusion | eth2economics/code/beaconrunner2050/specs.py:1024-1027 | min(..., key=inclusion_delay): None exactly when the validator is in no listed attestation; otherwise an attestation it is in with the least inclusion delay |
| Rewards.EarliestInclusionIsFirst | eth2economics/code/beaconrunner2050/specs.py:1024-1027 | the chosen attestation is the first in list order with that least delay, as Python's min picks it |
| Rewards.EarliestPosition | eth2economics/code/beaconrunner2050/specs.py:1024-1027 | the position of the chosen attestation in the list, with every earlier attestation of the attester included later |
| Rewards.DelayedShare | eth2economics/code/beaconrunner2050/specs.py:1029-1030 | the attester's share divided by its inclusion delay is at most the share, and all of it for a delay of 1 |
| Rewards.InclusionDelayRewardsFor | eth2economics/code/beaconrunner2050/specs.py:1019-1036 | one inclusion-delay reward per validator |
| Rewards.CreditInclusion | eth2economics/code/beaconrunner2050/specs.py:1026-1032 | one attester's credit: the proposer of its earliest attestation gains exactly the proposer share, the attester exactly (base reward - proposer share) // inclusion delay (both when they coincide), every other reward is unchanged, and no reward is lowered |
| Rewards.InclusionDelayRewardsGrow | eth2economics/code/beaconrunner2050/specs.py:1023-1030 | processing one more attester never lowers anyone's reward |
| Rewards.InclusionDelayRewardAtLeast | eth2economics/code/beaconrunner2050/specs.py:1019-1036 | every listed attester earns at least (base reward - proposer reward) // its least inclusion delay |
| Rewards.InclusionProposerRewardAtLeast | eth2economics/code/beaconrunner2050/specs.py:1024-1030 | the proposer of each listed attester's earliest attestation earns at least that attester's proposer share |
| Rewards.InclusionPayout | eth2economics/code/beaconrunner2050/specs.py:1026-1032 | what one attester pays out in the inclusion pass (proposer share plus delayed share) never exceeds its base reward |
| Rewards.SumCreditInclusion | eth2economics/code/beaconrunner2050/specs.py:1030-1032 | one attester's credit adds exactly its proposer share plus its delayed share to the total of the rewards |
| Rewards.InclusionRewardsTotal | eth2economics/code/beaconrunner2050/specs.py:1023-1032 | the inclusion rewards add up to exactly the attesters' payouts: nothing is created or lost by redirecting the proposer share |
| Rewards.InclusionProposerRewardOf | eth2economics/code/beaconrunner2050/specs.py:1024-1030 | every unslashed source attester of the previous epoch has an earliest attestation whose proposer receives at least its proposer share in the inclusion deltas |
| Rewards.InclusionDelayDeltas | eth2economics/code/beaconrunner2050/specs.py:1019-1036 | one reward per validator and no penalties |
| Rewards.InactivityPenaltyDeltas | eth2economics/code/beaconrunner2050/specs.py:1039-1057 | no rewards, and no penalties at all outside an inactivity leak |
| Rewards.InactivityPenaltyOfValidator | eth2economics/code/beaconrunner2050/specs.py:1039-1057 | during a leak an eligible validator pays BASE_REWARDS_PER_EPOCH * base - proposer reward, plus effective_balance * finality_delay // INACTIVITY_PENALTY_QUOTIENT when it missed the target; everyone else pays nothing |
| Rewards.AddDeltas | eth2economics/code/beaconrunner2050/specs.py:1070-1078 | per-validator sums of the rewards and of the penalties |
| Rewards.AttestationDeltas | eth2economics/code/beaconrunner2050/specs.py:1060-1080 | one reward and one penalty per validator |
| Rewards.AttestationDeltasAt | eth2economics/code/beaconrunner2050/specs.py:1060-1080 | each validator's reward is its source, target, head and inclusion-delay rewards added up, and its penalty its source, target, head and inactivity penalties added up |
| Rewards.LeakCancelsOptimalRewards | eth2economics/code/beaconrunner2050/specs.py:1049-1050 | three full base rewards plus the undelayed attester share equal the flat inactivity penalty, as the source's comment says |
| Rewards.OptimalAttesterBreaksEvenInLeak | eth2economics/code/beaconrunner2050/specs.py:1039-1080 | during a leak an eligible validator that attested the right head and was included after one slot loses nothing overall |
| Rewards.ApplyDeltas | eth2economics/code/beaconrunner2050/specs.py:1087-1090 | only balances change |
| Rewards.ApplyDeltasBalances | eth2economics/code/beaconrunner2050/specs.py:1087-1090 | each of the first n balances becomes max(0, balance + reward - penalty), the rest stay |
| Rewards.ProcessRewardsAndPenalties | eth2economics/code/beaconrunner2050/specs.py:1083-1090 | the state stays well formed, only balances change, and nothing changes in the genesis epoch |
| Rewards.RewardsAndPenaltiesBalances | eth2economics/code/beaconrunner2050/specs.py:1083-1090 | outside the genesis epoch every balance becomes max(0, balance + reward - penalty) with the attestation deltas |
| EpochUpdates.MarkEligibleOrEject | eth2economics/code/beaconrunner2050/specs.py:1095-1100 | for one validator: its activation eligibility epoch becomes the next epoch when it qualifies; when active at or below EJECTION_BALANCE and not exiting, its exit epoch becomes the exit queue epoch of the state and its withdrawable epoch MIN_VALIDATOR_WITHDRAWABILITY_DELAY later; nothing else about it and no other validator changes |
| EpochUpdates.EligibilityAndEjections | eth2economics/code/beaconrunner2050/specs.py:1094-1100 | after the first n turns each of those validators is marked or ejected as above, an ejected one at the exit queue epoch of the registry as it stood at its turn; the rest are untouched and only validators change |
| EpochUpdates.EligibilityAndEjectionsStep | eth2economics/code/beaconrunner2050/specs.py:1094-1100 | one more turn of the first loop keeps every earlier validator's marking, each still against the exit queue epoch of its own turn |
| EpochUpdates.InsertQueued | eth2economics/code/beaconrunner2050/specs.py:1103-1107 | inserting keeps the queue sorted by (activation eligibility epoch, index) and adds exactly that index |
| EpochUpdates.ConsSorted | eth2economics/code/beaconrunner2050/specs.py:1103-1107 | an index ordered before the whole queue can be put at its head |
| EpochUpdates.SortQueue | eth2economics/code/beaconrunner2050/specs.py:1103-1107 | the sort is sorted by (activation eligibility epoch, index) and is a permutation of its input |
| EpochUpdates.ActivationQueue | eth2economics/code/beaconrunner2050/specs.py:1103-1107 | the queue holds exactly the validators eligible for activation, sorted by (activation eligibility epoch, index) |
| EpochUpdates.Dequeued | eth2economics/code/beaconrunner2050/specs.py:1109 | exactly the first min(churn limit, queue length) validators of the activation queue are dequeued |
| EpochUpdates.ActivateDequeued | eth2economics/code/beaconrunner2050/specs.py:1109-1111 | exactly the dequeued validators get the activation epoch of the current epoch; nothing else changes |
| EpochUpdates.ProcessRegistryUpdates | eth2economics/code/beaconrunner2050/specs.py:1093-1111 | the state stays well formed, only validators change, and every dequeued validator was eligible for activation after the first loop |
| EpochUpdates.RegistryUpdatesAt | eth2economics/code/beaconrunner2050/specs.py:1093-1111 | each validator ends as the first loop left it, with the activation epoch of the current epoch if it was dequeued and its old activation epoch otherwise |
| EpochUpdates.ActivationQueueFair | eth2economics/code/beaconrunner2050/specs.py:1103-1111 | every activated validator was eligible and queued before every eligible validator left waiting |
| EpochUpdates.WaitingMeansChurnFull | eth2economics/code/beaconrunner2050/specs.py:1103-1111 | an eligible validator is left waiting only when the churn limit was reached, and someone is activated whenever anyone is eligible |
| EpochUpdates.SlashingPenaltyBounds | eth2economics/code/beaconrunner2050/specs.py:1119-1121 | a slashing penalty never exceeds the effective balance and grows with the recent slashings |
| EpochUpdates.ProcessSlashings | eth2economics/code/beaconrunner2050/specs.py:1114-1122 | only balances change; each validator slashed half a slashings period before its withdrawable epoch loses min(balance, its slashing penalty against the recent slashings and the total active balance), every other balance is unchanged |
| EpochUpdates.SlashingsPenaliseAtMostEffectiveBalance | eth2economics/code/beaconrunner2050/specs.py:1114-1122 | no balance rises; none falls by more than the effective balance; only validators slashed exactly EPOCHS_PER_SLASHINGS_VECTOR // 2 epochs before withdrawability are touched |
| EpochUpdates.HysteresisRule | eth2economics/code/beaconrunner2050/specs.py:1131-1141 | inside the hysteresis band the effective balance stays; outside it becomes the largest multiple of the increment at most the balance and MAX_EFFECTIVE_BALANCE; updating again changes nothing |
| EpochUpdates.UpdatedValidators | eth2economics/code/beaconrunner2050/specs.py:1131-1141 | every validator's effective balance is updated from its own balance and nothing else about it changes |
| EpochUpdates.ProcessFinalUpdates | eth2economics/code/beaconrunner2050/specs.py:1125-1152 | the slot is kept, the state stays well formed, and current-epoch attestations become previous-epoch ones |
| EpochUpdates.FinalUpdatesEffects | eth2economics/code/beaconrunner2050/specs.py:1125-1152 | eth1 votes cleared exactly at a voting-period boundary; next slashings entry zeroed; next randao mix copied from the current one; a historical root appended exactly every SLOTS_PER_HISTORICAL_ROOT slots; no other field changes |
| SlotProcessing.ProcessSlot | eth2economics/code/beaconrunner2050/specs.py:848-857 | only state roots, block roots and the latest header change, and the state stays well formed |
| SlotProcessing.ProcessSlotCachesRoots | eth2economics/code/beaconrunner2050/specs.py:848-857 | the state root goes into the slot's entry; the header's state root is filled in only when it is zero; the block root of the updated header goes into the slot's entry; no other entry changes |
| SlotProcessing.JustifyAndReward | eth2economics/code/beaconrunner2050/specs.py:860-862 | the first two epoch steps keep the slot, the validator count and the current-epoch attestations, and keep the checkpoints ordered |
| SlotProcessing.UpdateRegistryAndRotate | eth2economics/code/beaconrunner2050/specs.py:863-865 | the last three epoch steps rotate the attestations and leave the checkpoints alone |
| SlotProcessing.ProcessEpoch | eth2economics/code/beaconrunner2050/specs.py:860-865 | process_epoch keeps the state well formed and the checkpoints ordered, never moves finality back, and rotates the pending attestations |
| SlotProcessing.EpochBoundary | eth2economics/code/beaconrunner2050/specs.py:842-845 | moving past the last slot of an epoch enters the next epoch; any other step stays in the epoch |
| SlotProcessing.NextSlotInEpoch | eth2economics/code/beaconrunner2050/specs.py:845 | inside an epoch, incrementing the slot keeps a state well formed with its checkpoints ordered |
| SlotProcessing.NextSlotNewEpoch | eth2economics/code/beaconrunner2050/specs.py:843-845 | after epoch processing, incrementing the slot into the new epoch keeps the state well formed |
| SlotProcessing.EpochTransition | eth2economics/code/beaconrunner2050/specs.py:841-845 | one loop pass at an epoch's last slot: the next slot, in the next epoch, with finality never moving back |
| SlotProcessing.AdvanceSlot | eth2economics/code/beaconrunner2050/specs.py:841-845 | one loop pass: inside an epoch only the cached roots and the slot change; at its end the epoch advances and the attestations rotate |
| SlotProcessing.AdvanceSlots | eth2economics/code/beaconrunner2050/specs.py:840-845 | the loop reaches exactly the target slot, the state stays well formed and finality never moves back |
| SlotProcessing.ProcessSlots | eth2economics/code/beaconrunner2050/specs.py:838-845 | process_slots fails exactly when the target slot is not after the state's slot, and otherwise reaches it |
| SlotProcessing.AdvanceSlotsComposes | eth2economics/code/beaconrunner2050/specs.py:840-845 | advancing to a middle slot and then to the target is advancing to the target |
| BlockProcessing.ProcessBlockHeader | eth2economics/code/beaconrunner2050/specs.py:1162-1182 | the header is accepted exactly when the slot matches, is newer than the latest header, the proposer is the expected one, the parent root matches and the proposer is not slashed; then only the latest header changes, with a zero state root |
| BlockProcessing.ProcessRandao | eth2economics/code/beaconrunner2050/specs.py:1185-1193 | accepted exactly when the proposer's signature over the epoch verifies; then only the current epoch's mix changes, to the old mix xored with the hash of the reveal |
| BlockProcessing.ProcessEth1Data | eth2economics/code/beaconrunner2050/specs.py:1196-1199 | the vote is appended, and the eth1 data is adopted exactly when more than half of a voting period's slots vote for it |
| BlockProcessing.Eth1MajorityUnique | eth2economics/code/beaconrunner2050/specs.py:1198 | two different eth1 data values cannot both win a majority within one voting period |
| BlockProcessing.TwoCountsBounded | eth2economics/code/beaconrunner2050/specs.py:1198 | two different values together occur at most as often as there are votes |
| BlockProcessing.ProcessProposerSlashing | eth2economics/code/beaconrunner2050/specs.py:1217-1236 | accepted exactly when the two headers share slot and proposer but differ, the proposer exists and is slashable, both header signatures verify under the proposer domain of the header's epoch, and slash_validator succeeds; the result is slash_validator's, the proposer ends slashed and only validators, balances and slashings change |
| BlockProcessing.SlashIfSlashable | eth2economics/code/beaconrunner2050/specs.py:1247-1250 | one pass of the attester-slashing loop: a slashable validator ends slashed and sets the flag, exactly then (fails only while slashing it); an unslashable one changes nothing; other validators are untouched |
| BlockProcessing.SlashEach | eth2economics/code/beaconrunner2050/specs.py:1246-1251 | the loop leaves every listed validator that was slashable at the start slashed, unlisted validators untouched and the slashed still slashed, and sets the flag exactly when some listed validator was slashable |
| BlockProcessing.SlashEachStep | eth2economics/code/beaconrunner2050/specs.py:1247-1250 | the first turn of the loop followed by the rest satisfies the loop's contract over the whole list, because slashing one validator changes no other validator's slashability |
| BlockProcessing.SlashedBoth | eth2economics/code/beaconrunner2050/specs.py:1246-1252 | a loop over the indices common to both attestations that ends with the flag set has newly slashed one of them, slashed every slashable one, and touched no one else |
| BlockProcessing.ProcessAttesterSlashing | eth2economics/code/beaconrunner2050/specs.py:1239-1252 | accepted exactly when the data is slashable, both indexed attestations are valid, the slashing loop succeeds and some validator named by both is slashable; then some validator named by both was unslashed before and is slashed after, every one named by both that was slashable is slashed, no other validator changes, and only validators, balances and slashings change |
| BlockProcessing.SlashableListed | eth2economics/code/beaconrunner2050/specs.py:1247-1252 | some validator named by both attestations is slashable exactly when some entry of the sorted common indices is, so the loop's flag is set exactly then |
| BlockProcessing.ProcessAttestation | eth2economics/code/beaconrunner2050/specs.py:1255-1280 | accepted exactly when the committee index, target epoch, slot window and bit-list length checks pass, a proposer is found and the source is the justified checkpoint of the target's epoch; the result is the recorded pending attestation (the signature check is commented out in the source and not modelled) |
| BlockProcessing.RecordAttestation | eth2economics/code/beaconrunner2050/specs.py:1264-1277 | the pending attestation, with inclusion delay state.slot - data.slot, is appended to the current or previous list by target epoch, exactly when its source is the matching justified checkpoint |
| BlockProcessing.PendingAttestationInEpoch | eth2economics/code/beaconrunner2050/specs.py:1273-1277 | appending a pending attestation of the right epoch keeps the state well formed |
| BlockProcessing.PubkeyIndex | eth2economics/code/beaconrunner2050/specs.py:1299-1325 | validator_pubkeys.index(pubkey): the first validator with the key, and None exactly when no validator has it |
| BlockProcessing.ProcessDeposit | eth2economics/code/beaconrunner2050/specs.py:1283-1325 | the deposit index always advances; a known key's balance grows by the amount; a new key with a valid proof of possession appends a fresh validator and balance; otherwise nothing else changes |
| BlockProcessing.DepositConservesBalance | eth2economics/code/beaconrunner2050/specs.py:1283-1325 | the total balance grows by the amount exactly when the deposit is credited, and is unchanged otherwise |
| BlockProcessing.ProcessVoluntaryExit | eth2economics/code/beaconrunner2050/specs.py:1328-1344 | accepted exactly when the validator exists, is active, has not begun to exit, the exit epoch has come, it has served SHARD_COMMITTEE_PERIOD and the signature verifies; then its exit is initiated at the exit queue epoch |
| BlockProcessing.Operations | eth2economics/code/beaconrunner2050/specs.py:1206-1214 | the operations in the source's order, with as many deposits as the body holds |
| BlockProcessing.CountDepositsAppend | eth2economics/code/beaconrunner2050/specs.py:1206-1214 | deposit counts add up over concatenated operation lists |
| BlockProcessing.ApplyOperation | eth2economics/code/beaconrunner2050/specs.py:1206-1209 | one accepted operation keeps the slot, header, eth1 data and checkpoints, and advances the deposit index only for a deposit |
| BlockProcessing.ApplyOperations | eth2economics/code/beaconrunner2050/specs.py:1206-1214 | the operations in order, the first rejection rejecting the block; the deposit index advances by the number of deposits |
| BlockProcessing.ProcessOperations | eth2economics/code/beaconrunner2050/specs.py:1202-1214 | accepted only with min(MAX_DEPOSITS, outstanding) deposits, after which the deposit index has advanced by that many and never passes the deposit count |
| BlockProcessing.ProcessBlock | eth2economics/code/beaconrunner2050/specs.py:1155-1159 | an accepted block keeps the slot and checkpoints and leaves its own header as the latest |
| BlockProcessing.ProcessBody | eth2economics/code/beaconrunner2050/specs.py:1157-1159 | RANDAO, eth1 data and operations keep the slot, the latest header and the checkpoints |
| BlockProcessing.VerifyBlockSignature | eth2economics/code/beaconrunner2050/specs.py:832-835 | a verdict exists exactly when the proposer index names a validator |
| BlockProcessing.StateTransition | eth2economics/code/beaconrunner2050/specs.py:816-829 | an accepted block is for a later slot; the result is at that slot, well formed, with finality not moved back, the block's header latest and, when validating, the block's state root equal to the result's root |
| BlockProcessing.ApplySignedBlock | eth2economics/code/beaconrunner2050/specs.py:820-827 | after the slots, an accepted block is process_block's result; when validating, its signature verified and its state root is the result's; without validation it is exactly process_block |
| BlockProcessing.GenesisTemplate | eth2economics/code/beaconrunner2050/specs.py:774-785 | the starting state is well formed at the genesis slot with no validators |
| BlockProcessing.GenesisDeposits | eth2economics/code/beaconrunner2050/specs.py:788-792 | the deposit loop advances the deposit index by the number of deposits, adds at most one validator each, and adds only validators that are not active or exiting |
| BlockProcessing.GenesisActivation | eth2economics/code/beaconrunner2050/specs.py:794-800 | over a registry nobody has entered, the activation loop changes only the validators and leaves exactly those with full effective balance active at genesis |
| BlockProcessing.GenesisActivated | eth2economics/code/beaconrunner2050/specs.py:795-800 | the effective balance is quantised; exactly validators at MAX_EFFECTIVE_BALANCE become eligible and active at genesis |
| BlockProcessing.InitializeBeaconStateFromEth1 | eth2economics/code/beaconrunner2050/specs.py:771-805 | genesis time is the timestamp rounded down to MIN_GENESIS_DELAY plus two delays; every deposit processed; at genesis exactly the validators with full effective balance are active; the validators root is set |
| BlockProcessing.ValidGenesisHasEnoughValidators | eth2economics/code/beaconrunner2050/specs.py:808-813 | a valid genesis state has at least MIN_GENESIS_ACTIVE_VALIDATOR_COUNT validators |
| StateObject.BeaconState.constructor | eth2economics/code/beaconrunner2050/specs.py:258-287 | an object holding a given well-formed state, with fresh arrays for its fixed-size vectors |
| StateObject.BeaconState.IncreaseBalance | eth2economics/code/beaconrunner2050/specs.py:712-716 | in place, the state becomes Mutators.IncreaseBalance of the old state |
| StateObject.BeaconState.DecreaseBalance | eth2economics/code/beaconrunner2050/specs.py:719-723 | in place, the state becomes Mutators.DecreaseBalance of the old state |
| StateObject.BeaconState.InitiateValidatorExit | eth2economics/code/beaconrunner2050/specs.py:726-744 | in place, the state becomes Mutators.InitiateValidatorExit of the old state |
| StateObject.BeaconState.MarkSlashed | eth2economics/code/beaconrunner2050/specs.py:753-760 | in place, the marking half of slash_validator, as Mutators.MarkSlashed |
| StateObject.BeaconState.PenaliseSlashed | eth2economics/code/beaconrunner2050/specs.py:753-761 | in place, marking plus the minimum penalty, as Mutators.PenaliseSlashed |
| StateObject.BeaconState.PayWhistleblower | eth2economics/code/beaconrunner2050/specs.py:763-768 | in place, the proposer's and whistleblower's rewards, as Mutators.PayWhistleblower |
| StateObject.BeaconState.SlashValidator | eth2economics/code/beaconrunner2050/specs.py:747-768 | succeeds exactly when Mutators.SlashValidator does, and then leaves its state |
| StateObject.BeaconState.ProcessJustificationAndFinalization | eth2economics/code/beaconrunner2050/specs.py:903-940 | in place, the state becomes EpochProcessing.ProcessJustificationAndFinalization of the old state |
| StateObject.BeaconState.WeighJustificationAndFinalization | eth2economics/code/beaconrunner2050/specs.py:907-940 | in place, justification then finalization, as the pure function |
| StateObject.BeaconState.JustifyTargets | eth2economics/code/beaconrunner2050/specs.py:910-926 | in place, the justification half, as the pure function |
| StateObject.BeaconState.RetireCurrentJustified | eth2economics/code/beaconrunner2050/specs.py:910 | only the previous justified checkpoint changes, to the current one |
| StateObject.BeaconState.ShiftJustificationBits | eth2economics/code/beaconrunner2050/specs.py:911-912 | the bits move up one place and bit 0 is cleared; nothing else changes |
| StateObject.BeaconState.Justify | eth2economics/code/beaconrunner2050/specs.py:915-926 | the current justified checkpoint and one bit are set; nothing else changes |
| StateObject.BeaconState.FinalizeCheckpoints | eth2economics/code/beaconrunner2050/specs.py:928-940 | in place, the four finalization rules in order, as the pure function |
| StateObject.BeaconState.ProcessRewardsAndPenalties | eth2economics/code/beaconrunner2050/specs.py:1083-1090 | in place, the state becomes Rewards.ProcessRewardsAndPenalties of the old state |
| StateObject.BeaconState.ApplyDeltas | eth2economics/code/beaconrunner2050/specs.py:1087-1090 | the loop over validators leaves Rewards.ApplyDeltas of the old state |
| StateObject.BeaconState.ApplyDelta | eth2economics/code/beaconrunner2050/specs.py:1088-1090 | one pass of that loop extends the applied prefix by one validator |
| StateObject.BeaconState.ProcessSlashings | eth2economics/code/beaconrunner2050/specs.py:1114-1122 | in place, the state becomes EpochUpdates.ProcessSlashings of the old state |
| StateObject.BeaconState.UpdateEffectiveBalances | eth2economics/code/beaconrunner2050/specs.py:1131-1141 | the hysteresis loop leaves every effective balance as EpochUpdates.UpdateEffectiveBalances gives it |
| StateObject.BeaconState.ProcessFinalUpdates | eth2economics/code/beaconrunner2050/specs.py:1125-1152 | in place, the state becomes EpochUpdates.ProcessFinalUpdates of the old state |
| StateObject.BeaconState.FinalUpdateSteps | eth2economics/code/beaconrunner2050/specs.py:1125-1152 | the six steps in the source's order compose to EpochUpdates.ProcessFinalUpdates |
| StateObject.BeaconState.ResetEth1DataVotes | eth2economics/code/beaconrunner2050/specs.py:1128-1130 | the eth1 votes are cleared exactly at a voting-period boundary |
| StateObject.BeaconState.ResetSlashings | eth2economics/code/beaconrunner2050/specs.py:1143 | the next epoch's slashings entry is zeroed |
| StateObject.BeaconState.CarryRandaoMix | eth2economics/code/beaconrunner2050/specs.py:1145 | the next epoch's mix becomes the current one |
| StateObject.BeaconState.AppendHistoricalRoot | eth2economics/code/beaconrunner2050/specs.py:1147-1149 | a historical batch root is appended every SLOTS_PER_HISTORICAL_ROOT slots |
| StateObject.BeaconState.RotateAttestations | eth2economics/code/beaconrunner2050/specs.py:1151-1152 | current-epoch attestations become previous-epoch ones and the current list empties |
| StateObject.BeaconState.ProcessRegistryUpdates | eth2economics/code/beaconrunner2050/specs.py:1093-1111 | in place, the state becomes EpochUpdates.ProcessRegistryUpdates of the old state |
| StateObject.BeaconState.EligibilityAndEjections | eth2economics/code/beaconrunner2050/specs.py:1094-1100 | the first loop over all validators, as the pure function |
| StateObject.BeaconState.MarkEligibleOrEject | eth2economics/code/beaconrunner2050/specs.py:1095-1100 | one pass of that loop, as the pure function |
| StateObject.BeaconState.ActivateQueue | eth2economics/code/beaconrunner2050/specs.py:1102-1111 | the queue is built and its head activated, as EpochUpdates.ActivateDequeued |
| StateObject.BeaconState.ActivateDequeued | eth2economics/code/beaconrunner2050/specs.py:1109-1111 | every dequeued validator gets the activation epoch and nothing else changes |
| StateObject.BeaconState.ProcessSlot | eth2economics/code/beaconrunner2050/specs.py:848-857 | in place, the state becomes SlotProcessing.ProcessSlot of the old state |
| StateObject.BeaconState.ProcessEpoch | eth2economics/code/beaconrunner2050/specs.py:860-865 | in place, the five epoch steps in order, as SlotProcessing.ProcessEpoch |
| StateObject.BeaconState.AdvanceSlot | eth2economics/code/beaconrunner2050/specs.py:841-845 | one loop pass, as SlotProcessing.AdvanceSlot |
| StateObject.BeaconState.EpochTransition | eth2economics/code/beaconrunner2050/specs.py:843-845 | epoch processing then the slot increment, as SlotProcessing.EpochTransition |
| StateObject.BeaconState.IncrementSlot | eth2economics/code/beaconrunner2050/specs.py:845 | only the slot changes, by one |
| StateObject.BeaconState.ProcessSlots | eth2economics/code/beaconrunner2050/specs.py:838-845 | fails, leaving the state untouched, exactly when the target is not after the slot; otherwise leaves SlotProcessing.ProcessSlots of the old state |
| StateObject.BeaconState.ProcessBlockHeader | eth2economics/code/beaconrunner2050/specs.py:1162-1182 | fails exactly when BlockProcessing.ProcessBlockHeader rejects, otherwise leaves its state; a failure leaves the state unchanged or with only the new header written (a slashed proposer) |
| StateObject.BeaconState.ProcessRandao | eth2economics/code/beaconrunner2050/specs.py:1185-1193 | in place, one mix entry is written; fails, changing nothing, exactly when BlockProcessing.ProcessRandao rejects |
| StateObject.BeaconState.ProcessEth1Data | eth2economics/code/beaconrunner2050/specs.py:1196-1199 | in place, the vote appended and a majority adopted, as BlockProcessing.ProcessEth1Data |
| StateObject.BeaconState.ProcessProposerSlashing | eth2economics/code/beaconrunner2050/specs.py:1217-1236 | succeeds exactly when BlockProcessing.ProcessProposerSlashing accepts, and then leaves its state |
| StateObject.BeaconState.ProcessAttesterSlashing | eth2economics/code/beaconrunner2050/specs.py:1239-1252 | succeeds exactly when BlockProcessing.ProcessAttesterSlashing accepts, and then leaves its state |
| StateObject.BeaconState.SlashEach | eth2economics/code/beaconrunner2050/specs.py:1245-1251 | the slashing loop, in place, ends where BlockProcessing.SlashEach does, with its flag |
| StateObject.BeaconState.SlashIfSlashable | eth2economics/code/beaconrunner2050/specs.py:1247-1250 | one pass of that loop, as BlockProcessing.SlashIfSlashable |
| StateObject.BeaconState.ProcessAttestation | eth2economics/code/beaconrunner2050/specs.py:1255-1280 | succeeds exactly when BlockProcessing.ProcessAttestation accepts, leaving its state; a failure changes nothing |
| StateObject.BeaconState.RecordAttestation | eth2economics/code/beaconrunner2050/specs.py:1264-1277 | the source check and the append to the target epoch's list, as BlockProcessing.RecordAttestation |
| StateObject.BeaconState.ProcessDeposit | eth2economics/code/beaconrunner2050/specs.py:1283-1325 | in place, the index advanced and a top-up or an appended validator and balance, as BlockProcessing.ProcessDeposit |
| StateObject.BeaconState.ProcessVoluntaryExit | eth2economics/code/beaconrunner2050/specs.py:1328-1344 | succeeds exactly when BlockProcessing.ProcessVoluntaryExit accepts, leaving its state; a failure changes nothing |
| StateObject.BeaconState.ApplyOperation | eth2economics/code/beaconrunner2050/specs.py:1206-1214 | one operation, by kind, as BlockProcessing.ApplyOperation |
| StateObject.BeaconState.ApplyOperations | eth2economics/code/beaconrunner2050/specs.py:1206-1214 | the operations in the source's order in one loop, as BlockProcessing.ApplyOperations, stopping at the first rejection |
| StateObject.BeaconState.ProcessOperations | eth2economics/code/beaconrunner2050/specs.py:1202-1214 | the deposit count check, then the operations, as BlockProcessing.ProcessOperations |
| StateObject.BeaconState.ProcessBlock | eth2economics/code/beaconrunner2050/specs.py:1155-1159 | succeeds exactly when BlockProcessing.ProcessBlock accepts, and then leaves its state |
| StateObject.BeaconState.ProcessBody | eth2economics/code/beaconrunner2050/specs.py:1157-1159 | RANDAO, eth1 data and operations in place, as BlockProcessing.ProcessBody |
| StateObject.BeaconState.StateTransition | eth2economics/code/beaconrunner2050/specs.py:816-829 | succeeds exactly when BlockProcessing.StateTransition accepts, and then leaves its state |
| StateObject.BeaconState.ApplySignedBlock | eth2economics/code/beaconrunner2050/specs.py:820-827 | the signature check, the block and the state-root check in place, as BlockProcessing.ApplySignedBlock |
| ForkChoice.AppendKeepsDistinct | eth2economics/code/beaconrunner2050/specs.py:1567-1568 | appending a new root keeps the store's block order free of repeats |
| ForkChoice.CurrentSlot | eth2economics/code/beaconrunner2050/specs.py:1386-1391 | the current slot is the number of whole SECONDS_PER_SLOT periods since genesis |
| ForkChoice.SlotsSinceEpochStart | eth2economics/code/beaconrunner2050/specs.py:1394-1395 | the slot minus its epoch's start slot is slot % SLOTS_PER_EPOCH |
| ForkChoice.AncestorWithin | eth2economics/code/beaconrunner2050/specs.py:1398-1406 | an ancestor found is a stored block at or before the slot |
| ForkChoice.AncestorIdempotent | eth2economics/code/beaconrunner2050/specs.py:1398-1406 | the ancestor of an ancestor at the same slot is itself |
| ForkChoice.AncestorMoreFuel | eth2economics/code/beaconrunner2050/specs.py:1398-1406 | an answer found within a number of steps stays the answer with more steps |
| ForkChoice.AncestorStableUnderInsert | eth2economics/code/beaconrunner2050/specs.py:1398-1406 | storing a block under a new root changes no ancestry answer the store already gave |
| ForkChoice.AttestingBalanceBounded | eth2economics/code/beaconrunner2050/specs.py:1409-1416 | a block's support never exceeds the effective balance of the validators counted |
| ForkChoice.LatestAttestingBalance | eth2economics/code/beaconrunner2050/specs.py:1409-1416 | a balance is computed only when the justified checkpoint's state is stored |
| ForkChoice.ChildrenIn | eth2economics/code/beaconrunner2050/specs.py:1421-1424 | the children are exactly the stored blocks whose parent is the block |
| ForkChoice.ExtendsTransitive | eth2economics/code/beaconrunner2050/specs.py:1419-1452 | two rounds of adding stored blocks to the filtered map are one such round |
| ForkChoice.FilterBlockTree | eth2economics/code/beaconrunner2050/specs.py:1419-1452 | an answer means the block is stored; the map only gains stored blocks, a viable block is in it afterwards, and a non-viable branch leaves it unchanged |
| ForkChoice.FilterEach | eth2economics/code/beaconrunner2050/specs.py:1428-1433 | filtering the children in turn only adds stored blocks, and adds nothing when none is viable |
| ForkChoice.GetFilteredBlockTree | eth2economics/code/beaconrunner2050/specs.py:1455-1463 | the filtered tree is a sub-map of the stored blocks |
| ForkChoice.LexLessIrreflexive | eth2economics/code/beaconrunner2050/specs.py:1479-1480 | no root is lexicographically below itself |
| ForkChoice.LexLessTransitive | eth2economics/code/beaconrunner2050/specs.py:1479-1480 | the lexicographic order on roots is transitive |
| ForkChoice.LexLessTotal | eth2economics/code/beaconrunner2050/specs.py:1479-1480 | two different roots are ordered one way or the other, so the tie-break decides |
| ForkChoice.KeyLessTransitive | eth2economics/code/beaconrunner2050/specs.py:1479-1480 | the (balance, root) key order is transitive |
| ForkChoice.KeyLessAsymmetric | eth2economics/code/beaconrunner2050/specs.py:1479-1480 | the (balance, root) key order is asymmetric |
| ForkChoice.Heaviest | eth2economics/code/beaconrunner2050/specs.py:1479-1480 | max picks one of the children, with its latest attesting balance |
| ForkChoice.HeaviestIsMaximal | eth2economics/code/beaconrunner2050/specs.py:1479-1480 | no child has a larger (balance, root) key than the one picked |
| ForkChoice.HeaviestFails | eth2economics/code/beaconrunner2050/specs.py:1479-1480 | max fails exactly when some child's balance cannot be computed |
| ForkChoice.HeaviestKeepsFirst | eth2economics/code/beaconrunner2050/specs.py:1479-1480 | a first candidate not below the best of the rest is not below any |
| ForkChoice.HeadChildrenExact | eth2economics/code/beaconrunner2050/specs.py:1473-1476 | a child considered is exactly a filtered block on the head later than the justified slot |
| ForkChoice.HeadWalkEndsAtLeaf | eth2economics/code/beaconrunner2050/specs.py:1471-1480 | the walk ends at the justified root or a filtered block with no child left to consider |
| ForkChoice.HeadWalkStep | eth2economics/code/beaconrunner2050/specs.py:1471-1480 | one step of the walk moves to the heaviest child |
| ForkChoice.HeadIsViableLeaf | eth2economics/code/beaconrunner2050/specs.py:1466-1480 | the head is the justified root or a filtered stored block, and none of its filtered children is later than the justified slot |
| ForkChoice.GetHead | eth2economics/code/beaconrunner2050/specs.py:1466-1480 | the while loop of get_head returns the head Head defines |
| ForkChoice.GetForkchoiceStore | eth2economics/code/beaconrunner2050/specs.py:1366-1383 | the anchor store: genesis time from the anchor, clock at the anchor's slot, justified = finalized = best justified at the anchor's epoch and root, the anchor as the only block and state, no messages |
| ForkChoice.AnchorStoreInvariant | eth2economics/code/beaconrunner2050/specs.py:1366-1383 | a store built from a well-formed anchor keeps the store invariant |
| ForkChoice.ShouldUpdateJustifiedCheckpoint | eth2economics/code/beaconrunner2050/specs.py:1483-1498 | in the first SAFE_SLOTS_TO_UPDATE_JUSTIFIED slots of an epoch always yes; later an answer exactly when get_ancestor succeeds, and no only when the new checkpoint does not descend from the justified one |
| ForkChoice.ValidAttestationIsRecent | eth2economics/code/beaconrunner2050/specs.py:1501-1526 | an accepted attestation is for a past slot and targets the current or previous epoch |
| ForkChoice.StoreTargetCheckpointState | eth2economics/code/beaconrunner2050/specs.py:1529-1534 | succeeds exactly when the target has a checkpoint state or its block a state; adds only the target, copied from its block's state, and keeps an existing entry |
| ForkChoice.UpdateLatestMessagesExact | eth2economics/code/beaconrunner2050/specs.py:1537-1542 | each attester's message is replaced exactly when it had none or the new target epoch is later |
| ForkChoice.UpdateLatestMessagesMonotone | eth2economics/code/beaconrunner2050/specs.py:1537-1542 | no latest message disappears or moves to an earlier epoch |
| ForkChoice.OnTickPromotes | eth2economics/code/beaconrunner2050/specs.py:1545-1557 | the time is set; the justified checkpoint changes exactly at the first slot of a new epoch when the best justified checkpoint is later, and then to it |
| ForkChoice.OnTickKeepsInvariant | eth2economics/code/beaconrunner2050/specs.py:1545-1557 | a tick keeps the store invariant |
| ForkChoice.BlockPostState | eth2economics/code/beaconrunner2050/specs.py:1576-1580 | a post-state, when computed, is well formed with its checkpoints ordered |
| ForkChoice.ProvidedPostState | eth2economics/code/beaconrunner2050/specs.py:1579-1580 | process_block on a state the caller gives keeps it well formed |
| ForkChoice.PostStateFor | eth2economics/code/beaconrunner2050/specs.py:1563-1583 | the post-state on_block computes is well formed, and absent when the parent has no state |
| ForkChoice.StatelessLeafFailsFilter | eth2economics/code/beaconrunner2050/specs.py:1435-1436 | a stored leaf without a post-state makes filter_block_tree fail on its block_states lookup |
| ForkChoice.OnBlockStepsLeaveStatelessBlock | eth2economics/code/beaconrunner2050/specs.py:1560-1574 | on_block as written, given a new block at or before the finalized start slot, fails yet leaves the block stored without a post-state, breaking the store invariant |
| ForkChoice.UpdateJustifiedEffects | eth2economics/code/beaconrunner2050/specs.py:1585-1590 | the justified update changes only the justified and best justified checkpoints, each to the post-state's or not at all |
| ForkChoice.UpdateFinalizedEffects | eth2economics/code/beaconrunner2050/specs.py:1592-1603 | the finalized update changes only finality, strictly forward to the post-state's, and the justified checkpoint, only to the post-state's |
| ForkChoice.AcceptBlockEffects | eth2economics/code/beaconrunner2050/specs.py:1560-1603 | an accepted block has a stored parent, is not in the future, is after the finalized slot, descends from the finalized root; it and its post-state are stored and the checkpoints change as the updates allow |
| ForkChoice.StoredBlockKeepsInvariant | eth2economics/code/beaconrunner2050/specs.py:1567-1583 | storing a block with a well-formed post-state keeps the store invariant |
| ForkChoice.AcceptBlockKeepsInvariant | eth2economics/code/beaconrunner2050/specs.py:1560-1603 | an accepted block keeps the store invariant |
| ForkChoice.AcceptBlockWrites | eth2economics/code/beaconrunner2050/specs.py:1560-1603 | an accepted block writes only its block, its place in the order, its post-state and the three checkpoints |
| ForkChoice.StoreTargetKeepsInvariant | eth2economics/code/beaconrunner2050/specs.py:1529-1534 | storing a target's checkpoint state keeps the store invariant and gives the target a well-formed state |
| ForkChoice.AttestationIndicesExact | eth2economics/code/beaconrunner2050/specs.py:1617-1618 | the indexed attestation's indices are exactly the attesting indices, sorted; None where the committee lookup or the bit list would fail |
| ForkChoice.RecordAttestationEffects | eth2economics/code/beaconrunner2050/specs.py:1537-1542 | recording votes changes only latest messages: each is the new vote or unchanged, and none moves back |
| ForkChoice.OnAttestationKeepsInvariant | eth2economics/code/beaconrunner2050/specs.py:1606-1622 | on_attestation keeps the store invariant whether or not it accepts |
| ForkChoice.OnAttestationAccepts | eth2economics/code/beaconrunner2050/specs.py:1606-1622 | an accepted attestation passed validation, had its target state stored, and the store is that one with the attesters' votes recorded |
| ForkChoice.RecordAttestationKeepsInvariant | eth2economics/code/beaconrunner2050/specs.py:1537-1542 | recording votes touches nothing the store invariant reads |
| StoreObject.Store.constructor | eth2economics/code/beaconrunner2050/specs.py:1366-1383 | the new store holds the anchor store and keeps the store invariant |
| StoreObject.Store.OnTick | eth2economics/code/beaconrunner2050/specs.py:1545-1557 | the object's store becomes the one on_tick defines, keeping the invariant |
| StoreObject.Store.UpdateLatestMessages | eth2economics/code/beaconrunner2050/specs.py:1537-1542 | only the latest messages change, as update_latest_messages defines |
| StoreObject.Store.StoreTargetCheckpointState | eth2economics/code/beaconrunner2050/specs.py:1529-1534 | reports whether the target state could be stored; on success the store is the updated one, otherwise unchanged |
| StoreObject.Store.StoreBlock | eth2economics/code/beaconrunner2050/specs.py:1567-1603 | writes exactly the block, its place in the order, its post-state and the three checkpoints |
| StoreObject.Store.AcceptBlock | eth2economics/code/beaconrunner2050/specs.py:1566-1603 | accepts exactly when the checks of on_block pass; then the store is the accepted one, otherwise unchanged; the invariant holds either way |
| StoreObject.Store.OnBlock | eth2economics/code/beaconrunner2050/specs.py:1560-1603 | on_block in place with the block stored only once all checks pass: accepted or the store unchanged, invariant kept |
| StoreObject.Store.OnAttestation | eth2economics/code/beaconrunner2050/specs.py:1606-1622 | the store and the verdict are those on_attestation defines, and the invariant is kept |
| Networking.SetsForValidator | eth2economics/code/beaconrunner2049/network.py:22-23 | exactly the indices of the sets holding the validator, in increasing order |
| Networking.InRangeExact | eth2economics/code/beaconrunner2049/network.py:35-36 | the listed sets are all present exactly when each index is below the number of sets |
| Networking.InRangePrefixes | eth2economics/code/beaconrunner2049/network.py:35-36 | every prefix of a list of present sets lists present sets |
| Networking.KnownValidatorsExact | eth2economics/code/beaconrunner2049/network.py:34-36 | a validator is known exactly when it belongs to one of the listed sets |
| Networking.FindRelay | eth2economics/code/beaconrunner2049/network.py:40-43 | the search finds a validator exactly when some validator of the set knows the attestation and is not malicious |
| Networking.UnknownSets | eth2economics/code/beaconrunner2049/network.py:37 | exactly the sets not yet listed, in increasing order |
| Networking.JoinedMembers | eth2economics/code/beaconrunner2049/network.py:38-43 | a candidate set joins exactly when it relays |
| Networking.JoinedIncreasing | eth2economics/code/beaconrunner2049/network.py:38-43 | the sets that join keep the candidates' increasing order |
| Networking.SpreadOneHop | eth2economics/code/beaconrunner2049/network.py:33-43 | one hop keeps the attestation and its listed sets, appends in increasing order exactly the unlisted sets holding an honest validator of a listed set, and adds no repeats |
| Networking.FirstOutOfRange | eth2economics/code/beaconrunner2049/network.py:32-36 | the first attestation naming a missing set, where update_network fails |
| Networking.UpdatedAttestations | eth2economics/code/beaconrunner2049/network.py:30-43 | as many attestations as before, and success exactly when every attestation names only present sets |
| Networking.UpdateNetworkOnlyAppends | eth2economics/code/beaconrunner2049/network.py:30-43 | each attestation keeps its item and its listed sets and only gains sets |
| Networking.KnownPairsExact | eth2economics/code/beaconrunner2049/network.py:47 | the pairs kept are exactly the attestations sharing a set, at increasing positions |
| Networking.KnowledgeSetExact | eth2economics/code/beaconrunner2049/network.py:45-48 | a validator knows exactly the attestations listed in one of its sets, in network order |
| Networking.DisseminatedIsKnownToSender | eth2economics/code/beaconrunner2049/network.py:25-28 | an attestation broadcast to the sender's own sets is known to the sender |
| Networking.Network.constructor | eth2economics/code/beaconrunner2049/network.py:17-20 | the network holds the given sets, attestations and malicious validators |
| Networking.Network.DisseminateAttestation | eth2economics/code/beaconrunner2049/network.py:25-28 | appends one attestation listing the given sets, or the sender's sets when none are given; nothing else changes |
| Networking.Network.UpdateNetwork | eth2economics/code/beaconrunner2049/network.py:30-43 | the attestations become those one round of gossip defines, the sets and malicious list unchanged |
| Networking.Network.SpreadItem | eth2economics/code/beaconrunner2049/network.py:34-43 | the k-th attestation spreads one hop when its sets are present, otherwise nothing changes |
| Networking.Network.AppendRelaying | eth2economics/code/beaconrunner2049/network.py:38-43 | the relaying candidate sets are appended to the k-th attestation, nothing else changes |
| Networking.CollectKnown | eth2economics/code/beaconrunner2049/network.py:34-36 | succeeds exactly when all listed sets are present, and then collects the validators of the listed sets |
| OlderRules.TotalBalance | eth2economics/code/beaconrunner/specs.py:397-401 | the sum of the effective balances of the indices, or 1 when that sum is 0 |
| OlderRules.TotalBalanceAgainstNewer | eth2economics/code/beaconrunner/specs.py:397-401 | the newer total is the older one raised to EFFECTIVE_BALANCE_INCREMENT, so never smaller; the older total is monotone in the index set |
| OlderRules.TotalActiveBalance | eth2economics/code/beaconrunner/specs.py:397-401 | the total active balance under the older floor is at least 1 |
| OlderRules.BaseRewards | eth2economics/code/beaconrunner/specs.py:650-653 | one base reward per validator, each the older get_base_reward |
| OlderRules.BaseRewardAtLeastNewer | eth2economics/code/beaconrunner/specs.py:650-653 | with its smaller total, the older base reward is never below the newer one |
| OlderRules.AttestingBalance | eth2economics/code/beaconrunner/specs.py:601-602 | the attesting balance under the older floor is at least 1 |
| OlderRules.MatchingHeadAttestations | eth2economics/code/beaconrunner/specs.py:588-592 | exactly the source attestations that voted for the block at their slot, with no target-root filter |
| OlderRules.FilterCommutes | eth2economics/code/beaconrunner/specs.py:588-592 | filtering by two conditions gives the same list in either order |
| OlderRules.FilterCons | eth2economics/code/beaconrunner/specs.py:588-592 | filtering a list with a head element keeps the head exactly when it matches |
| OlderRules.HeadAttestationsAgainstNewer | eth2economics/code/beaconrunner/specs.py:588-592 | the newer head attestations are the older ones further restricted to the target root |
| OlderRules.Insert | eth2economics/code/beaconrunner/specs.py:232 | inserting adds exactly one occurrence of the element |
| OlderRules.InsertKeepsOrder | eth2economics/code/beaconrunner/specs.py:232 | inserting into a non-decreasing list keeps it non-decreasing |
| OlderRules.Sorted | eth2economics/code/beaconrunner/specs.py:232 | sorted keeps exactly the same multiset of indices |
| OlderRules.SortedIsOrdered | eth2economics/code/beaconrunner/specs.py:232 | sorted returns a non-decreasing list |
| OlderRules.SortedUnchangedExactly | eth2economics/code/beaconrunner/specs.py:232 | a list equals its sorted copy exactly when it is non-decreasing |
| OlderRules.IsValidIndexedAttestation | eth2economics/code/beaconrunner/specs.py:222-242 | false exactly when too many or unsorted indices; otherwise valid exactly when every index names a validator, failing where the pubkey lookup fails |
| OlderRules.AcceptsEmptyAndRepeated | eth2economics/code/beaconrunner/specs.py:222-242 | the older check accepts an empty index list and a repeated index, both of which the newer check rejects |
| OlderRules.ComponentDeltas | eth2economics/code/beaconrunner/specs.py:669-676 | one reward and one penalty per validator |
| OlderRules.ComponentDeltasSplit | eth2economics/code/beaconrunner/specs.py:669-676 | an eligible attester earns its base reward scaled by the attesting share, an eligible non-attester loses its base reward, an ineligible validator neither; the reward is at most the base reward |
| OlderRules.AttestationComponentDeltas | eth2economics/code/beaconrunner/specs.py:669-676 | one reward and one penalty per validator for a list of attestations |
| OlderRules.ComponentsDeltas | eth2economics/code/beaconrunner/specs.py:665-676 | one reward and one penalty per validator for the three component passes |
| OlderRules.InclusionDelayDeltas | eth2economics/code/beaconrunner/specs.py:678-689 | the inclusion pass gives rewards only, one per validator |
| OlderRules.InactivityPenaltyAgainstNewer | eth2economics/code/beaconrunner/specs.py:696-700 | the older inactivity penalty is the newer one plus the proposer share of the base reward |
| OlderRules.InactivityDeltas | eth2economics/code/beaconrunner/specs.py:691-700 | the inactivity pass gives penalties only, one per validator |
| OlderRules.AttestationDeltas | eth2economics/code/beaconrunner/specs.py:655-702 | one reward and one penalty per validator |
| OlderRules.AttestationDeltasAt | eth2economics/code/beaconrunner/specs.py:655-702 | each validator's reward and penalty are the sums of the source, target, head, inclusion and inactivity parts |
| OlderRules.ComponentAt | eth2economics/code/beaconrunner/specs.py:669-676 | one component pass pays an eligible attester its scaled base reward and charges an eligible non-attester its base reward |
| OlderRules.PenaltyOfValidator | eth2economics/code/beaconrunner/specs.py:655-702 | a validator's penalty is its base reward per missed component plus, in a leak, the older inactivity penalty |
| OlderRules.InactivityAt | eth2economics/code/beaconrunner/specs.py:691-700 | during a leak an eligible validator pays the older inactivity penalty, otherwise none |
| OlderRules.InclusionDelayRewardOf | eth2economics/code/beaconrunner/specs.py:678-689 | an unslashed source attester has an earliest attestation and earns at least its delayed share of its base reward |
| OlderRules.InclusionProposerRewardOf | eth2economics/code/beaconrunner/specs.py:680-685 | in the older rules too, the proposer of each unslashed source attester's earliest attestation receives at least base reward // PROPOSER_REWARD_QUOTIENT |
| OlderRules.InclusionShare | eth2economics/code/beaconrunner/specs.py:679-689 | an attester with an attestation in the list earns at least its delayed share of its base reward |
| OlderRules.IncludedAttesterRewarded | eth2economics/code/beaconrunner/specs.py:655-702 | an eligible source attester earns at least its scaled source reward plus its inclusion share |
| OlderRules.AttestingBalancesWithinSource | eth2economics/code/beaconrunner/specs.py:666-671 | the target and head attesting balances never exceed the source attesting balance |
| OlderRules.ProcessRewardsAndPenalties | eth2economics/code/beaconrunner/specs.py:704-711 | only balances change, and nothing in the genesis epoch |
| OlderRules.RewardsAndPenaltiesBalances | eth2economics/code/beaconrunner/specs.py:704-711 | outside the genesis epoch each balance moves by its older reward less its older penalty, floored at zero |
| OlderRules.ProcessJustificationAndFinalization | eth2economics/code/beaconrunner/specs.py:604-648 | only the checkpoints and justification bits change, and nothing in the first two epochs |
| OlderRules.JustificationAndFinalizationKeepsOrder | eth2economics/code/beaconrunner/specs.py:604-648 | finality never moves back, stays at most the previous epoch, and finalized ≤ previous justified ≤ current justified ≤ current epoch |
| OlderRules.MarkEligibleOrEject | eth2economics/code/beaconrunner/specs.py:715-723 | only this validator changes: it becomes eligible in the current epoch when it has no eligibility epoch and the maximum effective balance; when ejected its exit epoch becomes the exit queue epoch of the state and its withdrawable epoch MIN_VALIDATOR_WITHDRAWABILITY_DELAY later |
| OlderRules.EligibilityAndEjections | eth2economics/code/beaconrunner/specs.py:715-723 | after n steps the first n validators are marked or ejected, an ejected one at the exit queue epoch of the registry as it stood at its turn, and the rest untouched |
| OlderRules.EligibilityAndEjectionsStep | eth2economics/code/beaconrunner/specs.py:715-723 | one more turn of the first loop keeps every earlier validator's marking, each still against the exit queue epoch of its own turn |
| OlderRules.ActivationQueue | eth2economics/code/beaconrunner/specs.py:726-730 | exactly the queued validators, ordered by eligibility epoch then index |
| OlderRules.Dequeued | eth2economics/code/beaconrunner/specs.py:732 | exactly the first min(churn limit, queue length) validators of the older activation queue are dequeued |
| OlderRules.ActivateDequeued | eth2economics/code/beaconrunner/specs.py:732-735 | each validator is the one the dequeue step gives it, and only validators change |
| OlderRules.ProcessRegistryUpdates | eth2economics/code/beaconrunner/specs.py:713-735 | the state stays well formed, only validators change, and every dequeued validator was in the older activation queue after the first loop |
| OlderRules.RegistryUpdatesAt | eth2economics/code/beaconrunner/specs.py:713-735 | each validator ends as the first loop left it, with the activation epoch of the current epoch if it was dequeued without one and its old activation epoch otherwise |
| OlderRules.ActivationQueueFair | eth2economics/code/beaconrunner/specs.py:726-735 | a dequeued validator was queued before every queued validator left behind |
| OlderRules.WaitingMeansChurnFull | eth2economics/code/beaconrunner/specs.py:726-735 | a queued validator is left behind only when the churn limit was reached, and someone is dequeued whenever anyone is queued |
| OlderRules.ActivationEpochSetOnce | eth2economics/code/beaconrunner/specs.py:732-735 | only the activation epoch changes, only for a dequeued validator that had none, to the activation exit epoch; a set one is kept |
| OlderRules.ProcessSlashings | eth2economics/code/beaconrunner/specs.py:737-745 | only balances change; each validator due now loses min(balance, its slashing penalty against the recent slashings and the older total active balance), every other balance is unchanged |
| OlderRules.SlashingsPenaliseAtMostEffectiveBalance | eth2economics/code/beaconrunner/specs.py:737-745 | no balance rises, none falls by more than its effective balance, and only validators due now are penalised |
| OlderRules.HysteresisRule | eth2economics/code/beaconrunner/specs.py:754-758 | unmoved balances keep their effective balance; a moved one becomes the largest increment multiple up to the balance and the cap; the result never exceeds the balance and is a fixed point |
| OlderRules.HysteresisAgainstNewer | eth2economics/code/beaconrunner/specs.py:754-758 | a balance just below an effective balance lowers it under the older rule but not under the newer |
| OlderRules.UpdatedValidators | eth2economics/code/beaconrunner/specs.py:754-758 | each validator's effective balance is updated from its own balance, nothing else changes |
| OlderRules.ResetEth1DataVotes | eth2economics/code/beaconrunner/specs.py:751-752 | the eth1 votes are cleared exactly when the next slot starts a voting period |
| OlderRules.ResetEth1DataVotesAgainstNewer | eth2economics/code/beaconrunner/specs.py:751-752 | at an epoch end the older vote reset agrees with the newer one |
| OlderRules.CarryOverIgnoresValidators | eth2economics/code/beaconrunner/specs.py:760-769 | the shared final-update steps neither read nor write the validators |
| OlderRules.FinalUpdatesAgainstNewer | eth2economics/code/beaconrunner/specs.py:747-769 | the older final updates differ from the newer only in the effective balances, which follow the older hysteresis |
| OlderRules.ProcessFinalUpdates | eth2economics/code/beaconrunner/specs.py:747-769 | the attestations rotate, the checkpoints and slot are kept |
| OlderRules.JustifyAndReward | eth2economics/code/beaconrunner/specs.py:567-568 | finality never moves back and the checkpoints stay ordered up to the current epoch |
| OlderRules.UpdateRegistryAndRotate | eth2economics/code/beaconrunner/specs.py:569-574 | the attestations rotate and the checkpoints and slot are kept |
| OlderRules.ProcessEpoch | eth2economics/code/beaconrunner/specs.py:565-576 | the attestations rotate, finality never moves back and the checkpoints stay ordered |
| OlderRules.EpochTransition | eth2economics/code/beaconrunner/specs.py:547-552 | the epoch transition advances one slot into the next epoch, rotating the attestations |
| OlderRules.AdvanceSlot | eth2economics/code/beaconrunner/specs.py:547-563 | one slot later; at an epoch end the epoch changes and the attestations rotate, otherwise only the slot and the root caches change |
| OlderRules.AdvanceSlots | eth2economics/code/beaconrunner/specs.py:547-552 | the loop ends at the target slot with finality never moving back |
| OlderRules.ProcessSlots | eth2economics/code/beaconrunner/specs.py:545-552 | succeeds exactly when the target slot is not behind, a target equal to the slot is a no-op, and the result is at the target |
| OlderRules.AdvanceSlotsComposes | eth2economics/code/beaconrunner/specs.py:545-552 | advancing in two legs is advancing in one |
| OlderStateObject.AddComponentDeltas | eth2economics/code/beaconrunner/specs.py:672-676 | the loop over the eligible validators adds exactly the older component deltas to the running lists |
| OlderStateObject.AddInclusionRewards | eth2economics/code/beaconrunner/specs.py:679-689 | the loop over the source attesters adds exactly the inclusion-delay and proposer rewards |
| OlderStateObject.AddInactivityPenalties | eth2economics/code/beaconrunner/specs.py:694-700 | the loop over the eligible validators adds exactly the older inactivity penalties |
| OlderStateObject.GetAttestationDeltas | eth2economics/code/beaconrunner/specs.py:655-702 | the lists the loops build are the older attestation deltas |
| OlderStateObject.ComponentPasses | eth2economics/code/beaconrunner/specs.py:665-676 | the three component loops from lists of zeros give the older component deltas |
| OlderStateObject.ComponentPass | eth2economics/code/beaconrunner/specs.py:669-676 | one component loop adds exactly that component's older deltas |
| OlderStateObject.InclusionPass | eth2economics/code/beaconrunner/specs.py:678-689 | the inclusion loop adds exactly the older inclusion-delay rewards |
| OlderStateObject.InactivityPass | eth2economics/code/beaconrunner/specs.py:691-700 | the inactivity loop adds exactly the older inactivity penalties |
| OlderStateObject.PassesAddUp | eth2economics/code/beaconrunner/specs.py:655-702 | lists holding the validator-wise sums of three passes are the three passes' deltas added up |
| OlderStateObject.ProcessJustificationAndFinalization | eth2economics/code/beaconrunner/specs.py:604-648 | the state object becomes the state the older justification and finalization defines |
| OlderStateObject.ProcessRewardsAndPenalties | eth2economics/code/beaconrunner/specs.py:704-711 | the state object becomes the state the older rewards and penalties define |
| OlderStateObject.ProcessRegistryUpdates | eth2economics/code/beaconrunner/specs.py:713-735 | the state object becomes the state the older registry updates define |
| OlderStateObject.EligibilityAndEjections | eth2economics/code/beaconrunner/specs.py:715-723 | the first loop leaves every validator marked or ejected as the older rule defines |
| OlderStateObject.MarkEligibleOrEject | eth2economics/code/beaconrunner/specs.py:716-723 | one iteration updates validator `index` as the older rule defines |
| OlderStateObject.ActivateQueue | eth2economics/code/beaconrunner/specs.py:726-735 | the queue is built, cut at the churn limit and activated as the older rule defines |
| OlderStateObject.ActivateDequeued | eth2economics/code/beaconrunner/specs.py:732-735 | each validator becomes the one the dequeue step gives it; only validators change |
| OlderStateObject.ProcessSlashings | eth2economics/code/beaconrunner/specs.py:737-745 | the state object becomes the state process_slashings defines |
| OlderStateObject.ProcessFinalUpdates | eth2economics/code/beaconrunner/specs.py:747-769 | the state object becomes the state the older final updates define |
| OlderStateObject.FinalUpdateSteps | eth2economics/code/beaconrunner/specs.py:747-769 | the steps in the source's order give the older final updates |
| OlderStateObject.ResetEth1DataVotes | eth2economics/code/beaconrunner/specs.py:751-752 | the votes are cleared exactly when the next slot starts a voting period |
| OlderStateObject.UpdateEffectiveBalances | eth2economics/code/beaconrunner/specs.py:754-758 | the loop updates every effective balance by the older hysteresis |
| OlderStateObject.ProcessEpoch | eth2economics/code/beaconrunner/specs.py:565-576 | the five steps in place give the older process_epoch |
| OlderStateObject.AdvanceSlot | eth2economics/code/beaconrunner/specs.py:547-552 | one loop iteration in place gives the older slot advance |
| OlderStateObject.EpochTransition | eth2economics/code/beaconrunner/specs.py:550-552 | the older epoch transition then the move to the next slot |
| OlderStateObject.ProcessSlots | eth2economics/code/beaconrunner/specs.py:545-552 | succeeds exactly when the older process_slots does, then the state is its result; on failure it is unchanged |

## Left out

- Integers are unbounded: the model does not reproduce `uint64` overflow; `int_to_bytes` keeps the low bytes, which agrees with the source whenever the source does not raise.
- SSZ list limits (`List[..., N]` maximum lengths) are not enforced, and SSZ serialisation and merkleisation are the `Env` parameters described above.
- `compute_proposer_index` searches a bounded number of draws and answers None past it, where the source loops until `int_to_bytes` overflows.
- `get_ancestor`, `filter_block_tree` and `get_head` are given one step per stored block; a cycle of parent roots would need a hash collision, and only then would the source recurse forever where the model answers None.
- `get_head` visits children in the store's insertion order, which the block order of the store keeps, as a Python dictionary does; the result does not depend on it because ties are broken by root.
- Python sets are iterated in increasing index order; where the source iterates a set (attesting indices, slashable indices) the model fixes that order.
- The list of eligible validator indices in `get_attestation_deltas` is walked as all indices, skipping the ineligible ones, which gives the same sums.
- `min` over an empty list (an attester with no attestation) cannot happen for an unslashed attester and is not modelled.
- `get_beacon_committee` with a committee index at or beyond the committee count, and aggregation bits beyond the bit list's length, make the source raise; the model answers None or an empty committee, and treats missing bits as unset.
- The epoch steps of `process_slots` require the last slot of an epoch, the only place the source calls them, and states must satisfy `WellFormed` (list lengths and checkpoint order that every reachable state has).
- `on_tick` requires a time at or after genesis, as the simulator only ever calls it.
- The Merkle-branch check of `process_deposit`, the signature check of `on_attestation` and the `process_slots` call of `store_target_checkpoint_state` are commented out in the source and are not modelled; the signature check of `process_attestation` is commented out there too.
- The `beacon_state` field of a network set is not used by the network functions and is not modelled.
- The older constants module is not part of this model: the older rules take the newer constants, with `SLOTS_PER_ETH1_VOTING_PERIOD` as `EPOCHS_PER_ETH1_VOTING_PERIOD * SLOTS_PER_EPOCH`; the older state's lack of `genesis_validators_root` is not modelled, as no older rule reads it.
- The older simulator's block processing (`beaconrunner/specs.py` lines 771-939) and its `state_transition` are not part of this model. They differ from the newer ones: `process_block_header` checks neither the proposer index nor that the block is newer than the latest header; `process_attestation` does not check the target epoch against the slot's epoch and keeps the signature check; `process_deposit` checks the Merkle branch; `process_voluntary_exit` waits PERSISTENT_COMMITTEE_PERIOD; `process_attester_slashing` uses the older `is_valid_indexed_attestation`; `state_transition` accepts a block at the state's own slot.
- StateObject.BeaconState.ProcessBlock: a failing call leaves the object part-way through its updates, as the source does; apart from the header, RANDAO, attestation and exit steps, the contracts say nothing about that partial state, which the simulator discards.
- StateObject.BeaconState.ApplyOperations: the five `for_ops` loops of `process_operations` are one loop over the operations concatenated in the same order.
- The validator-guide functions after `on_attestation` in `beaconrunner2050/specs.py` are not part of this model.
- Rewards.SourceDeltas: states only one reward and one penalty per validator; the values are stated by Rewards.ComponentDeltasSplit.
- Rewards.TargetDeltas: the same, values by Rewards.ComponentDeltasSplit.
- Rewards.HeadDeltas: the same, values by Rewards.ComponentDeltasSplit.
- Rewards.AttestationDeltas: shape only; the values are stated by Rewards.AttestationDeltasAt and the lemmas on each pass.
- OlderRules.AttestationDeltas: shape only; the values are stated by OlderRules.AttestationDeltasAt and OlderRules.PenaltyOfValidator.
- OlderRules.ComponentsDeltas: shape only; the values are stated by OlderRules.ComponentAt.
- The older `process_epoch` and `process_justification_and_finalization` (`beaconrunner/specs.py` lines 566-648) print progress and checkpoint epochs; that logging is not modelled.
- ForkChoice.LatestAttestingBalance: states only when a balance exists; its bound is stated by ForkChoice.AttestingBalanceBounded.

## Findings

| source | as written | input that shows it | evidently intended | confidence | as-written member | corrected member |
|---|---|---|---|---|---|---|
| eth2economics/code/beaconrunner2050/specs.py:1560-1574 | `on_block` stores the block in `store.blocks` before asserting that it is later than the finalized slot and descends from the finalized root, so a rejected block stays in the store without a post-state | a store whose finalized epoch is 1 and a new block whose parent has a state, with slot 32 at or before the current slot (not after the finalized start slot 32) | a rejected block leaves the store unchanged, so every stored block has a post-state and `filter_block_tree` never looks up a missing one | not executed | ForkChoice.OnBlockStepsLeaveStatelessBlock | ForkChoice.AcceptBlockKeepsInvariant |
