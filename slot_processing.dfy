/**
 * Slot and epoch processing: the per-slot caching of state and block roots,
 * the epoch transition run on the last slot of each epoch, and the advance of a
 * state through empty slots to a target slot.
 */
module SlotProcessing {
  import opened Wrappers
  import opened Constants
  import opened Types
  import opened Helpers
  import opened EpochProcessing
  import opened Rewards
  import opened EpochUpdates

  /**
   * `process_slot`: cache the state root at the slot's position in `stateRoots`,
   * fill the latest block header's state root if it is still zero, and cache the
   * header's root at the same position in `blockRoots`.
   */
  function ProcessSlot(env: Env, s: State): (r: State)
    requires WellFormed(s)
    ensures WellFormed(r)
    ensures r == s.(stateRoots := r.stateRoots, blockRoots := r.blockRoots, latestBlockHeader := r.latestBlockHeader)
  {
    var index := s.slot % SLOTS_PER_HISTORICAL_ROOT;
    var previousStateRoot := env.stateRoot(s);
    var header := if s.latestBlockHeader.stateRoot == ZERO_BYTES32
                  then s.latestBlockHeader.(stateRoot := previousStateRoot)
                  else s.latestBlockHeader;
    var r := s.(stateRoots := s.stateRoots[index := previousStateRoot],
                latestBlockHeader := header,
                blockRoots := s.blockRoots[index := env.headerRoot(header)]);
    WellFormedSameShape(s, r);
    r
  }

  /**
   * `process_slot` writes only the entry of the current slot in each root vector:
   * the root of the state before the slot, and the root of the latest header,
   * whose state root is that same state root if it was zero.
   */
  lemma ProcessSlotCachesRoots(env: Env, s: State)
    requires WellFormed(s)
    ensures var r := ProcessSlot(env, s);
            var index := s.slot % SLOTS_PER_HISTORICAL_ROOT;
            (forall k :: 0 <= k < SLOTS_PER_HISTORICAL_ROOT && k != index ==>
               r.stateRoots[k] == s.stateRoots[k] && r.blockRoots[k] == s.blockRoots[k]) &&
            r.stateRoots[index] == env.stateRoot(s) &&
            r.latestBlockHeader.stateRoot == (if s.latestBlockHeader.stateRoot == ZERO_BYTES32
                                              then env.stateRoot(s) else s.latestBlockHeader.stateRoot) &&
            r.latestBlockHeader == s.latestBlockHeader.(stateRoot := r.latestBlockHeader.stateRoot) &&
            r.blockRoots[index] == env.headerRoot(r.latestBlockHeader)
  {
  }

  /** The first two steps of `process_epoch`: justification and finalization, then rewards and penalties. */
  function JustifyAndReward(env: Env, s: State): (r: State)
    requires WellFormed(s) && EpochEnd(s) && CheckpointsOrdered(s)
    ensures WellFormed(r) && r.slot == s.slot && |r.validators| == |s.validators|
    ensures r.currentEpochAttestations == s.currentEpochAttestations
    ensures r.finalizedCheckpoint.epoch >= s.finalizedCheckpoint.epoch
    ensures r.finalizedCheckpoint.epoch <= r.previousJustifiedCheckpoint.epoch <= r.currentJustifiedCheckpoint.epoch <= CurrentEpoch(s)
  {
    var justified := ProcessJustificationAndFinalization(env, s);
    JustificationAndFinalizationKeepsOrder(env, s);
    SameSlot(justified, s);
    ProcessRewardsAndPenalties(env, justified)
  }

  /** The last three steps of `process_epoch`: registry updates, slashings and final updates. */
  function UpdateRegistryAndRotate(env: Env, s: State): (r: State)
    requires WellFormed(s)
    ensures WellFormed(r) && r.slot == s.slot && |r.validators| == |s.validators|
    ensures r.previousEpochAttestations == s.currentEpochAttestations && r.currentEpochAttestations == []
    ensures r.finalizedCheckpoint == s.finalizedCheckpoint && r.currentJustifiedCheckpoint == s.currentJustifiedCheckpoint
    ensures r.previousJustifiedCheckpoint == s.previousJustifiedCheckpoint
  {
    var registered := ProcessRegistryUpdates(s);
    var slashed := ProcessSlashings(registered);
    FinalUpdatesEffects(env, slashed);
    ProcessFinalUpdates(env, slashed)
  }

  /**
   * `process_epoch`: justification and finalization, rewards and penalties,
   * registry updates, slashings and final updates, in that order.
   */
  function ProcessEpoch(env: Env, s: State): (r: State)
    requires WellFormed(s) && EpochEnd(s) && CheckpointsOrdered(s)
    ensures WellFormed(r) && r.slot == s.slot && |r.validators| == |s.validators|
    ensures r.previousEpochAttestations == s.currentEpochAttestations && r.currentEpochAttestations == []
    ensures PendingAttestationsWithin(r.previousEpochAttestations, ComputeStartSlotAtEpoch(CurrentEpoch(s)), r)
    ensures r.finalizedCheckpoint.epoch >= s.finalizedCheckpoint.epoch
    ensures r.finalizedCheckpoint.epoch <= r.previousJustifiedCheckpoint.epoch <= r.currentJustifiedCheckpoint.epoch <= CurrentEpoch(s)
  {
    var justified := JustifyAndReward(env, s);
    var r := UpdateRegistryAndRotate(env, justified);
    RotatedAttestationsWithin(justified, r);
    r
  }

  /** Attestations made in the current epoch of a state stay within that epoch once rotated into a state at the same slot. */
  lemma RotatedAttestationsWithin(s: State, r: State)
    requires WellFormed(s) && r.slot == s.slot && |r.validators| == |s.validators|
    requires r.previousEpochAttestations == s.currentEpochAttestations
    ensures PendingAttestationsWithin(r.previousEpochAttestations, ComputeStartSlotAtEpoch(CurrentEpoch(s)), r)
  {
  }

  /** The same state one slot later. */
  function NextSlot(s: State): State
  {
    s.(slot := s.slot + 1)
  }

  /** The first slot of the next epoch follows the last slot of an epoch. */
  lemma EpochBoundary(slot: Slot)
    ensures (slot + 1) % SLOTS_PER_EPOCH == 0 ==> ComputeEpochAtSlot(slot + 1) == ComputeEpochAtSlot(slot) + 1
    ensures (slot + 1) % SLOTS_PER_EPOCH != 0 ==> ComputeEpochAtSlot(slot + 1) == ComputeEpochAtSlot(slot)
  {
  }

  /** Inside an epoch, moving to the next slot keeps a state well-formed and its checkpoints ordered. */
  lemma NextSlotInEpoch(s: State)
    requires WellFormed(s) && CheckpointsOrdered(s) && !EpochEnd(s)
    ensures WellFormed(NextSlot(s)) && CheckpointsOrdered(NextSlot(s))
    ensures CurrentEpoch(NextSlot(s)) == CurrentEpoch(s)
  {
    EpochBoundary(s.slot);
  }

  /**
   * After the epoch transition, moving to the first slot of the next epoch keeps
   * the state well-formed and its checkpoints ordered: the rotated attestations
   * belong to the new previous epoch, and the current justified checkpoint is
   * at most the epoch just ended.
   */
  lemma NextSlotNewEpoch(s: State)
    requires WellFormed(s) && EpochEnd(s) && s.currentEpochAttestations == []
    requires PendingAttestationsWithin(s.previousEpochAttestations, ComputeStartSlotAtEpoch(CurrentEpoch(s)), s)
    requires s.finalizedCheckpoint.epoch <= s.previousJustifiedCheckpoint.epoch <= s.currentJustifiedCheckpoint.epoch <= CurrentEpoch(s)
    ensures WellFormed(NextSlot(s)) && CheckpointsOrdered(NextSlot(s))
    ensures CurrentEpoch(NextSlot(s)) == CurrentEpoch(s) + 1
  {
    EpochBoundary(s.slot);
  }

  /**
   * A state that satisfies what the epoch processing promises about its input
   * `s` can move to the first slot of the next epoch.
   */
  lemma AfterEpochProcessing(p: State, s: State)
    requires WellFormed(s) && EpochEnd(s)
    requires WellFormed(p) && p.slot == s.slot
    requires p.previousEpochAttestations == s.currentEpochAttestations && p.currentEpochAttestations == []
    requires PendingAttestationsWithin(p.previousEpochAttestations, ComputeStartSlotAtEpoch(CurrentEpoch(s)), p)
    requires p.finalizedCheckpoint.epoch <= p.previousJustifiedCheckpoint.epoch <= p.currentJustifiedCheckpoint.epoch <= CurrentEpoch(s)
    ensures WellFormed(NextSlot(p)) && CheckpointsOrdered(NextSlot(p))
    ensures CurrentEpoch(NextSlot(p)) == CurrentEpoch(s) + 1
  {
    SameSlot(p, s);
    NextSlotNewEpoch(p);
  }

  /** The epoch transition on the last slot of an epoch, followed by the move to the next slot. */
  function EpochTransition(env: Env, s: State): (r: State)
    requires WellFormed(s) && CheckpointsOrdered(s) && EpochEnd(s)
    ensures WellFormed(r) && CheckpointsOrdered(r) && r.slot == s.slot + 1
    ensures r.finalizedCheckpoint.epoch >= s.finalizedCheckpoint.epoch
    ensures CurrentEpoch(r) == CurrentEpoch(s) + 1
    ensures r.previousEpochAttestations == s.currentEpochAttestations && r.currentEpochAttestations == []
  {
    var processed := ProcessEpoch(env, s);
    AfterEpochProcessing(processed, s);
    NextSlot(processed)
  }

  /**
   * One iteration of the `process_slots` loop: process the slot, run the epoch
   * transition if the slot is the last of its epoch, and move to the next slot.
   * The epoch transition runs exactly on the last slot of an epoch: there the
   * epoch advances and the pending attestations rotate; on any other slot the
   * epoch stays and only the cached roots and the latest header change.
   */
  function AdvanceSlot(env: Env, s: State): (r: State)
    requires WellFormed(s) && CheckpointsOrdered(s)
    ensures WellFormed(r) && CheckpointsOrdered(r) && r.slot == s.slot + 1
    ensures r.finalizedCheckpoint.epoch >= s.finalizedCheckpoint.epoch
    ensures EpochEnd(s) ==> CurrentEpoch(r) == CurrentEpoch(s) + 1 &&
                            r.previousEpochAttestations == s.currentEpochAttestations && r.currentEpochAttestations == []
    ensures !EpochEnd(s) ==> CurrentEpoch(r) == CurrentEpoch(s) &&
                             r == s.(slot := s.slot + 1, stateRoots := r.stateRoots, blockRoots := r.blockRoots,
                                     latestBlockHeader := r.latestBlockHeader)
  {
    var cached := ProcessSlot(env, s);
    SameSlot(cached, s);
    if EpochEnd(cached) then
      EpochTransition(env, cached)
    else
      NextSlotInEpoch(cached);
      NextSlot(cached)
  }

  /** The `process_slots` loop from the state's slot up to `target`. */
  function AdvanceSlots(env: Env, s: State, target: Slot): (r: State)
    requires WellFormed(s) && CheckpointsOrdered(s) && s.slot <= target
    ensures WellFormed(r) && CheckpointsOrdered(r) && r.slot == target
    ensures r.finalizedCheckpoint.epoch >= s.finalizedCheckpoint.epoch
    decreases target - s.slot
  {
    if s.slot == target then s else AdvanceSlots(env, AdvanceSlot(env, s), target)
  }

  /**
   * `process_slots`: the source asserts that the target slot lies ahead of the
   * state; when it does, the state ends exactly at the target, still
   * well-formed, with its checkpoints ordered and finality never moved back.
   */
  function ProcessSlots(env: Env, s: State, slot: Slot): (r: Option<State>)
    requires WellFormed(s) && CheckpointsOrdered(s)
    ensures r.Some? <==> s.slot < slot
    ensures r.Some? ==> r.value.slot == slot && WellFormed(r.value) && CheckpointsOrdered(r.value) &&
                        r.value.finalizedCheckpoint.epoch >= s.finalizedCheckpoint.epoch
  {
    if s.slot < slot then Some(AdvanceSlots(env, s, slot)) else None
  }

  /** Advancing in two legs is advancing in one. */
  lemma {:induction false} AdvanceSlotsComposes(env: Env, s: State, middle: Slot, target: Slot)
    requires WellFormed(s) && CheckpointsOrdered(s) && s.slot <= middle <= target
    ensures AdvanceSlots(env, AdvanceSlots(env, s, middle), target) == AdvanceSlots(env, s, target)
    decreases middle - s.slot
  {
    if s.slot < middle {
      AdvanceSlotsComposes(env, AdvanceSlot(env, s), middle, target);
    }
  }
}
