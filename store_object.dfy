/**
 * The fork-choice store as the mutable object the handlers update in place, as
 * the source does with its `Store` dataclass. Every method is proved to leave
 * the object holding the value the matching function of the value model
 * computes, so the properties proved there (monotone checkpoints, monotone
 * latest messages, the store invariant) hold of the object too.
 */
module StoreObject {
  import opened Wrappers
  import opened Types
  import opened Helpers
  import EpochProcessing
  import FC = ForkChoice

  class Store {
    var time: nat
    var genesisTime: nat
    var justifiedCheckpoint: Checkpoint
    var finalizedCheckpoint: Checkpoint
    var bestJustifiedCheckpoint: Checkpoint
    var blocks: map<Root, FC.StoredBlock>
    /** The keys of `blocks` in insertion order, the order a Python dictionary keeps. */
    var blockOrder: seq<Root>
    var blockStates: map<Root, State>
    var checkpointStates: map<Checkpoint, State>
    var latestMessages: map<ValidatorIndex, FC.LatestMessage>

    /** The store the object holds, as a value. */
    function Value(): FC.Store
      reads this
    {
      FC.Store(time, genesisTime, justifiedCheckpoint, finalizedCheckpoint, bestJustifiedCheckpoint,
               blocks, blockOrder, blockStates, checkpointStates, latestMessages)
    }

    ghost predicate Valid()
      reads this
    {
      FC.StoreInvariant(Value())
    }

    /** `get_forkchoice_store`: a store anchored at `anchor`. */
    constructor (env: Env, anchor: State)
      requires WellFormed(anchor) && EpochProcessing.CheckpointsOrdered(anchor)
      ensures Valid() && Value() == FC.GetForkchoiceStore(env, anchor)
    {
      var s := FC.GetForkchoiceStore(env, anchor);
      FC.AnchorStoreInvariant(env, anchor);
      time := s.time;
      genesisTime := s.genesisTime;
      justifiedCheckpoint := s.justifiedCheckpoint;
      finalizedCheckpoint := s.finalizedCheckpoint;
      bestJustifiedCheckpoint := s.bestJustifiedCheckpoint;
      blocks := s.blocks;
      blockOrder := s.blockOrder;
      blockStates := s.blockStates;
      checkpointStates := s.checkpointStates;
      latestMessages := s.latestMessages;
    }

    /**
     * `on_tick`: the time is set, and on entering a new epoch a later best
     * justified checkpoint becomes the justified one.
     */
    method OnTick(newTime: nat)
      requires Valid() && genesisTime <= newTime
      modifies this
      ensures Valid() && Value() == FC.OnTick(old(Value()), newTime)
    {
      var previousSlot := FC.CurrentSlot(Value());
      time := newTime;
      var currentSlot := FC.CurrentSlot(Value());
      FC.OnTickKeepsInvariant(old(Value()), newTime);
      if !(currentSlot > previousSlot && FC.SlotsSinceEpochStart(currentSlot) == 0) {
        return;
      }
      if bestJustifiedCheckpoint.epoch > justifiedCheckpoint.epoch {
        justifiedCheckpoint := bestJustifiedCheckpoint;
      }
    }

    /**
     * `update_latest_messages`: for each attesting index in turn, the vote is
     * recorded when the validator has no message or one for an earlier epoch.
     */
    method UpdateLatestMessages(indices: seq<ValidatorIndex>, epoch: Epoch, root: Root)
      modifies this
      ensures Value() == old(Value()).(latestMessages := FC.UpdateLatestMessages(old(latestMessages), indices, epoch, root))
    {
      for k := 0 to |indices|
        invariant Value() == old(Value()).(latestMessages := FC.UpdateLatestMessages(old(latestMessages), indices[..k], epoch, root))
      {
        var i := indices[k];
        if i !in latestMessages || epoch > latestMessages[i].epoch {
          latestMessages := latestMessages[i := FC.LatestMessage(epoch, root)];
        }
        assert indices[..k + 1][..k] == indices[..k];
      }
      assert indices[..|indices|] == indices;
    }

    /**
     * `store_target_checkpoint_state`: the first time a target is seen, its
     * block's state is stored for it. False, with nothing changed, where the
     * target's block has no state.
     */
    method StoreTargetCheckpointState(target: Checkpoint) returns (ok: bool)
      modifies this
      ensures ok == FC.StoreTargetCheckpointState(old(Value()), target).Some?
      ensures ok ==> Value() == FC.StoreTargetCheckpointState(old(Value()), target).value
      ensures !ok ==> Value() == old(Value())
    {
      if target !in checkpointStates {
        if target.root !in blockStates {
          return false;
        }
        checkpointStates := checkpointStates[target := blockStates[target.root]];
      }
      return true;
    }

    /**
     * The writes of an accepted block: the block and its state are stored
     * under `root`, the root joins the insertion order if it is new, and the
     * three checkpoints take their new values.
     */
    method StoreBlock(root: Root, block: BeaconBlock, state: State, justified: Checkpoint,
                      finalized: Checkpoint, bestJustified: Checkpoint)
      modifies this
      ensures Value() == old(Value()).(blocks := old(blocks)[root := FC.ReceivedBlock(block)],
                                       blockOrder := if root in old(blocks) then old(blockOrder) else old(blockOrder) + [root],
                                       blockStates := old(blockStates)[root := state],
                                       justifiedCheckpoint := justified, finalizedCheckpoint := finalized,
                                       bestJustifiedCheckpoint := bestJustified)
    {
      if root !in blocks {
        blockOrder := blockOrder + [root];
      }
      blocks := blocks[root := FC.ReceivedBlock(block)];
      blockStates := blockStates[root := state];
      justifiedCheckpoint, finalizedCheckpoint, bestJustifiedCheckpoint := justified, finalized, bestJustified;
    }

    /**
     * `on_block`, given the block's post-state, with the block stored only once
     * every check has passed: false, with nothing changed, where the source
     * fails. The checks and the checkpoint decisions are those of the value
     * model; the block, its state and the new checkpoints are then written.
     */
    method AcceptBlock(env: Env, signed: SignedBeaconBlock, post: Option<State>) returns (ok: bool)
      requires Valid()
      requires post.Some? ==> WellFormed(post.value) && EpochProcessing.CheckpointsOrdered(post.value)
      modifies this
      ensures Valid()
      ensures ok == FC.AcceptBlock(env, old(Value()), signed, post).Some?
      ensures ok ==> Value() == FC.AcceptBlock(env, old(Value()), signed, post).value
      ensures !ok ==> Value() == old(Value())
    {
      ghost var s := Value();
      var next := FC.AcceptBlock(env, Value(), signed, post);
      if next.None? {
        return false;
      }
      FC.AcceptBlockWrites(env, s, signed, post);
      FC.AcceptBlockKeepsInvariant(env, s, signed, post);
      var r := next.value;
      StoreBlock(env.blockRoot(signed.message), signed.message, post.value,
                 r.justifiedCheckpoint, r.finalizedCheckpoint, r.bestJustifiedCheckpoint);
      return true;
    }

    /** `on_block`, corrected: the post-state from the state transition, then `AcceptBlock`. */
    method OnBlock(env: Env, signed: SignedBeaconBlock, provided: Option<State>) returns (ok: bool)
      requires Valid()
      requires provided.Some? ==> WellFormed(provided.value) && EpochProcessing.CheckpointsOrdered(provided.value)
      modifies this
      ensures Valid()
      ensures ok == FC.OnBlock(env, old(Value()), signed, provided).Some?
      ensures ok ==> Value() == FC.OnBlock(env, old(Value()), signed, provided).value
      ensures !ok ==> Value() == old(Value())
    {
      var post := FC.PostStateFor(env, Value(), signed, provided);
      ok := AcceptBlock(env, signed, post);
    }

    /**
     * `on_attestation`: validate, store the target's checkpoint state, and
     * record the latest messages of the attesting validators. False where the
     * source fails; the target's checkpoint state stays stored when the
     * attesting indices are what fails.
     */
    method OnAttestation(env: Env, attestation: Attestation) returns (ok: bool)
      requires Valid()
      modifies this
      ensures Valid()
      ensures (Value(), ok) == FC.OnAttestation(env, old(Value()), attestation)
    {
      ghost var s := Value();
      FC.OnAttestationKeepsInvariant(env, s, attestation);
      if FC.OnAttestation(env, s, attestation).1 {
        FC.OnAttestationAccepts(env, s, attestation);
      }
      if !FC.ValidateOnAttestation(Value(), attestation) {
        return false;
      }
      var target := attestation.data.target;
      var storedTarget := StoreTargetCheckpointState(target);
      if !storedTarget {
        return false;
      }
      FC.StoreTargetKeepsInvariant(s, target);
      var indices := FC.AttestationIndices(env, checkpointStates[target], attestation);
      if indices.None? {
        return false;
      }
      UpdateLatestMessages(indices.value, target.epoch, attestation.data.beaconBlockRoot);
      return true;
    }
  }
}
