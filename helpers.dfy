/**
 * The beacon state as a value, the opaque functions the state transition calls
 * (SHA-256, SSZ `hash_tree_root`, BLS), and the read-only helpers of phase 0:
 * predicates on validators and attestation data, epoch arithmetic, and the
 * accessors that read committees, proposers, balances and domains off a state.
 */
module Helpers {
  import opened Wrappers
  import opened Constants
  import opened Types
  import opened IntegerMath
  import opened ByteCodec
  import opened Shuffling

  /** Every field of a phase-0 `BeaconState`; the fixed-size vectors are sequences here. */
  datatype State = State(
    genesisTime: nat,
    genesisValidatorsRoot: Root,
    slot: Slot,
    fork: Fork,
    latestBlockHeader: BeaconBlockHeader,
    blockRoots: seq<Root>,
    stateRoots: seq<Root>,
    historicalRoots: seq<Root>,
    eth1Data: Eth1Data,
    eth1DataVotes: seq<Eth1Data>,
    eth1DepositIndex: nat,
    validators: seq<Validator>,
    balances: seq<Gwei>,
    randaoMixes: seq<Bytes32>,
    slashings: seq<Gwei>,
    previousEpochAttestations: seq<PendingAttestation>,
    currentEpochAttestations: seq<PendingAttestation>,
    justificationBits: seq<bool>,
    previousJustifiedCheckpoint: Checkpoint,
    currentJustifiedCheckpoint: Checkpoint,
    finalizedCheckpoint: Checkpoint)

  /**
   * The functions the state transition calls but that are not part of this model:
   * SHA-256, the SSZ `hash_tree_root` of each container it is applied to, the
   * signing root of an object under a domain, and BLS verification. The simulator
   * switches BLS off, so its verifiers answer true; nothing below depends on that.
   */
  datatype Env = Env(
    hash: Hasher,
    stateRoot: State -> Root,
    headerRoot: BeaconBlockHeader -> Root,
    blockRoot: BeaconBlock -> Root,
    bodyRoot: BeaconBlockBody -> Root,
    validatorsRoot: seq<Validator> -> Root,
    historicalBatchRoot: (seq<Root>, seq<Root>) -> Root,
    depositDataListRoot: seq<DepositData> -> Root,
    forkDataRoot: (Version, Root) -> Root,
    signingRoot: (SigningObject, Domain) -> Root,
    blsVerify: (BLSPubkey, Root, BLSSignature) -> bool,
    fastAggregateVerify: (seq<BLSPubkey>, Root, BLSSignature) -> bool)

  // ---------------------------------------------------------------------------
  // Epoch arithmetic

  function ComputeEpochAtSlot(slot: Slot): Epoch {
    slot / SLOTS_PER_EPOCH
  }

  function ComputeStartSlotAtEpoch(epoch: Epoch): Slot {
    epoch * SLOTS_PER_EPOCH
  }

  /** A slot lies between the start slot of its epoch and the start slot of the next one. */
  lemma SlotWithinItsEpoch(slot: Slot)
    ensures ComputeStartSlotAtEpoch(ComputeEpochAtSlot(slot)) <= slot < ComputeStartSlotAtEpoch(ComputeEpochAtSlot(slot) + 1)
  {
  }

  /** The start slot of an epoch belongs to that epoch. */
  lemma StartSlotInEpoch(epoch: Epoch)
    ensures ComputeEpochAtSlot(ComputeStartSlotAtEpoch(epoch)) == epoch
  {
    DivUnique(epoch * SLOTS_PER_EPOCH, SLOTS_PER_EPOCH, epoch, 0);
  }

  /** `compute_activation_exit_epoch`: activations and exits take effect after the seed lookahead. */
  function ComputeActivationExitEpoch(epoch: Epoch): (r: Epoch)
    ensures r > epoch + MAX_SEED_LOOKAHEAD
  {
    epoch + 1 + MAX_SEED_LOOKAHEAD
  }

  // ---------------------------------------------------------------------------
  // Predicates on validators and attestation data

  predicate IsActiveValidator(v: Validator, epoch: Epoch) {
    v.activationEpoch <= epoch < v.exitEpoch
  }

  predicate IsEligibleForActivationQueue(v: Validator) {
    v.activationEligibilityEpoch == FAR_FUTURE_EPOCH && v.effectiveBalance == MAX_EFFECTIVE_BALANCE
  }

  predicate IsEligibleForActivation(s: State, v: Validator) {
    v.activationEligibilityEpoch <= s.finalizedCheckpoint.epoch && v.activationEpoch == FAR_FUTURE_EPOCH
  }

  predicate IsSlashableValidator(v: Validator, epoch: Epoch) {
    !v.slashed && v.activationEpoch <= epoch < v.withdrawableEpoch
  }

  /** The Casper FFG slashing conditions: a double vote, or the first vote surrounding the second. */
  predicate IsSlashableAttestationData(data1: AttestationData, data2: AttestationData) {
    (data1 != data2 && data1.target.epoch == data2.target.epoch) ||
    (data1.source.epoch < data2.source.epoch && data2.target.epoch < data1.target.epoch)
  }

  /** No vote conflicts with itself. */
  lemma NoVoteSlashableWithItself(data: AttestationData)
    ensures !IsSlashableAttestationData(data, data)
  {
  }

  /**
   * A validator whose votes have strictly increasing targets and non-decreasing
   * sources never casts a slashable pair, in either order.
   */
  lemma IncreasingVotesNotSlashable(data1: AttestationData, data2: AttestationData)
    requires data1.target.epoch < data2.target.epoch && data1.source.epoch <= data2.source.epoch
    ensures !IsSlashableAttestationData(data1, data2) && !IsSlashableAttestationData(data2, data1)
  {
  }

  /** Two distinct votes for the same target epoch are slashable in either order. */
  lemma DoubleVoteSymmetric(data1: AttestationData, data2: AttestationData)
    requires data1 != data2 && data1.target.epoch == data2.target.epoch
    ensures IsSlashableAttestationData(data1, data2) && IsSlashableAttestationData(data2, data1)
  {
  }

  predicate StrictlyIncreasing(s: seq<nat>) {
    forall a, b :: 0 <= a < b < |s| ==> s[a] < s[b]
  }

  lemma StrictlyIncreasingIsDistinct(s: seq<nat>)
    requires StrictlyIncreasing(s)
    ensures Distinct(s)
  {
  }

  // ---------------------------------------------------------------------------
  // Well-formed states

  /**
   * Every pending attestation of a list was made at a slot in [start, s.slot),
   * was included at least one slot later, and names an existing proposer.
   */
  predicate PendingAttestationsWithin(atts: seq<PendingAttestation>, start: Slot, s: State) {
    forall k :: 0 <= k < |atts| ==>
      start <= atts[k].data.slot < s.slot && atts[k].inclusionDelay >= 1 && atts[k].proposerIndex < |s.validators|
  }

  /**
   * The shape every state reached from genesis has: the vectors have their fixed
   * lengths, there is one balance per validator, and the pending attestations of
   * each list were made in the epoch the list is for (or later, for the previous list).
   */
  predicate WellFormed(s: State) {
    |s.blockRoots| == SLOTS_PER_HISTORICAL_ROOT && |s.stateRoots| == SLOTS_PER_HISTORICAL_ROOT &&
    |s.randaoMixes| == EPOCHS_PER_HISTORICAL_VECTOR && |s.slashings| == EPOCHS_PER_SLASHINGS_VECTOR &&
    |s.justificationBits| == JUSTIFICATION_BITS_LENGTH && |s.balances| == |s.validators| &&
    PendingAttestationsWithin(s.previousEpochAttestations, ComputeStartSlotAtEpoch(PreviousEpoch(s)), s) &&
    PendingAttestationsWithin(s.currentEpochAttestations, ComputeStartSlotAtEpoch(CurrentEpoch(s)), s)
  }

  /**
   * A state with the same slot, vector lengths and pending attestations as a
   * well-formed one, and at least as many validators, each with a balance, is
   * well-formed.
   */
  lemma WellFormedSameShape(s: State, r: State)
    requires WellFormed(s) && r.slot == s.slot
    requires |r.blockRoots| == |s.blockRoots| && |r.stateRoots| == |s.stateRoots| && |r.randaoMixes| == |s.randaoMixes|
    requires |r.slashings| == |s.slashings| && |r.justificationBits| == |s.justificationBits|
    requires |r.validators| >= |s.validators| && |r.balances| == |r.validators|
    requires r.previousEpochAttestations == s.previousEpochAttestations && r.currentEpochAttestations == s.currentEpochAttestations
    ensures WellFormed(r)
  {
  }

  // ---------------------------------------------------------------------------
  // State accessors

  function CurrentEpoch(s: State): Epoch {
    ComputeEpochAtSlot(s.slot)
  }

  /** The previous epoch, or the genesis epoch while the current epoch is the genesis epoch. */
  function PreviousEpoch(s: State): (e: Epoch)
    ensures e <= CurrentEpoch(s) && (CurrentEpoch(s) > GENESIS_EPOCH ==> e + 1 == CurrentEpoch(s))
  {
    var current := CurrentEpoch(s);
    if current == GENESIS_EPOCH then GENESIS_EPOCH else current - 1
  }

  /** `get_block_root_at_slot`: a recent block root; the source asserts that the slot is recent. */
  function BlockRootAtSlot(s: State, slot: Slot): Root
    requires WellFormed(s) && slot < s.slot <= slot + SLOTS_PER_HISTORICAL_ROOT
  {
    s.blockRoots[slot % SLOTS_PER_HISTORICAL_ROOT]
  }

  /** `get_block_root`: the block root at the start slot of a recent epoch. */
  function BlockRoot(s: State, epoch: Epoch): Root
    requires WellFormed(s)
    requires ComputeStartSlotAtEpoch(epoch) < s.slot <= ComputeStartSlotAtEpoch(epoch) + SLOTS_PER_HISTORICAL_ROOT
  {
    BlockRootAtSlot(s, ComputeStartSlotAtEpoch(epoch))
  }

  function RandaoMix(s: State, epoch: Epoch): Bytes32
    requires WellFormed(s)
  {
    s.randaoMixes[epoch % EPOCHS_PER_HISTORICAL_VECTOR]
  }

  /** The positions below n that satisfy p, in increasing order. */
  function IndicesWhere(n: nat, p: nat -> bool): (r: seq<nat>)
    ensures forall k :: 0 <= k < |r| ==> r[k] < n && p(r[k])
    ensures forall i :: 0 <= i < n && p(i) ==> i in r
    ensures StrictlyIncreasing(r)
  {
    if n == 0 then []
    else
      var r := IndicesWhere(n - 1, p);
      if p(n - 1) then r + [n - 1] else r
  }

  /** `get_active_validator_indices`: the indices of the validators active at `epoch`, in order. */
  function ActiveValidatorIndices(validators: seq<Validator>, epoch: Epoch): (r: seq<ValidatorIndex>)
    ensures forall k :: 0 <= k < |r| ==> r[k] < |validators| && IsActiveValidator(validators[r[k]], epoch)
    ensures forall i :: 0 <= i < |validators| && IsActiveValidator(validators[i], epoch) ==> i in r
    ensures StrictlyIncreasing(r) && Distinct(r)
  {
    var r := IndicesWhere(|validators|, (i: nat) => i < |validators| && IsActiveValidator(validators[i], epoch));
    StrictlyIncreasingIsDistinct(r);
    r
  }

  /** `get_validator_churn_limit`: at least MIN_PER_EPOCH_CHURN_LIMIT, growing with the active set. */
  function ValidatorChurnLimit(s: State): (r: nat)
    ensures r >= MIN_PER_EPOCH_CHURN_LIMIT
    ensures r >= |ActiveValidatorIndices(s.validators, CurrentEpoch(s))| / CHURN_LIMIT_QUOTIENT
  {
    Max(MIN_PER_EPOCH_CHURN_LIMIT, |ActiveValidatorIndices(s.validators, CurrentEpoch(s))| / CHURN_LIMIT_QUOTIENT)
  }

  /**
   * `get_seed`: the hash of the domain type, the epoch and the randao mix
   * MIN_SEED_LOOKAHEAD + 1 epochs earlier (counted modulo the mix vector).
   */
  function Seed(env: Env, s: State, epoch: Epoch, domainType: DomainType): Bytes32
    requires WellFormed(s)
  {
    var mix := RandaoMix(s, epoch + EPOCHS_PER_HISTORICAL_VECTOR - MIN_SEED_LOOKAHEAD - 1);
    env.hash(domainType + IntToBytes(epoch, 8) + mix)
  }

  /** The mix a seed reads is the one MIN_SEED_LOOKAHEAD + 1 epochs back, wrapping around below that. */
  lemma SeedMixLookahead(epoch: Epoch)
    ensures epoch >= MIN_SEED_LOOKAHEAD + 1 ==>
      (epoch + EPOCHS_PER_HISTORICAL_VECTOR - MIN_SEED_LOOKAHEAD - 1) % EPOCHS_PER_HISTORICAL_VECTOR
        == (epoch - MIN_SEED_LOOKAHEAD - 1) % EPOCHS_PER_HISTORICAL_VECTOR
    ensures epoch < MIN_SEED_LOOKAHEAD + 1 ==>
      (epoch + EPOCHS_PER_HISTORICAL_VECTOR - MIN_SEED_LOOKAHEAD - 1) % EPOCHS_PER_HISTORICAL_VECTOR
        == EPOCHS_PER_HISTORICAL_VECTOR + epoch - MIN_SEED_LOOKAHEAD - 1
  {
    var e := epoch - MIN_SEED_LOOKAHEAD - 1;
    if epoch >= MIN_SEED_LOOKAHEAD + 1 {
      DivUnique(e + EPOCHS_PER_HISTORICAL_VECTOR, EPOCHS_PER_HISTORICAL_VECTOR, e / EPOCHS_PER_HISTORICAL_VECTOR + 1, e % EPOCHS_PER_HISTORICAL_VECTOR);
    } else {
      DivUnique(EPOCHS_PER_HISTORICAL_VECTOR + e, EPOCHS_PER_HISTORICAL_VECTOR, 0, EPOCHS_PER_HISTORICAL_VECTOR + e);
    }
  }

  /**
   * `get_committee_count_at_slot`: one committee per TARGET_COMMITTEE_SIZE active
   * validators per slot, at least one and at most MAX_COMMITTEES_PER_SLOT.
   */
  function CommitteeCountAtSlot(s: State, slot: Slot): (r: nat)
    ensures 1 <= r <= MAX_COMMITTEES_PER_SLOT
  {
    var active := |ActiveValidatorIndices(s.validators, ComputeEpochAtSlot(slot))|;
    Max(1, Min(MAX_COMMITTEES_PER_SLOT, active / SLOTS_PER_EPOCH / TARGET_COMMITTEE_SIZE))
  }

  /** With more than one committee per slot, every committee of the epoch has a full target size. */
  lemma CommitteesMeetTargetSize(s: State, slot: Slot)
    requires CommitteeCountAtSlot(s, slot) > 1
    ensures CommitteeCountAtSlot(s, slot) * SLOTS_PER_EPOCH * TARGET_COMMITTEE_SIZE
              <= |ActiveValidatorIndices(s.validators, ComputeEpochAtSlot(slot))|
  {
    var active := |ActiveValidatorIndices(s.validators, ComputeEpochAtSlot(slot))|;
    var r := CommitteeCountAtSlot(s, slot);
    assert r <= active / SLOTS_PER_EPOCH / TARGET_COMMITTEE_SIZE;
    DivLowerBound(active / SLOTS_PER_EPOCH, TARGET_COMMITTEE_SIZE, r);
    DivLowerBound(active, SLOTS_PER_EPOCH, r * TARGET_COMMITTEE_SIZE);
  }

  /** The position of committee `index` at `slot` among the epoch's committees. */
  lemma CommitteePositionInRange(slot: Slot, index: nat, perSlot: nat)
    ensures index < perSlot ==> (slot % SLOTS_PER_EPOCH) * perSlot + index < perSlot * SLOTS_PER_EPOCH
  {
    MulLeMonotone(perSlot, slot % SLOTS_PER_EPOCH, SLOTS_PER_EPOCH - 1);
  }

  /**
   * `get_beacon_committee`: slice number (slot % SLOTS_PER_EPOCH) * perSlot + index of
   * the epoch's shuffled active indices. None where the source fails: a slice
   * number past the last committee whose range is not empty reads a position
   * beyond the list, which `compute_shuffled_index` rejects.
   */
  function BeaconCommittee(env: Env, s: State, slot: Slot, index: CommitteeIndex): (r: Option<seq<ValidatorIndex>>)
    requires WellFormed(s)
    ensures index < CommitteeCountAtSlot(s, slot) ==> r.Some?
    ensures r.Some? ==> forall k :: 0 <= k < |r.value| ==>
              r.value[k] < |s.validators| && IsActiveValidator(s.validators[r.value[k]], ComputeEpochAtSlot(slot))
  {
    var epoch := ComputeEpochAtSlot(slot);
    var perSlot := CommitteeCountAtSlot(s, slot);
    var indices := ActiveValidatorIndices(s.validators, epoch);
    var position := (slot % SLOTS_PER_EPOCH) * perSlot + index;
    var count := perSlot * SLOTS_PER_EPOCH;
    CommitteePositionInRange(slot, index, perSlot);
    if position < count then
      Some(ComputeCommittee(env.hash, indices, Seed(env, s, epoch, DOMAIN_BEACON_ATTESTER), position, count))
    else if CommitteeStart(|indices|, position, count) == CommitteeEnd(|indices|, position, count) then Some([])
    else None
  }

  /**
   * `get_beacon_proposer_index`: the validator sampled from the active set with the
   * seed of the current slot. None where the source fails: no active validator
   * (its assertion) or no accepted draw before the counter overflows.
   */
  function BeaconProposerIndex(env: Env, s: State): (r: Option<ValidatorIndex>)
    requires WellFormed(s)
    ensures r.Some? ==> r.value < |s.validators| && IsActiveValidator(s.validators[r.value], CurrentEpoch(s))
    ensures |ActiveValidatorIndices(s.validators, CurrentEpoch(s))| == 0 ==> r.None?
  {
    var epoch := CurrentEpoch(s);
    var seed := env.hash(Seed(env, s, epoch, DOMAIN_BEACON_PROPOSER) + IntToBytes(s.slot, 8));
    var indices := ActiveValidatorIndices(s.validators, epoch);
    if |indices| == 0 then None
    else
      ProposerIndex(env.hash, s.validators, indices, seed)
  }

  // ---------------------------------------------------------------------------
  // Balances

  /** The effective balances of the validators below n whose index is in `indices`. */
  function SumOfEffectiveBalances(validators: seq<Validator>, indices: set<ValidatorIndex>, n: nat): nat
    requires n <= |validators|
  {
    if n == 0 then 0
    else SumOfEffectiveBalances(validators, indices, n - 1) + (if n - 1 in indices then validators[n - 1].effectiveBalance else 0)
  }

  /** Adding indices never lowers the sum. */
  lemma {:induction false} SumOfEffectiveBalancesMonotone(validators: seq<Validator>, a: set<ValidatorIndex>, b: set<ValidatorIndex>, n: nat)
    requires n <= |validators| && a <= b
    ensures SumOfEffectiveBalances(validators, a, n) <= SumOfEffectiveBalances(validators, b, n)
  {
    if n > 0 {
      SumOfEffectiveBalancesMonotone(validators, a, b, n - 1);
    }
  }

  /** The sum over two disjoint index sets is the sum of the sums. */
  lemma {:induction false} SumOfEffectiveBalancesDisjointUnion(validators: seq<Validator>, a: set<ValidatorIndex>, b: set<ValidatorIndex>, n: nat)
    requires n <= |validators| && a !! b
    ensures SumOfEffectiveBalances(validators, a + b, n)
         == SumOfEffectiveBalances(validators, a, n) + SumOfEffectiveBalances(validators, b, n)
  {
    if n > 0 {
      SumOfEffectiveBalancesDisjointUnion(validators, a, b, n - 1);
    }
  }

  /**
   * `get_total_balance`: the effective balances of `indices` added up, but never
   * less than EFFECTIVE_BALANCE_INCREMENT, so that it can be divided by.
   */
  function TotalBalance(s: State, indices: set<ValidatorIndex>): (r: Gwei)
    requires forall i :: i in indices ==> i < |s.validators|
    ensures r >= EFFECTIVE_BALANCE_INCREMENT
    ensures r >= SumOfEffectiveBalances(s.validators, indices, |s.validators|)
    ensures SumOfEffectiveBalances(s.validators, indices, |s.validators|) >= EFFECTIVE_BALANCE_INCREMENT ==>
              r == SumOfEffectiveBalances(s.validators, indices, |s.validators|)
  {
    Max(EFFECTIVE_BALANCE_INCREMENT, SumOfEffectiveBalances(s.validators, indices, |s.validators|))
  }

  /** A subset never has a larger total balance. */
  lemma TotalBalanceMonotone(s: State, a: set<ValidatorIndex>, b: set<ValidatorIndex>)
    requires a <= b && forall i :: i in b ==> i < |s.validators|
    ensures TotalBalance(s, a) <= TotalBalance(s, b)
  {
    SumOfEffectiveBalancesMonotone(s.validators, a, b, |s.validators|);
  }

  /** The indices of the validators active at `epoch`, as a set. */
  function ActiveIndexSet(validators: seq<Validator>, epoch: Epoch): (r: set<ValidatorIndex>)
    ensures forall i: nat :: i in r <==> i < |validators| && IsActiveValidator(validators[i], epoch)
  {
    var indices := ActiveValidatorIndices(validators, epoch);
    set k | 0 <= k < |indices| :: indices[k]
  }

  /** `get_total_active_balance`: the total balance of the validators active in the current epoch. */
  function TotalActiveBalance(s: State): (r: Gwei)
    ensures r >= EFFECTIVE_BALANCE_INCREMENT
  {
    TotalBalance(s, ActiveIndexSet(s.validators, CurrentEpoch(s)))
  }

  // ---------------------------------------------------------------------------
  // Domains and attestations

  /**
   * `compute_domain`: the domain type followed by the first 28 bytes of the fork
   * data root; the fork version defaults to the genesis version and the genesis
   * validators root to zero.
   */
  function ComputeDomain(env: Env, domainType: DomainType, forkVersion: Option<Version>, genesisValidatorsRoot: Option<Root>)
    : (d: Domain)
    ensures d[..4] == domainType
  {
    var version := if forkVersion.Some? then forkVersion.value else GENESIS_FORK_VERSION;
    var root := if genesisValidatorsRoot.Some? then genesisValidatorsRoot.value else ZERO_BYTES32;
    domainType + env.forkDataRoot(version, root)[..28]
  }

  /** Domains of different types never coincide, whatever the forks and roots. */
  lemma DomainSeparation(env: Env, type1: DomainType, type2: DomainType,
                         version1: Option<Version>, version2: Option<Version>, root1: Option<Root>, root2: Option<Root>)
    requires type1 != type2
    ensures ComputeDomain(env, type1, version1, root1) != ComputeDomain(env, type2, version2, root2)
  {
    var d1 := ComputeDomain(env, type1, version1, root1);
    var d2 := ComputeDomain(env, type2, version2, root2);
    assert d1[..4] != d2[..4];
  }

  /**
   * `get_domain`: the domain of a message of `epoch` (the current epoch when
   * none is given) under the fork version in force at that epoch.
   */
  function GetDomain(env: Env, s: State, domainType: DomainType, epoch: Option<Epoch>): Domain {
    var e := if epoch.Some? then epoch.value else CurrentEpoch(s);
    var version := if e < s.fork.epoch then s.fork.previousVersion else s.fork.currentVersion;
    ComputeDomain(env, domainType, Some(version), Some(s.genesisValidatorsRoot))
  }

  /**
   * `get_attesting_indices`: the committee members whose aggregation bit is set.
   * Where the source fails (an unknown committee, or fewer bits than members) no
   * member is counted; `process_attestation` checks both before it records an attestation.
   */
  function AttestingIndices(env: Env, s: State, data: AttestationData, bits: seq<bool>): (r: set<ValidatorIndex>)
    requires WellFormed(s)
    ensures forall i :: i in r ==> i < |s.validators|
  {
    match BeaconCommittee(env, s, data.slot, data.index)
    case None => {}
    case Some(committee) => set k | 0 <= k < |committee| && k < |bits| && bits[k] :: committee[k]
  }

  /** A committee member is attesting exactly when one of its positions has its bit set. */
  lemma AttestingIndicesMembers(env: Env, s: State, data: AttestationData, bits: seq<bool>, committee: seq<ValidatorIndex>, i: ValidatorIndex)
    requires WellFormed(s) && BeaconCommittee(env, s, data.slot, data.index) == Some(committee)
    ensures i in AttestingIndices(env, s, data, bits) <==> exists k :: 0 <= k < |committee| && k < |bits| && bits[k] && committee[k] == i
  {
  }

  /** The indices of a set below n, in increasing order. */
  function SortedIndices(indices: set<ValidatorIndex>, n: nat): (r: seq<ValidatorIndex>)
    requires forall i :: i in indices ==> i < n
    ensures StrictlyIncreasing(r)
    ensures forall i :: i in indices <==> i in r
  {
    IndicesWhere(n, (i: nat) => i in indices)
  }

  /** `get_indexed_attestation`: the attestation with its attesting indices sorted. */
  function GetIndexedAttestation(env: Env, s: State, attestation: Attestation): (r: IndexedAttestation)
    requires WellFormed(s)
    ensures StrictlyIncreasing(r.attestingIndices)
    ensures forall i :: i in r.attestingIndices <==> i in AttestingIndices(env, s, attestation.data, attestation.aggregationBits)
    ensures r.data == attestation.data && r.signature == attestation.signature
  {
    var attesting := AttestingIndices(env, s, attestation.data, attestation.aggregationBits);
    IndexedAttestation(SortedIndices(attesting, |s.validators|), attestation.data, attestation.signature)
  }

  /**
   * `is_valid_indexed_attestation`: the indices are non-empty, sorted and unique,
   * and the aggregate signature of their keys verifies. An index past the registry
   * makes the source fail; it counts as invalid here.
   */
  predicate IsValidIndexedAttestation(env: Env, s: State, attestation: IndexedAttestation) {
    var indices := attestation.attestingIndices;
    |indices| > 0 && StrictlyIncreasing(indices) && (forall k :: 0 <= k < |indices| ==> indices[k] < |s.validators|) &&
    var pubkeys := seq(|indices|, k requires 0 <= k < |indices| => s.validators[indices[k]].pubkey);
    var domain := GetDomain(env, s, DOMAIN_BEACON_ATTESTER, Some(attestation.data.target.epoch));
    env.fastAggregateVerify(pubkeys, env.signingRoot(AttestationDataObject(attestation.data), domain), attestation.signature)
  }

  /** A valid indexed attestation names no validator twice. */
  lemma ValidIndexedAttestationDistinct(env: Env, s: State, attestation: IndexedAttestation)
    requires IsValidIndexedAttestation(env, s, attestation)
    ensures Distinct(attestation.attestingIndices)
  {
    StrictlyIncreasingIsDistinct(attestation.attestingIndices);
  }
}
