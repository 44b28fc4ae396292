/** The SSZ containers of phase 0, as Dafny values. */
module Types {
  newtype byte = b: int | 0 <= b < 256

  const ZERO_BYTES32: seq<byte> := seq(32, _ => 0 as byte)

  /** A 32-byte string; hashes and roots have this type. */
  type Bytes32 = s: seq<byte> | |s| == 32 witness ZERO_BYTES32
  type Root = Bytes32

  /** Four-byte version and domain-type tags. */
  type Bytes4 = s: seq<byte> | |s| == 4 witness [0, 0, 0, 0]
  type Version = Bytes4
  type DomainType = Bytes4

  /** Public keys and signatures are opaque byte strings to this model. */
  type BLSPubkey = seq<byte>
  type BLSSignature = seq<byte>

  type Slot = nat
  type Epoch = nat
  type CommitteeIndex = nat
  type ValidatorIndex = nat
  type Gwei = nat

  const DOMAIN_BEACON_PROPOSER: DomainType := [0, 0, 0, 0]
  const DOMAIN_BEACON_ATTESTER: DomainType := [1, 0, 0, 0]
  const DOMAIN_RANDAO: DomainType := [2, 0, 0, 0]
  const DOMAIN_DEPOSIT: DomainType := [3, 0, 0, 0]
  const DOMAIN_VOLUNTARY_EXIT: DomainType := [4, 0, 0, 0]
  const GENESIS_FORK_VERSION: Version := [0, 0, 0, 0]

  datatype Fork = Fork(previousVersion: Version, currentVersion: Version, epoch: Epoch)

  datatype Checkpoint = Checkpoint(epoch: Epoch, root: Root)

  datatype Validator = Validator(
    pubkey: BLSPubkey,
    withdrawalCredentials: Bytes32,
    effectiveBalance: Gwei,
    slashed: bool,
    activationEligibilityEpoch: Epoch,
    activationEpoch: Epoch,
    exitEpoch: Epoch,
    withdrawableEpoch: Epoch)

  datatype AttestationData = AttestationData(
    slot: Slot,
    index: CommitteeIndex,
    beaconBlockRoot: Root,
    source: Checkpoint,
    target: Checkpoint)

  datatype IndexedAttestation = IndexedAttestation(
    attestingIndices: seq<ValidatorIndex>,
    data: AttestationData,
    signature: BLSSignature)

  datatype PendingAttestation = PendingAttestation(
    aggregationBits: seq<bool>,
    data: AttestationData,
    inclusionDelay: Slot,
    proposerIndex: ValidatorIndex)

  datatype Eth1Data = Eth1Data(depositRoot: Root, depositCount: nat, blockHash: Bytes32)

  datatype DepositData = DepositData(
    pubkey: BLSPubkey,
    withdrawalCredentials: Bytes32,
    amount: Gwei,
    signature: BLSSignature)

  /** The Merkle proof is carried but never checked: the source has that check commented out. */
  datatype Deposit = Deposit(proof: seq<Bytes32>, data: DepositData)

  datatype BeaconBlockHeader = BeaconBlockHeader(
    slot: Slot,
    proposerIndex: ValidatorIndex,
    parentRoot: Root,
    stateRoot: Root,
    bodyRoot: Root)

  datatype SignedBeaconBlockHeader = SignedBeaconBlockHeader(message: BeaconBlockHeader, signature: BLSSignature)

  datatype ProposerSlashing = ProposerSlashing(signedHeader1: SignedBeaconBlockHeader, signedHeader2: SignedBeaconBlockHeader)

  datatype AttesterSlashing = AttesterSlashing(attestation1: IndexedAttestation, attestation2: IndexedAttestation)

  datatype Attestation = Attestation(aggregationBits: seq<bool>, data: AttestationData, signature: BLSSignature)

  datatype VoluntaryExit = VoluntaryExit(epoch: Epoch, validatorIndex: ValidatorIndex)

  datatype SignedVoluntaryExit = SignedVoluntaryExit(message: VoluntaryExit, signature: BLSSignature)

  datatype BeaconBlockBody = BeaconBlockBody(
    randaoReveal: BLSSignature,
    eth1Data: Eth1Data,
    graffiti: Bytes32,
    proposerSlashings: seq<ProposerSlashing>,
    attesterSlashings: seq<AttesterSlashing>,
    attestations: seq<Attestation>,
    deposits: seq<Deposit>,
    voluntaryExits: seq<SignedVoluntaryExit>)

  datatype BeaconBlock = BeaconBlock(
    slot: Slot,
    proposerIndex: ValidatorIndex,
    parentRoot: Root,
    stateRoot: Root,
    body: BeaconBlockBody)

  datatype SignedBeaconBlock = SignedBeaconBlock(message: BeaconBlock, signature: BLSSignature)

  /** A signature domain: the domain type followed by 28 bytes of the fork data root. */
  type Domain = Bytes32

  /** The objects the protocol signs; the signing root over one of them and a domain is opaque. */
  datatype SigningObject =
    | BlockObject(block: BeaconBlock)
    | EpochObject(epoch: Epoch)
    | HeaderObject(header: BeaconBlockHeader)
    | AttestationDataObject(data: AttestationData)
    | DepositMessageObject(pubkey: BLSPubkey, withdrawalCredentials: Bytes32, amount: Gwei)
    | VoluntaryExitObject(exit: VoluntaryExit)
}
