/**
 * Block processing and the state transition: the block header, the RANDAO
 * reveal, the eth1 vote, the five kinds of operations, and the genesis state.
 * An assertion of the source that fails, or an exception it raises, rejects the
 * block; here that is `None`.
 */
module BlockProcessing {
  import opened Wrappers
  import opened Constants
  import opened Types
  import opened IntegerMath
  import opened ByteCodec
  import opened Eth2Arith
  import opened Helpers
  import opened Mutators
  import opened EpochProcessing
  import opened SlotProcessing

  // ---------------------------------------------------------------------------
  // Header, RANDAO and eth1 data

  /** The header a block leaves as the latest one: its state root stays zero until the next slot. */
  function HeaderOf(env: Env, block: BeaconBlock): BeaconBlockHeader {
    BeaconBlockHeader(block.slot, block.proposerIndex, block.parentRoot, ZERO_BYTES32, env.bodyRoot(block.body))
  }

  /**
   * `process_block_header`: the block is for the state's slot, newer than the
   * latest header, proposed by the expected proposer, built on the latest header,
   * and its proposer is not slashed; it then becomes the latest header.
   */
  function ProcessBlockHeader(env: Env, s: State, block: BeaconBlock): (r: Option<State>)
    requires WellFormed(s)
    ensures r.Some? <==> block.slot == s.slot && block.slot > s.latestBlockHeader.slot &&
                         BeaconProposerIndex(env, s) == Some(block.proposerIndex) &&
                         block.parentRoot == env.headerRoot(s.latestBlockHeader) &&
                         !s.validators[block.proposerIndex].slashed
    ensures r.Some? ==> r.value == s.(latestBlockHeader := HeaderOf(env, block)) && WellFormed(r.value)
  {
    if block.slot != s.slot || block.slot <= s.latestBlockHeader.slot then None
    else match BeaconProposerIndex(env, s)
      case None => None
      case Some(proposer) =>
        if block.proposerIndex != proposer || block.parentRoot != env.headerRoot(s.latestBlockHeader) then None
        else if s.validators[block.proposerIndex].slashed then None
        else
          var r := s.(latestBlockHeader := HeaderOf(env, block));
          WellFormedSameShape(s, r);
          Some(r)
  }

  /**
   * `process_randao`: the reveal must be the proposer's signature of the current
   * epoch; its hash is mixed into the epoch's RANDAO mix.
   */
  function ProcessRandao(env: Env, s: State, body: BeaconBlockBody): (r: Option<State>)
    requires WellFormed(s)
    ensures r.Some? ==> (WellFormed(r.value) &&
              var index := CurrentEpoch(s) % EPOCHS_PER_HISTORICAL_VECTOR;
              r.value == s.(randaoMixes := s.randaoMixes[index := r.value.randaoMixes[index]]) &&
              Xor(r.value.randaoMixes[index], env.hash(body.randaoReveal)) == RandaoMix(s, CurrentEpoch(s)))
    ensures r.Some? <==> (BeaconProposerIndex(env, s).Some? &&
              env.blsVerify(s.validators[BeaconProposerIndex(env, s).value].pubkey,
                            env.signingRoot(EpochObject(CurrentEpoch(s)), GetDomain(env, s, DOMAIN_RANDAO, None)),
                            body.randaoReveal))
  {
    var epoch := CurrentEpoch(s);
    match BeaconProposerIndex(env, s)
    case None => None
    case Some(proposer) =>
      var signingRoot := env.signingRoot(EpochObject(epoch), GetDomain(env, s, DOMAIN_RANDAO, None));
      if !env.blsVerify(s.validators[proposer].pubkey, signingRoot, body.randaoReveal) then None
      else
        var mix := Xor(RandaoMix(s, epoch), env.hash(body.randaoReveal));
        XorInvolution(RandaoMix(s, epoch), env.hash(body.randaoReveal));
        var r := s.(randaoMixes := s.randaoMixes[epoch % EPOCHS_PER_HISTORICAL_VECTOR := mix]);
        WellFormedSameShape(s, r);
        Some(r)
  }

  /** How many of the votes are for `data`. */
  function VotesFor(votes: seq<Eth1Data>, data: Eth1Data): nat {
    multiset(votes)[data]
  }

  /**
   * `process_eth1_data`: record the block's vote, and adopt the voted eth1 data
   * once more than half of a voting period's slots have voted for it.
   */
  function ProcessEth1Data(s: State, body: BeaconBlockBody): (r: State)
    requires WellFormed(s)
    ensures WellFormed(r) && r.eth1DataVotes == s.eth1DataVotes + [body.eth1Data]
    ensures r == s.(eth1DataVotes := r.eth1DataVotes, eth1Data := r.eth1Data)
    ensures r.eth1Data == (if VotesFor(r.eth1DataVotes, body.eth1Data) * 2 > EPOCHS_PER_ETH1_VOTING_PERIOD * SLOTS_PER_EPOCH
                           then body.eth1Data else s.eth1Data)
  {
    var votes := s.eth1DataVotes + [body.eth1Data];
    var adopted := if VotesFor(votes, body.eth1Data) * 2 > EPOCHS_PER_ETH1_VOTING_PERIOD * SLOTS_PER_EPOCH
                   then body.eth1Data else s.eth1Data;
    var r := s.(eth1DataVotes := votes, eth1Data := adopted);
    WellFormedSameShape(s, r);
    r
  }

  /**
   * Only a strict majority of a voting period can change the eth1 data: two
   * different values can never both hold such a majority of the same votes.
   */
  lemma Eth1MajorityUnique(votes: seq<Eth1Data>, a: Eth1Data, b: Eth1Data)
    requires |votes| <= EPOCHS_PER_ETH1_VOTING_PERIOD * SLOTS_PER_EPOCH
    requires VotesFor(votes, a) * 2 > EPOCHS_PER_ETH1_VOTING_PERIOD * SLOTS_PER_EPOCH
    requires VotesFor(votes, b) * 2 > EPOCHS_PER_ETH1_VOTING_PERIOD * SLOTS_PER_EPOCH
    ensures a == b
  {
    if a != b {
      TwoCountsBounded(votes, a, b);
    }
  }

  /** Two different values occur together at most as often as there are votes. */
  lemma {:induction false} TwoCountsBounded(votes: seq<Eth1Data>, a: Eth1Data, b: Eth1Data)
    requires a != b
    ensures VotesFor(votes, a) + VotesFor(votes, b) <= |votes|
  {
    if |votes| > 0 {
      var front := votes[..|votes| - 1];
      assert votes == front + [votes[|votes| - 1]];
      TwoCountsBounded(front, a, b);
    }
  }

  // ---------------------------------------------------------------------------
  // Operations

  /**
   * What no operation changes: the slot, the latest header, the checkpoints and
   * the eth1 data.
   */
  predicate KeepsChainPosition(s: State, r: State) {
    r.slot == s.slot && r.latestBlockHeader == s.latestBlockHeader && r.eth1Data == s.eth1Data &&
    r.finalizedCheckpoint == s.finalizedCheckpoint && r.currentJustifiedCheckpoint == s.currentJustifiedCheckpoint &&
    r.previousJustifiedCheckpoint == s.previousJustifiedCheckpoint
  }

  /** `process_proposer_slashing`: two different signed headers for one slot by one proposer. */
  function ProcessProposerSlashing(env: Env, s: State, slashing: ProposerSlashing): (r: Option<State>)
    requires WellFormed(s)
    ensures var header1 := slashing.signedHeader1.message;
            var header2 := slashing.signedHeader2.message;
            r.Some? <==>
              header1.slot == header2.slot && header1.proposerIndex == header2.proposerIndex && header1 != header2 &&
              header1.proposerIndex < |s.validators| &&
              IsSlashableValidator(s.validators[header1.proposerIndex], CurrentEpoch(s)) &&
              HeaderSignatureValid(env, s, s.validators[header1.proposerIndex], slashing.signedHeader1) &&
              HeaderSignatureValid(env, s, s.validators[header1.proposerIndex], slashing.signedHeader2) &&
              SlashValidator(env, s, header1.proposerIndex, None).Some?
    ensures r.Some? ==> r == SlashValidator(env, s, slashing.signedHeader1.message.proposerIndex, None)
    ensures r.Some? ==> WellFormed(r.value) && |r.value.validators| == |s.validators| && r.value.validators[slashing.signedHeader1.message.proposerIndex].slashed &&
                        r.value == s.(validators := r.value.validators, balances := r.value.balances, slashings := r.value.slashings)
  {
    var header1 := slashing.signedHeader1.message;
    var header2 := slashing.signedHeader2.message;
    if header1.slot != header2.slot || header1.proposerIndex != header2.proposerIndex || header1 == header2 then None
    else if header1.proposerIndex >= |s.validators| then None
    else
      var proposer := s.validators[header1.proposerIndex];
      if !IsSlashableValidator(proposer, CurrentEpoch(s)) then None
      else if !HeaderSignatureValid(env, s, proposer, slashing.signedHeader1) then None
      else if !HeaderSignatureValid(env, s, proposer, slashing.signedHeader2) then None
      else
        SlashValidatorMarksSlashed(env, s, header1.proposerIndex, None);
        SlashValidator(env, s, header1.proposerIndex, None)
  }

  /** A header signed by `proposer` under the proposer domain of the header's epoch. */
  predicate HeaderSignatureValid(env: Env, s: State, proposer: Validator, signed: SignedBeaconBlockHeader) {
    var domain := GetDomain(env, s, DOMAIN_BEACON_PROPOSER, Some(ComputeEpochAtSlot(signed.message.slot)));
    env.blsVerify(proposer.pubkey, env.signingRoot(HeaderObject(signed.message), domain), signed.signature)
  }

  /**
   * One turn of the slashing loop of `process_attester_slashing`: validator
   * `index` is slashed if it is slashable, and the flag then records that one
   * was. None if the slashing fails.
   */
  function SlashIfSlashable(env: Env, s: State, index: ValidatorIndex, slashedAny: bool): (r: Option<(State, bool)>)
    requires WellFormed(s) && index < |s.validators|
    ensures r.None? ==> IsSlashableValidator(s.validators[index], CurrentEpoch(s))
    ensures r.Some? ==> WellFormed(r.value.0) && |r.value.0.validators| == |s.validators|
    ensures r.Some? ==> r.value.0 == s.(validators := r.value.0.validators, balances := r.value.0.balances,
                                        slashings := r.value.0.slashings)
    ensures r.Some? ==> forall i :: 0 <= i < |s.validators| && s.validators[i].slashed ==> r.value.0.validators[i].slashed
    ensures r.Some? ==> forall i :: 0 <= i < |s.validators| && i != index ==> r.value.0.validators[i] == s.validators[i]
    ensures r.Some? ==> (r.value.1 <==> slashedAny || IsSlashableValidator(s.validators[index], CurrentEpoch(s)))
    ensures r.Some? && IsSlashableValidator(s.validators[index], CurrentEpoch(s)) ==> r.value.0.validators[index].slashed
    ensures r.Some? && !IsSlashableValidator(s.validators[index], CurrentEpoch(s)) ==> r.value.0 == s
  {
    if IsSlashableValidator(s.validators[index], CurrentEpoch(s)) then
      SlashValidatorMarksSlashed(env, s, index, None);
      match SlashValidator(env, s, index, None)
      case None => None
      case Some(t) => Some((t, true))
    else Some((s, slashedAny))
  }

  /**
   * What the slashing loop does to the validator list `vs`, leaving `us`: the
   * slashed stay slashed, unlisted validators are untouched, every listed
   * validator slashable at `epoch` ends slashed, and the flag ends set exactly
   * when it was already set or some listed validator was slashable.
   */
  predicate SlashedEach(vs: seq<Validator>, us: seq<Validator>, indices: seq<ValidatorIndex>, epoch: Epoch,
                        slashedAny: bool, flag: bool)
  {
    |us| == |vs| &&
    (forall i :: 0 <= i < |vs| && vs[i].slashed ==> us[i].slashed) &&
    (forall i :: 0 <= i < |vs| && i !in indices ==> us[i] == vs[i]) &&
    (forall k :: 0 <= k < |indices| && indices[k] < |vs| && IsSlashableValidator(vs[indices[k]], epoch) ==>
                   us[indices[k]].slashed) &&
    (flag <==> slashedAny || exists k :: 0 <= k < |indices| && indices[k] < |vs| && IsSlashableValidator(vs[indices[k]], epoch))
  }

  /**
   * Slashes, in order, every listed validator that is slashable when its turn
   * comes; the flag says whether any was. Slashing one validator leaves the
   * others' records (and the epoch) alone, so "slashable when its turn comes"
   * is "slashable at the start, unless listed earlier". None if a slashing
   * fails.
   */
  function SlashEach(env: Env, s: State, indices: seq<ValidatorIndex>, slashedAny: bool): (r: Option<(State, bool)>)
    requires WellFormed(s) && forall k :: 0 <= k < |indices| ==> indices[k] < |s.validators|
    ensures r.Some? ==> WellFormed(r.value.0) && |r.value.0.validators| == |s.validators|
    ensures r.Some? ==> r.value.0 == s.(validators := r.value.0.validators, balances := r.value.0.balances,
                                        slashings := r.value.0.slashings)
    ensures r.Some? ==> SlashedEach(s.validators, r.value.0.validators, indices, CurrentEpoch(s), slashedAny, r.value.1)
    decreases |indices|
  {
    if |indices| == 0 then Some((s, slashedAny))
    else
      match SlashIfSlashable(env, s, indices[0], slashedAny)
      case None => None
      case Some((t, flag)) =>
        var rest := SlashEach(env, t, indices[1..], flag);
        if rest.None? then None
        else
          assert CurrentEpoch(t) == CurrentEpoch(s);
          SlashEachStep(s.validators, t.validators, rest.value.0.validators, CurrentEpoch(s),
                        indices, slashedAny, flag, rest.value.1);
          rest
  }

  /** SlashEach one step at a time: the first turn, then the rest. */
  lemma SlashEachFirst(env: Env, s: State, indices: seq<ValidatorIndex>, slashedAny: bool)
    requires WellFormed(s) && 0 < |indices| && forall k :: 0 <= k < |indices| ==> indices[k] < |s.validators|
    ensures SlashIfSlashable(env, s, indices[0], slashedAny).None? ==> SlashEach(env, s, indices, slashedAny).None?
    ensures SlashIfSlashable(env, s, indices[0], slashedAny).Some? ==>
              var (t, flag) := SlashIfSlashable(env, s, indices[0], slashedAny).value;
              SlashEach(env, s, indices, slashedAny) == SlashEach(env, t, indices[1..], flag)
  {
  }

  /**
   * The inductive step of SlashEach's contract, on validator lists alone: `vs`
   * before the first turn, `ts` after it, `us` after the rest.
   */
  lemma SlashEachStep(vs: seq<Validator>, ts: seq<Validator>, us: seq<Validator>, epoch: Epoch,
                      indices: seq<ValidatorIndex>, slashedAny: bool, flag: bool, finalFlag: bool)
    requires 0 < |indices| && forall k :: 0 <= k < |indices| ==> indices[k] < |vs|
    requires |ts| == |vs|
    requires forall i :: 0 <= i < |vs| && vs[i].slashed ==> ts[i].slashed
    requires forall i :: 0 <= i < |vs| && i != indices[0] ==> ts[i] == vs[i]
    requires flag <==> slashedAny || IsSlashableValidator(vs[indices[0]], epoch)
    requires IsSlashableValidator(vs[indices[0]], epoch) ==> ts[indices[0]].slashed
    requires !IsSlashableValidator(vs[indices[0]], epoch) ==> ts == vs
    requires SlashedEach(ts, us, indices[1..], epoch, flag, finalFlag)
    ensures SlashedEach(vs, us, indices, epoch, slashedAny, finalFlag)
  {
    var first := indices[0];
    forall i | 0 <= i < |vs| && i !in indices
      ensures us[i] == vs[i]
    {
      assert i !in indices[1..];
    }
    forall k | 0 <= k < |indices| && IsSlashableValidator(vs[indices[k]], epoch)
      ensures us[indices[k]].slashed
    {
      if indices[k] != first {
        assert indices[1..][k - 1] == indices[k];
      }
    }
    if !IsSlashableValidator(vs[first], epoch) {
      var before := exists k :: 0 <= k < |indices| && IsSlashableValidator(vs[indices[k]], epoch);
      var after := exists k :: 0 <= k < |indices[1..]| && indices[1..][k] < |vs| && IsSlashableValidator(vs[indices[1..][k]], epoch);
      assert before ==> after by {
        if before {
          var k :| 0 <= k < |indices| && IsSlashableValidator(vs[indices[k]], epoch);
          assert indices[1..][k - 1] == indices[k];
        }
      }
      assert after ==> before by {
        if after {
          var k :| 0 <= k < |indices[1..]| && indices[1..][k] < |vs| && IsSlashableValidator(vs[indices[1..][k]], epoch);
          assert indices[k + 1] == indices[1..][k];
        }
      }
    }
  }

  /**
   * The outcome of an accepted attester slashing on the validator list `vs`,
   * leaving `us`: one validator named by both lists `a` and `b` was unslashed
   * and is now slashed, every one of them that was slashable is slashed, and no
   * other validator changed.
   */
  predicate SlashedInBoth(vs: seq<Validator>, us: seq<Validator>, a: seq<ValidatorIndex>, b: seq<ValidatorIndex>, epoch: Epoch)
    requires |us| == |vs|
  {
    (exists i :: i in a && i in b && i < |vs| && !vs[i].slashed && us[i].slashed) &&
    (forall i :: i in a && i in b && i < |vs| && IsSlashableValidator(vs[i], epoch) ==> us[i].slashed) &&
    (forall i :: 0 <= i < |vs| && !(i in a && i in b) ==> us[i] == vs[i])
  }

  /**
   * The slashing loop run over the validators in both index lists `a` and `b`
   * (listed as `sorted`) and ending with the flag set: one of them was
   * unslashed and is now slashed, every one that was slashable is slashed, and
   * no other validator changed.
   */
  lemma SlashedBoth(vs: seq<Validator>, us: seq<Validator>, a: seq<ValidatorIndex>, b: seq<ValidatorIndex>,
                    sorted: seq<ValidatorIndex>, epoch: Epoch)
    requires forall i :: i in sorted <==> i in a && i in b
    requires forall k :: 0 <= k < |sorted| ==> sorted[k] < |vs|
    requires SlashedEach(vs, us, sorted, epoch, false, true)
    ensures SlashedInBoth(vs, us, a, b, epoch)
  {
    var k :| 0 <= k < |sorted| && sorted[k] < |vs| && IsSlashableValidator(vs[sorted[k]], epoch);
    assert sorted[k] in a && sorted[k] in b;
    forall i | i in a && i in b && i < |vs| && IsSlashableValidator(vs[i], epoch)
      ensures us[i].slashed
    {
      var j :| 0 <= j < |sorted| && sorted[j] == i;
    }
  }

  /**
   * `process_attester_slashing`: two valid indexed attestations with slashable
   * data; every validator in both that is still slashable is slashed, and at
   * least one must be.
   */
  function ProcessAttesterSlashing(env: Env, s: State, slashing: AttesterSlashing): (r: Option<State>)
    requires WellFormed(s)
    ensures r.Some? ==> WellFormed(r.value) && |r.value.validators| == |s.validators| &&
                        r.value == s.(validators := r.value.validators, balances := r.value.balances, slashings := r.value.slashings)
    ensures var a := slashing.attestation1;
            var b := slashing.attestation2;
            r.Some? <==>
              IsSlashableAttestationData(a.data, b.data) && IsValidIndexedAttestation(env, s, a) &&
              IsValidIndexedAttestation(env, s, b) &&
              SlashEach(env, s, SortedIndices(CommonIndices(a.attestingIndices, b.attestingIndices), |s.validators|), false).Some? &&
              exists i :: i in a.attestingIndices && i in b.attestingIndices && i < |s.validators| &&
                          IsSlashableValidator(s.validators[i], CurrentEpoch(s))
    ensures r.Some? ==> SlashedInBoth(s.validators, r.value.validators, slashing.attestation1.attestingIndices,
                                      slashing.attestation2.attestingIndices, CurrentEpoch(s))
  {
    var attestation1 := slashing.attestation1;
    var attestation2 := slashing.attestation2;
    if !IsSlashableAttestationData(attestation1.data, attestation2.data) then None
    else if !IsValidIndexedAttestation(env, s, attestation1) || !IsValidIndexedAttestation(env, s, attestation2) then None
    else
      var common := CommonIndices(attestation1.attestingIndices, attestation2.attestingIndices);
      var sorted := SortedIndices(common, |s.validators|);
      match SlashEach(env, s, sorted, false)
      case None => None
      case Some((t, slashedAny)) =>
        SlashableListed(s.validators, attestation1.attestingIndices, attestation2.attestingIndices, sorted, CurrentEpoch(s));
        if !slashedAny then None
        else
          SlashedBoth(s.validators, t.validators, attestation1.attestingIndices, attestation2.attestingIndices,
                      sorted, CurrentEpoch(s));
          Some(t)
  }

  /** The validators named by both index lists. */
  function CommonIndices(a: seq<ValidatorIndex>, b: seq<ValidatorIndex>): (r: set<ValidatorIndex>)
    ensures forall i :: i in r <==> i in a && i in b
  {
    set i | i in a && i in b
  }

  /**
   * Some validator named by both lists `a` and `b` is slashable exactly when
   * some entry of `sorted`, which lists the validators in both, is.
   */
  lemma SlashableListed(vs: seq<Validator>, a: seq<ValidatorIndex>, b: seq<ValidatorIndex>,
                        sorted: seq<ValidatorIndex>, epoch: Epoch)
    requires forall i :: i in sorted <==> i in a && i in b
    ensures (exists k :: 0 <= k < |sorted| && sorted[k] < |vs| && IsSlashableValidator(vs[sorted[k]], epoch)) <==>
            (exists i :: i in a && i in b && i < |vs| && IsSlashableValidator(vs[i], epoch))
  {
    if exists i :: i in a && i in b && i < |vs| && IsSlashableValidator(vs[i], epoch) {
      var i :| i in a && i in b && i < |vs| && IsSlashableValidator(vs[i], epoch);
      var k :| 0 <= k < |sorted| && sorted[k] == i;
    }
  }

  /**
   * `process_attestation`: an attestation for a committee of a recent slot, voting
   * for the previous or current epoch, with one bit per committee member, is
   * recorded (by RecordAttestation) with the current proposer.
   */
  function ProcessAttestation(env: Env, s: State, attestation: Attestation): (r: Option<State>)
    requires WellFormed(s)
    ensures var data := attestation.data;
            r.Some? <==>
              data.index < CommitteeCountAtSlot(s, data.slot) &&
              (data.target.epoch == PreviousEpoch(s) || data.target.epoch == CurrentEpoch(s)) &&
              data.target.epoch == ComputeEpochAtSlot(data.slot) &&
              data.slot + MIN_ATTESTATION_INCLUSION_DELAY <= s.slot <= data.slot + SLOTS_PER_EPOCH &&
              BeaconCommittee(env, s, data.slot, data.index).Some? &&
              |attestation.aggregationBits| == |BeaconCommittee(env, s, data.slot, data.index).value| &&
              BeaconProposerIndex(env, s).Some? &&
              data.source == (if data.target.epoch == CurrentEpoch(s) then s.currentJustifiedCheckpoint
                              else s.previousJustifiedCheckpoint)
    ensures r.Some? ==> BeaconProposerIndex(env, s).Some? &&
                        r == RecordAttestation(s, attestation, BeaconProposerIndex(env, s).value)
    ensures r.Some? ==> WellFormed(r.value)
  {
    var data := attestation.data;
    if data.index >= CommitteeCountAtSlot(s, data.slot) then None
    else if data.target.epoch != PreviousEpoch(s) && data.target.epoch != CurrentEpoch(s) then None
    else if data.target.epoch != ComputeEpochAtSlot(data.slot) then None
    else if !(data.slot + MIN_ATTESTATION_INCLUSION_DELAY <= s.slot <= data.slot + SLOTS_PER_EPOCH) then None
    else
      var committee := BeaconCommittee(env, s, data.slot, data.index).value;
      if |attestation.aggregationBits| != |committee| then None
      else match BeaconProposerIndex(env, s)
        case None => None
        case Some(proposer) => RecordAttestation(s, attestation, proposer)
  }

  /**
   * The recording half of `process_attestation`: a vote for the current epoch must
   * come from the current justified checkpoint and joins the current epoch's
   * pending attestations; a vote for the previous epoch must come from the
   * previous justified checkpoint and joins the previous epoch's. Exactly one
   * pending attestation is appended, with its inclusion delay and proposer.
   */
  function RecordAttestation(s: State, attestation: Attestation, proposer: ValidatorIndex): (r: Option<State>)
    requires WellFormed(s) && proposer < |s.validators|
    requires attestation.data.target.epoch == PreviousEpoch(s) || attestation.data.target.epoch == CurrentEpoch(s)
    requires attestation.data.target.epoch == ComputeEpochAtSlot(attestation.data.slot)
    requires attestation.data.slot + MIN_ATTESTATION_INCLUSION_DELAY <= s.slot
    ensures var data := attestation.data;
            var toCurrent := data.target.epoch == CurrentEpoch(s);
            r.Some? <==> data.source == (if toCurrent then s.currentJustifiedCheckpoint else s.previousJustifiedCheckpoint)
    ensures r.Some? ==>
              var data := attestation.data;
              var pending := PendingAttestation(attestation.aggregationBits, data, s.slot - data.slot, proposer);
              WellFormed(r.value) && 1 <= pending.inclusionDelay &&
              if data.target.epoch == CurrentEpoch(s)
              then r.value == s.(currentEpochAttestations := s.currentEpochAttestations + [pending])
              else r.value == s.(previousEpochAttestations := s.previousEpochAttestations + [pending])
  {
    var data := attestation.data;
    var pending := PendingAttestation(attestation.aggregationBits, data, s.slot - data.slot, proposer);
    var toCurrent := data.target.epoch == CurrentEpoch(s);
    PendingAttestationInEpoch(s, pending, toCurrent);
    if toCurrent then
      if data.source != s.currentJustifiedCheckpoint then None
      else Some(s.(currentEpochAttestations := s.currentEpochAttestations + [pending]))
    else
      if data.source != s.previousJustifiedCheckpoint then None
      else Some(s.(previousEpochAttestations := s.previousEpochAttestations + [pending]))
  }

  /**
   * Recording a pending attestation made in the epoch of the list it joins,
   * before the state's slot, keeps the state well-formed.
   */
  lemma PendingAttestationInEpoch(s: State, pending: PendingAttestation, toCurrent: bool)
    requires WellFormed(s) && pending.data.slot < s.slot && pending.inclusionDelay >= 1 && pending.proposerIndex < |s.validators|
    requires toCurrent ==> ComputeEpochAtSlot(pending.data.slot) == CurrentEpoch(s)
    requires !toCurrent ==> ComputeEpochAtSlot(pending.data.slot) == PreviousEpoch(s)
    ensures toCurrent ==> WellFormed(s.(currentEpochAttestations := s.currentEpochAttestations + [pending]))
    ensures !toCurrent ==> WellFormed(s.(previousEpochAttestations := s.previousEpochAttestations + [pending]))
  {
    StartSlotInEpoch(ComputeEpochAtSlot(pending.data.slot));
    SlotWithinItsEpoch(pending.data.slot);
  }

  /** `validator_pubkeys.index(pubkey)`: the first validator with the key, if any. */
  function PubkeyIndex(validators: seq<Validator>, pubkey: BLSPubkey): (r: Option<ValidatorIndex>)
    ensures r.None? <==> forall j :: 0 <= j < |validators| ==> validators[j].pubkey != pubkey
    ensures r.Some? ==> r.value < |validators| && validators[r.value].pubkey == pubkey &&
                        forall j :: 0 <= j < r.value ==> validators[j].pubkey != pubkey
  {
    if |validators| == 0 then None
    else if validators[0].pubkey == pubkey then Some(0)
    else match PubkeyIndex(validators[1..], pubkey)
      case None => None
      case Some(k) => Some(k + 1)
  }

  /** The validator record a first deposit creates: not yet eligible, active, exiting or withdrawable. */
  function NewValidator(data: DepositData): Validator {
    Validator(data.pubkey, data.withdrawalCredentials,
              QuantisedUpdate(data.amount, EFFECTIVE_BALANCE_INCREMENT, MAX_EFFECTIVE_BALANCE), false,
              FAR_FUTURE_EPOCH, FAR_FUTURE_EPOCH, FAR_FUTURE_EPOCH, FAR_FUTURE_EPOCH)
  }

  /** The proof of possession a first deposit must carry, under the fork-agnostic deposit domain. */
  predicate DepositSignatureValid(env: Env, data: DepositData) {
    var domain := ComputeDomain(env, DOMAIN_DEPOSIT, None, None);
    var message := DepositMessageObject(data.pubkey, data.withdrawalCredentials, data.amount);
    env.blsVerify(data.pubkey, env.signingRoot(message, domain), data.signature)
  }

  /**
   * `process_deposit`: the deposit index advances; a deposit for a known key
   * tops up the first validator with it; a deposit for a new key with a valid
   * proof of possession adds a validator; any other deposit is dropped. The
   * Merkle proof is not checked, as in the source.
   */
  function ProcessDeposit(env: Env, s: State, deposit: Deposit): (r: State)
    requires WellFormed(s)
    ensures WellFormed(r) && r.eth1DepositIndex == s.eth1DepositIndex + 1 && r.eth1Data == s.eth1Data
    ensures |r.validators| >= |s.validators| && r.validators[..|s.validators|] == s.validators
    ensures var data := deposit.data;
            match PubkeyIndex(s.validators, data.pubkey)
            case Some(index) =>
              r == s.(eth1DepositIndex := s.eth1DepositIndex + 1, balances := r.balances) &&
              r.balances == s.balances[index := s.balances[index] + data.amount]
            case None =>
              if DepositSignatureValid(env, data)
              then r == s.(eth1DepositIndex := s.eth1DepositIndex + 1,
                           validators := s.validators + [NewValidator(data)], balances := s.balances + [data.amount])
              else r == s.(eth1DepositIndex := s.eth1DepositIndex + 1)
  {
    var counted := s.(eth1DepositIndex := s.eth1DepositIndex + 1);
    var data := deposit.data;
    match PubkeyIndex(s.validators, data.pubkey)
    case Some(index) =>
      IncreaseBalance(counted, index, data.amount)
    case None =>
      if !DepositSignatureValid(env, data) then counted
      else
        var r := counted.(validators := s.validators + [NewValidator(data)], balances := s.balances + [data.amount]);
        assert r.validators[..|s.validators|] == s.validators;
        r
  }

  /**
   * A deposit's amount reaches the balances exactly when it is credited: the
   * total balance grows by the amount for a known key or an accepted new key, and
   * is unchanged for a dropped deposit.
   */
  lemma DepositConservesBalance(env: Env, s: State, deposit: Deposit)
    requires WellFormed(s)
    ensures var r := ProcessDeposit(env, s, deposit);
            var credited := PubkeyIndex(s.validators, deposit.data.pubkey).Some? || DepositSignatureValid(env, deposit.data);
            Sum(r.balances) == Sum(s.balances) + (if credited then deposit.data.amount else 0)
  {
    var r := ProcessDeposit(env, s, deposit);
    match PubkeyIndex(s.validators, deposit.data.pubkey)
    case Some(index) =>
      SumUpdate(s.balances, index, s.balances[index] + deposit.data.amount);
    case None =>
      if DepositSignatureValid(env, deposit.data) {
        assert (s.balances + [deposit.data.amount])[..|s.balances|] == s.balances;
      }
  }

  /**
   * `process_voluntary_exit`: an active validator that is not exiting, whose exit
   * epoch has come and that has served SHARD_COMMITTEE_PERIOD epochs, signs its
   * exit; it joins the exit queue.
   */
  function ProcessVoluntaryExit(env: Env, s: State, signed: SignedVoluntaryExit): (r: Option<State>)
    requires WellFormed(s)
    ensures r.Some? <==>
              var exit := signed.message;
              exit.validatorIndex < |s.validators| &&
              var v := s.validators[exit.validatorIndex];
              IsActiveValidator(v, CurrentEpoch(s)) && v.exitEpoch == FAR_FUTURE_EPOCH &&
              CurrentEpoch(s) >= exit.epoch && CurrentEpoch(s) >= v.activationEpoch + SHARD_COMMITTEE_PERIOD &&
              ExitSignatureValid(env, s, v, signed)
    ensures r.Some? ==> r.value == InitiateValidatorExit(s, signed.message.validatorIndex) && WellFormed(r.value) &&
                        r.value.validators[signed.message.validatorIndex].exitEpoch == ExitQueueEpoch(s)
  {
    var exit := signed.message;
    if exit.validatorIndex >= |s.validators| then None
    else
      var v := s.validators[exit.validatorIndex];
      if !IsActiveValidator(v, CurrentEpoch(s)) || v.exitEpoch != FAR_FUTURE_EPOCH then None
      else if CurrentEpoch(s) < exit.epoch || CurrentEpoch(s) < v.activationEpoch + SHARD_COMMITTEE_PERIOD then None
      else if !ExitSignatureValid(env, s, v, signed) then None
      else
        var r := InitiateValidatorExit(s, exit.validatorIndex);
        WellFormedFrame(s, r);
        Some(r)
  }

  predicate ExitSignatureValid(env: Env, s: State, v: Validator, signed: SignedVoluntaryExit) {
    var domain := GetDomain(env, s, DOMAIN_VOLUNTARY_EXIT, Some(signed.message.epoch));
    env.blsVerify(v.pubkey, env.signingRoot(VoluntaryExitObject(signed.message), domain), signed.signature)
  }

  /** One operation of a block body. */
  datatype Operation =
    | ProposerSlashingOp(proposerSlashing: ProposerSlashing)
    | AttesterSlashingOp(attesterSlashing: AttesterSlashing)
    | AttestationOp(attestation: Attestation)
    | DepositOp(deposit: Deposit)
    | VoluntaryExitOp(voluntaryExit: SignedVoluntaryExit)

  /** A body's operations in the order `process_operations` applies them. */
  function Operations(body: BeaconBlockBody): (r: seq<Operation>)
    ensures CountDeposits(r) == |body.deposits|
  {
    var proposerSlashings := seq(|body.proposerSlashings|, k requires 0 <= k < |body.proposerSlashings| => ProposerSlashingOp(body.proposerSlashings[k]));
    var attesterSlashings := seq(|body.attesterSlashings|, k requires 0 <= k < |body.attesterSlashings| => AttesterSlashingOp(body.attesterSlashings[k]));
    var attestations := seq(|body.attestations|, k requires 0 <= k < |body.attestations| => AttestationOp(body.attestations[k]));
    var deposits := seq(|body.deposits|, k requires 0 <= k < |body.deposits| => DepositOp(body.deposits[k]));
    var exits := seq(|body.voluntaryExits|, k requires 0 <= k < |body.voluntaryExits| => VoluntaryExitOp(body.voluntaryExits[k]));
    CountDepositsNone(proposerSlashings);
    CountDepositsNone(attesterSlashings);
    CountDepositsNone(attestations);
    CountDepositsNone(exits);
    CountDepositsAll(deposits);
    CountDepositsOfFive(proposerSlashings, attesterSlashings, attestations, deposits, exits);
    proposerSlashings + attesterSlashings + attestations + deposits + exits
  }

  function CountDeposits(ops: seq<Operation>): nat {
    if |ops| == 0 then 0 else CountDeposits(ops[..|ops| - 1]) + (if ops[|ops| - 1].DepositOp? then 1 else 0)
  }

  lemma {:induction false} CountDepositsAppend(a: seq<Operation>, b: seq<Operation>)
    ensures CountDeposits(a + b) == CountDeposits(a) + CountDeposits(b)
  {
    if |b| > 0 {
      assert (a + b)[..|a + b| - 1] == a + b[..|b| - 1];
      CountDepositsAppend(a, b[..|b| - 1]);
    } else {
      assert a + b == a;
    }
  }

  lemma CountDepositsOfFive(a: seq<Operation>, b: seq<Operation>, c: seq<Operation>, d: seq<Operation>, e: seq<Operation>)
    requires CountDeposits(a) == 0 && CountDeposits(b) == 0 && CountDeposits(c) == 0 && CountDeposits(e) == 0
    ensures CountDeposits(a + b + c + d + e) == CountDeposits(d)
  {
    CountDepositsAppend(a, b);
    CountDepositsAppend(a + b, c);
    CountDepositsAppend(a + b + c, d);
    CountDepositsAppend(a + b + c + d, e);
  }

  lemma {:induction false} CountDepositsNone(ops: seq<Operation>)
    requires forall k :: 0 <= k < |ops| ==> !ops[k].DepositOp?
    ensures CountDeposits(ops) == 0
  {
    if |ops| > 0 {
      CountDepositsNone(ops[..|ops| - 1]);
    }
  }

  lemma {:induction false} CountDepositsAll(ops: seq<Operation>)
    requires forall k :: 0 <= k < |ops| ==> ops[k].DepositOp?
    ensures CountDeposits(ops) == |ops|
  {
    if |ops| > 0 {
      CountDepositsAll(ops[..|ops| - 1]);
    }
  }

  /** One operation, by kind. */
  function ApplyOperation(env: Env, s: State, op: Operation): (r: Option<State>)
    requires WellFormed(s)
    ensures r.Some? ==> WellFormed(r.value) && KeepsChainPosition(s, r.value) &&
                        r.value.eth1DepositIndex == s.eth1DepositIndex + (if op.DepositOp? then 1 else 0)
  {
    match op
    case ProposerSlashingOp(slashing) => ProcessProposerSlashing(env, s, slashing)
    case AttesterSlashingOp(slashing) => ProcessAttesterSlashing(env, s, slashing)
    case AttestationOp(attestation) => ProcessAttestation(env, s, attestation)
    case DepositOp(deposit) => Some(ProcessDeposit(env, s, deposit))
    case VoluntaryExitOp(exit) => ProcessVoluntaryExit(env, s, exit)
  }

  /** The operations in order; the first one rejected rejects them all. */
  function ApplyOperations(env: Env, s: State, ops: seq<Operation>): (r: Option<State>)
    requires WellFormed(s)
    ensures r.Some? ==> WellFormed(r.value) && KeepsChainPosition(s, r.value) &&
                        r.value.eth1DepositIndex == s.eth1DepositIndex + CountDeposits(ops)
    decreases |ops|
  {
    if |ops| == 0 then Some(s)
    else
      assert ops == [ops[0]] + ops[1..];
      CountDepositsAppend([ops[0]], ops[1..]);
      assert [ops[0]][..0] == [];
      match ApplyOperation(env, s, ops[0])
      case None => None
      case Some(t) => ApplyOperations(env, t, ops[1..])
  }

  /** ApplyOperations one step at a time: the first operation, then the rest. */
  lemma ApplyOperationsFirst(env: Env, s: State, ops: seq<Operation>)
    requires WellFormed(s) && |ops| > 0
    ensures ApplyOperation(env, s, ops[0]).None? ==> ApplyOperations(env, s, ops).None?
    ensures ApplyOperation(env, s, ops[0]).Some? ==>
              ApplyOperations(env, s, ops) == ApplyOperations(env, ApplyOperation(env, s, ops[0]).value, ops[1..])
  {
  }

  /**
   * `process_operations`: the block must carry every outstanding deposit, up to
   * MAX_DEPOSITS (the source's unsigned subtraction fails when the deposit index
   * is past the deposit count); then the operations apply in order.
   */
  function ProcessOperations(env: Env, s: State, body: BeaconBlockBody): (r: Option<State>)
    requires WellFormed(s)
    ensures r.Some? ==> s.eth1DepositIndex <= s.eth1Data.depositCount &&
                        |body.deposits| == Min(MAX_DEPOSITS, s.eth1Data.depositCount - s.eth1DepositIndex)
    ensures r.Some? ==> WellFormed(r.value) && KeepsChainPosition(s, r.value) &&
                        r.value.eth1DepositIndex == s.eth1DepositIndex + |body.deposits| &&
                        r.value.eth1DepositIndex <= r.value.eth1Data.depositCount
  {
    if !CarriesOutstandingDeposits(s, body) then None
    else ApplyOperations(env, s, Operations(body))
  }

  /** The block carries every outstanding deposit, up to MAX_DEPOSITS. */
  predicate CarriesOutstandingDeposits(s: State, body: BeaconBlockBody) {
    s.eth1DepositIndex <= s.eth1Data.depositCount &&
    |body.deposits| == Min(MAX_DEPOSITS, s.eth1Data.depositCount - s.eth1DepositIndex)
  }

  // ---------------------------------------------------------------------------
  // Blocks and the state transition

  /** `process_block`: header, RANDAO, eth1 data, operations. */
  function ProcessBlock(env: Env, s: State, block: BeaconBlock): (r: Option<State>)
    requires WellFormed(s)
    ensures r.Some? ==> WellFormed(r.value) && r.value.slot == s.slot && r.value.latestBlockHeader == HeaderOf(env, block)
    ensures r.Some? ==> r.value.finalizedCheckpoint == s.finalizedCheckpoint &&
                        r.value.currentJustifiedCheckpoint == s.currentJustifiedCheckpoint &&
                        r.value.previousJustifiedCheckpoint == s.previousJustifiedCheckpoint
  {
    match ProcessBlockHeader(env, s, block)
    case None => None
    case Some(headed) => ProcessBody(env, headed, block.body)
  }

  /** The body half of `process_block`: RANDAO, eth1 data, operations; the slot, header and checkpoints stay. */
  function ProcessBody(env: Env, s: State, body: BeaconBlockBody): (r: Option<State>)
    requires WellFormed(s)
    ensures r.Some? ==> WellFormed(r.value) && r.value.slot == s.slot && r.value.latestBlockHeader == s.latestBlockHeader
    ensures r.Some? ==> r.value.finalizedCheckpoint == s.finalizedCheckpoint &&
                        r.value.currentJustifiedCheckpoint == s.currentJustifiedCheckpoint &&
                        r.value.previousJustifiedCheckpoint == s.previousJustifiedCheckpoint
  {
    match ProcessRandao(env, s, body)
    case None => None
    case Some(mixed) =>
      var voted := ProcessEth1Data(mixed, body);
      ProcessOperations(env, voted, body)
  }

  /**
   * `verify_block_signature`: the block is signed by the validator it names as
   * proposer. None where the source fails on an index past the registry.
   */
  function VerifyBlockSignature(env: Env, s: State, signed: SignedBeaconBlock): (r: Option<bool>)
    ensures r.Some? <==> signed.message.proposerIndex < |s.validators|
  {
    if signed.message.proposerIndex >= |s.validators| then None
    else
      var proposer := s.validators[signed.message.proposerIndex];
      var signingRoot := env.signingRoot(BlockObject(signed.message), GetDomain(env, s, DOMAIN_BEACON_PROPOSER, None));
      Some(env.blsVerify(proposer.pubkey, signingRoot, signed.signature))
  }

  /**
   * `state_transition`: advance through the empty slots to the block's slot,
   * check the proposer's signature, apply the block, and check the state root
   * the block commits to; the last two checks are skipped when `validateResult`
   * is false.
   */
  function StateTransition(env: Env, s: State, signed: SignedBeaconBlock, validateResult: bool): (r: Option<State>)
    requires WellFormed(s) && CheckpointsOrdered(s)
    ensures r.Some? ==> s.slot < signed.message.slot && r.value.slot == signed.message.slot
    ensures r.Some? ==> WellFormed(r.value) && CheckpointsOrdered(r.value) &&
                        r.value.finalizedCheckpoint.epoch >= s.finalizedCheckpoint.epoch &&
                        r.value.latestBlockHeader == HeaderOf(env, signed.message)
    ensures r.Some? && validateResult ==> signed.message.stateRoot == env.stateRoot(r.value)
  {
    match ProcessSlots(env, s, signed.message.slot)
    case None => None
    case Some(advanced) => ApplySignedBlock(env, advanced, signed, validateResult)
  }

  /**
   * The part of `state_transition` after the empty slots: the proposer's
   * signature, the block, and the state root, the two checks only when
   * `validateResult` is set.
   */
  function ApplySignedBlock(env: Env, s: State, signed: SignedBeaconBlock, validateResult: bool): (r: Option<State>)
    requires WellFormed(s)
    ensures r.Some? ==> ProcessBlock(env, s, signed.message) == r
    ensures r.Some? && validateResult ==> VerifyBlockSignature(env, s, signed) == Some(true) &&
                                          signed.message.stateRoot == env.stateRoot(r.value)
    ensures !validateResult ==> r == ProcessBlock(env, s, signed.message)
  {
    var block := signed.message;
    if validateResult && VerifyBlockSignature(env, s, signed) != Some(true) then None
    else match ProcessBlock(env, s, block)
      case None => None
      case Some(processed) =>
        if validateResult && block.stateRoot != env.stateRoot(processed) then None
        else Some(processed)
  }

  // ---------------------------------------------------------------------------
  // Genesis

  const EMPTY_SIGNATURE: BLSSignature := seq(96, _ => 0 as byte)
  const EMPTY_ETH1_DATA: Eth1Data := Eth1Data(ZERO_BYTES32, 0, ZERO_BYTES32)
  const EMPTY_BODY: BeaconBlockBody := BeaconBlockBody(EMPTY_SIGNATURE, EMPTY_ETH1_DATA, ZERO_BYTES32, [], [], [], [], [])
  const GENESIS_CHECKPOINT: Checkpoint := Checkpoint(GENESIS_EPOCH, ZERO_BYTES32)

  /** The state `initialize_beacon_state_from_eth1` starts from, before any deposit. */
  function GenesisTemplate(env: Env, eth1BlockHash: Bytes32, eth1Timestamp: nat, depositCount: nat): (r: State)
    ensures WellFormed(r) && CheckpointsOrdered(r) && r.slot == GENESIS_SLOT && |r.validators| == 0
  {
    State(
      eth1Timestamp - eth1Timestamp % MIN_GENESIS_DELAY + 2 * MIN_GENESIS_DELAY,
      ZERO_BYTES32,
      GENESIS_SLOT,
      Fork(GENESIS_FORK_VERSION, GENESIS_FORK_VERSION, GENESIS_EPOCH),
      BeaconBlockHeader(0, 0, ZERO_BYTES32, ZERO_BYTES32, env.bodyRoot(EMPTY_BODY)),
      seq(SLOTS_PER_HISTORICAL_ROOT, _ => ZERO_BYTES32),
      seq(SLOTS_PER_HISTORICAL_ROOT, _ => ZERO_BYTES32),
      [],
      Eth1Data(ZERO_BYTES32, depositCount, eth1BlockHash),
      [],
      0,
      [],
      [],
      seq(EPOCHS_PER_HISTORICAL_VECTOR, _ => eth1BlockHash),
      seq(EPOCHS_PER_SLASHINGS_VECTOR, _ => 0),
      [],
      [],
      seq(JUSTIFICATION_BITS_LENGTH, _ => false),
      GENESIS_CHECKPOINT,
      GENESIS_CHECKPOINT,
      GENESIS_CHECKPOINT)
  }

  /**
   * The deposit loop of genesis: before deposit k the deposit root is that of
   * the first k + 1 deposits' data.
   */
  function GenesisDeposits(env: Env, s: State, deposits: seq<Deposit>, n: nat): (r: State)
    requires WellFormed(s) && n <= |deposits|
    ensures WellFormed(r) && r.eth1DepositIndex == s.eth1DepositIndex + n
    ensures r.slot == s.slot && r.genesisTime == s.genesisTime && r.eth1Data.depositCount == s.eth1Data.depositCount
    ensures r.finalizedCheckpoint == s.finalizedCheckpoint && r.previousJustifiedCheckpoint == s.previousJustifiedCheckpoint &&
            r.currentJustifiedCheckpoint == s.currentJustifiedCheckpoint
    ensures |r.validators| <= |s.validators| + n
    ensures (forall i :: 0 <= i < |s.validators| ==> s.validators[i].exitEpoch == FAR_FUTURE_EPOCH &&
                                                     s.validators[i].activationEpoch == FAR_FUTURE_EPOCH) ==>
            forall i :: 0 <= i < |r.validators| ==> r.validators[i].exitEpoch == FAR_FUTURE_EPOCH &&
                                                    r.validators[i].activationEpoch == FAR_FUTURE_EPOCH
    decreases n
  {
    if n == 0 then s
    else
      var before := GenesisDeposits(env, s, deposits, n - 1);
      ProcessDeposit(env, WithDepositRoot(env, before, deposits[..n]), deposits[n - 1])
  }

  /** The state with its eth1 deposit root set to the root of the given deposits' data. */
  function WithDepositRoot(env: Env, s: State, deposits: seq<Deposit>): State
  {
    var leaves := seq(|deposits|, k requires 0 <= k < |deposits| => deposits[k].data);
    s.(eth1Data := s.eth1Data.(depositRoot := env.depositDataListRoot(leaves)))
  }

  /** The activation step of genesis for one validator: full effective balance activates at genesis. */
  function GenesisActivated(v: Validator, balance: Gwei): (w: Validator)
    ensures w.effectiveBalance == QuantisedUpdate(balance, EFFECTIVE_BALANCE_INCREMENT, MAX_EFFECTIVE_BALANCE)
    ensures w.effectiveBalance == MAX_EFFECTIVE_BALANCE ==>
              w == v.(effectiveBalance := w.effectiveBalance, activationEligibilityEpoch := GENESIS_EPOCH, activationEpoch := GENESIS_EPOCH)
    ensures w.effectiveBalance != MAX_EFFECTIVE_BALANCE ==> w == v.(effectiveBalance := w.effectiveBalance)
  {
    var eb := QuantisedUpdate(balance, EFFECTIVE_BALANCE_INCREMENT, MAX_EFFECTIVE_BALANCE);
    if eb == MAX_EFFECTIVE_BALANCE
    then v.(effectiveBalance := eb, activationEligibilityEpoch := GENESIS_EPOCH, activationEpoch := GENESIS_EPOCH)
    else v.(effectiveBalance := eb)
  }

  /** `initialize_beacon_state_from_eth1`. */
  function InitializeBeaconStateFromEth1(env: Env, eth1BlockHash: Bytes32, eth1Timestamp: nat, deposits: seq<Deposit>): (r: State)
    ensures WellFormed(r) && CheckpointsOrdered(r) && r.slot == GENESIS_SLOT
    ensures r.eth1DepositIndex == |deposits| && r.eth1Data.depositCount == |deposits| && |r.validators| <= |deposits|
    ensures r.genesisTime % MIN_GENESIS_DELAY == 0 && eth1Timestamp + MIN_GENESIS_DELAY < r.genesisTime <= eth1Timestamp + 2 * MIN_GENESIS_DELAY
    ensures forall i :: 0 <= i < |r.validators| ==>
              (IsActiveValidator(r.validators[i], GENESIS_EPOCH) <==> r.validators[i].effectiveBalance == MAX_EFFECTIVE_BALANCE)
    ensures r.genesisValidatorsRoot == env.validatorsRoot(r.validators)
  {
    var template := GenesisTemplate(env, eth1BlockHash, eth1Timestamp, |deposits|);
    var deposited := GenesisDeposits(env, template, deposits, |deposits|);
    var activated := GenesisActivation(deposited);
    activated.(genesisValidatorsRoot := env.validatorsRoot(activated.validators))
  }

  /**
   * The activation loop of genesis over a registry nobody has entered yet: a
   * validator is active at genesis exactly when its effective balance is full.
   */
  function GenesisActivation(s: State): (r: State)
    requires WellFormed(s)
    requires forall i :: 0 <= i < |s.validators| ==> s.validators[i].exitEpoch == FAR_FUTURE_EPOCH &&
                                                     s.validators[i].activationEpoch == FAR_FUTURE_EPOCH
    ensures WellFormed(r) && r == s.(validators := r.validators) && |r.validators| == |s.validators|
    ensures forall i :: 0 <= i < |r.validators| ==>
              (IsActiveValidator(r.validators[i], GENESIS_EPOCH) <==> r.validators[i].effectiveBalance == MAX_EFFECTIVE_BALANCE)
  {
    var validators := seq(|s.validators|, i requires 0 <= i < |s.validators| => GenesisActivated(s.validators[i], s.balances[i]));
    var r := s.(validators := validators);
    WellFormedFrame(s, r);
    r
  }

  /** `is_valid_genesis_state`: late enough and with enough active validators. */
  predicate IsValidGenesisState(s: State) {
    s.genesisTime >= MIN_GENESIS_TIME &&
    |ActiveValidatorIndices(s.validators, GENESIS_EPOCH)| >= MIN_GENESIS_ACTIVE_VALIDATOR_COUNT
  }

  /** A valid genesis state has at least MIN_GENESIS_ACTIVE_VALIDATOR_COUNT validators. */
  lemma ValidGenesisHasEnoughValidators(s: State)
    requires IsValidGenesisState(s)
    ensures |s.validators| >= MIN_GENESIS_ACTIVE_VALIDATOR_COUNT
  {
    var active := ActiveValidatorIndices(s.validators, GENESIS_EPOCH);
    StrictlyIncreasingBelow(active, |s.validators|);
  }

  /** A strictly increasing sequence of numbers below n has at most n elements. */
  lemma {:induction false} StrictlyIncreasingBelow(xs: seq<nat>, n: nat)
    requires StrictlyIncreasing(xs) && forall k :: 0 <= k < |xs| ==> xs[k] < n
    ensures |xs| <= n
    decreases n
  {
    if |xs| > 0 {
      var front := xs[..|xs| - 1];
      StrictlyIncreasingBelow(front, xs[|xs| - 1]);
    }
  }
}
