/**
 * The gossip network of the simulator: validators grouped into information
 * sets, attestations tagged with the sets that know them, and the rule by which
 * an honest validator sitting in a set that knows an attestation passes it on to
 * the other sets it belongs to, one hop per network update.
 */
module Networking {
  import opened Wrappers
  import opened Types
  import opened Helpers
  import Shuffling

  /** `NetworkSet`: the validators of one information set. */
  datatype NetworkSet = NetworkSet(validators: seq<ValidatorIndex>)

  /** `NetworkAttestation`: an attestation and the information sets that know it, in the order they learnt it. */
  datatype NetworkAttestation = NetworkAttestation(item: Attestation, infoSets: seq<nat>)

  // ---------------------------------------------------------------------------
  // Membership

  /** `get_all_sets_for_validator`: the sets the validator belongs to, in increasing order. */
  function SetsForValidator(sets: seq<NetworkSet>, validator: ValidatorIndex): (r: seq<nat>)
    ensures StrictlyIncreasing(r)
    ensures forall i :: i in r <==> 0 <= i < |sets| && validator in sets[i].validators
  {
    var r := IndicesWhere(|sets|, (i: nat) => i < |sets| && validator in sets[i].validators);
    assert forall k :: 0 <= k < |r| ==> r[k] < |sets| && validator in sets[r[k]].validators;
    r
  }

  /** Every listed index names a set of the network; otherwise the source fails looking it up. */
  predicate InRange(sets: seq<NetworkSet>, infoSets: seq<nat>)
    decreases |infoSets|
  {
    infoSets == [] || (infoSets[|infoSets| - 1] < |sets| && InRange(sets, infoSets[..|infoSets| - 1]))
  }

  /** The listed indices are in range exactly when each of them is. */
  lemma {:induction false} InRangeExact(sets: seq<NetworkSet>, infoSets: seq<nat>)
    ensures InRange(sets, infoSets) <==> forall k :: 0 <= k < |infoSets| ==> infoSets[k] < |sets|
    decreases |infoSets|
  {
    if infoSets != [] {
      var front := infoSets[..|infoSets| - 1];
      InRangeExact(sets, front);
      assert forall k :: 0 <= k < |front| ==> front[k] == infoSets[k];
    }
  }

  /** Every prefix of a list in range is in range. */
  lemma InRangePrefixes(sets: seq<NetworkSet>, infoSets: seq<nat>)
    requires InRange(sets, infoSets)
    ensures forall i :: 0 <= i <= |infoSets| ==> InRange(sets, infoSets[..i])
  {
    InRangeExact(sets, infoSets);
    forall i | 0 <= i <= |infoSets|
      ensures InRange(sets, infoSets[..i])
    {
      InRangeExact(sets, infoSets[..i]);
    }
  }

  /** The validators of the listed sets: the `known_validators` union of `update_network`. */
  function KnownValidators(sets: seq<NetworkSet>, infoSets: seq<nat>): set<ValidatorIndex>
    requires InRange(sets, infoSets)
    decreases |infoSets|
  {
    if infoSets == [] then {}
    else
      var last := infoSets[|infoSets| - 1];
      KnownValidators(sets, infoSets[..|infoSets| - 1]) + (set v | v in sets[last].validators)
  }

  /** A validator is known exactly when it belongs to one of the listed sets. */
  lemma {:induction false} KnownValidatorsExact(sets: seq<NetworkSet>, infoSets: seq<nat>, v: ValidatorIndex)
    requires InRange(sets, infoSets)
    ensures v in KnownValidators(sets, infoSets) <==>
              exists k :: 0 <= k < |infoSets| && infoSets[k] < |sets| && v in sets[infoSets[k]].validators
    decreases |infoSets|
  {
    if infoSets != [] {
      var front := infoSets[..|infoSets| - 1];
      KnownValidatorsExact(sets, front, v);
      if v in KnownValidators(sets, front) {
        var k :| 0 <= k < |front| && front[k] < |sets| && v in sets[front[k]].validators;
        assert infoSets[k] == front[k];
      }
      if exists k :: 0 <= k < |infoSets| && infoSets[k] < |sets| && v in sets[infoSets[k]].validators {
        var k :| 0 <= k < |infoSets| && infoSets[k] < |sets| && v in sets[infoSets[k]].validators;
        if k < |front| {
          assert front[k] == infoSets[k];
        }
      }
    }
  }

  /** A set relays an attestation when one of its validators already knows it and is not malicious. */
  predicate Relays(validators: seq<ValidatorIndex>, known: set<ValidatorIndex>, malicious: seq<ValidatorIndex>) {
    exists v :: v in validators && v in known && v !in malicious
  }

  /** The inner loop of `update_network`: the first validator that knows the attestation and is honest ends the search. */
  method FindRelay(validators: seq<ValidatorIndex>, known: set<ValidatorIndex>, malicious: seq<ValidatorIndex>)
    returns (found: bool)
    ensures found == Relays(validators, known, malicious)
  {
    for i := 0 to |validators|
      invariant forall j :: 0 <= j < i ==> !(validators[j] in known && validators[j] !in malicious)
    {
      if validators[i] in known && validators[i] !in malicious {
        return true;
      }
    }
    return false;
  }

  // ---------------------------------------------------------------------------
  // One hop

  /** The `unknown_sets` of `update_network`: the sets not yet listed, in increasing order. */
  function UnknownSets(sets: seq<NetworkSet>, infoSets: seq<nat>): (r: seq<nat>)
    ensures StrictlyIncreasing(r)
    ensures forall i :: i in r <==> 0 <= i < |sets| && i !in infoSets
  {
    var r := IndicesWhere(|sets|, (i: nat) => i < |sets| && i !in infoSets);
    assert forall k :: 0 <= k < |r| ==> r[k] < |sets| && r[k] !in infoSets;
    r
  }

  /** The candidate sets that relay, in the candidates' order. */
  function Joined(sets: seq<NetworkSet>, malicious: seq<ValidatorIndex>, known: set<ValidatorIndex>, candidates: seq<nat>)
    : seq<nat>
    requires InRange(sets, candidates)
    decreases |candidates|
  {
    if candidates == [] then []
    else
      var last := candidates[|candidates| - 1];
      var front := Joined(sets, malicious, known, candidates[..|candidates| - 1]);
      if Relays(sets[last].validators, known, malicious) then front + [last] else front
  }

  /** A candidate joins exactly when it relays. */
  lemma {:induction false} JoinedMembers(sets: seq<NetworkSet>, malicious: seq<ValidatorIndex>, known: set<ValidatorIndex>,
                                         candidates: seq<nat>)
    requires InRange(sets, candidates)
    ensures forall j :: j in Joined(sets, malicious, known, candidates) <==>
                          j in candidates && j < |sets| && Relays(sets[j].validators, known, malicious)
    decreases |candidates|
  {
    InRangeExact(sets, candidates);
    if candidates != [] {
      var front := candidates[..|candidates| - 1];
      JoinedMembers(sets, malicious, known, front);
      assert candidates == front + [candidates[|candidates| - 1]];
    }
  }

  /** Drawn from an increasing list of candidates, the sets that join are increasing too. */
  lemma {:induction false} JoinedIncreasing(sets: seq<NetworkSet>, malicious: seq<ValidatorIndex>, known: set<ValidatorIndex>,
                                            candidates: seq<nat>)
    requires InRange(sets, candidates) && StrictlyIncreasing(candidates)
    ensures StrictlyIncreasing(Joined(sets, malicious, known, candidates))
    decreases |candidates|
  {
    if candidates != [] {
      var front := candidates[..|candidates| - 1];
      var last := candidates[|candidates| - 1];
      assert StrictlyIncreasing(front) by {
        forall a, b | 0 <= a < b < |front| ensures front[a] < front[b] {
          assert front[a] == candidates[a] && front[b] == candidates[b];
        }
      }
      JoinedIncreasing(sets, malicious, known, front);
      JoinedMembers(sets, malicious, known, front);
      var r := Joined(sets, malicious, known, front);
      assert forall j :: j in r ==> j < last by {
        forall j | j in r ensures j < last {
          var a :| 0 <= a < |front| && front[a] == j;
          assert candidates[a] == j;
        }
      }
      if Relays(sets[last].validators, known, malicious) {
        var s := r + [last];
        forall a, b | 0 <= a < b < |s| ensures s[a] < s[b] {
          if b == |r| {
            assert s[a] == r[a] && r[a] in r;
          } else {
            assert s[a] == r[a] && s[b] == r[b];
          }
        }
      }
    }
  }

  /**
   * One attestation after an update: the sets that were not listed and hold an
   * honest validator known from the listed sets are appended, in set order. The
   * known validators and the unlisted sets are taken before any append, so a set
   * added now does not pass the attestation on in the same update.
   */
  function Spread(sets: seq<NetworkSet>, malicious: seq<ValidatorIndex>, a: NetworkAttestation): NetworkAttestation
    requires InRange(sets, a.infoSets)
  {
    var known := KnownValidators(sets, a.infoSets);
    var unknown := UnknownSets(sets, a.infoSets);
    InRangeExact(sets, unknown);
    a.(infoSets := a.infoSets + Joined(sets, malicious, known, unknown))
  }

  /**
   * A spread keeps the attestation and its listed sets, and appends, without
   * repeats and in increasing order, exactly the unlisted sets holding an honest
   * validator that belongs to a listed set. A list without repeats keeps none.
   */
  lemma SpreadOneHop(sets: seq<NetworkSet>, malicious: seq<ValidatorIndex>, a: NetworkAttestation)
    requires InRange(sets, a.infoSets)
    ensures var r := Spread(sets, malicious, a);
            var added := r.infoSets[|a.infoSets|..];
            r.item == a.item && |r.infoSets| >= |a.infoSets| && r.infoSets[..|a.infoSets|] == a.infoSets &&
            StrictlyIncreasing(added) &&
            (forall j :: j in added <==>
               0 <= j < |sets| && j !in a.infoSets &&
               exists v :: v in sets[j].validators && v !in malicious &&
                           exists k :: 0 <= k < |a.infoSets| && a.infoSets[k] < |sets| && v in sets[a.infoSets[k]].validators) &&
            (Shuffling.Distinct(a.infoSets) ==> Shuffling.Distinct(r.infoSets))
  {
    var known := KnownValidators(sets, a.infoSets);
    var unknown := UnknownSets(sets, a.infoSets);
    InRangeExact(sets, unknown);
    var added := Joined(sets, malicious, known, unknown);
    var r := Spread(sets, malicious, a);
    JoinedMembers(sets, malicious, known, unknown);
    JoinedIncreasing(sets, malicious, known, unknown);
    assert r.infoSets[|a.infoSets|..] == added;
    forall v
      ensures v in known <==> exists k :: 0 <= k < |a.infoSets| && a.infoSets[k] < |sets| && v in sets[a.infoSets[k]].validators
    {
      KnownValidatorsExact(sets, a.infoSets, v);
    }
    if Shuffling.Distinct(a.infoSets) {
      forall i, j | 0 <= i < j < |r.infoSets|
        ensures r.infoSets[i] != r.infoSets[j]
      {
        if j >= |a.infoSets| {
          assert r.infoSets[j] == added[j - |a.infoSets|];
          if i < |a.infoSets| {
            assert r.infoSets[i] in a.infoSets;
          } else {
            assert r.infoSets[i] == added[i - |a.infoSets|];
          }
        }
      }
    }
  }

  // ---------------------------------------------------------------------------
  // The network update

  /**
   * The position of the first attestation from `from` on that lists a set the
   * network does not have, or the length of the list when there is none.
   */
  function FirstOutOfRange(sets: seq<NetworkSet>, atts: seq<NetworkAttestation>, from: nat): (r: nat)
    requires from <= |atts|
    ensures from <= r <= |atts|
    ensures forall i :: from <= i < r ==> InRange(sets, atts[i].infoSets)
    ensures r < |atts| ==> !InRange(sets, atts[r].infoSets)
    decreases |atts| - from
  {
    if from == |atts| || !InRange(sets, atts[from].infoSets) then from
    else FirstOutOfRange(sets, atts, from + 1)
  }

  /**
   * `update_network`: the attestations are spread by one hop each, in list
   * order, up to the first one that lists a set the network does not have; the
   * source fails there, leaving that attestation and those after it as they
   * were. The flag says whether the source completes.
   */
  function UpdatedAttestations(sets: seq<NetworkSet>, malicious: seq<ValidatorIndex>, atts: seq<NetworkAttestation>)
    : (r: (seq<NetworkAttestation>, bool))
    ensures |r.0| == |atts|
    ensures r.1 <==> forall i :: 0 <= i < |atts| ==> InRange(sets, atts[i].infoSets)
  {
    var stop := FirstOutOfRange(sets, atts, 0);
    (seq(|atts|, j requires 0 <= j < |atts| => if j < stop then Spread(sets, malicious, atts[j]) else atts[j]),
     stop == |atts|)
  }

  /**
   * `update_network` never adds, removes or reorders attestations, keeps each
   * attestation's item, and only ever appends to its list of sets.
   */
  lemma UpdateNetworkOnlyAppends(sets: seq<NetworkSet>, malicious: seq<ValidatorIndex>, atts: seq<NetworkAttestation>)
    ensures var r := UpdatedAttestations(sets, malicious, atts).0;
            |r| == |atts| &&
            forall j :: 0 <= j < |atts| ==>
              r[j].item == atts[j].item && |r[j].infoSets| >= |atts[j].infoSets| &&
              r[j].infoSets[..|atts[j].infoSets|] == atts[j].infoSets
  {
    var r := UpdatedAttestations(sets, malicious, atts).0;
    forall j | 0 <= j < |atts|
      ensures r[j].item == atts[j].item && |r[j].infoSets| >= |atts[j].infoSets| &&
              r[j].infoSets[..|atts[j].infoSets|] == atts[j].infoSets
    {
      if j < FirstOutOfRange(sets, atts, 0) {
        SpreadOneHop(sets, malicious, atts[j]);
      }
    }
  }

  // ---------------------------------------------------------------------------
  // What a validator knows

  /** The listed sets and the validator's own sets have one in common. */
  predicate Shares(infoSets: seq<nat>, mine: seq<nat>) {
    exists x :: x in infoSets && x in mine
  }

  /** The first n attestations that share a set with `mine`, with their positions, in list order. */
  function KnownPairs(atts: seq<NetworkAttestation>, mine: seq<nat>, n: nat): seq<(nat, NetworkAttestation)>
    requires n <= |atts|
    decreases n
  {
    if n == 0 then []
    else
      var front := KnownPairs(atts, mine, n - 1);
      if Shares(atts[n - 1].infoSets, mine) then front + [(n - 1, atts[n - 1])] else front
  }

  /**
   * `knowledge_set`: the attestations, with their positions, that reached one
   * of the validator's sets.
   */
  function KnowledgeSet(sets: seq<NetworkSet>, atts: seq<NetworkAttestation>, validator: ValidatorIndex)
    : seq<(nat, NetworkAttestation)>
  {
    KnownPairs(atts, SetsForValidator(sets, validator), |atts|)
  }

  /** The pairs of the first n attestations are the matching ones, at increasing positions below n. */
  lemma {:induction false} KnownPairsExact(atts: seq<NetworkAttestation>, mine: seq<nat>, n: nat)
    requires n <= |atts|
    ensures var r := KnownPairs(atts, mine, n);
            (forall p :: p in r <==> p.0 < n && p.1 == atts[p.0] && Shares(atts[p.0].infoSets, mine)) &&
            (forall a, b :: 0 <= a < b < |r| ==> r[a].0 < r[b].0)
    decreases n
  {
    if n > 0 {
      KnownPairsExact(atts, mine, n - 1);
    }
  }

  /**
   * A validator knows exactly the attestations listing one of its sets, each
   * once, paired with its position, in list order.
   */
  lemma KnowledgeSetExact(sets: seq<NetworkSet>, atts: seq<NetworkAttestation>, validator: ValidatorIndex)
    ensures var r := KnowledgeSet(sets, atts, validator);
            (forall p :: p in r <==>
               p.0 < |atts| && p.1 == atts[p.0] &&
               exists x :: x in atts[p.0].infoSets && x < |sets| && validator in sets[x].validators) &&
            (forall a, b :: 0 <= a < b < |r| ==> r[a].0 < r[b].0)
  {
    var mine := SetsForValidator(sets, validator);
    KnownPairsExact(atts, mine, |atts|);
  }

  /**
   * An attestation a validator broadcasts to its own sets is known to it right
   * away, whenever it belongs to some set.
   */
  lemma DisseminatedIsKnownToSender(sets: seq<NetworkSet>, atts: seq<NetworkAttestation>, sender: ValidatorIndex,
                                    item: Attestation)
    requires exists i :: 0 <= i < |sets| && sender in sets[i].validators
    ensures var sent := NetworkAttestation(item, SetsForValidator(sets, sender));
            (|atts|, sent) in KnowledgeSet(sets, atts + [sent], sender)
  {
    var sent := NetworkAttestation(item, SetsForValidator(sets, sender));
    var i :| 0 <= i < |sets| && sender in sets[i].validators;
    assert i in sent.infoSets;
    KnowledgeSetExact(sets, atts + [sent], sender);
  }

  // ---------------------------------------------------------------------------
  // The network as the object the simulator updates in place

  class Network {
    var sets: seq<NetworkSet>
    var attestations: seq<NetworkAttestation>
    var malicious: seq<ValidatorIndex>

    constructor (sets: seq<NetworkSet>, attestations: seq<NetworkAttestation>, malicious: seq<ValidatorIndex>)
      ensures this.sets == sets && this.attestations == attestations && this.malicious == malicious
    {
      this.sets := sets;
      this.attestations := attestations;
      this.malicious := malicious;
    }

    /**
     * `disseminate_attestation`: exactly one attestation is appended, listing
     * the given sets, or the sender's own sets when none are given; the earlier
     * attestations, the sets and the malicious list are unchanged.
     */
    method DisseminateAttestation(sender: ValidatorIndex, item: Attestation, toSets: Option<seq<nat>>)
      modifies this
      ensures sets == old(sets) && malicious == old(malicious)
      ensures |attestations| == |old(attestations)| + 1 && attestations[..|old(attestations)|] == old(attestations)
      ensures attestations[|old(attestations)|] ==
                NetworkAttestation(item, if toSets.None? then SetsForValidator(sets, sender) else toSets.value)
    {
      var broadcast := if toSets.None? then SetsForValidator(sets, sender) else toSets.value;
      attestations := attestations + [NetworkAttestation(item, broadcast)];
    }

    /**
     * `update_network`: every attestation in turn is spread by one hop; false
     * where an attestation lists a set the network does not have, which makes
     * the source fail with the attestations before it already spread.
     */
    method UpdateNetwork() returns (ok: bool)
      modifies this
      ensures sets == old(sets) && malicious == old(malicious)
      ensures (attestations, ok) == UpdatedAttestations(sets, malicious, old(attestations))
    {
      ghost var atts := attestations;
      var k := 0;
      while k < |attestations|
        invariant k <= |attestations| == |atts|
        invariant sets == old(sets) && malicious == old(malicious)
        invariant forall i :: 0 <= i < k ==> InRange(sets, atts[i].infoSets)
        invariant forall j :: 0 <= j < |atts| ==>
                    attestations[j] == if j < k then Spread(sets, malicious, atts[j]) else atts[j]
      {
        var spread := SpreadItem(k);
        if !spread {
          assert FirstOutOfRange(sets, atts, 0) == k;
          assert attestations == UpdatedAttestations(sets, malicious, atts).0;
          return false;
        }
        k := k + 1;
      }
      assert attestations == UpdatedAttestations(sets, malicious, atts).0;
      return true;
    }

    /** The body of the `update_network` loop for the k-th attestation. */
    method SpreadItem(k: nat) returns (ok: bool)
      requires k < |attestations|
      modifies this
      ensures sets == old(sets) && malicious == old(malicious)
      ensures ok == InRange(sets, old(attestations)[k].infoSets)
      ensures ok ==> attestations == old(attestations)[k := Spread(sets, malicious, old(attestations)[k])]
      ensures !ok ==> attestations == old(attestations)
    {
      var infoSets := attestations[k].infoSets;
      var known;
      ok, known := CollectKnown(sets, infoSets);
      if !ok {
        return;
      }
      var unknown := UnknownSets(sets, infoSets);
      InRangeExact(sets, unknown);
      AppendRelaying(k, known, unknown);
    }

    /** The loop over the unlisted sets: each that relays is appended to the k-th attestation's sets. */
    method AppendRelaying(k: nat, known: set<ValidatorIndex>, unknown: seq<nat>)
      requires k < |attestations| && InRange(sets, unknown)
      modifies this
      ensures sets == old(sets) && malicious == old(malicious)
      ensures attestations ==
                old(attestations)[k := old(attestations)[k].(infoSets := old(attestations)[k].infoSets +
                                                                           Joined(sets, malicious, known, unknown))]
    {
      ghost var before := attestations;
      InRangeExact(sets, unknown);
      InRangePrefixes(sets, unknown);
      assert before[k].infoSets + Joined(sets, malicious, known, unknown[..0]) == before[k].infoSets;
      for j := 0 to |unknown|
        invariant sets == old(sets) && malicious == old(malicious)
        invariant forall i :: 0 <= i <= |unknown| ==> InRange(sets, unknown[..i])
        invariant attestations == before[k := before[k].(infoSets := before[k].infoSets + Joined(sets, malicious, known, unknown[..j]))]
      {
        assert unknown[..j + 1][..j] == unknown[..j] && unknown[..j + 1][j] == unknown[j];
        ghost var prefix := before[k].infoSets + Joined(sets, malicious, known, unknown[..j]);
        var relays := FindRelay(sets[unknown[j]].validators, known, malicious);
        if relays {
          assert Joined(sets, malicious, known, unknown[..j + 1]) == Joined(sets, malicious, known, unknown[..j]) + [unknown[j]];
          assert prefix + [unknown[j]] == before[k].infoSets + Joined(sets, malicious, known, unknown[..j + 1]);
          attestations := attestations[k := attestations[k].(infoSets := attestations[k].infoSets + [unknown[j]])];
        } else {
          assert Joined(sets, malicious, known, unknown[..j + 1]) == Joined(sets, malicious, known, unknown[..j]);
        }
      }
      assert unknown[..|unknown|] == unknown;
    }
  }

  /** The first loop of `update_network`'s body: the validators of the listed sets, or false at a set the network lacks. */
  method CollectKnown(sets: seq<NetworkSet>, infoSets: seq<nat>) returns (ok: bool, known: set<ValidatorIndex>)
    ensures ok == InRange(sets, infoSets)
    ensures ok ==> known == KnownValidators(sets, infoSets)
  {
    known := {};
    for i := 0 to |infoSets|
      invariant InRange(sets, infoSets[..i]) && known == KnownValidators(sets, infoSets[..i])
    {
      if infoSets[i] >= |sets| {
        InRangeExact(sets, infoSets);
        return false, known;
      }
      known := known + (set v | v in sets[infoSets[i]].validators);
      assert infoSets[..i + 1][..i] == infoSets[..i];
    }
    assert infoSets[..|infoSets|] == infoSets;
    return true, known;
  }
}
