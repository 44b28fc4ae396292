/**
 * Swap-or-not shuffling (`compute_shuffled_index`), committee slicing
 * (`compute_committee`) and balance-weighted proposer sampling
 * (`compute_proposer_index`). The hash function is a parameter: nothing here
 * depends on which 32-byte function it is.
 */
module Shuffling {
  import opened Wrappers
  import opened Constants
  import opened Types
  import opened ByteCodec
  import opened IntegerMath

  type Hasher = seq<byte> -> Bytes32

  /** The round's pivot: the first 8 bytes of hash(seed ++ round), little endian, modulo the count. */
  function Pivot(hash: Hasher, seed: Bytes32, round: nat, indexCount: nat): (p: nat)
    requires indexCount > 0
    ensures p < indexCount
  {
    BytesToInt(hash(seed + IntToBytes(round, 1))[0..8]) % indexCount
  }

  /** The bit that decides whether the pair whose larger member is `position` is swapped in `round`. */
  predicate SwapBit(hash: Hasher, seed: Bytes32, round: nat, position: nat) {
    var source := hash(seed + IntToBytes(round, 1) + IntToBytes(position / 256, 4));
    (source[(position % 256) / 8] as nat / Pow2(position % 8)) % 2 == 1
  }

  /** The partner of `index` in a round: its mirror image about the pivot. */
  function Flip(pivot: nat, index: nat, indexCount: nat): (f: nat)
    requires index < indexCount && pivot < indexCount
    ensures f < indexCount
  {
    (pivot + indexCount - index) % indexCount
  }

  /** The mirror image of the mirror image is the original index. */
  lemma FlipInvolution(pivot: nat, index: nat, indexCount: nat)
    requires index < indexCount && pivot < indexCount
    ensures Flip(pivot, Flip(pivot, index, indexCount), indexCount) == index
  {
    var f := Flip(pivot, index, indexCount);
    if pivot >= index {
      DivUnique(pivot + indexCount - index, indexCount, 1, pivot - index);
      DivUnique(pivot + indexCount - f, indexCount, 1, pivot - f);
    } else {
      DivUnique(pivot + indexCount - index, indexCount, 0, pivot + indexCount - index);
      DivUnique(pivot + indexCount - f, indexCount, 0, index);
    }
  }

  /** One round of the shuffle applied to `index`. */
  function ShuffleRound(hash: Hasher, seed: Bytes32, round: nat, index: nat, indexCount: nat): (r: nat)
    requires index < indexCount
    ensures r < indexCount
  {
    var flip := Flip(Pivot(hash, seed, round, indexCount), index, indexCount);
    var position := if index >= flip then index else flip;
    if SwapBit(hash, seed, round, position) then flip else index
  }

  /**
   * Every round is an involution: the pair {index, flip} shares one swap bit,
   * read at the larger of the two positions.
   */
  lemma ShuffleRoundInvolution(hash: Hasher, seed: Bytes32, round: nat, index: nat, indexCount: nat)
    requires index < indexCount
    ensures ShuffleRound(hash, seed, round, ShuffleRound(hash, seed, round, index, indexCount), indexCount) == index
  {
    var pivot := Pivot(hash, seed, round, indexCount);
    FlipInvolution(pivot, index, indexCount);
  }

  /** A round schedule: the round number and the current index give the next index. */
  type RoundFunction = (nat, nat) -> nat

  /** The index after rounds 0, 1, ..., rounds - 1 of `step`. */
  function ApplyRounds(step: RoundFunction, index: nat, rounds: nat): nat
    decreases rounds
  {
    if rounds == 0 then index else step(rounds - 1, ApplyRounds(step, index, rounds - 1))
  }

  /** The same rounds in reverse order: rounds - 1, ..., 1, 0. */
  function UndoRounds(step: RoundFunction, index: nat, rounds: nat): nat
    decreases rounds
  {
    if rounds == 0 then index else UndoRounds(step, step(rounds - 1, index), rounds - 1)
  }

  ghost predicate IsInvolutive(step: RoundFunction) {
    forall round: nat, index: nat :: step(round, step(round, index)) == index
  }

  ghost predicate StaysBelow(step: RoundFunction, bound: nat) {
    forall round: nat, index: nat :: index < bound ==> step(round, index) < bound
  }

  lemma {:induction false} ApplyRoundsBelow(step: RoundFunction, bound: nat, index: nat, rounds: nat)
    requires StaysBelow(step, bound) && index < bound
    ensures ApplyRounds(step, index, rounds) < bound
    decreases rounds
  {
    if rounds > 0 {
      ApplyRoundsBelow(step, bound, index, rounds - 1);
    }
  }

  lemma {:induction false} UndoRoundsBelow(step: RoundFunction, bound: nat, index: nat, rounds: nat)
    requires StaysBelow(step, bound) && index < bound
    ensures UndoRounds(step, index, rounds) < bound
    decreases rounds
  {
    if rounds > 0 {
      UndoRoundsBelow(step, bound, step(rounds - 1, index), rounds - 1);
    }
  }

  lemma {:induction false} UndoApply(step: RoundFunction, index: nat, rounds: nat)
    requires IsInvolutive(step)
    ensures UndoRounds(step, ApplyRounds(step, index, rounds), rounds) == index
    decreases rounds
  {
    if rounds > 0 {
      var before := ApplyRounds(step, index, rounds - 1);
      assert step(rounds - 1, step(rounds - 1, before)) == before;
      UndoApply(step, index, rounds - 1);
    }
  }

  lemma {:induction false} ApplyUndo(step: RoundFunction, index: nat, rounds: nat)
    requires IsInvolutive(step)
    ensures ApplyRounds(step, UndoRounds(step, index, rounds), rounds) == index
    decreases rounds
  {
    if rounds > 0 {
      var stepped := step(rounds - 1, index);
      ApplyUndo(step, stepped, rounds - 1);
      assert step(rounds - 1, stepped) == index;
    }
  }

  /** The swap-or-not rounds for one seed and index count; indices out of range are left alone. */
  function Rounds(hash: Hasher, seed: Bytes32, indexCount: nat): RoundFunction {
    (round: nat, index: nat) => if index < indexCount then ShuffleRound(hash, seed, round, index, indexCount) else index
  }

  lemma RoundsProperties(hash: Hasher, seed: Bytes32, indexCount: nat)
    ensures IsInvolutive(Rounds(hash, seed, indexCount))
    ensures StaysBelow(Rounds(hash, seed, indexCount), indexCount)
  {
    var step := Rounds(hash, seed, indexCount);
    forall round: nat, index: nat
      ensures step(round, step(round, index)) == index
    {
      if index < indexCount {
        ShuffleRoundInvolution(hash, seed, round, index, indexCount);
      }
    }
    forall round: nat, index: nat | index < indexCount
      ensures step(round, index) < indexCount
    {
    }
  }

  /** The position `index` is sent to by the full shuffle (`compute_shuffled_index`). */
  function ShuffledIndex(hash: Hasher, index: nat, indexCount: nat, seed: Bytes32): (r: nat)
    requires index < indexCount
    ensures r < indexCount
  {
    RoundsProperties(hash, seed, indexCount);
    ApplyRoundsBelow(Rounds(hash, seed, indexCount), indexCount, index, SHUFFLE_ROUND_COUNT);
    ApplyRounds(Rounds(hash, seed, indexCount), index, SHUFFLE_ROUND_COUNT)
  }

  /** Round `rounds` of the schedule is the swap-or-not round of that number. */
  lemma ApplyRoundsStep(hash: Hasher, seed: Bytes32, indexCount: nat, index: nat, rounds: nat)
    requires ApplyRounds(Rounds(hash, seed, indexCount), index, rounds) < indexCount
    ensures ApplyRounds(Rounds(hash, seed, indexCount), index, rounds + 1)
         == ShuffleRound(hash, seed, rounds, ApplyRounds(Rounds(hash, seed, indexCount), index, rounds), indexCount)
  {
  }

  /** `compute_shuffled_index`: the round loop, updating the index in place. */
  method ComputeShuffledIndex(hash: Hasher, index: nat, indexCount: nat, seed: Bytes32) returns (r: nat)
    requires index < indexCount
    ensures r < indexCount
    ensures r == ShuffledIndex(hash, index, indexCount, seed)
  {
    r := index;
    for currentRound := 0 to SHUFFLE_ROUND_COUNT
      invariant r < indexCount
      invariant r == ApplyRounds(Rounds(hash, seed, indexCount), index, currentRound)
    {
      ApplyRoundsStep(hash, seed, indexCount, index, currentRound);
      var pivot := Pivot(hash, seed, currentRound, indexCount);
      var flip := Flip(pivot, r, indexCount);
      var position := if r >= flip then r else flip;
      if SwapBit(hash, seed, currentRound, position) {
        r := flip;
      }
    }
  }

  /** The shuffle's inverse: the same rounds, last round first. */
  function UnshuffledIndex(hash: Hasher, index: nat, indexCount: nat, seed: Bytes32): (r: nat)
    requires index < indexCount
    ensures r < indexCount
    ensures ShuffledIndex(hash, r, indexCount, seed) == index
  {
    var step := Rounds(hash, seed, indexCount);
    RoundsProperties(hash, seed, indexCount);
    UndoRoundsBelow(step, indexCount, index, SHUFFLE_ROUND_COUNT);
    ApplyUndo(step, index, SHUFFLE_ROUND_COUNT);
    UndoRounds(step, index, SHUFFLE_ROUND_COUNT)
  }

  /** Unshuffling a shuffled index gives it back. */
  lemma UnshuffleShuffle(hash: Hasher, index: nat, indexCount: nat, seed: Bytes32)
    requires index < indexCount
    ensures UnshuffledIndex(hash, ShuffledIndex(hash, index, indexCount, seed), indexCount, seed) == index
  {
    RoundsProperties(hash, seed, indexCount);
    UndoApply(Rounds(hash, seed, indexCount), index, SHUFFLE_ROUND_COUNT);
  }

  /** For a fixed seed and count the shuffle is a bijection of [0, indexCount): injective, and onto through its inverse. */
  lemma ShuffleIsBijection(hash: Hasher, indexCount: nat, seed: Bytes32)
    ensures forall i, j ::
              (0 <= i < indexCount && 0 <= j < indexCount &&
               ShuffledIndex(hash, i, indexCount, seed) == ShuffledIndex(hash, j, indexCount, seed)) ==> i == j
    ensures forall j :: 0 <= j < indexCount ==>
              UnshuffledIndex(hash, j, indexCount, seed) < indexCount &&
              ShuffledIndex(hash, UnshuffledIndex(hash, j, indexCount, seed), indexCount, seed) == j
  {
    forall i, j | 0 <= i < indexCount && 0 <= j < indexCount &&
        ShuffledIndex(hash, i, indexCount, seed) == ShuffledIndex(hash, j, indexCount, seed)
      ensures i == j
    {
      UnshuffleShuffle(hash, i, indexCount, seed);
      UnshuffleShuffle(hash, j, indexCount, seed);
    }
  }

  /** No value occurs twice. */
  predicate Distinct(s: seq<nat>) {
    forall a, b :: 0 <= a < b < |s| ==> s[a] != s[b]
  }

  /** First position of committee `index` of `count` in a list of `listLength` shuffled indices. */
  function CommitteeStart(listLength: nat, index: nat, count: nat): nat
    requires count > 0
  {
    listLength * index / count
  }

  /** One past the last position of committee `index`. */
  function CommitteeEnd(listLength: nat, index: nat, count: nat): nat
    requires count > 0
  {
    listLength * (index + 1) / count
  }

  /** The slices are well-formed and lie inside the list. */
  lemma CommitteeBounds(listLength: nat, index: nat, count: nat)
    requires index < count
    ensures CommitteeStart(listLength, index, count) <= CommitteeEnd(listLength, index, count) <= listLength
  {
    MulLeMonotone(listLength, index, index + 1);
    DivMonotone(listLength * index, listLength * (index + 1), count);
    MulLeMonotone(listLength, index + 1, count);
    DivMonotone(listLength * (index + 1), listLength * count, count);
    DivUnique(listLength * count, count, listLength, 0);
  }

  /** A permutation of positions, given as a function; only its values below some bound matter. */
  type Permutation = nat -> nat

  /** `inverse` undoes `perm` on [0, n), and both map [0, n) into itself. */
  ghost predicate IsInverseOn(perm: Permutation, inverse: Permutation, n: nat) {
    (forall i: nat :: i < n ==> perm(i) < n && inverse(perm(i)) == i) &&
    (forall j: nat :: j < n ==> inverse(j) < n && perm(inverse(j)) == j)
  }

  /** The shuffle for one seed and list length, as a permutation. */
  function Shuffle(hash: Hasher, seed: Bytes32, indexCount: nat): Permutation {
    (i: nat) => if i < indexCount then ShuffledIndex(hash, i, indexCount, seed) else i
  }

  /** The inverse shuffle, as a permutation. */
  function Unshuffle(hash: Hasher, seed: Bytes32, indexCount: nat): Permutation {
    (i: nat) => if i < indexCount then UnshuffledIndex(hash, i, indexCount, seed) else i
  }

  lemma ShuffleHasInverse(hash: Hasher, seed: Bytes32, indexCount: nat)
    ensures IsInverseOn(Shuffle(hash, seed, indexCount), Unshuffle(hash, seed, indexCount), indexCount)
  {
    forall i: nat | i < indexCount
      ensures Unshuffle(hash, seed, indexCount)(Shuffle(hash, seed, indexCount)(i)) == i
    {
      UnshuffleShuffle(hash, i, indexCount, seed);
    }
  }

  /** The entries of `indices` at positions perm(start), ..., perm(end - 1). */
  function PermutedSlice(indices: seq<ValidatorIndex>, perm: Permutation, start: nat, end: nat): (slice: seq<ValidatorIndex>)
    requires start <= end
    requires forall i: nat :: start <= i < end ==> perm(i) < |indices|
    ensures |slice| == end - start
    ensures forall k :: 0 <= k < |slice| ==> slice[k] in indices
  {
    seq(end - start, k requires 0 <= k < end - start => indices[perm(start + k)])
  }

  /**
   * `compute_committee`: committee `index` of `count` is the slice
   * [len * index / count, len * (index + 1) / count) of the shuffled list.
   */
  function ComputeCommittee(hash: Hasher, indices: seq<ValidatorIndex>, seed: Bytes32, index: nat, count: nat)
    : (committee: seq<ValidatorIndex>)
    requires index < count
    ensures |committee| == CommitteeEnd(|indices|, index, count) - CommitteeStart(|indices|, index, count)
    ensures forall k :: 0 <= k < |committee| ==> committee[k] in indices
  {
    CommitteeBounds(|indices|, index, count);
    ShuffleHasInverse(hash, seed, |indices|);
    PermutedSlice(indices, Shuffle(hash, seed, |indices|), CommitteeStart(|indices|, index, count), CommitteeEnd(|indices|, index, count))
  }

  /** Committee sizes differ by at most one: each is the list length over the count, rounded down or up. */
  lemma CommitteeSizeBalanced(listLength: nat, index: nat, count: nat)
    requires index < count
    ensures listLength / count <= CommitteeEnd(listLength, index, count) - CommitteeStart(listLength, index, count) <= listLength / count + 1
  {
    assert listLength * (index + 1) == listLength * index + listLength;
    SumOfQuotients(listLength * index, listLength, count);
  }

  lemma SumOfQuotients(a: nat, b: nat, d: nat)
    requires d > 0
    ensures a / d + b / d <= (a + b) / d <= a / d + b / d + 1
  {
    var q, r := SumSplit(a, b, d);
    if r < d {
      DivUnique(a + b, d, q, r);
    } else {
      DivUniqueCarry(a + b, d, q, r);
    }
  }

  /** The sum of two dividends is the sum of their quotients times the divisor plus the sum of their remainders. */
  lemma SumSplit(a: nat, b: nat, d: nat) returns (q: nat, r: nat)
    requires d > 0
    ensures q == a / d + b / d && r == a % d + b % d
    ensures a + b == q * d + r && r < 2 * d
  {
    DivModParts(a, d);
    DivModParts(b, d);
    q, r := a / d + b / d, a % d + b % d;
    MulAddDistributes(a / d, b / d, d);
  }

  /** Earlier slices end no later than later slices start. */
  lemma CommitteesOrdered(listLength: nat, k1: nat, k2: nat, count: nat)
    requires k1 < k2 < count
    ensures CommitteeEnd(listLength, k1, count) <= CommitteeStart(listLength, k2, count)
  {
    MulLeMonotone(listLength, k1 + 1, k2);
    DivMonotone(listLength * (k1 + 1), listLength * k2, count);
  }

  lemma FirstSliceStartsAtZero(listLength: nat, count: nat)
    requires count > 0
    ensures CommitteeStart(listLength, 0, count) == 0
  {
    assert listLength * 0 == 0;
  }

  /** No position lies in two slices. */
  lemma SliceUnique(listLength: nat, count: nat, position: nat, k1: nat, k2: nat)
    requires k1 < count && k2 < count
    requires CommitteeStart(listLength, k1, count) <= position < CommitteeEnd(listLength, k1, count)
    requires CommitteeStart(listLength, k2, count) <= position < CommitteeEnd(listLength, k2, count)
    ensures k1 == k2
  {
    if k1 < k2 {
      CommitteesOrdered(listLength, k1, k2, count);
    } else if k2 < k1 {
      CommitteesOrdered(listLength, k2, k1, count);
    }
  }

  /** The slice that holds `position`, searching upwards from slice `k`. */
  function SliceOf(listLength: nat, count: nat, position: nat, k: nat): (r: nat)
    requires position < listLength && k < count && CommitteeStart(listLength, k, count) <= position
    ensures k <= r < count
    ensures CommitteeStart(listLength, r, count) <= position < CommitteeEnd(listLength, r, count)
    decreases count - k
  {
    DivUnique(listLength * count, count, listLength, 0);
    if position < CommitteeEnd(listLength, k, count) then k
    else SliceOf(listLength, count, position, k + 1)
  }

  lemma DistinctAt(s: seq<nat>, a: nat, b: nat)
    requires Distinct(s) && a < |s| && b < |s|
    ensures s[a] == s[b] ==> a == b
  {
  }

  /** A list entry lies in a permuted slice exactly when its preimage lies in the slice's range. */
  lemma PermutedSliceMembership(indices: seq<ValidatorIndex>, perm: Permutation, inverse: Permutation, start: nat, end: nat, j: nat)
    requires Distinct(indices) && IsInverseOn(perm, inverse, |indices|)
    requires start <= end <= |indices| && j < |indices|
    ensures indices[j] in PermutedSlice(indices, perm, start, end) <==> start <= inverse(j) < end
  {
    var slice := PermutedSlice(indices, perm, start, end);
    if indices[j] in slice {
      var m :| 0 <= m < |slice| && slice[m] == indices[j];
      DistinctAt(indices, perm(start + m), j);
    }
    if start <= inverse(j) < end {
      assert slice[inverse(j) - start] == indices[j];
    }
  }

  /** With distinct entries, a permuted slice names no validator twice. */
  lemma PermutedSliceDistinct(indices: seq<ValidatorIndex>, perm: Permutation, inverse: Permutation, start: nat, end: nat)
    requires Distinct(indices) && IsInverseOn(perm, inverse, |indices|) && start <= end <= |indices|
    ensures Distinct(PermutedSlice(indices, perm, start, end))
  {
    var slice := PermutedSlice(indices, perm, start, end);
    forall a, b | 0 <= a < b < |slice|
      ensures slice[a] != slice[b]
    {
      DistinctAt(indices, perm(start + a), perm(start + b));
    }
  }

  /** Which committees a list entry belongs to: exactly those whose slice holds its preimage under the shuffle. */
  lemma CommitteeMembership(hash: Hasher, indices: seq<ValidatorIndex>, seed: Bytes32, index: nat, count: nat, j: nat)
    requires Distinct(indices) && index < count && j < |indices|
    ensures indices[j] in ComputeCommittee(hash, indices, seed, index, count) <==>
              CommitteeStart(|indices|, index, count) <= UnshuffledIndex(hash, j, |indices|, seed) < CommitteeEnd(|indices|, index, count)
  {
    CommitteeBounds(|indices|, index, count);
    ShuffleHasInverse(hash, seed, |indices|);
    PermutedSliceMembership(indices, Shuffle(hash, seed, |indices|), Unshuffle(hash, seed, |indices|),
      CommitteeStart(|indices|, index, count), CommitteeEnd(|indices|, index, count), j);
  }

  /**
   * With distinct entries, every entry of the list lies in exactly one of the
   * `count` committees.
   */
  lemma EachIndexInOneCommittee(hash: Hasher, indices: seq<ValidatorIndex>, seed: Bytes32, count: nat, j: nat)
    requires Distinct(indices) && 0 < count && j < |indices|
    ensures exists k: nat :: k < count && indices[j] in ComputeCommittee(hash, indices, seed, k, count)
    ensures forall k1: nat, k2: nat ::
              (k1 < count && k2 < count &&
               indices[j] in ComputeCommittee(hash, indices, seed, k1, count) &&
               indices[j] in ComputeCommittee(hash, indices, seed, k2, count)) ==> k1 == k2
  {
    var u := UnshuffledIndex(hash, j, |indices|, seed);
    FirstSliceStartsAtZero(|indices|, count);
    var k := SliceOf(|indices|, count, u, 0);
    CommitteeMembership(hash, indices, seed, k, count, j);
    forall k1: nat, k2: nat | k1 < count && k2 < count &&
        indices[j] in ComputeCommittee(hash, indices, seed, k1, count) &&
        indices[j] in ComputeCommittee(hash, indices, seed, k2, count)
      ensures k1 == k2
    {
      CommitteeMembership(hash, indices, seed, k1, count, j);
      CommitteeMembership(hash, indices, seed, k2, count, j);
      SliceUnique(|indices|, count, u, k1, k2);
    }
  }

  /** With distinct entries, no committee names a validator twice. */
  lemma CommitteeDistinct(hash: Hasher, indices: seq<ValidatorIndex>, seed: Bytes32, index: nat, count: nat)
    requires Distinct(indices) && index < count
    ensures Distinct(ComputeCommittee(hash, indices, seed, index, count))
  {
    CommitteeBounds(|indices|, index, count);
    ShuffleHasInverse(hash, seed, |indices|);
    PermutedSliceDistinct(indices, Shuffle(hash, seed, |indices|), Unshuffle(hash, seed, |indices|),
      CommitteeStart(|indices|, index, count), CommitteeEnd(|indices|, index, count));
  }

  /**
   * The proposer search draws candidates i = 0, 1, ...; draw i reads byte i % 32
   * of hash(seed ++ int_to_bytes(i / 32, 8)), so it stops with an error once
   * i / 32 no longer fits in 8 bytes.
   */
  const PROPOSER_DRAW_LIMIT: nat := 32 * 0x1_0000_0000_0000_0000
  const MAX_RANDOM_BYTE: nat := 255

  /** The candidate of draw i: the validator at the shuffled position of i modulo the list length. */
  function Candidate(hash: Hasher, indices: seq<ValidatorIndex>, seed: Bytes32, i: nat): ValidatorIndex
    requires |indices| > 0
  {
    indices[ShuffledIndex(hash, i % |indices|, |indices|, seed)]
  }

  /** The random byte of draw i. */
  function RandomByte(hash: Hasher, seed: Bytes32, i: nat): (b: nat)
    ensures b <= MAX_RANDOM_BYTE
  {
    hash(seed + IntToBytes(i / 32, 8))[i % 32] as nat
  }

  /** A candidate is accepted with probability proportional to its effective balance. */
  predicate Accepts(effectiveBalance: Gwei, randomByte: nat) {
    effectiveBalance * MAX_RANDOM_BYTE >= MAX_EFFECTIVE_BALANCE * randomByte
  }

  /** Every index in the list names a validator of the registry. */
  predicate IndicesIn(indices: seq<ValidatorIndex>, validators: seq<Validator>) {
    forall k :: 0 <= k < |indices| ==> indices[k] < |validators|
  }

  /** Draw i is accepted. */
  predicate DrawAccepted(hash: Hasher, validators: seq<Validator>, indices: seq<ValidatorIndex>, seed: Bytes32, i: nat)
    requires |indices| > 0 && IndicesIn(indices, validators)
  {
    Accepts(validators[Candidate(hash, indices, seed, i)].effectiveBalance, RandomByte(hash, seed, i))
  }

  /** Acceptance of each draw, as a function of the draw number. */
  function Acceptance(hash: Hasher, validators: seq<Validator>, indices: seq<ValidatorIndex>, seed: Bytes32): nat -> bool
    requires |indices| > 0 && IndicesIn(indices, validators)
  {
    (i: nat) => DrawAccepted(hash, validators, indices, seed, i)
  }

  /** The first draw at or after `i` that `accepted` accepts, if there is one before the draw limit. */
  function FirstAcceptedDraw(accepted: nat -> bool, i: nat): (r: Option<nat>)
    ensures r.Some? ==> i <= r.value < PROPOSER_DRAW_LIMIT && accepted(r.value)
    ensures r.Some? ==> forall j :: i <= j < r.value ==> !accepted(j)
    ensures r.None? ==> forall j :: i <= j < PROPOSER_DRAW_LIMIT ==> !accepted(j)
    decreases PROPOSER_DRAW_LIMIT - i
  {
    if i >= PROPOSER_DRAW_LIMIT then None
    else if accepted(i) then Some(i)
    else FirstAcceptedDraw(accepted, i + 1)
  }

  /** A rejected draw before the limit passes the search on to the next one. */
  lemma SkipRejectedDraw(accepted: nat -> bool, i: nat)
    requires i < PROPOSER_DRAW_LIMIT && !accepted(i)
    ensures FirstAcceptedDraw(accepted, i) == FirstAcceptedDraw(accepted, i + 1)
  {
  }

  /** `compute_proposer_index`: the candidate of the first accepted draw; None where the source raises. */
  function ProposerIndex(hash: Hasher, validators: seq<Validator>, indices: seq<ValidatorIndex>, seed: Bytes32)
    : (r: Option<ValidatorIndex>)
    requires |indices| > 0 && IndicesIn(indices, validators)
    ensures r.Some? ==> r.value in indices
  {
    match FirstAcceptedDraw(Acceptance(hash, validators, indices, seed), 0)
    case Some(i) => Some(Candidate(hash, indices, seed, i))
    case None => None
  }

  /** `compute_proposer_index`, as the source's sampling loop. */
  method ComputeProposerIndex(hash: Hasher, validators: seq<Validator>, indices: seq<ValidatorIndex>, seed: Bytes32)
    returns (r: Option<ValidatorIndex>)
    requires |indices| > 0 && IndicesIn(indices, validators)
    ensures r == ProposerIndex(hash, validators, indices, seed)
  {
    ghost var accepted := Acceptance(hash, validators, indices, seed);
    var i := 0;
    while i < PROPOSER_DRAW_LIMIT
      invariant FirstAcceptedDraw(accepted, i) == FirstAcceptedDraw(accepted, 0)
      decreases PROPOSER_DRAW_LIMIT - i
    {
      var candidateIndex, isAccepted := Draw(hash, validators, indices, seed, i);
      if isAccepted {
        return Some(candidateIndex);
      }
      SkipRejectedDraw(accepted, i);
      i := i + 1;
    }
    return None;
  }

  /** One draw of the sampling loop: its candidate and whether the candidate is accepted. */
  method Draw(hash: Hasher, validators: seq<Validator>, indices: seq<ValidatorIndex>, seed: Bytes32, i: nat)
    returns (candidateIndex: ValidatorIndex, isAccepted: bool)
    requires |indices| > 0 && IndicesIn(indices, validators)
    ensures candidateIndex == Candidate(hash, indices, seed, i)
    ensures isAccepted == Acceptance(hash, validators, indices, seed)(i)
  {
    var digest := hash(seed + IntToBytes(i / 32, 8));
    var randomByte := digest[i % 32];
    assert randomByte as nat == RandomByte(hash, seed, i);
    var total := |indices|;
    var shuffled := ComputeShuffledIndex(hash, i % total, total, seed);
    candidateIndex := indices[shuffled];
    var effectiveBalance := validators[candidateIndex].effectiveBalance;
    isAccepted := effectiveBalance * MAX_RANDOM_BYTE >= MAX_EFFECTIVE_BALANCE * randomByte as nat;
  }

  /** A candidate at the maximum effective balance is always accepted. */
  lemma FullBalanceAccepted(effectiveBalance: Gwei, randomByte: nat)
    requires effectiveBalance >= MAX_EFFECTIVE_BALANCE && randomByte <= MAX_RANDOM_BYTE
    ensures Accepts(effectiveBalance, randomByte)
  {
    MulLeMonotone(MAX_EFFECTIVE_BALANCE, randomByte, MAX_RANDOM_BYTE);
    MulLeMonotone(MAX_RANDOM_BYTE, MAX_EFFECTIVE_BALANCE, effectiveBalance);
  }

  /** When every listed validator has the maximum effective balance, the first draw's candidate proposes. */
  lemma AllFullBalanceFirstCandidateProposes(hash: Hasher, validators: seq<Validator>, indices: seq<ValidatorIndex>, seed: Bytes32)
    requires |indices| > 0 && IndicesIn(indices, validators)
    requires forall k :: 0 <= k < |indices| ==> validators[indices[k]].effectiveBalance >= MAX_EFFECTIVE_BALANCE
    ensures ProposerIndex(hash, validators, indices, seed) == Some(Candidate(hash, indices, seed, 0))
  {
    var c := Candidate(hash, indices, seed, 0);
    assert c == indices[ShuffledIndex(hash, 0, |indices|, seed)];
    FullBalanceAccepted(validators[c].effectiveBalance, RandomByte(hash, seed, 0));
  }
}
