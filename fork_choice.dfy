/**
 * The phase-0 fork choice as values: the `Store` a node keeps (blocks, the
 * states after them, the states at checkpoints, each validator's latest
 * message), the ancestry and LMD-GHOST queries over it, and the handlers for a
 * clock tick, a block and an attestation. A Python dictionary is a map here;
 * the store's block dictionary also keeps its keys in insertion order
 * (`blockOrder`), the order in which the source walks them. A lookup of a missing
 * key, or an assertion that fails, is `None`.
 */
module ForkChoice {
  import opened Wrappers
  import opened Constants
  import opened Types
  import opened Helpers
  import opened IntegerMath
  import EpochProcessing
  import BlockProcessing

  /** A validator's most recent vote: the target epoch and the voted block. */
  datatype LatestMessage = LatestMessage(epoch: Epoch, root: Root)

  /** The store keeps the anchor as its header and every later block as the block itself. */
  datatype StoredBlock = AnchorHeader(header: BeaconBlockHeader) | ReceivedBlock(block: BeaconBlock)

  function SlotOf(b: StoredBlock): Slot {
    match b
    case AnchorHeader(header) => header.slot
    case ReceivedBlock(block) => block.slot
  }

  function ParentOf(b: StoredBlock): Root {
    match b
    case AnchorHeader(header) => header.parentRoot
    case ReceivedBlock(block) => block.parentRoot
  }

  datatype Store = Store(
    time: nat,
    genesisTime: nat,
    justifiedCheckpoint: Checkpoint,
    finalizedCheckpoint: Checkpoint,
    bestJustifiedCheckpoint: Checkpoint,
    blocks: map<Root, StoredBlock>,
    blockOrder: seq<Root>,
    blockStates: map<Root, State>,
    checkpointStates: map<Checkpoint, State>,
    latestMessages: map<ValidatorIndex, LatestMessage>)

  predicate Distinct<T(==)>(xs: seq<T>) {
    forall i, j :: 0 <= i < j < |xs| ==> xs[i] != xs[j]
  }

  /**
   * What every store built by `get_forkchoice_store` and changed by the handlers
   * keeps: the clock is not before genesis, the block order lists each stored
   * root once, every stored block has its post-state and every stored state is
   * one the state transition can start from.
   */
  ghost predicate StoreInvariant(store: Store) {
    store.genesisTime <= store.time && BlocksIndexed(store) && StatesUsable(store)
  }

  ghost predicate BlocksIndexed(store: Store) {
    Distinct(store.blockOrder) && (forall r :: r in store.blocks <==> r in store.blockOrder) &&
    store.blocks.Keys == store.blockStates.Keys
  }

  ghost predicate StatesUsable(store: Store) {
    (forall r :: r in store.blockStates ==> WellFormed(store.blockStates[r]) && EpochProcessing.CheckpointsOrdered(store.blockStates[r])) &&
    (forall c :: c in store.checkpointStates ==> WellFormed(store.checkpointStates[c]))
  }

  lemma AppendKeepsDistinct<T>(xs: seq<T>, x: T)
    requires Distinct(xs) && x !in xs
    ensures Distinct(xs + [x])
  {
    var ys := xs + [x];
    forall i, j | 0 <= i < j < |ys| ensures ys[i] != ys[j] {
      if j == |xs| {
        assert ys[i] == xs[i];
      }
    }
  }

  // ---------------------------------------------------------------------------
  // The clock

  /** `get_current_slot`: the whole slots elapsed since genesis. */
  function CurrentSlot(store: Store): (r: Slot)
    requires store.genesisTime <= store.time
    ensures store.genesisTime + r * SECONDS_PER_SLOT <= store.time < store.genesisTime + (r + 1) * SECONDS_PER_SLOT
  {
    GENESIS_SLOT + (store.time - store.genesisTime) / SECONDS_PER_SLOT
  }

  /** `compute_slots_since_epoch_start`: the position of a slot within its epoch. */
  function SlotsSinceEpochStart(slot: Slot): (r: nat)
    ensures r == slot % SLOTS_PER_EPOCH
  {
    SlotWithinItsEpoch(slot);
    slot - ComputeStartSlotAtEpoch(ComputeEpochAtSlot(slot))
  }

  // ---------------------------------------------------------------------------
  // Ancestry

  /**
   * `get_ancestor`: follow parent links from `root` until a block at or before
   * `slot`. The walk fails on a root the store does not hold, and after `fuel`
   * steps, where the source would recurse without end on a cycle of parent links.
   */
  function AncestorWithin(blocks: map<Root, StoredBlock>, root: Root, slot: Slot, fuel: nat): (r: Option<Root>)
    ensures r.Some? ==> r.value in blocks && SlotOf(blocks[r.value]) <= slot
    decreases fuel
  {
    if root !in blocks then None
    else if SlotOf(blocks[root]) > slot then
      if fuel == 0 then None else AncestorWithin(blocks, ParentOf(blocks[root]), slot, fuel - 1)
    else Some(root)
  }

  /** `get_ancestor` over the store, allowing one step per stored block. */
  function GetAncestor(store: Store, root: Root, slot: Slot): Option<Root> {
    AncestorWithin(store.blocks, root, slot, |store.blocks|)
  }

  /** A block at or before the slot is its own ancestor there, so asking again for an ancestor's ancestor answers the same. */
  lemma AncestorIdempotent(blocks: map<Root, StoredBlock>, root: Root, slot: Slot, fuel: nat, fuel': nat)
    requires AncestorWithin(blocks, root, slot, fuel).Some?
    ensures var a := AncestorWithin(blocks, root, slot, fuel).value;
            AncestorWithin(blocks, a, slot, fuel') == Some(a)
  {
  }

  /** An answer found with some fuel is found with more. */
  lemma {:induction false} AncestorMoreFuel(blocks: map<Root, StoredBlock>, root: Root, slot: Slot, fuel: nat, more: nat)
    requires AncestorWithin(blocks, root, slot, fuel).Some? && fuel <= more
    ensures AncestorWithin(blocks, root, slot, more) == AncestorWithin(blocks, root, slot, fuel)
    decreases fuel
  {
    if root in blocks && SlotOf(blocks[root]) > slot {
      AncestorMoreFuel(blocks, ParentOf(blocks[root]), slot, fuel - 1, more - 1);
    }
  }

  /** Storing a block under a new root leaves every ancestry answer the store already gave unchanged. */
  lemma {:induction false} AncestorStableUnderInsert(blocks: map<Root, StoredBlock>, root: Root, slot: Slot, fuel: nat,
                                                     newRoot: Root, newBlock: StoredBlock)
    requires newRoot !in blocks && AncestorWithin(blocks, root, slot, fuel).Some?
    ensures AncestorWithin(blocks[newRoot := newBlock], root, slot, fuel) == AncestorWithin(blocks, root, slot, fuel)
    decreases fuel
  {
    if SlotOf(blocks[root]) > slot {
      AncestorStableUnderInsert(blocks, ParentOf(blocks[root]), slot, fuel - 1, newRoot, newBlock);
    }
  }

  // ---------------------------------------------------------------------------
  // LMD-GHOST

  /** The part of the latest attesting balance contributed by the validators in `indices`. */
  function AttestingBalanceFrom(store: Store, state: State, root: Root, indices: seq<ValidatorIndex>): (r: Option<Gwei>)
    requires forall k :: 0 <= k < |indices| ==> indices[k] < |state.validators|
  {
    if |indices| == 0 then Some(0)
    else
      var i := indices[0];
      var contribution :=
        if i !in store.latestMessages then Some(0)
        else if root !in store.blocks then None
        else match GetAncestor(store, store.latestMessages[i].root, SlotOf(store.blocks[root]))
          case None => None
          case Some(ancestor) => Some(if ancestor == root then state.validators[i].effectiveBalance else 0);
      match contribution
      case None => None
      case Some(c) =>
        match AttestingBalanceFrom(store, state, root, indices[1..])
        case None => None
        case Some(rest) => Some(c + rest)
  }

  /** The effective balances of the validators in `indices`, added up. */
  function EffectiveBalanceTotal(state: State, indices: seq<ValidatorIndex>): nat
    requires forall k :: 0 <= k < |indices| ==> indices[k] < |state.validators|
  {
    if |indices| == 0 then 0 else state.validators[indices[0]].effectiveBalance + EffectiveBalanceTotal(state, indices[1..])
  }

  /** The support of a block never exceeds the effective balance of the validators counted. */
  lemma {:induction false} AttestingBalanceBounded(store: Store, state: State, root: Root, indices: seq<ValidatorIndex>)
    requires forall k :: 0 <= k < |indices| ==> indices[k] < |state.validators|
    requires AttestingBalanceFrom(store, state, root, indices).Some?
    ensures AttestingBalanceFrom(store, state, root, indices).value <= EffectiveBalanceTotal(state, indices)
  {
    if |indices| > 0 {
      AttestingBalanceBounded(store, state, root, indices[1..]);
    }
  }

  /**
   * `get_latest_attesting_balance`: the effective balance, in the justified
   * checkpoint's state, of the active validators whose latest message votes for
   * `root` or a descendant of it.
   */
  function LatestAttestingBalance(store: Store, root: Root): (r: Option<Gwei>)
    ensures r.Some? ==> store.justifiedCheckpoint in store.checkpointStates
  {
    if store.justifiedCheckpoint !in store.checkpointStates then None
    else
      var state := store.checkpointStates[store.justifiedCheckpoint];
      AttestingBalanceFrom(store, state, root, ActiveValidatorIndices(state.validators, CurrentEpoch(state)))
  }

  /** The roots in `order` of stored blocks whose parent is `parent`, in that order. */
  function ChildrenIn(blocks: map<Root, StoredBlock>, order: seq<Root>, parent: Root): (r: seq<Root>)
    ensures forall k :: 0 <= k < |r| ==> r[k] in blocks && ParentOf(blocks[r[k]]) == parent && r[k] in order
    ensures forall x :: x in order && x in blocks && ParentOf(blocks[x]) == parent ==> x in r
  {
    if |order| == 0 then []
    else
      var rest := ChildrenIn(blocks, order[1..], parent);
      if order[0] in blocks && ParentOf(blocks[order[0]]) == parent then [order[0]] + rest else rest
  }

  /** A leaf agrees with the store when its state has the store's justified and finalized checkpoints (or those are at genesis). */
  predicate LeafAgrees(store: Store, head: State) {
    (store.justifiedCheckpoint.epoch == GENESIS_EPOCH || head.currentJustifiedCheckpoint == store.justifiedCheckpoint) &&
    (store.finalizedCheckpoint.epoch == GENESIS_EPOCH || head.finalizedCheckpoint == store.finalizedCheckpoint)
  }

  /** `after` holds every entry of `blocks`, and its other entries are stored blocks. */
  predicate Extends(store: Store, blocks: map<Root, StoredBlock>, after: map<Root, StoredBlock>) {
    blocks.Keys <= after.Keys &&
    forall k :: k in after ==> (k in blocks && after[k] == blocks[k]) || (k in store.blocks && after[k] == store.blocks[k])
  }

  lemma ExtendsTransitive(store: Store, a: map<Root, StoredBlock>, b: map<Root, StoredBlock>, c: map<Root, StoredBlock>)
    requires Extends(store, a, b) && Extends(store, b, c)
    ensures Extends(store, a, c)
  {
  }

  /**
   * `filter_block_tree`: a block is viable when it is a leaf whose state agrees
   * with the store, or when any of its children is viable; viable blocks are
   * added to `blocks`, every child being visited in the store's order. The
   * answer and the enlarged dictionary are returned together.
   */
  function FilterBlockTree(store: Store, root: Root, blocks: map<Root, StoredBlock>, fuel: nat): (r: Option<(bool, map<Root, StoredBlock>)>)
    ensures r.Some? ==> root in store.blocks && Extends(store, blocks, r.value.1)
    ensures r.Some? ==> (r.value.0 ==> root in r.value.1) && (!r.value.0 ==> r.value.1 == blocks)
    decreases fuel, 0
  {
    if root !in store.blocks then None
    else
      var block := store.blocks[root];
      var children := ChildrenIn(store.blocks, store.blockOrder, root);
      if |children| > 0 then
        if fuel == 0 then None
        else match FilterEach(store, children, blocks, fuel - 1)
          case None => None
          case Some((anyViable, after)) => if anyViable then Some((true, after[root := block])) else Some((false, after))
      else if root !in store.blockStates then None
      else if LeafAgrees(store, store.blockStates[root]) then Some((true, blocks[root := block]))
      else Some((false, blocks))
  }

  /** The children of one block, filtered one after the other; viable if any of them is. */
  function FilterEach(store: Store, children: seq<Root>, blocks: map<Root, StoredBlock>, fuel: nat): (r: Option<(bool, map<Root, StoredBlock>)>)
    ensures r.Some? ==> Extends(store, blocks, r.value.1)
    ensures r.Some? ==> (!r.value.0 ==> r.value.1 == blocks)
    decreases fuel, |children|
  {
    if |children| == 0 then Some((false, blocks))
    else match FilterBlockTree(store, children[0], blocks, fuel)
      case None => None
      case Some((viable, after)) =>
        match FilterEach(store, children[1..], after, fuel)
        case None => None
        case Some((restViable, final)) =>
          ExtendsTransitive(store, blocks, after, final);
          Some((viable || restViable, final))
  }

  /** `get_filtered_block_tree`: the viable blocks below the justified checkpoint's root. */
  function GetFilteredBlockTree(store: Store): (r: Option<map<Root, StoredBlock>>)
    ensures r.Some? ==> forall k :: k in r.value ==> k in store.blocks && r.value[k] == store.blocks[k]
  {
    match FilterBlockTree(store, store.justifiedCheckpoint.root, map[], |store.blocks|)
    case None => None
    case Some((_, blocks)) => Some(blocks)
  }

  /** Byte strings compared as Python compares `bytes`: lexicographically, a proper prefix first. */
  predicate LexLess(a: seq<byte>, b: seq<byte>)
    decreases |a|
  {
    |b| > 0 && (|a| == 0 || a[0] < b[0] || (a[0] == b[0] && LexLess(a[1..], b[1..])))
  }

  lemma {:induction false} LexLessIrreflexive(a: seq<byte>)
    ensures !LexLess(a, a)
    decreases |a|
  {
    if |a| > 0 {
      LexLessIrreflexive(a[1..]);
    }
  }

  lemma {:induction false} LexLessTransitive(a: seq<byte>, b: seq<byte>, c: seq<byte>)
    requires LexLess(a, b) && LexLess(b, c)
    ensures LexLess(a, c)
    decreases |a|
  {
    if |a| > 0 && a[0] == b[0] && b[0] == c[0] {
      LexLessTransitive(a[1..], b[1..], c[1..]);
    }
  }

  /** Two different byte strings of the same length are ordered one way or the other. */
  lemma {:induction false} LexLessTotal(a: seq<byte>, b: seq<byte>)
    requires |a| == |b| && a != b
    ensures LexLess(a, b) || LexLess(b, a)
    decreases |a|
  {
    assert a == [a[0]] + a[1..] && b == [b[0]] + b[1..];
    if a[0] == b[0] {
      LexLessTotal(a[1..], b[1..]);
    }
  }

  /** The key `get_head` maximises: the latest attesting balance, then the root. */
  predicate KeyLess(w1: Gwei, r1: Root, w2: Gwei, r2: Root) {
    w1 < w2 || (w1 == w2 && LexLess(r1, r2))
  }

  lemma KeyLessTransitive(w1: Gwei, r1: Root, w2: Gwei, r2: Root, w3: Gwei, r3: Root)
    requires KeyLess(w1, r1, w2, r2) && KeyLess(w2, r2, w3, r3)
    ensures KeyLess(w1, r1, w3, r3)
  {
    if w1 == w2 == w3 {
      LexLessTransitive(r1, r2, r3);
    }
  }

  lemma KeyLessAsymmetric(w1: Gwei, r1: Root, w2: Gwei, r2: Root)
    requires KeyLess(w1, r1, w2, r2)
    ensures !KeyLess(w2, r2, w1, r1)
  {
    if w1 == w2 && LexLess(r2, r1) {
      LexLessTransitive(r1, r2, r1);
      LexLessIrreflexive(r1);
    }
  }

  /** The weight `get_head` gives a candidate block, known to be computable. */
  function Weight(store: Store, root: Root): Gwei
    requires LatestAttestingBalance(store, root).Some?
  {
    LatestAttestingBalance(store, root).value
  }

  /** Every candidate has a weight, and none has a key above (w, best). */
  ghost predicate NoneAbove(store: Store, candidates: seq<Root>, w: Gwei, best: Root) {
    forall c :: c in candidates ==> LatestAttestingBalance(store, c).Some? && !KeyLess(w, best, Weight(store, c), c)
  }

  /**
   * Python's `max` over `candidates` by that key: the first candidate whose key
   * no later one exceeds, with its balance. None when a balance cannot be computed.
   */
  function Heaviest(store: Store, candidates: seq<Root>): (r: Option<(Root, Gwei)>)
    requires |candidates| > 0
    ensures r.Some? ==> r.value.0 in candidates && LatestAttestingBalance(store, r.value.0) == Some(r.value.1)
  {
    var first := candidates[0];
    match LatestAttestingBalance(store, first)
    case None => None
    case Some(w) =>
      if |candidates| == 1 then Some((first, w))
      else match Heaviest(store, candidates[1..])
        case None => None
        case Some((best, bestWeight)) =>
          if KeyLess(w, first, bestWeight, best) then Some((best, bestWeight)) else Some((first, w))
  }

  /** The candidate `max` picks has a key no other candidate exceeds. */
  lemma {:induction false} HeaviestIsMaximal(store: Store, candidates: seq<Root>)
    requires |candidates| > 0 && Heaviest(store, candidates).Some?
    ensures NoneAbove(store, candidates, Heaviest(store, candidates).value.1, Heaviest(store, candidates).value.0)
  {
    var first := candidates[0];
    var w := LatestAttestingBalance(store, first).value;
    LexLessIrreflexive(first);
    if |candidates| > 1 {
      HeaviestIsMaximal(store, candidates[1..]);
      var (best, bestWeight) := Heaviest(store, candidates[1..]).value;
      if KeyLess(w, first, bestWeight, best) {
        KeyLessAsymmetric(w, first, bestWeight, best);
        assert candidates == [first] + candidates[1..];
      } else {
        HeaviestKeepsFirst(store, candidates, w, best, bestWeight);
      }
    }
  }

  /** `max` fails exactly when some candidate's balance cannot be computed. */
  lemma {:induction false} HeaviestFails(store: Store, candidates: seq<Root>)
    requires |candidates| > 0
    ensures Heaviest(store, candidates).None? <==> exists c :: c in candidates && LatestAttestingBalance(store, c).None?
  {
    if |candidates| > 1 {
      HeaviestFails(store, candidates[1..]);
      assert candidates == [candidates[0]] + candidates[1..];
    }
  }

  /** When the first candidate's key is not below the best of the others, it is not below any of them. */
  lemma HeaviestKeepsFirst(store: Store, candidates: seq<Root>, w: Gwei, best: Root, bestWeight: Gwei)
    requires |candidates| > 1 && LatestAttestingBalance(store, candidates[0]) == Some(w)
    requires !KeyLess(w, candidates[0], bestWeight, best) && NoneAbove(store, candidates[1..], bestWeight, best)
    ensures NoneAbove(store, candidates, w, candidates[0])
  {
    assert candidates == [candidates[0]] + candidates[1..];
    forall c | c in candidates
      ensures LatestAttestingBalance(store, c).Some? && !KeyLess(w, candidates[0], Weight(store, c), c)
    {
      if c == candidates[0] {
        LexLessIrreflexive(c);
      } else {
        assert c in candidates[1..];
        var wc := Weight(store, c);
        if KeyLess(w, candidates[0], wc, c) {
          if w == bestWeight && candidates[0] == best {
          } else {
            if !KeyLess(bestWeight, best, w, candidates[0]) {
              LexLessTotal(candidates[0], best);
            }
            KeyLessTransitive(bestWeight, best, w, candidates[0], wc, c);
          }
        }
      }
    }
  }

  /** The children `get_head` considers: filtered blocks on `head` later than the justified slot, in store order. */
  function HeadChildren(store: Store, filtered: map<Root, StoredBlock>, head: Root, justifiedSlot: Slot): seq<Root>
  {
    HeadChildrenIn(filtered, store.blockOrder, head, justifiedSlot)
  }

  function HeadChildrenIn(filtered: map<Root, StoredBlock>, order: seq<Root>, head: Root, justifiedSlot: Slot): seq<Root>
  {
    if |order| == 0 then []
    else
      var rest := HeadChildrenIn(filtered, order[1..], head, justifiedSlot);
      var x := order[0];
      if x in filtered && ParentOf(filtered[x]) == head && SlotOf(filtered[x]) > justifiedSlot then [x] + rest else rest
  }

  /** A child considered is exactly a filtered block of `order` on `head` later than the justified slot. */
  lemma {:induction false} HeadChildrenExact(filtered: map<Root, StoredBlock>, order: seq<Root>, head: Root, justifiedSlot: Slot, x: Root)
    ensures x in HeadChildrenIn(filtered, order, head, justifiedSlot) <==>
            x in order && x in filtered && ParentOf(filtered[x]) == head && SlotOf(filtered[x]) > justifiedSlot
  {
    if |order| > 0 {
      HeadChildrenExact(filtered, order[1..], head, justifiedSlot, x);
      assert order == [order[0]] + order[1..];
    }
  }

  /**
   * The walk of `get_head` from `head`: stop at a block without children to
   * consider, otherwise move to the heaviest child. `fuel` bounds the steps,
   * where the source would loop without end on a cycle of parent links.
   */
  function HeadWalk(store: Store, filtered: map<Root, StoredBlock>, head: Root, justifiedSlot: Slot, fuel: nat): Option<Root>
    decreases fuel
  {
    var children := HeadChildren(store, filtered, head, justifiedSlot);
    if |children| == 0 then Some(head)
    else if fuel == 0 then None
    else match Heaviest(store, children)
      case None => None
      case Some((child, _)) => HeadWalk(store, filtered, child, justifiedSlot, fuel - 1)
  }

  /** The walk ends at `head` itself or at a filtered block, and there no child is left to consider. */
  lemma {:induction false} HeadWalkEndsAtLeaf(store: Store, filtered: map<Root, StoredBlock>, head: Root, justifiedSlot: Slot, fuel: nat)
    requires HeadWalk(store, filtered, head, justifiedSlot, fuel).Some?
    ensures var r := HeadWalk(store, filtered, head, justifiedSlot, fuel).value;
            HeadChildren(store, filtered, r, justifiedSlot) == [] && (r == head || r in filtered)
    decreases fuel
  {
    var children := HeadChildren(store, filtered, head, justifiedSlot);
    if |children| > 0 {
      var child := Heaviest(store, children).value.0;
      HeadWalkEndsAtLeaf(store, filtered, child, justifiedSlot, fuel - 1);
      HeadChildrenExact(filtered, store.blockOrder, head, justifiedSlot, child);
    }
  }

  /** One step of the walk: to the heaviest child. */
  lemma HeadWalkStep(store: Store, filtered: map<Root, StoredBlock>, head: Root, justifiedSlot: Slot, fuel: nat,
                     next: Root, nextFuel: nat)
    requires |HeadChildren(store, filtered, head, justifiedSlot)| > 0 && fuel == nextFuel + 1
    requires Heaviest(store, HeadChildren(store, filtered, head, justifiedSlot)).Some?
    requires next == Heaviest(store, HeadChildren(store, filtered, head, justifiedSlot)).value.0
    ensures HeadWalk(store, filtered, head, justifiedSlot, fuel) == HeadWalk(store, filtered, next, justifiedSlot, nextFuel)
  {
    var children := HeadChildren(store, filtered, head, justifiedSlot);
    match Heaviest(store, children)
    case Some((child, _)) =>
      assert child == next;
  }

  /** What `get_head` answers: the end of the walk from the justified root through the filtered tree. */
  function Head(store: Store): (r: Option<Root>)
  {
    match GetFilteredBlockTree(store)
    case None => None
    case Some(filtered) =>
      HeadWalk(store, filtered, store.justifiedCheckpoint.root,
               ComputeStartSlotAtEpoch(store.justifiedCheckpoint.epoch), |store.blocks|)
  }

  /**
   * The head `get_head` returns is the justified root or a viable stored block,
   * and no viable block later than the justified slot builds on it.
   */
  lemma HeadIsViableLeaf(store: Store)
    requires Head(store).Some?
    ensures var head := Head(store).value;
            var filtered := GetFilteredBlockTree(store).value;
            (head == store.justifiedCheckpoint.root || (head in filtered && head in store.blocks)) &&
            forall x :: x in store.blockOrder && x in filtered && ParentOf(filtered[x]) == head ==>
              SlotOf(filtered[x]) <= ComputeStartSlotAtEpoch(store.justifiedCheckpoint.epoch)
  {
    var filtered := GetFilteredBlockTree(store).value;
    var head := Head(store).value;
    var justifiedSlot := ComputeStartSlotAtEpoch(store.justifiedCheckpoint.epoch);
    HeadWalkEndsAtLeaf(store, filtered, store.justifiedCheckpoint.root, justifiedSlot, |store.blocks|);
    forall x | x in store.blockOrder && x in filtered && ParentOf(filtered[x]) == head
      ensures SlotOf(filtered[x]) <= justifiedSlot
    {
      HeadChildrenExact(filtered, store.blockOrder, head, justifiedSlot, x);
    }
  }

  /**
   * `get_head`: filter the block tree, then from the justified root repeatedly
   * move to the child with the greatest latest attesting balance, ties broken
   * by the greater root.
   */
  method GetHead(store: Store) returns (head: Option<Root>)
    ensures head == Head(store)
  {
    var tree := GetFilteredBlockTree(store);
    if tree.None? {
      return None;
    }
    var filtered := tree.value;
    var current := store.justifiedCheckpoint.root;
    var justifiedSlot := ComputeStartSlotAtEpoch(store.justifiedCheckpoint.epoch);
    var fuel: nat := |store.blocks|;
    ghost var walk := HeadWalk(store, filtered, current, justifiedSlot, fuel);
    assert walk == Head(store);
    while true
      invariant HeadWalk(store, filtered, current, justifiedSlot, fuel) == walk
      decreases fuel
    {
      var children := HeadChildren(store, filtered, current, justifiedSlot);
      if |children| == 0 {
        return Some(current);
      }
      if fuel == 0 {
        return None;
      }
      var best := Heaviest(store, children);
      if best.None? {
        return None;
      }
      var next: Root, nextFuel: nat := best.value.0, fuel - 1;
      HeadWalkStep(store, filtered, current, justifiedSlot, fuel, next, nextFuel);
      current, fuel := next, nextFuel;
    }
  }

  // ---------------------------------------------------------------------------
  // The anchor

  /**
   * `get_forkchoice_store`: a store holding only the anchor state's latest
   * header (with its state root filled in when still zero), the anchor state,
   * and the anchor as justified, finalized and best justified checkpoint.
   */
  function GetForkchoiceStore(env: Env, anchor: State): (r: Store)
    ensures r.genesisTime == anchor.genesisTime <= r.time && CurrentSlot(r) == anchor.slot
    ensures r.justifiedCheckpoint == r.finalizedCheckpoint == r.bestJustifiedCheckpoint
    ensures r.justifiedCheckpoint.epoch == CurrentEpoch(anchor)
    ensures r.blocks.Keys == r.blockStates.Keys == {r.justifiedCheckpoint.root}
    ensures r.blockStates[r.justifiedCheckpoint.root] == anchor && r.checkpointStates == map[r.justifiedCheckpoint := anchor]
    ensures r.latestMessages == map[]
  {
    var header := anchor.latestBlockHeader;
    var anchorHeader := if header.stateRoot == ZERO_BYTES32 then header.(stateRoot := env.stateRoot(anchor)) else header;
    var anchorRoot := env.headerRoot(anchorHeader);
    var checkpoint := Checkpoint(CurrentEpoch(anchor), anchorRoot);
    AnchorClock(anchor.genesisTime, anchor.slot);
    Store(anchor.genesisTime + SECONDS_PER_SLOT * anchor.slot, anchor.genesisTime,
          checkpoint, checkpoint, checkpoint,
          map[anchorRoot := AnchorHeader(anchorHeader)], [anchorRoot],
          map[anchorRoot := anchor], map[checkpoint := anchor], map[])
  }

  lemma AnchorClock(genesisTime: nat, slot: Slot)
    ensures (SECONDS_PER_SLOT * slot) / SECONDS_PER_SLOT == slot
  {
    DivUnique(SECONDS_PER_SLOT * slot, SECONDS_PER_SLOT, slot, 0);
  }

  /** A store built from a well-formed anchor state keeps the store invariant. */
  lemma AnchorStoreInvariant(env: Env, anchor: State)
    requires WellFormed(anchor) && EpochProcessing.CheckpointsOrdered(anchor)
    ensures StoreInvariant(GetForkchoiceStore(env, anchor))
  {
  }

  // ---------------------------------------------------------------------------
  // Handlers

  /**
   * `should_update_justified_checkpoint`: in the first slots of an epoch any new
   * justified checkpoint is taken; later only one whose block descends from the
   * current justified block. None where the ancestry lookup fails.
   */
  function ShouldUpdateJustifiedCheckpoint(store: Store, newJustified: Checkpoint): (r: Option<bool>)
    requires store.genesisTime <= store.time
    ensures SlotsSinceEpochStart(CurrentSlot(store)) < SAFE_SLOTS_TO_UPDATE_JUSTIFIED ==> r == Some(true)
    ensures SlotsSinceEpochStart(CurrentSlot(store)) >= SAFE_SLOTS_TO_UPDATE_JUSTIFIED ==>
              (r.Some? <==> GetAncestor(store, newJustified.root, ComputeStartSlotAtEpoch(store.justifiedCheckpoint.epoch)).Some?)
    ensures r == Some(false) ==>
              GetAncestor(store, newJustified.root, ComputeStartSlotAtEpoch(store.justifiedCheckpoint.epoch)) != Some(store.justifiedCheckpoint.root)
  {
    if SlotsSinceEpochStart(CurrentSlot(store)) < SAFE_SLOTS_TO_UPDATE_JUSTIFIED then Some(true)
    else
      var justifiedSlot := ComputeStartSlotAtEpoch(store.justifiedCheckpoint.epoch);
      match GetAncestor(store, newJustified.root, justifiedSlot)
      case None => None
      case Some(ancestor) => Some(ancestor == store.justifiedCheckpoint.root)
  }

  /**
   * `validate_on_attestation`: the target is the current or previous epoch and
   * the epoch of the attested slot, the target and attested blocks are stored,
   * the attested block is not after the attested slot, the target is its
   * ancestor at the target's start slot, and the attested slot is past.
   */
  predicate ValidateOnAttestation(store: Store, attestation: Attestation)
    requires store.genesisTime <= store.time
  {
    var target := attestation.data.target;
    var currentEpoch := ComputeEpochAtSlot(CurrentSlot(store));
    var previousEpoch := if currentEpoch > GENESIS_EPOCH then currentEpoch - 1 else GENESIS_EPOCH;
    (target.epoch == currentEpoch || target.epoch == previousEpoch) &&
    target.epoch == ComputeEpochAtSlot(attestation.data.slot) &&
    target.root in store.blocks &&
    attestation.data.beaconBlockRoot in store.blocks &&
    SlotOf(store.blocks[attestation.data.beaconBlockRoot]) <= attestation.data.slot &&
    GetAncestor(store, attestation.data.beaconBlockRoot, ComputeStartSlotAtEpoch(target.epoch)) == Some(target.root) &&
    CurrentSlot(store) >= attestation.data.slot + 1
  }

  /** An accepted attestation is for a slot strictly before the store's current slot, and at most one epoch old. */
  lemma ValidAttestationIsRecent(store: Store, attestation: Attestation)
    requires store.genesisTime <= store.time && ValidateOnAttestation(store, attestation)
    ensures attestation.data.slot < CurrentSlot(store)
    ensures ComputeEpochAtSlot(CurrentSlot(store)) <= attestation.data.target.epoch + 1
    ensures attestation.data.target.epoch <= ComputeEpochAtSlot(CurrentSlot(store))
  {
  }

  /**
   * `store_target_checkpoint_state`: the first time a target is seen, the state
   * of its block is stored for it (the source leaves the slot advance commented
   * out). None where the target's block has no state.
   */
  function StoreTargetCheckpointState(store: Store, target: Checkpoint): (r: Option<Store>)
    ensures r.Some? <==> target in store.checkpointStates || target.root in store.blockStates
    ensures r.Some? ==> r.value.checkpointStates.Keys == store.checkpointStates.Keys + {target}
    ensures r.Some? && target in store.checkpointStates ==> r.value == store
    ensures r.Some? && target !in store.checkpointStates ==>
              r.value == store.(checkpointStates := store.checkpointStates[target := store.blockStates[target.root]])
  {
    if target in store.checkpointStates then Some(store)
    else if target.root !in store.blockStates then None
    else Some(store.(checkpointStates := store.checkpointStates[target := store.blockStates[target.root]]))
  }

  /** One validator's vote: recorded when it has none or the new target epoch is later. */
  function RecordMessage(messages: map<ValidatorIndex, LatestMessage>, i: ValidatorIndex, epoch: Epoch, root: Root): map<ValidatorIndex, LatestMessage> {
    if i !in messages || epoch > messages[i].epoch then messages[i := LatestMessage(epoch, root)] else messages
  }

  /** `update_latest_messages`: record the vote of each attesting index in turn. */
  function UpdateLatestMessages(messages: map<ValidatorIndex, LatestMessage>, indices: seq<ValidatorIndex>, epoch: Epoch, root: Root): map<ValidatorIndex, LatestMessage>
  {
    if |indices| == 0 then messages
    else RecordMessage(UpdateLatestMessages(messages, indices[..|indices| - 1], epoch, root), indices[|indices| - 1], epoch, root)
  }

  /**
   * After the update every attesting validator has a message, a message is
   * replaced by the new vote exactly when the validator attested and had no
   * message or one for an earlier epoch, and every other message is kept.
   */
  lemma {:induction false} UpdateLatestMessagesExact(messages: map<ValidatorIndex, LatestMessage>, indices: seq<ValidatorIndex>,
                                                     epoch: Epoch, root: Root, v: ValidatorIndex)
    ensures var r := UpdateLatestMessages(messages, indices, epoch, root);
            (v in r <==> v in messages || v in indices) &&
            (v in indices && (v !in messages || epoch > messages[v].epoch) ==> r[v] == LatestMessage(epoch, root)) &&
            (v in messages && !(v in indices && epoch > messages[v].epoch) ==> r[v] == messages[v])
  {
    if |indices| > 0 {
      var prefix := indices[..|indices| - 1];
      UpdateLatestMessagesExact(messages, prefix, epoch, root, v);
      assert indices == prefix + [indices[|indices| - 1]];
    }
  }

  /** No latest message moves to an earlier epoch, and none disappears. */
  lemma {:induction false} UpdateLatestMessagesMonotone(messages: map<ValidatorIndex, LatestMessage>, indices: seq<ValidatorIndex>,
                                                        epoch: Epoch, root: Root, v: ValidatorIndex)
    requires v in messages
    ensures var r := UpdateLatestMessages(messages, indices, epoch, root);
            v in r && r[v].epoch >= messages[v].epoch
  {
    UpdateLatestMessagesExact(messages, indices, epoch, root, v);
  }

  /**
   * `on_tick`: set the time; on entering a new epoch, take the best justified
   * checkpoint when it is later than the justified one.
   */
  function OnTick(store: Store, time: nat): (r: Store)
    requires store.genesisTime <= store.time && store.genesisTime <= time
  {
    var previousSlot := CurrentSlot(store);
    var ticked := store.(time := time);
    var currentSlot := CurrentSlot(ticked);
    if !(currentSlot > previousSlot && SlotsSinceEpochStart(currentSlot) == 0) then ticked
    else if store.bestJustifiedCheckpoint.epoch > store.justifiedCheckpoint.epoch then
      ticked.(justifiedCheckpoint := store.bestJustifiedCheckpoint)
    else ticked
  }

  /**
   * A tick changes the time and at most the justified checkpoint; that changes
   * only on the first slot of a newly entered epoch, to the best justified
   * checkpoint, and only to a strictly later epoch.
   */
  lemma OnTickPromotes(store: Store, time: nat)
    requires store.genesisTime <= store.time && store.genesisTime <= time
    ensures var r := OnTick(store, time);
            r.time == time &&
            r == store.(time := time, justifiedCheckpoint := r.justifiedCheckpoint) &&
            (r.justifiedCheckpoint != store.justifiedCheckpoint <==>
               CurrentSlot(r) > CurrentSlot(store) && CurrentSlot(r) % SLOTS_PER_EPOCH == 0 &&
               store.bestJustifiedCheckpoint.epoch > store.justifiedCheckpoint.epoch) &&
            (r.justifiedCheckpoint != store.justifiedCheckpoint ==> r.justifiedCheckpoint == store.bestJustifiedCheckpoint) &&
            r.justifiedCheckpoint.epoch >= store.justifiedCheckpoint.epoch
  {
  }

  /** A tick keeps the store invariant. */
  lemma OnTickKeepsInvariant(store: Store, time: nat)
    requires StoreInvariant(store) && store.genesisTime <= time
    ensures StoreInvariant(OnTick(store, time))
  {
  }

  /**
   * The justified and best justified update of `on_block`, given the stored
   * block's post-state: a later justified checkpoint in that state becomes the
   * best justified one when later than it, and the justified one when
   * `should_update_justified_checkpoint` allows. The flag is false where the
   * source fails, with the changes made before the failure kept.
   */
  function UpdateJustified(store: Store, state: State): (r: (Store, bool))
    requires store.genesisTime <= store.time
  {
    var newJustified := state.currentJustifiedCheckpoint;
    if newJustified.epoch > store.justifiedCheckpoint.epoch then
      var best := if newJustified.epoch > store.bestJustifiedCheckpoint.epoch then store.(bestJustifiedCheckpoint := newJustified) else store;
      match ShouldUpdateJustifiedCheckpoint(best, newJustified)
      case None => (best, false)
      case Some(update) => (if update then best.(justifiedCheckpoint := newJustified) else best, true)
    else (store, true)
  }

  /**
   * The finalized update of `on_block`: a later finalized checkpoint in the
   * post-state is taken, and then the justified checkpoint is replaced by the
   * post-state's when that is later or when the stored justified block does not
   * descend from the new finalized block.
   */
  function UpdateFinalized(store: Store, state: State): (r: (Store, bool)) {
    if state.finalizedCheckpoint.epoch > store.finalizedCheckpoint.epoch then
      var finalized := store.(finalizedCheckpoint := state.finalizedCheckpoint);
      var finalizedSlot := ComputeStartSlotAtEpoch(finalized.finalizedCheckpoint.epoch);
      if state.currentJustifiedCheckpoint.epoch > finalized.justifiedCheckpoint.epoch then
        (finalized.(justifiedCheckpoint := state.currentJustifiedCheckpoint), true)
      else match GetAncestor(finalized, finalized.justifiedCheckpoint.root, finalizedSlot)
        case None => (finalized, false)
        case Some(ancestor) =>
          (if ancestor != finalized.finalizedCheckpoint.root then finalized.(justifiedCheckpoint := state.currentJustifiedCheckpoint) else finalized, true)
    else (store, true)
  }

  /** The post-state of a block: the full state transition from the parent's state, or the block applied to a state the caller gives. */
  function BlockPostState(env: Env, pre: State, signed: SignedBeaconBlock, provided: Option<State>): (r: Option<State>)
    requires WellFormed(pre) && EpochProcessing.CheckpointsOrdered(pre)
    requires provided.Some? ==> WellFormed(provided.value) && EpochProcessing.CheckpointsOrdered(provided.value)
    ensures r.Some? ==> WellFormed(r.value) && EpochProcessing.CheckpointsOrdered(r.value)
  {
    match provided
    case None => BlockProcessing.StateTransition(env, pre, signed, true)
    case Some(given) => ProvidedPostState(env, given, signed.message)
  }

  /** `process_block` applied to the state the caller gives, which keeps its slot and checkpoints. */
  function ProvidedPostState(env: Env, given: State, block: BeaconBlock): (r: Option<State>)
    requires WellFormed(given) && EpochProcessing.CheckpointsOrdered(given)
    ensures r.Some? ==> WellFormed(r.value) && EpochProcessing.CheckpointsOrdered(r.value)
  {
    BlockProcessing.ProcessBlock(env, given, block)
  }

  /** The post-state `on_block` computes for a block, None when its parent has no state. */
  function PostStateFor(env: Env, store: Store, signed: SignedBeaconBlock, provided: Option<State>): (r: Option<State>)
    requires StoreInvariant(store)
    requires provided.Some? ==> WellFormed(provided.value) && EpochProcessing.CheckpointsOrdered(provided.value)
    ensures r.Some? ==> WellFormed(r.value) && EpochProcessing.CheckpointsOrdered(r.value)
  {
    if signed.message.parentRoot !in store.blockStates then None
    else BlockPostState(env, store.blockStates[signed.message.parentRoot], signed, provided)
  }

  /** The store with a block stored under `root`, keeping a known root's place in the order. */
  function InsertBlock(store: Store, root: Root, block: BeaconBlock): Store {
    store.(blocks := store.blocks[root := ReceivedBlock(block)],
           blockOrder := if root in store.blocks then store.blockOrder else store.blockOrder + [root])
  }

  /**
   * `on_block` as written, given the block's post-state `post`, which the
   * source computes only once the block has passed the checks before it. The
   * block is stored before it is checked to be after the finalized slot, to
   * descend from the finalized block, and to have a valid post-state, so a block
   * failing one of those checks stays in the store without a state. The flag is
   * false where the source fails; the store is what it holds at that point.
   */
  function OnBlockSteps(env: Env, store: Store, signed: SignedBeaconBlock, post: Option<State>): (r: (Store, bool))
    requires store.genesisTime <= store.time
  {
    var block := signed.message;
    if block.parentRoot !in store.blockStates then (store, false)
    else if CurrentSlot(store) < block.slot then (store, false)
    else
      var root := env.blockRoot(block);
      var inserted := InsertBlock(store, root, block);
      var finalizedSlot := ComputeStartSlotAtEpoch(store.finalizedCheckpoint.epoch);
      if block.slot <= finalizedSlot then (inserted, false)
      else if GetAncestor(inserted, root, finalizedSlot) != Some(store.finalizedCheckpoint.root) then (inserted, false)
      else match post
        case None => (inserted, false)
        case Some(state) =>
          var stored := inserted.(blockStates := inserted.blockStates[root := state]);
          var (justified, ok) := UpdateJustified(stored, state);
          if !ok then (justified, false) else UpdateFinalized(justified, state)
  }

  /** `on_block` as written, with the post-state the state transition gives. */
  function OnBlockAsWritten(env: Env, store: Store, signed: SignedBeaconBlock, provided: Option<State>): (r: (Store, bool))
    requires StoreInvariant(store)
    requires provided.Some? ==> WellFormed(provided.value) && EpochProcessing.CheckpointsOrdered(provided.value)
  {
    OnBlockSteps(env, store, signed, PostStateFor(env, store, signed, provided))
  }

  /** A stored leaf without a post-state makes `filter_block_tree` fail when it reaches it. */
  lemma StatelessLeafFailsFilter(store: Store, root: Root, blocks: map<Root, StoredBlock>, fuel: nat)
    requires root in store.blocks && root !in store.blockStates
    requires ChildrenIn(store.blocks, store.blockOrder, root) == []
    ensures FilterBlockTree(store, root, blocks, fuel).None?
  {
  }

  /**
   * A new block at or before the finalized slot, with a stored parent and not
   * from the future, is rejected by `on_block` as written but left in the store
   * without a post-state, which breaks the store invariant.
   */
  lemma OnBlockStepsLeaveStatelessBlock(env: Env, store: Store, signed: SignedBeaconBlock, post: Option<State>)
    requires StoreInvariant(store)
    requires signed.message.parentRoot in store.blockStates && signed.message.slot <= CurrentSlot(store)
    requires env.blockRoot(signed.message) !in store.blocks
    requires signed.message.slot <= ComputeStartSlotAtEpoch(store.finalizedCheckpoint.epoch)
    ensures var (r, ok) := OnBlockSteps(env, store, signed, post);
            !ok && env.blockRoot(signed.message) in r.blocks && env.blockRoot(signed.message) !in r.blockStates &&
            !StoreInvariant(r)
  {
    var root := env.blockRoot(signed.message);
    var r := OnBlockSteps(env, store, signed, post).0;
    assert r == InsertBlock(store, root, signed.message);
    assert root in r.blocks.Keys && root !in r.blockStates.Keys;
  }

  /**
   * `on_block` with the block stored only once every check has passed, given
   * the post-state: None where the source fails, and the store is then left as
   * it was.
   */
  function AcceptBlock(env: Env, store: Store, signed: SignedBeaconBlock, post: Option<State>): Option<Store>
    requires store.genesisTime <= store.time
  {
    var (r, ok) := OnBlockSteps(env, store, signed, post);
    if ok then Some(r) else None
  }

  /** `on_block`, corrected, with the post-state the state transition gives. */
  function OnBlock(env: Env, store: Store, signed: SignedBeaconBlock, provided: Option<State>): Option<Store>
    requires StoreInvariant(store)
    requires provided.Some? ==> WellFormed(provided.value) && EpochProcessing.CheckpointsOrdered(provided.value)
  {
    AcceptBlock(env, store, signed, PostStateFor(env, store, signed, provided))
  }

  /** The justified update changes only the justified and best justified checkpoints, each to the post-state's or not at all. */
  lemma UpdateJustifiedEffects(store: Store, state: State)
    requires store.genesisTime <= store.time
    ensures var r := UpdateJustified(store, state).0;
            r == store.(justifiedCheckpoint := r.justifiedCheckpoint, bestJustifiedCheckpoint := r.bestJustifiedCheckpoint) &&
            (r.justifiedCheckpoint == store.justifiedCheckpoint || r.justifiedCheckpoint == state.currentJustifiedCheckpoint) &&
            (r.bestJustifiedCheckpoint == store.bestJustifiedCheckpoint ||
             (r.bestJustifiedCheckpoint == state.currentJustifiedCheckpoint && r.bestJustifiedCheckpoint.epoch > store.bestJustifiedCheckpoint.epoch))
  {
  }

  /** The finalized update changes only the finalized checkpoint, to a strictly later one, and the justified checkpoint, to the post-state's. */
  lemma UpdateFinalizedEffects(store: Store, state: State)
    ensures var r := UpdateFinalized(store, state).0;
            r == store.(justifiedCheckpoint := r.justifiedCheckpoint, finalizedCheckpoint := r.finalizedCheckpoint) &&
            (r.justifiedCheckpoint == store.justifiedCheckpoint || r.justifiedCheckpoint == state.currentJustifiedCheckpoint) &&
            (r.finalizedCheckpoint == store.finalizedCheckpoint ||
             (r.finalizedCheckpoint == state.finalizedCheckpoint && r.finalizedCheckpoint.epoch > store.finalizedCheckpoint.epoch))
  {
  }

  /**
   * An accepted block has a stored parent, is not from the future, is after the
   * finalized slot and descends from the finalized block; it is stored with its
   * post-state, and nothing else but the checkpoints changes. The finalized and
   * best justified checkpoints move only to strictly later epochs; every
   * checkpoint that changes takes the post-state's value.
   */
  lemma AcceptBlockEffects(env: Env, store: Store, signed: SignedBeaconBlock, post: Option<State>)
    requires store.genesisTime <= store.time && AcceptBlock(env, store, signed, post).Some?
    ensures var r := AcceptBlock(env, store, signed, post).value;
            var block := signed.message;
            var root := env.blockRoot(block);
            var finalizedSlot := ComputeStartSlotAtEpoch(store.finalizedCheckpoint.epoch);
            block.parentRoot in store.blockStates && block.slot <= CurrentSlot(store) && finalizedSlot < block.slot &&
            GetAncestor(InsertBlock(store, root, block), root, finalizedSlot) == Some(store.finalizedCheckpoint.root) &&
            post.Some? &&
            r == InsertBlock(store, root, block).(blockStates := store.blockStates[root := post.value],
                                                 justifiedCheckpoint := r.justifiedCheckpoint,
                                                 finalizedCheckpoint := r.finalizedCheckpoint,
                                                 bestJustifiedCheckpoint := r.bestJustifiedCheckpoint) &&
            (r.finalizedCheckpoint == store.finalizedCheckpoint ||
             (r.finalizedCheckpoint == post.value.finalizedCheckpoint && r.finalizedCheckpoint.epoch > store.finalizedCheckpoint.epoch)) &&
            (r.bestJustifiedCheckpoint == store.bestJustifiedCheckpoint ||
             (r.bestJustifiedCheckpoint == post.value.currentJustifiedCheckpoint && r.bestJustifiedCheckpoint.epoch > store.bestJustifiedCheckpoint.epoch)) &&
            (r.justifiedCheckpoint == store.justifiedCheckpoint || r.justifiedCheckpoint == post.value.currentJustifiedCheckpoint)
  {
    var block := signed.message;
    var root := env.blockRoot(block);
    var state := post.value;
    var stored := InsertBlock(store, root, block).(blockStates := store.blockStates[root := state]);
    var justified := UpdateJustified(stored, state).0;
    UpdateJustifiedEffects(stored, state);
    UpdateFinalizedEffects(justified, state);
  }

  /** Storing a block together with a well-formed post-state keeps the store invariant. */
  lemma StoredBlockKeepsInvariant(store: Store, root: Root, block: BeaconBlock, state: State)
    requires StoreInvariant(store) && WellFormed(state) && EpochProcessing.CheckpointsOrdered(state)
    ensures StoreInvariant(InsertBlock(store, root, block).(blockStates := store.blockStates[root := state]))
  {
    StoredBlockKeepsIndex(store, root, block, state);
    StoredBlockKeepsStatesUsable(store, root, block, state);
  }

  lemma StoredBlockKeepsIndex(store: Store, root: Root, block: BeaconBlock, state: State)
    requires BlocksIndexed(store)
    ensures BlocksIndexed(InsertBlock(store, root, block).(blockStates := store.blockStates[root := state]))
  {
    if root !in store.blocks {
      AppendKeepsDistinct(store.blockOrder, root);
    }
  }

  lemma StoredBlockKeepsStatesUsable(store: Store, root: Root, block: BeaconBlock, state: State)
    requires StatesUsable(store) && WellFormed(state) && EpochProcessing.CheckpointsOrdered(state)
    ensures StatesUsable(InsertBlock(store, root, block).(blockStates := store.blockStates[root := state]))
  {
    var r := InsertBlock(store, root, block).(blockStates := store.blockStates[root := state]);
    forall k | k in r.blockStates
      ensures WellFormed(r.blockStates[k]) && EpochProcessing.CheckpointsOrdered(r.blockStates[k])
    {
      if k != root {
        assert r.blockStates[k] == store.blockStates[k];
      }
    }
  }

  /** An accepted block with a well-formed post-state keeps the store invariant. */
  lemma AcceptBlockKeepsInvariant(env: Env, store: Store, signed: SignedBeaconBlock, post: Option<State>)
    requires StoreInvariant(store) && AcceptBlock(env, store, signed, post).Some?
    requires post.Some? ==> WellFormed(post.value) && EpochProcessing.CheckpointsOrdered(post.value)
    ensures StoreInvariant(AcceptBlock(env, store, signed, post).value)
  {
    AcceptBlockEffects(env, store, signed, post);
    var r := AcceptBlock(env, store, signed, post).value;
    var root := env.blockRoot(signed.message);
    var stored := InsertBlock(store, root, signed.message).(blockStates := store.blockStates[root := post.value]);
    StoredBlockKeepsInvariant(store, root, signed.message, post.value);
    assert r == stored.(justifiedCheckpoint := r.justifiedCheckpoint, finalizedCheckpoint := r.finalizedCheckpoint,
                        bestJustifiedCheckpoint := r.bestJustifiedCheckpoint);
  }

  /** Storing a target's checkpoint state keeps the store invariant. */
  lemma StoreTargetKeepsInvariant(store: Store, target: Checkpoint)
    requires StoreInvariant(store) && StoreTargetCheckpointState(store, target).Some?
    ensures StoreInvariant(StoreTargetCheckpointState(store, target).value)
    ensures target in StoreTargetCheckpointState(store, target).value.checkpointStates
    ensures WellFormed(StoreTargetCheckpointState(store, target).value.checkpointStates[target])
  {
  }

  /**
   * The attesting indices `on_attestation` reads from the target's state:
   * `get_indexed_attestation`, None where `get_attesting_indices` fails (no
   * committee, or fewer aggregation bits than members).
   */
  function AttestationIndices(env: Env, state: State, attestation: Attestation): Option<seq<ValidatorIndex>>
    requires WellFormed(state)
  {
    match BeaconCommittee(env, state, attestation.data.slot, attestation.data.index)
    case None => None
    case Some(committee) =>
      if |attestation.aggregationBits| < |committee| then None
      else Some(GetIndexedAttestation(env, state, attestation).attestingIndices)
  }

  /**
   * The indices `on_attestation` records are sorted without repeats and are
   * exactly the attesting validators; they are missing only where the
   * committee is or the aggregation bits are fewer than its members.
   */
  lemma AttestationIndicesExact(env: Env, state: State, attestation: Attestation)
    requires WellFormed(state)
    ensures var r := AttestationIndices(env, state, attestation);
            var committee := BeaconCommittee(env, state, attestation.data.slot, attestation.data.index);
            (r.None? <==> committee.None? || |attestation.aggregationBits| < |committee.value|) &&
            (r.Some? ==> StrictlyIncreasing(r.value) &&
                         forall i :: i in r.value <==> i in AttestingIndices(env, state, attestation.data, attestation.aggregationBits))
  {
  }

  /** The store after recording the votes of `indices` for the attestation's block at its target epoch. */
  function RecordAttestation(store: Store, attestation: Attestation, indices: seq<ValidatorIndex>): Store {
    store.(latestMessages := UpdateLatestMessages(store.latestMessages, indices, attestation.data.target.epoch,
                                                  attestation.data.beaconBlockRoot))
  }

  /**
   * `on_attestation`: validate the attestation, store its target's checkpoint
   * state, and record the latest messages of its attesting validators. The
   * source leaves the indexed attestation's validity check commented out. The
   * flag is false where the source fails; the target's checkpoint state stays
   * stored when the attesting indices are what fails.
   */
  function OnAttestation(env: Env, store: Store, attestation: Attestation): (r: (Store, bool))
    requires StoreInvariant(store)
  {
    if !ValidateOnAttestation(store, attestation) then (store, false)
    else
      var target := attestation.data.target;
      match StoreTargetCheckpointState(store, target)
      case None => (store, false)
      case Some(stored) =>
        StoreTargetKeepsInvariant(store, target);
        match AttestationIndices(env, stored.checkpointStates[target], attestation)
        case None => (stored, false)
        case Some(indices) => (RecordAttestation(stored, attestation, indices), true)
  }

  /**
   * Recording an attestation changes only latest messages: each either is kept
   * or becomes the attestation's vote, none moves to an earlier epoch and none
   * disappears.
   */
  lemma RecordAttestationEffects(store: Store, attestation: Attestation, indices: seq<ValidatorIndex>)
    ensures var r := RecordAttestation(store, attestation, indices);
            var vote := LatestMessage(attestation.data.target.epoch, attestation.data.beaconBlockRoot);
            r == store.(latestMessages := r.latestMessages) &&
            (forall v :: v in r.latestMessages <==> v in store.latestMessages || v in indices) &&
            (forall v :: v in r.latestMessages ==> r.latestMessages[v] == vote ||
                                                   (v in store.latestMessages && r.latestMessages[v] == store.latestMessages[v])) &&
            (forall v :: v in store.latestMessages ==> r.latestMessages[v].epoch >= store.latestMessages[v].epoch)
  {
    var r := RecordAttestation(store, attestation, indices);
    forall v
      ensures v in r.latestMessages <==> v in store.latestMessages || v in indices
      ensures v in r.latestMessages ==>
                r.latestMessages[v] == LatestMessage(attestation.data.target.epoch, attestation.data.beaconBlockRoot) ||
                (v in store.latestMessages && r.latestMessages[v] == store.latestMessages[v])
      ensures v in store.latestMessages ==> r.latestMessages[v].epoch >= store.latestMessages[v].epoch
    {
      UpdateLatestMessagesExact(store.latestMessages, indices, attestation.data.target.epoch, attestation.data.beaconBlockRoot, v);
    }
  }

  /** Whether an attestation is accepted or not, the store invariant holds after `on_attestation`. */
  lemma OnAttestationKeepsInvariant(env: Env, store: Store, attestation: Attestation)
    requires StoreInvariant(store)
    ensures StoreInvariant(OnAttestation(env, store, attestation).0)
  {
    var r := OnAttestation(env, store, attestation).0;
    var target := attestation.data.target;
    if !ValidateOnAttestation(store, attestation) || StoreTargetCheckpointState(store, target).None? {
      assert r == store;
    } else {
      var stored := StoreTargetCheckpointState(store, target).value;
      StoreTargetKeepsInvariant(store, target);
      var indices := AttestationIndices(env, stored.checkpointStates[target], attestation);
      if indices.Some? {
        RecordAttestationKeepsInvariant(stored, attestation, indices.value);
        assert r == RecordAttestation(stored, attestation, indices.value);
      } else {
        assert r == stored;
      }
    }
  }

  /**
   * An accepted attestation was valid, and the store afterwards holds its
   * target's checkpoint state and the votes of the attesting validators of the
   * target state.
   */
  lemma OnAttestationAccepts(env: Env, store: Store, attestation: Attestation)
    requires StoreInvariant(store) && OnAttestation(env, store, attestation).1
    ensures ValidateOnAttestation(store, attestation)
    ensures StoreTargetCheckpointState(store, attestation.data.target).Some?
    ensures var target := attestation.data.target;
            var stored := StoreTargetCheckpointState(store, target).value;
            target in stored.checkpointStates && WellFormed(stored.checkpointStates[target]) &&
            var indices := AttestationIndices(env, stored.checkpointStates[target], attestation);
            indices.Some? && OnAttestation(env, store, attestation).0 == RecordAttestation(stored, attestation, indices.value)
  {
    var target := attestation.data.target;
    var stored := StoreTargetCheckpointState(store, target).value;
    StoreTargetKeepsInvariant(store, target);
  }

  /** Recording votes touches no field the store invariant reads. */
  lemma RecordAttestationKeepsInvariant(store: Store, attestation: Attestation, indices: seq<ValidatorIndex>)
    requires StoreInvariant(store)
    ensures StoreInvariant(RecordAttestation(store, attestation, indices))
  {
    var r := RecordAttestation(store, attestation, indices);
    assert BlocksIndexed(r) by {
      assert r.blocks == store.blocks && r.blockOrder == store.blockOrder && r.blockStates == store.blockStates;
    }
    assert StatesUsable(r) by {
      assert r.blockStates == store.blockStates && r.checkpointStates == store.checkpointStates;
    }
  }

  /** The fields an accepted block writes: the block, its place in the order, its post-state and the three checkpoints. */
  lemma AcceptBlockWrites(env: Env, store: Store, signed: SignedBeaconBlock, post: Option<State>)
    requires store.genesisTime <= store.time && AcceptBlock(env, store, signed, post).Some?
    ensures var r := AcceptBlock(env, store, signed, post).value;
            var root := env.blockRoot(signed.message);
            post.Some? &&
            r == store.(blocks := store.blocks[root := ReceivedBlock(signed.message)],
                        blockOrder := if root in store.blocks then store.blockOrder else store.blockOrder + [root],
                        blockStates := store.blockStates[root := post.value],
                        justifiedCheckpoint := r.justifiedCheckpoint,
                        finalizedCheckpoint := r.finalizedCheckpoint,
                        bestJustifiedCheckpoint := r.bestJustifiedCheckpoint)
  {
    AcceptBlockEffects(env, store, signed, post);
  }
}
