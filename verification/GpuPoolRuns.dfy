/** Runs of the GPU memory pool: the capacity bound, and swap-out undone by swap-in. */
module GpuPoolRuns {
  import opened Wrappers
  import opened GpuPool

  datatype Op =
    | DoAllocate(id: Id, size: Usize, ptr: nat)
    | DoDeallocate(id: Id)
    | DoSwapOut(id: Id)
    | DoSwapIn(id: Id)
    | DoMigrateToCpu(id: Id)
    | DoMigrateToGpu(id: Id)
    | DoAutoSwap(id: Id, size: Usize, ptr: nat, given: Option<seq<Id>>)

  ghost function Apply(capacity: Usize, st: PoolState, op: Op): PoolState {
    match op
    case DoAllocate(id, size, ptr) => AfterAllocate(capacity, st, id, size, ptr)
    case DoDeallocate(id) => AfterDeallocate(st, id)
    case DoSwapOut(id) => AfterOffload(st, id, Swapped)
    case DoSwapIn(id) => AfterSwapIn(st, id)
    case DoMigrateToCpu(id) => AfterOffload(st, id, MigratedToCpu)
    case DoMigrateToGpu(id) => AfterMigrateToGpu(st, id)
    case DoAutoSwap(id, size, ptr, given) => AfterAutoSwap(capacity, st, id, size, ptr, given)
  }

  ghost function RunOps(capacity: Usize, st: PoolState, ops: seq<Op>): PoolState
    decreases |ops|
  {
    if ops == [] then st else RunOps(capacity, Apply(capacity, st, ops[0]), ops[1..])
  }

  /** Does bringing this block back need more room than there is? */
  ghost predicate BringsBack(capacity: Usize, st: PoolState, id: Id, from: BlockState) {
    && id in st.blocks && st.blocks[id].state == from
    && Used(st.blocks) + st.blocks[id].size > capacity
  }

  /** Does the wrapped capacity test let a block in that does not fit, counting the resident
      bytes of the block it replaces as free? */
  ghost predicate SlipsIn(capacity: Usize, st: PoolState, id: Id, size: Usize) {
    && Fits(capacity, st.blocks, size)
    && Used(st.blocks) + size > capacity + Replaced(st.blocks, id)
  }

  function Replaced(blocks: Blocks, id: Id): nat {
    if id in blocks then Weight(blocks[id], Allocated) else 0
  }

  /** The condition a caller can check before an operation: a block must not slip in through an
      overflow of the machine word, and one that is brought back must find room. */
  ghost predicate Keeps(capacity: Usize, st: PoolState, op: Op) {
    match op
    case DoAllocate(id, size, _) => !SlipsIn(capacity, st, id, size)
    case DoAutoSwap(id, size, _, _) => !SlipsIn(capacity, st, id, size)
    case DoSwapIn(id) => !BringsBack(capacity, st, id, Swapped)
    case DoMigrateToGpu(id) => !BringsBack(capacity, st, id, MigratedToCpu)
    case _ => true
  }

  lemma PlacedTotal(st: PoolState, id: Id, size: Usize, ptr: nat)
    ensures Used(Placed(st, id, size, ptr).blocks) + Replaced(st.blocks, id) == Used(st.blocks) + size
  {
    hide Total;
    TotalUpdate(st.blocks, Allocated, id, NewBlock(id, size, ptr));
  }

  /** One operation keeps used <= capacity exactly under that condition. */
  lemma StepKeepsCapacityExactly(capacity: Usize, st: PoolState, op: Op)
    requires Used(st.blocks) <= capacity
    ensures Used(Apply(capacity, st, op).blocks) <= capacity <==> Keeps(capacity, st, op)
  {
    hide Total, Resident, Victims, EvictBlocks, NewHosts, Candidates;
    match op {
      case DoAllocate(id, size, ptr) =>
        PlacedTotal(st, id, size, ptr);
      case DoAutoSwap(id, size, ptr, given) =>
        AutoSwapBound(capacity, st, id, size, ptr, given);
        PlacedTotal(st, id, size, ptr);
      case DoDeallocate(id) => ChangeTotal(st.blocks, id, Freed);
      case DoSwapOut(id) => ChangeTotal(st.blocks, id, Swapped);
      case DoSwapIn(id) => ChangeTotal(st.blocks, id, Allocated);
      case DoMigrateToCpu(id) => ChangeTotal(st.blocks, id, MigratedToCpu);
      case DoMigrateToGpu(id) => ChangeTotal(st.blocks, id, Allocated);
    }
  }

  lemma AutoSwapBound(capacity: Usize, st: PoolState, id: Id, size: Usize, ptr: nat,
                      given: Option<seq<Id>>)
    requires Used(st.blocks) <= capacity
    ensures !Fits(capacity, st.blocks, size) ==>
              Used(AfterAutoSwap(capacity, st, id, size, ptr, given).blocks) <= capacity
  {
    hide Total, Resident, EvictBlocks, NewHosts, Candidates, Victims, Cleared;
    AutoSwapExact(capacity, st, size, given);
    EnoughExactly(st, size, given);
    PlacedTotal(Cleared(st, size, given), id, size, ptr);
  }

  lemma ChangeTotal(blocks: Blocks, id: Id, state: BlockState)
    ensures id in blocks ==>
              forall pinned ::
                Used(blocks[id := blocks[id].(state := state, pinned := pinned)])
                == Used(blocks) - Weight(blocks[id], Allocated)
                   + (if state == Allocated then blocks[id].size else 0)
  {
    hide Total;
    if id in blocks {
      forall pinned
        ensures Used(blocks[id := blocks[id].(state := state, pinned := pinned)])
             == Used(blocks) - Weight(blocks[id], Allocated)
                + (if state == Allocated then blocks[id].size else 0)
      {
        TotalUpdate(blocks, Allocated, id, blocks[id].(state := state, pinned := pinned));
      }
    }
  }

  ghost predicate RunKeeps(capacity: Usize, st: PoolState, ops: seq<Op>)
    decreases |ops|
  {
    ops == [] ||
    (Keeps(capacity, st, ops[0]) && RunKeeps(capacity, Apply(capacity, st, ops[0]), ops[1..]))
  }

  /** The pool never holds more than its capacity, at any point of any run whose every step met
      the condition. */
  lemma {:induction false} RunsStayWithinCapacity(capacity: Usize, st: PoolState, ops: seq<Op>, i: nat)
    requires Used(st.blocks) <= capacity && RunKeeps(capacity, st, ops) && i <= |ops|
    ensures Used(RunOps(capacity, st, ops[..i]).blocks) <= capacity
    decreases |ops|
  {
    hide Used, Keeps, Apply;
    if i > 0 {
      StepKeepsCapacityExactly(capacity, st, ops[0]);
      assert ops[..i][1..] == ops[1..][..i - 1];
      RunsStayWithinCapacity(capacity, Apply(capacity, st, ops[0]), ops[1..], i - 1);
    }
  }

  predicate NeverPlacesBack(ops: seq<Op>) {
    forall i :: 0 <= i < |ops| ==> !ops[i].DoSwapIn? && !ops[i].DoMigrateToGpu?
  }

  predicate SmallRequests(capacity: Usize, ops: seq<Op>) {
    forall i :: 0 <= i < |ops| && (ops[i].DoAllocate? || ops[i].DoAutoSwap?) ==>
                  capacity + ops[i].size < WORDS
  }

  lemma SmallRequestFits(capacity: Usize, st: PoolState, size: Usize)
    requires Used(st.blocks) <= capacity && capacity + size < WORDS
    ensures Fits(capacity, st.blocks, size) ==> Used(st.blocks) + size <= capacity
  {
  }

  /** In particular, without swap-in and migration to the GPU no run exceeds the capacity, as
      long as no request is so large that it overflows when added to the capacity. */
  lemma {:induction false} OneWayRunsStayWithinCapacity(capacity: Usize, st: PoolState, ops: seq<Op>)
    requires Used(st.blocks) <= capacity && NeverPlacesBack(ops) && SmallRequests(capacity, ops)
    ensures RunKeeps(capacity, st, ops)
    ensures Used(RunOps(capacity, st, ops).blocks) <= capacity
    decreases |ops|
  {
    hide Used, Apply, Fits;
    if ops != [] {
      if ops[0].DoAllocate? || ops[0].DoAutoSwap? {
        SmallRequestFits(capacity, st, ops[0].size);
      }
      StepKeepsCapacityExactly(capacity, st, ops[0]);
      OneWayRunsStayWithinCapacity(capacity, Apply(capacity, st, ops[0]), ops[1..]);
    }
  }

  predicate RequestsUpTo(most: Usize, ops: seq<Op>) {
    forall i :: 0 <= i < |ops| && (ops[i].DoAllocate? || ops[i].DoAutoSwap?) ==> ops[i].size <= most
  }

  /** In a pool that is not empty, the request that fills the machine word exactly is let in: the
      wrapped sum is 0. */
  lemma OverflowSlipsIn(capacity: Usize, st: PoolState, id: Id, size: Usize, ptr: nat)
    requires Used(st.blocks) + size == WORDS && id !in st.blocks
    ensures Used(Apply(capacity, st, DoAllocate(id, size, ptr)).blocks) == WORDS > capacity
  {
    hide Total;
    PlacedTotal(st, id, size, ptr);
  }

  /** So a bound on the requests keeps every one-way run within the capacity exactly when it cannot
      overflow together with the capacity. */
  lemma OneWayRunsExactly(capacity: Usize, most: Usize)
    ensures (forall st: PoolState, ops: seq<Op> ::
               Used(st.blocks) <= capacity && NeverPlacesBack(ops) && RequestsUpTo(most, ops) ==>
               Used(RunOps(capacity, st, ops).blocks) <= capacity)
       <==> capacity + most < WORDS
  {
    hide Used, Apply;
    if capacity + most < WORDS {
      forall st: PoolState, ops: seq<Op> |
          Used(st.blocks) <= capacity && NeverPlacesBack(ops) && RequestsUpTo(most, ops)
        ensures Used(RunOps(capacity, st, ops).blocks) <= capacity
      {
        OneWayRunsStayWithinCapacity(capacity, st, ops);
      }
    } else {
      var st, ops := PoolState(SoleBlock("a", WORDS - most), map[], ["a"]), [DoAllocate("b", most, 0)];
      SoleBlockTotal("a", st.blocks["a"]);
      OverflowSlipsIn(capacity, st, "b", most, 0);
      assert RunOps(capacity, st, ops) == Apply(capacity, st, ops[0]) by {
        assert ops[1..] == [];
      }
      assert Used(RunOps(capacity, st, ops).blocks) > capacity;
    }
  }

  // ---------------------------------------------------------------- round trips

  /** `id` is off the device with its host buffer in place. */
  ghost predicate Parked(st: PoolState, id: Id, block: Block) {
    && id in st.blocks && st.blocks[id] == block
    && block.state in {Swapped, MigratedToCpu}
    && id in st.hosted && st.hosted[id] == Zeros(block.size)
  }

  lemma OthersLeaveParked(capacity: Usize, st: PoolState, op: Op, id: Id, block: Block)
    requires Parked(st, id, block) && op.id != id
    ensures Parked(Apply(capacity, st, op), id, block)
  {
    hide Total, Resident, Victims, Candidates, Fits;
  }

  lemma {:induction false} RunLeavesParked(capacity: Usize, st: PoolState, ops: seq<Op>, id: Id, block: Block)
    requires Parked(st, id, block) && forall i :: 0 <= i < |ops| ==> ops[i].id != id
    ensures Parked(RunOps(capacity, st, ops), id, block)
    decreases |ops|
  {
    hide Parked, Apply;
    if ops != [] {
      OthersLeaveParked(capacity, st, ops[0], id, block);
      RunLeavesParked(capacity, Apply(capacity, st, ops[0]), ops[1..], id, block);
    }
  }

  /** Swap-out followed by swap-in restores the block, whatever happened to other ids in
      between, auto-swaps that name it as a candidate included; and the same for migration. */
  lemma OffloadRoundTrip(capacity: Usize, st: PoolState, ops: seq<Op>, id: Id)
    requires id in st.blocks && st.blocks[id].state == Allocated
    requires forall i :: 0 <= i < |ops| ==> ops[i].id != id
    ensures var later := RunOps(capacity, AfterOffload(st, id, Swapped), ops);
            var back := AfterSwapIn(later, id);
            && id in back.blocks && back.blocks[id] == st.blocks[id].(pinned := false)
            && id in later.hosted && id !in back.hosted
    ensures var later := RunOps(capacity, AfterOffload(st, id, MigratedToCpu), ops);
            var back := AfterMigrateToGpu(later, id);
            && id in back.blocks && back.blocks[id] == st.blocks[id].(pinned := false)
            && id in later.hosted && id !in back.hosted
  {
    hide RunOps;
    RunLeavesParked(capacity, AfterOffload(st, id, Swapped), ops, id,
                    st.blocks[id].(state := Swapped, pinned := false));
    RunLeavesParked(capacity, AfterOffload(st, id, MigratedToCpu), ops, id,
                    st.blocks[id].(state := MigratedToCpu, pinned := false));
  }

  // ---------------------------------------------------------------- the order of use

  /** The operation puts the block on the device: as a new one, or back from swap. */
  ghost predicate Places(capacity: Usize, st: PoolState, op: Op, id: Id) {
    match op
    case DoAllocate(x, size, _) => x == id && Fits(capacity, st.blocks, size)
    case DoAutoSwap(x, size, _, given) => x == id && AutoSwapSucceeds(capacity, st, size, given)
    case DoSwapIn(x) => x == id && id in st.blocks && st.blocks[id].state == Swapped
    case _ => false
  }

  /** When a run last placed a block: after how many operations, 0 if it never did. */
  ghost function LastPlaced(capacity: Usize, st: PoolState, ops: seq<Op>, id: Id): nat
    decreases |ops|
  {
    if ops == [] then 0
    else
      var n := |ops| - 1;
      if Places(capacity, RunOps(capacity, st, ops[..n]), ops[n], id) then n + 1
      else LastPlaced(capacity, st, ops[..n], id)
  }

  /** The last place of an id in a list, counted from 1; 0 if it is not there. */
  function LastAt(ids: seq<Id>, id: Id): nat {
    if ids == [] then 0
    else if ids[|ids| - 1] == id then |ids|
    else LastAt(ids[..|ids| - 1], id)
  }

  lemma LastAtAppended(ids: seq<Id>, x: Id, id: Id)
    ensures LastAt(ids + [x], id) == if x == id then |ids| + 1 else LastAt(ids, id)
  {
    assert (ids + [x])[..|ids|] == ids;
  }

  lemma {:induction false} LastAtBound(ids: seq<Id>, id: Id)
    ensures LastAt(ids, id) <= |ids| && (LastAt(ids, id) == 0 <==> id !in ids)
    decreases |ids|
  {
    if ids != [] {
      var n := |ids| - 1;
      assert ids == ids[..n] + [ids[n]];
      LastAtBound(ids[..n], id);
    }
  }

  lemma {:induction false} WithoutAppended(ids: seq<Id>, last: Id, x: Id)
    ensures Without(ids + [last], x) == Without(ids, x) + (if last == x then [] else [last])
  {
    if ids == [] {
      assert [last][1..] == [];
    } else {
      assert (ids + [last])[1..] == ids[1..] + [last];
      WithoutAppended(ids[1..], last, x);
    }
  }

  /** Taking one id out keeps the order of the others. */
  lemma {:induction false} WithoutKeepsOrder(ids: seq<Id>, x: Id, a: Id, b: Id)
    requires a != x && b != x
    ensures LastAt(Without(ids, x), a) < LastAt(Without(ids, x), b) <==> LastAt(ids, a) < LastAt(ids, b)
    ensures LastAt(Without(ids, x), x) == 0
    ensures LastAt(Without(ids, x), a) == 0 <==> LastAt(ids, a) == 0
    decreases |ids|
  {
    if ids != [] {
      var n := |ids| - 1;
      var before, last := ids[..n], ids[n];
      assert ids == before + [last];
      WithoutKeepsOrder(before, x, a, b);
      WithoutAppended(before, last, x);
      LastAtBound(before, a);
      LastAtBound(before, b);
      LastAtBound(Without(before, x), a);
      LastAtBound(Without(before, x), b);
      LastAtBound(Without(before, x), x);
      if last != x {
        LastAtAppended(Without(before, x), last, a);
        LastAtAppended(Without(before, x), last, b);
        LastAtAppended(Without(before, x), last, x);
      } else {
        assert Without(before, x) + [] == Without(before, x);
      }
    }
  }

  /** The order of use agrees with the run so far. */
  ghost predicate InOrderOfUse(capacity: Usize, st: PoolState, ops: seq<Op>) {
    forall a, b ::
      var lru := RunOps(capacity, st, ops).lru;
      && (LastAt(lru, a) < LastAt(lru, b) <==> LastPlaced(capacity, st, ops, a) < LastPlaced(capacity, st, ops, b))
      && (LastAt(lru, a) == 0 <==> LastPlaced(capacity, st, ops, a) == 0)
  }

  lemma {:induction false} RunOpsAppended(capacity: Usize, st: PoolState, ops: seq<Op>, op: Op)
    ensures RunOps(capacity, st, ops + [op]) == Apply(capacity, RunOps(capacity, st, ops), op)
    decreases |ops|
  {
    hide Apply;
    if ops == [] {
      assert ([] + [op])[1..] == [] && ([] + [op])[0] == op;
    } else {
      assert (ops + [op])[1..] == ops[1..] + [op];
      RunOpsAppended(capacity, Apply(capacity, st, ops[0]), ops[1..], op);
    }
  }

  lemma ApplyPlaces(capacity: Usize, st: PoolState, op: Op)
    ensures var lru := Apply(capacity, st, op).lru;
            || (!Places(capacity, st, op, op.id) && lru == st.lru)
            || (Places(capacity, st, op, op.id) && (lru == st.lru + [op.id] || lru == Without(st.lru, op.id) + [op.id]))
    ensures forall id :: Places(capacity, st, op, id) ==> id == op.id
  {
    hide Total, Victims, Candidates, Fits, AutoSwapSucceeds, EvictBlocks, NewHosts;
    SucceedsWhenFits(capacity, st, op);
  }

  lemma SucceedsWhenFits(capacity: Usize, st: PoolState, op: Op)
    ensures op.DoAutoSwap? && Fits(capacity, st.blocks, op.size) ==>
              AutoSwapSucceeds(capacity, st, op.size, op.given)
  {
  }

  lemma {:induction false} LastPlacedBound(capacity: Usize, st: PoolState, ops: seq<Op>, id: Id)
    ensures LastPlaced(capacity, st, ops, id) <= |ops|
    decreases |ops|
  {
    hide Places;
    if ops != [] {
      LastPlacedBound(capacity, st, ops[..|ops| - 1], id);
    }
  }

  lemma OrderAfter(lru: seq<Id>, next: seq<Id>, x: Id, a: Id, b: Id)
    requires next == lru + [x] || next == Without(lru, x) + [x]
    ensures LastAt(next, x) == |next| && next != []
    ensures a != x ==> LastAt(next, a) < |next| && (LastAt(next, a) == 0 <==> LastAt(lru, a) == 0)
    ensures a != x && b != x ==> (LastAt(next, a) < LastAt(next, b) <==> LastAt(lru, a) < LastAt(lru, b))
  {
    var kept := if next == lru + [x] then lru else Without(lru, x);
    LastAtAppended(kept, x, x);
    LastAtAppended(kept, x, a);
    LastAtAppended(kept, x, b);
    LastAtBound(kept, a);
    if a != x && kept != lru {
      WithoutKeepsOrder(lru, x, a, if b == x then a else b);
    }
  }

  /** Over every run from an empty pool, the order of use is the order in which the blocks were last
      placed on the device, by allocation, with or without swapping, or by swap-in; and it holds
      the blocks that were ever placed. Migration back to the GPU does not count as use. */
  lemma {:induction false} OrderOfUseIsOrderOfPlacing(capacity: Usize, ops: seq<Op>)
    ensures InOrderOfUse(capacity, PoolState(map[], map[], []), ops)
    decreases |ops|
  {
    hide Apply, Places, Without;
    var start := PoolState(map[], map[], []);
    if ops != [] {
      var n := |ops| - 1;
      var before, op := ops[..n], ops[n];
      var st := RunOps(capacity, start, before);
      OrderOfUseIsOrderOfPlacing(capacity, before);
      assert ops == before + [op];
      RunOpsAppended(capacity, start, before, op);
      ApplyPlaces(capacity, st, op);
      var lru := Apply(capacity, st, op).lru;
      forall a, b
        ensures LastAt(lru, a) < LastAt(lru, b)
           <==> LastPlaced(capacity, start, ops, a) < LastPlaced(capacity, start, ops, b)
        ensures LastAt(lru, a) == 0 <==> LastPlaced(capacity, start, ops, a) == 0
      {
        LastPlacedBound(capacity, start, before, a);
        LastPlacedBound(capacity, start, before, b);
        if Places(capacity, st, op, op.id) {
          OrderAfter(st.lru, lru, op.id, a, b);
          OrderAfter(st.lru, lru, op.id, b, a);
        }
      }
    }
  }

  /** So the first default victim is the block placed last of all. */
  lemma NewestIsPlacedLast(capacity: Usize, ops: seq<Op>, size: Usize, id: Id)
    ensures var start := PoolState(map[], map[], []);
            var st := RunOps(capacity, start, ops);
            var victims := Victims(st.blocks, Candidates(st, None), size);
            victims != [] && LastPlaced(capacity, start, ops, id) > 0 ==>
              LastPlaced(capacity, start, ops, id) <= LastPlaced(capacity, start, ops, victims[0])
  {
    var start := PoolState(map[], map[], []);
    var st := RunOps(capacity, start, ops);
    OrderOfUseIsOrderOfPlacing(capacity, ops);
    DefaultVictimsAreNewest(st, size);
    hide Victims, RunOps, LastPlaced, Candidates;
    var victims := Victims(st.blocks, Candidates(st, None), size);
    if victims != [] {
      var n := |st.lru| - 1;
      NewestStartsAtTheEnd(st.lru, |victims|);
      LastAtBound(st.lru, id);
      assert LastAt(st.lru, st.lru[n]) == n + 1;
    }
  }

  lemma NewestStartsAtTheEnd(lru: seq<Id>, k: nat)
    requires 0 < k <= |lru|
    ensures |Newest(lru, k)| == k && Newest(lru, k)[0] == lru[|lru| - 1]
  {
    ReversedPrefix(lru, k);
    ReversedPrefix(lru, 1);
    var last := lru[|lru| - 1..];
    assert last[1..] == [] && Reversed(last) == [last[0]];
    assert Reversed(lru)[..k][0] == Reversed(lru)[..1][0];
    ReversedPrefix(lru[|lru| - k..], k);
  }
}
