/** The GPU memory pool in simulated mode: block states, capacity, swapping, auto-swap.

    Sizes are 64-bit machine words. Sums and the capacity test wrap, as unchecked `usize`
    arithmetic does. */
module GpuPool {
  import opened Wrappers

  const WORDS := 0x1_0000_0000_0000_0000

  type Usize = n: nat | n < WORDS
  type Id = string

  datatype BlockState = Allocated | Freed | MigratedToCpu | Swapped

  datatype Block = Block(id: Id, size: Usize, devicePtr: nat, pinned: bool, state: BlockState)

  datatype PoolError = Exhausted(size: Usize, capacity: Usize) | NotFound(id: Id)

  type Blocks = map<Id, Block>

  /** `hosted` holds the host buffers of swapped and migrated blocks, `lru` the order in which
      blocks were last placed on the device. */
  datatype PoolState = PoolState(blocks: Blocks, hosted: map<Id, seq<int>>, lru: seq<Id>)

  // ---------------------------------------------------------------- counting bytes

  function Weight(b: Block, state: BlockState): nat { if b.state == state then b.size else 0 }

  /** The bytes of all blocks in `state`. */
  ghost function Total(blocks: Blocks, state: BlockState): nat
    decreases |blocks|
  {
    if blocks == map[] then 0
    else
      var k :| k in blocks;
      Weight(blocks[k], state) + Total(blocks - {k}, state)
  }

  /** `Total` may take the blocks in any order. */
  lemma {:induction false} TotalSplit(blocks: Blocks, state: BlockState, k: Id)
    requires k in blocks
    ensures Total(blocks, state) == Weight(blocks[k], state) + Total(blocks - {k}, state)
    decreases |blocks|
  {
    var j :| j in blocks && Total(blocks, state) == Weight(blocks[j], state) + Total(blocks - {j}, state);
    if j != k {
      TotalSplit(blocks - {j}, state, k);
      TotalSplit(blocks - {k}, state, j);
      assert (blocks - {j}) - {k} == (blocks - {k}) - {j};
    }
  }

  lemma TotalUpdate(blocks: Blocks, state: BlockState, k: Id, b: Block)
    ensures Total(blocks[k := b], state)
         == Total(blocks - {k}, state) + Weight(b, state)
    ensures Total(blocks, state)
         == Total(blocks - {k}, state) + (if k in blocks then Weight(blocks[k], state) else 0)
  {
    TotalSplit(blocks[k := b], state, k);
    assert blocks[k := b] - {k} == blocks - {k};
    if k in blocks {
      TotalSplit(blocks, state, k);
    } else {
      assert blocks - {k} == blocks;
    }
  }

  ghost function Used(blocks: Blocks): nat { Total(blocks, Allocated) }

  function Among(blocks: Blocks, ids: set<Id>): Blocks { map k | k in blocks && k in ids :: blocks[k] }

  /** The resident bytes of the blocks named in `ids`. */
  ghost function Resident(blocks: Blocks, ids: set<Id>): nat { Used(Among(blocks, ids)) }

  lemma ResidentAdd(blocks: Blocks, ids: set<Id>, k: Id)
    ensures Resident(blocks, ids + {k})
         == Resident(blocks, ids)
            + (if k in blocks && k !in ids then Weight(blocks[k], Allocated) else 0)
  {
    var more := Among(blocks, ids + {k});
    if k in blocks && k !in ids {
      TotalSplit(more, Allocated, k);
      assert more - {k} == Among(blocks, ids);
    } else {
      assert more == Among(blocks, ids);
    }
  }

  lemma ResidentAll(blocks: Blocks)
    ensures Resident(blocks, blocks.Keys) == Used(blocks)
  {
    assert Among(blocks, blocks.Keys) == blocks;
  }

  /** A pool with a single, resident block. */
  function SoleBlock(k: Id, size: Usize): Blocks { map[k := NewBlock(k, size, 0)] }

  lemma SoleBlockTotal(k: Id, b: Block)
    ensures Used(map[k := b]) == Weight(b, Allocated)
  {
    TotalSplit(map[k := b], Allocated, k);
    assert map[k := b] - {k} == map[];
  }

  lemma NoBlocksNoBytes()
    ensures Total(map[], Allocated) == 0
  {
  }

  // ---------------------------------------------------------------- single transitions

  function Wrap(n: nat): Usize { n % WORDS }

  /** The capacity test of `allocate`, in machine arithmetic. */
  ghost predicate Fits(capacity: Usize, blocks: Blocks, size: Usize) {
    Wrap(Wrap(Used(blocks)) + size) <= capacity
  }

  function NewBlock(id: Id, size: Usize, ptr: nat): Block { Block(id, size, ptr, false, Allocated) }

  function Zeros(n: nat): seq<int> { seq(n, _ => 0) }

  function Placed(st: PoolState, id: Id, size: Usize, ptr: nat): PoolState {
    st.(blocks := st.blocks[id := NewBlock(id, size, ptr)], lru := st.lru + [id])
  }

  ghost function AfterAllocate(capacity: Usize, st: PoolState, id: Id, size: Usize, ptr: nat): PoolState {
    if Fits(capacity, st.blocks, size) then Placed(st, id, size, ptr) else st
  }

  function AfterDeallocate(st: PoolState, id: Id): PoolState {
    if id !in st.blocks then st
    else st.(blocks := st.blocks[id := st.blocks[id].(state := Freed)])
  }

  /** Swap-out and migration to the CPU differ only in the state they leave. */
  function AfterOffload(st: PoolState, id: Id, state: BlockState): PoolState {
    if id !in st.blocks || st.blocks[id].state != Allocated then st
    else
      var b := st.blocks[id];
      st.(blocks := st.blocks[id := b.(state := state, pinned := false)],
          hosted := st.hosted[id := Zeros(b.size)])
  }

  function Without(lru: seq<Id>, id: Id): seq<Id> {
    if lru == [] then []
    else (if lru[0] == id then [] else [lru[0]]) + Without(lru[1..], id)
  }

  function AfterSwapIn(st: PoolState, id: Id): PoolState {
    if id !in st.blocks || st.blocks[id].state != Swapped then st
    else PoolState(st.blocks[id := st.blocks[id].(state := Allocated, pinned := false)],
                   st.hosted - {id}, Without(st.lru, id) + [id])
  }

  function AfterMigrateToGpu(st: PoolState, id: Id): PoolState {
    if id !in st.blocks || st.blocks[id].state != MigratedToCpu then st
    else PoolState(st.blocks[id := st.blocks[id].(state := Allocated, pinned := false)],
                   st.hosted - {id}, st.lru)
  }

  // ---------------------------------------------------------------- auto-swap

  function Reversed(ids: seq<Id>): seq<Id> {
    if ids == [] then [] else Reversed(ids[1..]) + [ids[0]]
  }

  ghost function IdSet(ids: seq<Id>): set<Id> { set id | id in ids }

  predicate Evictable(b: Block) { b.state == Allocated && b.size > 0 }

  function EvictBlock(b: Block, chosen: bool): Block {
    if chosen && Evictable(b) then b.(state := Swapped, pinned := false) else b
  }

  function EvictBlocks(blocks: Blocks, ids: set<Id>): Blocks {
    map k | k in blocks :: EvictBlock(blocks[k], k in ids)
  }

  function NewHosts(blocks: Blocks, ids: set<Id>): map<Id, seq<int>> {
    map k | k in blocks && k in ids && Evictable(blocks[k]) :: Zeros(blocks[k].size)
  }

  /** All resident blocks among `ids` swapped out; blocks of size 0 are passed over. */
  function Evicted(st: PoolState, ids: set<Id>): PoolState {
    st.(blocks := EvictBlocks(st.blocks, ids), hosted := st.hosted + NewHosts(st.blocks, ids))
  }

  /** The least `k >= from` such that the first `k` candidates hold `needed` resident bytes, or
      the number of candidates when all of them together do not. */
  ghost function ShortestPrefix(blocks: Blocks, candidates: seq<Id>, needed: nat, from: nat): nat
    requires from <= |candidates|
    decreases |candidates| - from
  {
    if from == |candidates| || Resident(blocks, IdSet(candidates[..from])) >= needed then from
    else ShortestPrefix(blocks, candidates, needed, from + 1)
  }

  ghost function Victims(blocks: Blocks, candidates: seq<Id>, needed: nat): seq<Id> {
    ShortestPrefixBound(blocks, candidates, needed, 0);
    candidates[..ShortestPrefix(blocks, candidates, needed, 0)]
  }

  lemma {:induction false} ShortestPrefixBound(blocks: Blocks, candidates: seq<Id>, needed: nat, from: nat)
    requires from <= |candidates|
    ensures var k := ShortestPrefix(blocks, candidates, needed, from);
            && from <= k <= |candidates|
            && (forall j :: from <= j < k ==> Resident(blocks, IdSet(candidates[..j])) < needed)
            && (k < |candidates| ==> Resident(blocks, IdSet(candidates[..k])) >= needed)
    decreases |candidates| - from
  {
    hide Resident, IdSet;
    if !(from == |candidates| || Resident(blocks, IdSet(candidates[..from])) >= needed) {
      ShortestPrefixBound(blocks, candidates, needed, from + 1);
    }
  }

  function Candidates(st: PoolState, given: Option<seq<Id>>): seq<Id> {
    if given.Some? then given.value else Reversed(st.lru)
  }

  /** Does the request fit once the victims are out? */
  ghost predicate EnoughEvicted(blocks: Blocks, candidates: seq<Id>, needed: nat) {
    Resident(blocks, IdSet(Victims(blocks, candidates, needed))) >= needed
  }

  /** The pool once the victims are out. */
  ghost function Cleared(st: PoolState, size: Usize, given: Option<seq<Id>>): PoolState {
    Evicted(st, IdSet(Victims(st.blocks, Candidates(st, given), size)))
  }

  ghost predicate AutoSwapSucceeds(capacity: Usize, st: PoolState, size: Usize, given: Option<seq<Id>>) {
    || Fits(capacity, st.blocks, size)
    || (EnoughEvicted(st.blocks, Candidates(st, given), size)
        && Fits(capacity, Cleared(st, size, given).blocks, size))
  }

  ghost function AfterAutoSwap(capacity: Usize, st: PoolState, id: Id, size: Usize, ptr: nat,
                               given: Option<seq<Id>>): PoolState
  {
    if Fits(capacity, st.blocks, size) then Placed(st, id, size, ptr)
    else if AutoSwapSucceeds(capacity, st, size, given) then Placed(Cleared(st, size, given), id, size, ptr)
    else Cleared(st, size, given)
  }

  /** Evicting moves exactly the named resident bytes from allocated to swapped. */
  lemma {:induction false} EvictedTotals(blocks: Blocks, ids: set<Id>)
    ensures Used(EvictBlocks(blocks, ids)) + Resident(blocks, ids) == Used(blocks)
    ensures Total(EvictBlocks(blocks, ids), Swapped) == Total(blocks, Swapped) + Resident(blocks, ids)
    decreases |blocks|
  {
    var after := EvictBlocks(blocks, ids);
    if blocks == map[] {
      assert after == map[] && Among(blocks, ids) == map[];
    } else {
      var k :| k in blocks;
      EvictedTotals(blocks - {k}, ids);
      hide Total;
      assert after - {k} == EvictBlocks(blocks - {k}, ids);
      TotalSplit(blocks, Allocated, k);
      TotalSplit(blocks, Swapped, k);
      TotalSplit(after, Allocated, k);
      TotalSplit(after, Swapped, k);
      ResidentSplit(blocks, ids, k);
    }
  }

  lemma ResidentSplit(blocks: Blocks, ids: set<Id>, k: Id)
    requires k in blocks
    ensures Resident(blocks, ids)
         == Resident(blocks - {k}, ids) + (if k in ids then Weight(blocks[k], Allocated) else 0)
  {
    hide Total;
    if k in ids {
      TotalSplit(Among(blocks, ids), Allocated, k);
      assert Among(blocks, ids) - {k} == Among(blocks - {k}, ids);
    } else {
      assert Among(blocks, ids) == Among(blocks - {k}, ids);
    }
  }

  lemma {:induction false} ResidentMonotone(blocks: Blocks, a: set<Id>, b: set<Id>)
    requires a <= b
    ensures Resident(blocks, a) <= Resident(blocks, b)
    decreases |b - a|
  {
    if a == b {
    } else {
      var k :| k in b && k !in a;
      ResidentAdd(blocks, a, k);
      assert b - (a + {k}) == (b - a) - {k};
      ResidentMonotone(blocks, a + {k}, b);
    }
  }

  lemma EnoughExactly(st: PoolState, size: Usize, given: Option<seq<Id>>)
    ensures EnoughEvicted(st.blocks, Candidates(st, given), size)
       <==> Resident(st.blocks, IdSet(Candidates(st, given))) >= size
    ensures var evicted := Resident(st.blocks, IdSet(Victims(st.blocks, Candidates(st, given), size)));
            Used(Cleared(st, size, given).blocks) + evicted == Used(st.blocks)
  {
    hide Total, EvictBlocks, NewHosts, Resident;
    var candidates := Candidates(st, given);
    var k := ShortestPrefix(st.blocks, candidates, size, 0);
    ShortestPrefixBound(st.blocks, candidates, size, 0);
    assert Victims(st.blocks, candidates, size) == candidates[..k];
    assert IdSet(candidates[..k]) <= IdSet(candidates);
    ResidentMonotone(st.blocks, IdSet(candidates[..k]), IdSet(candidates));
    assert k == |candidates| ==> candidates[..k] == candidates;
    EvictedTotals(st.blocks, IdSet(candidates[..k]));
  }

  /** In a pool within its capacity auto-swap succeeds exactly when the block fits at once or the
      distinct resident candidates hold at least the requested bytes: the retry after swapping
      never fails, and success leaves the block resident within capacity. In a pool that is over
      its capacity the retry can fail, exactly when the excess is not swapped out too. */
  lemma AutoSwapExact(capacity: Usize, st: PoolState, size: Usize, given: Option<seq<Id>>)
    ensures Used(st.blocks) <= capacity ==>
              (AutoSwapSucceeds(capacity, st, size, given)
               <==> Fits(capacity, st.blocks, size)
                    || Resident(st.blocks, IdSet(Candidates(st, given))) >= size)
    ensures Used(st.blocks) <= capacity && !Fits(capacity, st.blocks, size)
            && AutoSwapSucceeds(capacity, st, size, given) ==>
              Used(Cleared(st, size, given).blocks) + size <= capacity
    ensures Used(st.blocks) + size < WORDS ==>
              (AutoSwapSucceeds(capacity, st, size, given)
               <==> || Used(st.blocks) + size <= capacity
                    || (&& Resident(st.blocks, IdSet(Candidates(st, given))) >= size
                        && Used(st.blocks) + size - capacity
                           <= Resident(st.blocks, IdSet(Victims(st.blocks, Candidates(st, given), size)))))
  {
    hide Used, Resident, Victims, Candidates, EnoughEvicted, Cleared, Fits, IdSet;
    EnoughExactly(st, size, given);
    EnoughMeansBytes(st, size, given);
    FitsUnlessItWraps(capacity, st.blocks, size);
    FitsUnlessItWraps(capacity, Cleared(st, size, given).blocks, size);
  }

  lemma FitsUnlessItWraps(capacity: Usize, blocks: Blocks, size: Usize)
    ensures Used(blocks) + size < WORDS ==> (Fits(capacity, blocks, size) <==> Used(blocks) + size <= capacity)
    ensures Used(blocks) + size <= capacity ==> Fits(capacity, blocks, size)
  {
    hide Used;
  }

  lemma EnoughMeansBytes(st: PoolState, size: Usize, given: Option<seq<Id>>)
    ensures EnoughEvicted(st.blocks, Candidates(st, given), size)
       <==> Resident(st.blocks, IdSet(Victims(st.blocks, Candidates(st, given), size))) >= size
  {
  }

  /** The victims are the shortest sufficient prefix: no shorter prefix of the candidates holds
      the requested bytes; those that are resident and not empty become swapped, with a host
      buffer of their size, and nothing else changes but the block that is placed. */
  lemma AutoSwapEvictsShortestPrefix(capacity: Usize, st: PoolState, id: Id, size: Usize, ptr: nat,
                                     given: Option<seq<Id>>)
    requires !Fits(capacity, st.blocks, size)
    ensures var candidates := Candidates(st, given);
            var victims := Victims(st.blocks, candidates, size);
            && victims <= candidates && (given.Some? ==> candidates == given.value)
            && (forall j :: 0 <= j < |victims| ==> Resident(st.blocks, IdSet(candidates[..j])) < size)
            && var after := AfterAutoSwap(capacity, st, id, size, ptr, given);
               (forall b :: b in st.blocks && b != id ==>
                  && b in after.blocks
                  && after.blocks[b] == (if b in victims && st.blocks[b].state == Allocated && st.blocks[b].size > 0
                                         then st.blocks[b].(state := Swapped, pinned := false) else st.blocks[b])
                  && (after.blocks[b] != st.blocks[b] ==>
                        && b in after.hosted && |after.hosted[b]| == st.blocks[b].size
                        && forall n :: 0 <= n < st.blocks[b].size ==> after.hosted[b][n] == 0))
               && (AutoSwapSucceeds(capacity, st, size, given) ==>
                     id in after.blocks && after.blocks[id] == Block(id, size, ptr, false, Allocated))
  {
    GivenCandidates(st, given);
    hide Total, Resident, Candidates;
    ShortestPrefixBound(st.blocks, Candidates(st, given), size, 0);
    var victims := Victims(st.blocks, Candidates(st, given), size);
    assert forall b :: b in victims <==> b in IdSet(victims);
  }

  lemma GivenCandidates(st: PoolState, given: Option<seq<Id>>)
    ensures given.Some? ==> Candidates(st, given) == given.value
  {
  }

  /** A failed auto-swap may have swapped blocks out, but it neither loses nor invents a byte:
      allocated plus swapped bytes stay the same. */
  lemma FailedAutoSwapConserves(capacity: Usize, st: PoolState, id: Id, size: Usize, ptr: nat,
                                given: Option<seq<Id>>)
    requires !AutoSwapSucceeds(capacity, st, size, given)
    ensures var after := AfterAutoSwap(capacity, st, id, size, ptr, given);
            && Used(after.blocks) + Total(after.blocks, Swapped)
               == Used(st.blocks) + Total(st.blocks, Swapped)
            && after.blocks.Keys == st.blocks.Keys
  {
    EvictedTotals(st.blocks, IdSet(Victims(st.blocks, Candidates(st, given), size)));
  }

  lemma {:induction false} ReversedPrefix(ids: seq<Id>, k: nat)
    requires k <= |ids|
    ensures |Reversed(ids)| == |ids|
    ensures Reversed(ids)[..k] == Reversed(ids[|ids| - k..])
  {
    if ids == [] {
    } else {
      var rest := ids[1..];
      if k == |ids| {
        ReversedPrefix(rest, |rest|);
        assert ids[0..] == ids;
      } else {
        ReversedPrefix(rest, k);
        assert rest[|rest| - k..] == ids[|ids| - k..];
        assert (Reversed(rest) + [ids[0]])[..k] == Reversed(rest)[..k];
      }
    }
  }

  /** The `k` blocks used last, newest first. */
  function Newest(lru: seq<Id>, k: nat): seq<Id>
    requires k <= |lru|
  {
    Reversed(lru[|lru| - k..])
  }

  /** Without given candidates the victims are the newest blocks in the order of use: the
      shortest sufficient stretch at its end, newest first. */
  lemma DefaultVictimsAreNewest(st: PoolState, size: Usize)
    ensures var victims := Victims(st.blocks, Candidates(st, None), size);
            && |victims| <= |st.lru|
            && victims == Newest(st.lru, |victims|)
            && forall j :: 0 <= j < |victims| ==> Resident(st.blocks, IdSet(Newest(st.lru, j))) < size
  {
    hide Total, Resident, Used, IdSet, Reversed;
    var candidates := Reversed(st.lru);
    ReversedPrefix(st.lru, |st.lru|);
    ShortestPrefixBound(st.blocks, candidates, size, 0);
    hide ShortestPrefix;
    var k := ShortestPrefix(st.blocks, candidates, size, 0);
    ReversedPrefix(st.lru, k);
    forall j | 0 <= j < k
      ensures Resident(st.blocks, IdSet(Newest(st.lru, j))) < size
    {
      ReversedPrefix(st.lru, j);
    }
  }

  // ---------------------------------------------------------------- the pool object

  class GpuMemoryPool {
    const capacity: Usize
    var blocks: Blocks
    var hosted: map<Id, seq<int>>
    var lru: seq<Id>

    constructor (capacity: Usize)
      ensures this.capacity == capacity && State() == PoolState(map[], map[], [])
    {
      this.capacity := capacity;
      blocks, hosted, lru := map[], map[], [];
    }

    ghost function State(): PoolState
      reads this
    {
      PoolState(blocks, hosted, lru)
    }

    method UsedBytes() returns (used: Usize)
      ensures used == Wrap(Used(blocks))
    {
      hide Total, Resident;
      used := 0;
      var rest := blocks.Keys;
      EvictNothing(State());
      assert blocks.Keys - rest == {};
      while rest != {}
        invariant rest <= blocks.Keys
        invariant used == Wrap(Resident(blocks, blocks.Keys - rest))
        decreases rest
      {
        var k :| k in rest;
        ResidentAdd(blocks, blocks.Keys - rest, k);
        assert blocks.Keys - (rest - {k}) == (blocks.Keys - rest) + {k};
        rest := rest - {k};
        if blocks[k].state == Allocated {
          used := (used + blocks[k].size) % WORDS;
        }
      }
      assert blocks.Keys - {} == blocks.Keys;
      ResidentAll(blocks);
    }

    method HasCapacity(size: Usize) returns (r: bool)
      ensures r <==> Fits(capacity, blocks, size)
    {
      var used := UsedBytes();
      r := (used + size) % WORDS <= capacity;
    }

    method Allocate(id: Id, size: Usize, ptr: nat) returns (r: Result<Block, PoolError>)
      modifies this
      ensures State() == AfterAllocate(capacity, old(State()), id, size, ptr)
      ensures r == if old(Fits(capacity, blocks, size)) then Ok(Block(id, size, ptr, false, Allocated))
                   else Err(Exhausted(size, capacity))
      ensures r.Ok? ==> blocks == old(blocks)[id := r.value] && hosted == old(hosted) && lru == old(lru) + [id]
    {
      var used := UsedBytes();
      if (used + size) % WORDS > capacity {
        return Err(Exhausted(size, capacity));
      }
      var block := NewBlock(id, size, ptr);
      blocks := blocks[id := block];
      lru := lru + [id];
      r := Ok(block);
    }

    method Deallocate(id: Id) returns (r: Result<(), PoolError>)
      modifies this`blocks
      ensures State() == AfterDeallocate(old(State()), id)
      ensures r == if id in old(blocks) then Ok(()) else Err(NotFound(id))
      ensures r.Ok? ==> blocks == old(blocks)[id := old(blocks)[id].(state := Freed)]
    {
      if id !in blocks {
        return Err(NotFound(id));
      }
      blocks := blocks[id := blocks[id].(state := Freed)];
      r := Ok(());
    }

    method Offload(id: Id, state: BlockState) returns (r: Result<(), PoolError>)
      modifies this`blocks, this`hosted
      ensures State() == AfterOffload(old(State()), id, state)
      ensures r == if id in old(blocks) then Ok(()) else Err(NotFound(id))
      ensures if id in old(blocks) && old(blocks)[id].state == Allocated
              then blocks == old(blocks)[id := old(blocks)[id].(state := state, pinned := false)]
                   && hosted == old(hosted)[id := seq(old(blocks)[id].size, _ => 0)]
              else blocks == old(blocks) && hosted == old(hosted)
    {
      if id !in blocks {
        return Err(NotFound(id));
      }
      var block := blocks[id];
      if block.state != Allocated {
        return Ok(());
      }
      blocks := blocks[id := block.(state := state, pinned := false)];
      hosted := hosted[id := Zeros(block.size)];
      r := Ok(());
    }

    method SwapOut(id: Id) returns (r: Result<(), PoolError>)
      modifies this`blocks, this`hosted
      ensures State() == AfterOffload(old(State()), id, Swapped)
      ensures r == if id in old(blocks) then Ok(()) else Err(NotFound(id))
    {
      r := Offload(id, Swapped);
    }

    method MigrateToCpu(id: Id) returns (r: Result<(), PoolError>)
      modifies this`blocks, this`hosted
      ensures State() == AfterOffload(old(State()), id, MigratedToCpu)
      ensures r == if id in old(blocks) then Ok(()) else Err(NotFound(id))
    {
      r := Offload(id, MigratedToCpu);
    }

    method SwapIn(id: Id) returns (r: Result<(), PoolError>)
      modifies this
      ensures State() == AfterSwapIn(old(State()), id)
      ensures r == if id in old(blocks) then Ok(()) else Err(NotFound(id))
      ensures if id in old(blocks) && old(blocks)[id].state == Swapped
              then blocks == old(blocks)[id := old(blocks)[id].(state := Allocated, pinned := false)]
                   && hosted == old(hosted) - {id} && lru != [] && lru[|lru| - 1] == id
              else State() == old(State())
    {
      if id !in blocks {
        return Err(NotFound(id));
      }
      if blocks[id].state != Swapped {
        return Ok(());
      }
      hosted := hosted - {id};
      blocks := blocks[id := blocks[id].(state := Allocated, pinned := false)];
      lru := Without(lru, id) + [id];
      r := Ok(());
    }

    method MigrateToGpu(id: Id) returns (r: Result<(), PoolError>)
      modifies this`blocks, this`hosted
      ensures State() == AfterMigrateToGpu(old(State()), id)
      ensures r == if id in old(blocks) then Ok(()) else Err(NotFound(id))
      ensures if id in old(blocks) && old(blocks)[id].state == MigratedToCpu
              then blocks == old(blocks)[id := old(blocks)[id].(state := Allocated, pinned := false)]
                   && hosted == old(hosted) - {id}
              else State() == old(State())
    {
      if id !in blocks {
        return Err(NotFound(id));
      }
      if blocks[id].state != MigratedToCpu {
        return Ok(());
      }
      hosted := hosted - {id};
      blocks := blocks[id := blocks[id].(state := Allocated, pinned := false)];
      r := Ok(());
    }

    /** The swap loop of auto-swap: evicts candidates in order until `needed` bytes are freed. */
    method SwapUntil(candidates: seq<Id>, needed: Usize) returns (freed: Usize)
      modifies this`blocks, this`hosted
      ensures var victims := IdSet(Victims(old(blocks), candidates, needed));
              && State() == Evicted(old(State()), victims)
              && (freed >= needed <==> Resident(old(blocks), victims) >= needed)
    {
      hide Total, EvictBlocks, NewHosts, Resident, IdSet;
      ghost var start := State();
      freed := 0;
      ghost var k := 0;
      assert candidates[..0] == [];
      EvictNothing(start);
      var rest := candidates;
      while rest != [] && freed < needed
        invariant k <= |candidates| && rest == candidates[k..]
        invariant State() == Evicted(start, IdSet(candidates[..k]))
        invariant freed < needed ==> freed == Resident(start.blocks, IdSet(candidates[..k]))
        invariant freed >= needed ==> Resident(start.blocks, IdSet(candidates[..k])) >= needed
        invariant ShortestPrefix(start.blocks, candidates, needed, 0)
               == ShortestPrefix(start.blocks, candidates, needed, k)
        decreases |rest|
      {
        var c := rest[0];
        assert c == candidates[k];
        IdSetGrows(candidates, k);
        ResidentAdd(start.blocks, IdSet(candidates[..k]), c);
        EvictOne(start, IdSet(candidates[..k]), c);
        var size := if c in blocks && blocks[c].state == Allocated then blocks[c].size else 0;
        if size != 0 {
          var _ := SwapOut(c);
          freed := if freed + size < WORDS then freed + size else WORDS - 1;
        }
        rest := rest[1..];
        k := k + 1;
      }
      ShortestPrefixBound(start.blocks, candidates, needed, 0);
    }

    method AllocateWithAutoSwap(id: Id, size: Usize, ptr: nat, given: Option<seq<Id>>)
        returns (r: Result<Block, PoolError>)
      modifies this
      ensures State() == AfterAutoSwap(capacity, old(State()), id, size, ptr, given)
      ensures r == if AutoSwapSucceeds(capacity, old(State()), size, given)
                   then Ok(Block(id, size, ptr, false, Allocated)) else Err(Exhausted(size, capacity))
      ensures r.Ok? ==> id in blocks && blocks[id] == r.value && lru == old(lru) + [id]
    {
      hide Total, Resident, Victims, EvictBlocks, NewHosts;
      r := Allocate(id, size, ptr);
      if r.Err? {
        var candidates := if given.Some? then given.value else Reversed(lru);
        var freed := SwapUntil(candidates, size);
        if freed < size {
          return Err(Exhausted(size, capacity));
        }
        r := Allocate(id, size, ptr);
      }
    }
  }

  lemma IdSetGrows(ids: seq<Id>, k: nat)
    requires k < |ids|
    ensures IdSet(ids[..k + 1]) == IdSet(ids[..k]) + {ids[k]}
  {
    assert ids[..k + 1] == ids[..k] + [ids[k]];
  }

  lemma EvictNothing(st: PoolState)
    ensures Evicted(st, {}) == st
    ensures Resident(st.blocks, {}) == 0
    ensures IdSet([]) == {}
  {
    assert EvictBlocks(st.blocks, {}) == st.blocks;
    assert NewHosts(st.blocks, {}) == map[];
    assert Among(st.blocks, {}) == map[];
  }

  lemma EvictOneBlock(blocks: Blocks, ids: set<Id>, c: Id)
    ensures EvictBlocks(blocks, ids + {c})
         == if c in blocks then EvictBlocks(blocks, ids)[c := EvictBlock(blocks[c], true)]
            else EvictBlocks(blocks, ids)
  {
    var next := EvictBlocks(blocks, ids + {c});
    var now := if c in blocks then EvictBlocks(blocks, ids)[c := EvictBlock(blocks[c], true)]
               else EvictBlocks(blocks, ids);
    assert next.Keys == now.Keys;
    assert forall k :: k in next ==> next[k] == now[k];
  }

  lemma EvictOneHost(blocks: Blocks, ids: set<Id>, c: Id)
    ensures NewHosts(blocks, ids + {c})
         == if c in blocks && Evictable(blocks[c]) then NewHosts(blocks, ids)[c := Zeros(blocks[c].size)]
            else NewHosts(blocks, ids)
  {
    var next := NewHosts(blocks, ids + {c});
    var now := if c in blocks && Evictable(blocks[c])
               then NewHosts(blocks, ids)[c := Zeros(blocks[c].size)] else NewHosts(blocks, ids);
    assert next.Keys == now.Keys;
    assert forall k :: k in next ==> next[k] == now[k];
  }

  /** Evicting one more candidate is one swap-out, or nothing when it is not resident. */
  lemma EvictOne(st: PoolState, ids: set<Id>, c: Id)
    ensures var now := Evicted(st, ids);
            Evicted(st, ids + {c})
            == if c in now.blocks && Evictable(now.blocks[c]) then AfterOffload(now, c, Swapped) else now
    ensures c in Evicted(st, ids).blocks && Evictable(Evicted(st, ids).blocks[c])
       <==> c in st.blocks && c !in ids && Evictable(st.blocks[c])
    ensures c in st.blocks ==> Evicted(st, ids).blocks[c].size == st.blocks[c].size
  {
    hide Zeros, EvictBlocks, NewHosts;
    var now, next := Evicted(st, ids), Evicted(st, ids + {c});
    EvictedAt(st.blocks, ids, c);
    EvictOneBlock(st.blocks, ids, c);
    EvictOneHost(st.blocks, ids, c);
    if c in ids {
      assert ids + {c} == ids;
    } else if c in st.blocks && Evictable(st.blocks[c]) {
      HostOneMore(st.hosted, NewHosts(st.blocks, ids), c, Zeros(st.blocks[c].size));
    } else if c in st.blocks {
      assert now.blocks[c := st.blocks[c]] == now.blocks;
    }
  }

  lemma EvictedAt(blocks: Blocks, ids: set<Id>, c: Id)
    ensures c in EvictBlocks(blocks, ids) <==> c in blocks
    ensures c in blocks ==> EvictBlocks(blocks, ids)[c] == EvictBlock(blocks[c], c in ids)
  {
  }

  lemma HostOneMore(hosted: map<Id, seq<int>>, more: map<Id, seq<int>>, c: Id, buffer: seq<int>)
    ensures hosted + more[c := buffer] == (hosted + more)[c := buffer]
  {
  }
}
