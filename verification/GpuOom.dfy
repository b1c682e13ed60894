/** The OOM killer: swap out lower-priority agents, then kill the lowest first. */
module GpuOom {
  import opened Wrappers
  import opened GpuPool
  import opened GpuPoolRuns

  datatype Priority = Batch | Normal | Interactive | System {
    function Rank(): nat {
      match this
      case Batch => 0
      case Normal => 1
      case Interactive => 2
      case System => 3
    }
  }

  datatype AgentBudget = AgentBudget(maxBytes: Usize, usedBytes: Usize, priority: Priority)

  type Budgets = map<Id, AgentBudget>

  class GpuBudgetController {
    var budgets: Budgets

    constructor ()
      ensures budgets == map[]
    {
      budgets := map[];
    }

    method RegisterAgent(agent: Id, maxBytes: Usize, priority: Priority)
      modifies this
      ensures budgets == old(budgets)[agent := AgentBudget(maxBytes, 0, priority)]
    {
      budgets := budgets[agent := AgentBudget(maxBytes, 0, priority)];
    }

    method UnregisterAgent(agent: Id)
      modifies this
      ensures budgets == old(budgets) - {agent}
    {
      budgets := budgets - {agent};
    }
  }

  // ---------------------------------------------------------------- blocks of an agent

  /** Blocks belong to an agent by name: the block id starts with the agent id. */
  ghost function BlocksOf(blocks: Blocks, agent: Id): set<Id> {
    set k | k in blocks && agent <= k
  }

  /** Those of them that are on the device. */
  ghost function ResidentOf(blocks: Blocks, agent: Id): set<Id> {
    set k | k in blocks && agent <= k && blocks[k].state == Allocated
  }

  /** The resident bytes of an agent's blocks, summed up in machine words. */
  ghost function AgentBytes(blocks: Blocks, agent: Id): Usize { Wrap(Resident(blocks, BlocksOf(blocks, agent))) }

  /** Every block is stored under its own id. */
  ghost predicate Named(blocks: Blocks) { forall k :: k in blocks ==> blocks[k].id == k }

  /** The part of a block id before its first dash. */
  function OwnerName(block: Id): Id {
    if block == [] || block[0] == '-' then [] else [block[0]] + OwnerName(block[1..])
  }

  lemma {:induction false} OwnerNameIsPrefix(block: Id)
    ensures OwnerName(block) <= block && '-' !in OwnerName(block)
    ensures OwnerName(block) == block || block[|OwnerName(block)|] == '-'
  {
    if block != [] && block[0] != '-' {
      OwnerNameIsPrefix(block[1..]);
    }
  }

  ghost function OwnerNames(blocks: Blocks): set<Id> { set k | k in blocks :: OwnerName(k) }

  function PriorityOf(budgets: Budgets, agent: Id): Priority {
    if agent in budgets then budgets[agent].priority else Batch
  }

  function RequesterPriority(budgets: Budgets, agent: Id): Priority {
    if agent in budgets then budgets[agent].priority else Normal
  }

  // ---------------------------------------------------------------- who may be swapped, who killed

  ghost predicate Preemptable(budgets: Budgets, blocks: Blocks, requester: Id, agent: Id) {
    && agent in budgets && agent != requester
    && budgets[agent].priority.Rank() < RequesterPriority(budgets, requester).Rank()
    && AgentBytes(blocks, agent) > 0
  }

  ghost predicate Killable(budgets: Budgets, blocks: Blocks, requester: Id, agent: Id) {
    && agent != requester
    && (agent in budgets || agent in OwnerNames(blocks))
    && AgentBytes(blocks, agent) > 0
  }

  /** Who may be swapped out for whom, by class: nobody for a batch agent, batch agents for a normal
      one or one that is not registered, those and normal ones for an interactive one, and all but
      system agents for a system one. */
  lemma PreemptableExactly(budgets: Budgets, blocks: Blocks, requester: Id, agent: Id)
    ensures var own := if requester in budgets then budgets[requester].priority else Normal;
            Preemptable(budgets, blocks, requester, agent) <==>
              && agent in budgets && agent != requester && AgentBytes(blocks, agent) > 0
              && match own
                 case Batch => false
                 case Normal => budgets[agent].priority == Batch
                 case Interactive => budgets[agent].priority in {Batch, Normal}
                 case System => budgets[agent].priority != System
  {
    hide AgentBytes;
  }

  /** The swap list: the resident blocks of all preemptable agents, each listed for an agent
      whose id it starts with, agents of lower priority first. */
  ghost predicate SwapList(budgets: Budgets, blocks: Blocks, requester: Id, list: seq<Id>, owners: seq<Id>) {
    && |owners| == |list|
    && (forall i :: 0 <= i < |list| ==>
          && Preemptable(budgets, blocks, requester, owners[i])
          && list[i] in ResidentOf(blocks, owners[i]))
    && (forall i, j :: 0 <= i < j < |list| ==>
          PriorityOf(budgets, owners[i]).Rank() <= PriorityOf(budgets, owners[j]).Rank())
    && (forall a, k :: Preemptable(budgets, blocks, requester, a) && k in ResidentOf(blocks, a) ==>
          k in list)
  }

  /** The block is resident and named after an agent that may be preempted. */
  ghost predicate MaySwap(budgets: Budgets, blocks: Blocks, requester: Id, block: Id) {
    exists a :: Preemptable(budgets, blocks, requester, a) && block in ResidentOf(blocks, a)
  }

  lemma ListedMaySwap(budgets: Budgets, blocks: Blocks, requester: Id, list: seq<Id>, owners: seq<Id>)
    requires SwapList(budgets, blocks, requester, list, owners)
    ensures forall k :: k in list <==> MaySwap(budgets, blocks, requester, k)
  {
    hide Preemptable, ResidentOf;
    forall k | k in list
      ensures MaySwap(budgets, blocks, requester, k)
    {
      var i :| 0 <= i < |list| && list[i] == k;
      assert Preemptable(budgets, blocks, requester, owners[i]);
    }
  }

  /** Agents killed: all killable, and no killable agent of lower priority is spared. */
  ghost predicate LowestKilledFirst(budgets: Budgets, blocks: Blocks, requester: Id, killed: seq<Id>) {
    && (forall a :: a in killed ==> Killable(budgets, blocks, requester, a))
    && (forall a, b :: a in killed && b !in killed && Killable(budgets, blocks, requester, b) ==>
          PriorityOf(budgets, a).Rank() <= PriorityOf(budgets, b).Rank())
  }

  predicate NamedByAny(block: Id, agents: seq<Id>) { exists a :: a in agents && a <= block }

  /** All blocks named after the killed agents freed, whatever state they were in. */
  function FreedBlocks(blocks: Blocks, killed: seq<Id>): Blocks {
    map k | k in blocks ::
      if NamedByAny(k, killed) then blocks[k].(state := Freed) else blocks[k]
  }

  function AfterKills(st: PoolState, killed: seq<Id>): PoolState {
    st.(blocks := FreedBlocks(st.blocks, killed))
  }

  // ---------------------------------------------------------------- ordering candidates

  datatype Candidate = Candidate(agent: Id, usage: nat, rank: nat)

  /** Lower priority first, then larger usage. */
  predicate Before(a: Candidate, b: Candidate) {
    a.rank < b.rank || (a.rank == b.rank && a.usage >= b.usage)
  }

  predicate Ordered(cs: seq<Candidate>) {
    forall i, j :: 0 <= i < j < |cs| ==> Before(cs[i], cs[j])
  }

  function Insert(c: Candidate, cs: seq<Candidate>): seq<Candidate> {
    if cs == [] || Before(c, cs[0]) then [c] + cs else [cs[0]] + Insert(c, cs[1..])
  }

  function Sort(cs: seq<Candidate>): seq<Candidate> {
    if cs == [] then [] else Insert(cs[0], Sort(cs[1..]))
  }

  lemma {:induction false} InsertOrdered(c: Candidate, cs: seq<Candidate>)
    requires Ordered(cs)
    ensures Ordered(Insert(c, cs)) && multiset(Insert(c, cs)) == multiset(cs) + multiset{c}
  {
    if cs == [] || Before(c, cs[0]) {
      OrderedCons(c, cs);
    } else {
      var head, tail := cs[0], cs[1..];
      var rest := Insert(c, tail);
      assert cs == [head] + tail && Ordered(tail);
      assert Before(head, c) && forall j :: 0 <= j < |tail| ==> Before(head, tail[j]);
      hide Ordered, Before, Insert;
      InsertOrdered(c, tail);
      forall j | 0 <= j < |rest|
        ensures Before(head, rest[j])
      {
        assert rest[j] in multiset(rest);
        assert rest[j] == c || rest[j] in multiset(tail);
      }
      OrderedBelow(head, rest);
    }
  }

  lemma OrderedCons(c: Candidate, cs: seq<Candidate>)
    requires Ordered(cs) && (cs != [] ==> Before(c, cs[0]))
    ensures Ordered([c] + cs)
  {
    assert forall j :: 0 < j < |cs| ==> Before(cs[0], cs[j]);
  }

  lemma OrderedBelow(c: Candidate, cs: seq<Candidate>)
    requires Ordered(cs) && forall j :: 0 <= j < |cs| ==> Before(c, cs[j])
    ensures Ordered([c] + cs)
  {
    hide Before;
  }

  lemma {:induction false} SortOrders(cs: seq<Candidate>)
    ensures Ordered(Sort(cs)) && multiset(Sort(cs)) == multiset(cs)
  {
    if cs != [] {
      var c, rest := cs[0], cs[1..];
      SortOrders(rest);
      InsertOrdered(c, Sort(rest));
      hide Ordered, Insert;
      assert cs == [c] + rest;
    }
  }

  lemma SortKeepsMembers(cs: seq<Candidate>)
    ensures Ordered(Sort(cs))
    ensures forall c :: c in Sort(cs) <==> c in cs
  {
    SortOrders(cs);
    assert forall c :: c in Sort(cs) <==> c in multiset(Sort(cs));
    assert forall c :: c in cs <==> c in multiset(cs);
  }

  // ---------------------------------------------------------------- the killer

  datatype OomAction = SwappedOut(agent: Id) | Killed(agent: Id)

  datatype OomError = AllocationFailed(needed: Usize)

  function KilledActions(killed: seq<Id>): (actions: seq<OomAction>)
    ensures |actions| == |killed| && forall i :: 0 <= i < |killed| ==> actions[i] == Killed(killed[i])
  {
    seq(|killed|, i requires 0 <= i < |killed| => Killed(killed[i]))
  }

  /** The shortest prefix of `rated` whose bytes reach `needed`, or all of it. */
  predicate ShortestCover(rated: seq<Candidate>, victims: seq<Candidate>, needed: nat) {
    && victims <= rated
    && (victims != rated ==> TotalUsage(victims) >= needed)
    && forall n :: 0 <= n < |victims| ==> TotalUsage(victims[..n]) < needed
  }

  lemma CoverIsPrefix(rated: seq<Candidate>, victims: seq<Candidate>, needed: nat)
    requires ShortestCover(rated, victims, needed)
    ensures victims <= rated && forall c :: c in victims ==> c in rated
    ensures victims != rated ==> TotalUsage(victims) >= needed
  {
  }

  method CoverRequest(rated: seq<Candidate>, needed: Usize) returns (victims: seq<Candidate>)
    ensures ShortestCover(rated, victims, needed)
  {
    victims := [];
    var freed := 0;
    for n := 0 to |rated|
      invariant victims == rated[..n]
      invariant freed == TotalUsage(victims)
      invariant forall m :: 0 <= m < n ==> TotalUsage(victims[..m]) < needed
    {
      if freed >= needed {
        return;
      }
      TotalUsageAppend(victims, rated[n]);
      freed := freed + rated[n].usage;
      ghost var before := victims;
      victims := victims + [rated[n]];
      assert forall m :: 0 <= m <= n ==> victims[..m] == before[..m];
      assert before[..n] == before;
    }
  }

  /** The kill phase: the killed are the first of the candidates; all of them when the block was
      not placed, and otherwise no more than it took to make it fit. */
  ghost predicate KilledInTurn(budgets: Budgets, blocks: Blocks, requester: Id, capacity: Usize, size: Usize,
                               killed: seq<Id>, placed: bool)
  {
    exists rated, victims ::
      && KillList(budgets, blocks, requester, rated)
      && ShortestCover(rated, victims, size)
      && TurnsOf(blocks, capacity, size, victims, killed, placed)
  }

  ghost predicate TurnsOf(blocks: Blocks, capacity: Usize, size: Usize, victims: seq<Candidate>,
                          killed: seq<Id>, placed: bool)
  {
    && |killed| <= |victims|
    && killed == Agents(victims[..|killed|])
    && (!placed ==> |killed| == |victims|)
    && (placed ==> killed != [])
    && forall n :: 0 < n <= |killed| ==>
         (Fits(capacity, FreedBlocks(blocks, killed[..n]), size) <==> placed && n == |killed|)
  }

  class GpuOomKiller {
    const pool: GpuMemoryPool
    const budget: GpuBudgetController

    constructor (pool: GpuMemoryPool, budget: GpuBudgetController)
      ensures this.pool == pool && this.budget == budget
    {
      this.pool, this.budget := pool, budget;
    }

    method BlockIdsForAgent(agent: Id) returns (ids: seq<Id>)
      ensures IdSet(ids) == BlocksOf(pool.blocks, agent)
    {
      ids := [];
      var rest := pool.blocks.Keys;
      while rest != {}
        invariant rest <= pool.blocks.Keys
        invariant forall k :: k in ids <==> k in pool.blocks && agent <= k && k !in rest
        decreases rest
      {
        var k :| k in rest;
        rest := rest - {k};
        if agent <= k {
          ids := ids + [k];
        }
      }
    }

    method ResidentBlocksForAgent(agent: Id) returns (resident: seq<Id>)
      ensures forall k :: k in resident <==> k in ResidentOf(pool.blocks, agent)
    {
      var ids := BlockIdsForAgent(agent);
      assert forall k :: k in ids <==> k in IdSet(ids);
      resident := [];
      for b := 0 to |ids|
        invariant forall k :: k in resident <==> k in ids[..b] && k in ResidentOf(pool.blocks, agent)
      {
        assert ids[b] in ids;
        if pool.blocks[ids[b]].state == Allocated {
          resident := resident + [ids[b]];
        }
      }
      assert ids[..|ids|] == ids;
    }

    method UsedBytesForAgent(agent: Id) returns (used: Usize)
      requires Named(pool.blocks)
      ensures used == AgentBytes(pool.blocks, agent)
    {
      hide Resident;
      used := 0;
      var rest := pool.blocks.Keys;
      ghost var owned := BlocksOf(pool.blocks, agent);
      EvictNothing(pool.State());
      assert owned - rest == {};
      while rest != {}
        invariant rest <= pool.blocks.Keys
        invariant used == Wrap(Resident(pool.blocks, owned - rest))
        decreases rest
      {
        var k :| k in rest;
        ResidentAdd(pool.blocks, owned - rest, k);
        assert k in owned ==> owned - (rest - {k}) == (owned - rest) + {k};
        assert k !in owned ==> owned - (rest - {k}) == owned - rest;
        rest := rest - {k};
        if pool.blocks[k].state == Allocated && agent <= pool.blocks[k].id {
          used := Wrap(used + pool.blocks[k].size);
        }
      }
      assert owned - {} == owned;
    }

    /** The candidates of one list: `agents` other than the requester with resident bytes. */
    method Rated(requester: Id, agents: set<Id>) returns (rated: seq<Candidate>)
      requires Named(pool.blocks)
      ensures Ordered(rated)
      ensures forall c :: c in rated <==>
                && c.agent in agents && c.agent != requester && AgentBytes(pool.blocks, c.agent) > 0
                && c == Candidate(c.agent, AgentBytes(pool.blocks, c.agent),
                                  PriorityOf(budget.budgets, c.agent).Rank())
    {
      hide AgentBytes;
      var found: seq<Candidate> := [];
      var rest := agents;
      while rest != {}
        invariant rest <= agents
        invariant forall c :: c in found <==>
                    && c.agent in agents - rest && c.agent != requester
                    && AgentBytes(pool.blocks, c.agent) > 0
                    && c == Candidate(c.agent, AgentBytes(pool.blocks, c.agent),
                                      PriorityOf(budget.budgets, c.agent).Rank())
        decreases rest
      {
        var a :| a in rest;
        rest := rest - {a};
        var usage := UsedBytesForAgent(a);
        if a != requester && usage > 0 {
          found := found + [Candidate(a, usage, PriorityOf(budget.budgets, a).Rank())];
        }
      }
      SortKeepsMembers(found);
      rated := Sort(found);
    }

    /** Agents of equal priority come in an unspecified order; here the larger user first. */
    method GetSwapCandidates(requester: Id) returns (list: seq<Id>, ghost owners: seq<Id>)
      requires Named(pool.blocks)
      ensures forall k :: k in list <==> MaySwap(budget.budgets, pool.blocks, requester, k)
      ensures SwapList(budget.budgets, pool.blocks, requester, list, owners)
    {
      hide AgentBytes, ResidentOf, PriorityOf, RequesterPriority;
      ghost var budgets, blocks := budget.budgets, pool.blocks;
      var lower := set a | a in budget.budgets &&
        budget.budgets[a].priority.Rank() < RequesterPriority(budget.budgets, requester).Rank();
      var rated := Rated(requester, lower);
      list, owners := [], [];
      for n := 0 to |rated|
        invariant |owners| == |list|
        invariant forall i :: 0 <= i < |list| ==> list[i] in ResidentOf(blocks, owners[i])
        invariant forall i :: 0 <= i < |list| ==> exists m :: 0 <= m < n && rated[m].agent == owners[i]
        invariant forall i, j :: 0 <= i < j < |list| ==>
                    PriorityOf(budgets, owners[i]).Rank() <= PriorityOf(budgets, owners[j]).Rank()
        invariant forall m, k :: 0 <= m < n && k in ResidentOf(blocks, rated[m].agent) ==> k in list
      {
        var agent := rated[n].agent;
        forall m | 0 <= m <= n
          ensures PriorityOf(budgets, rated[m].agent).Rank() <= PriorityOf(budgets, agent).Rank()
        {
          assert rated[m] in rated && rated[n] in rated;
        }
        var resident := ResidentBlocksForAgent(agent);
        list := list + resident;
        owners := owners + seq(|resident|, _ => agent);
      }
      forall i | 0 <= i < |list|
        ensures Preemptable(budgets, blocks, requester, owners[i])
      {
        var m :| 0 <= m < |rated| && rated[m].agent == owners[i];
        assert rated[m] in rated;
      }
      forall a, k | Preemptable(budgets, blocks, requester, a) && k in ResidentOf(blocks, a)
        ensures k in list
      {
        var c := Candidate(a, AgentBytes(blocks, a), PriorityOf(budgets, a).Rank());
        assert PriorityOf(budgets, a) == budgets[a].priority by { PriorityOfRegistered(budgets, a); }
        assert c in rated;
      }
      ListedMaySwap(budgets, blocks, requester, list, owners);
    }

    /** The shortest prefix of the rated agents whose bytes cover the request. */
    method GetKillCandidates(requester: Id, needed: Usize)
      returns (victims: seq<Candidate>, ghost rated: seq<Candidate>)
      requires Named(pool.blocks)
      ensures KillList(budget.budgets, pool.blocks, requester, rated)
      ensures ShortestCover(rated, victims, needed)
      ensures forall c :: c in victims ==>
                && Killable(budget.budgets, pool.blocks, requester, c.agent)
                && c.usage == AgentBytes(pool.blocks, c.agent)
    {
      hide ShortestCover, AgentBytes, TotalUsage, Ordered;
      var names := OwnerNamesOf();
      var all := Rated(requester, budget.budgets.Keys + names);
      rated := all;
      victims := CoverRequest(all, needed);
      CoverIsPrefix(all, victims, needed);
    }

    /** The agent names that occur in block ids. */
    method OwnerNamesOf() returns (names: set<Id>)
      ensures names == OwnerNames(pool.blocks)
    {
      names := set k | k in pool.blocks :: OwnerName(k);
    }

    /** Kills one agent: all its blocks are freed and its budget is dropped. */
    method Kill(agent: Id)
      modifies pool`blocks, budget
      ensures pool.State() == AfterKills(old(pool.State()), [agent])
      ensures pool.blocks.Keys == old(pool.blocks).Keys
      ensures forall k :: k in pool.blocks ==>
                pool.blocks[k] == if agent <= k then old(pool.blocks)[k].(state := Freed) else old(pool.blocks)[k]
      ensures budget.budgets == old(budget.budgets) - {agent}
    {
      var ids := BlockIdsForAgent(agent);
      assert forall k :: k in ids <==> k in IdSet(ids);
      ghost var before := pool.blocks;
      for b := 0 to |ids|
        invariant budget.budgets == old(budget.budgets)
        invariant pool.blocks == FreeAmong(before, ids[..b])
      {
        assert ids[b] in ids;
        FreeOneMore(before, ids, b);
        var _ := pool.Deallocate(ids[b]);
      }
      assert ids[..|ids|] == ids;
      FreeAmongIsKill(before, ids, agent);
      budget.UnregisterAgent(agent);
    }

    /** One report for every registered agent and every listed block named after it that is
        now swapped out. */
    method SwapActions(list: seq<Id>) returns (actions: seq<OomAction>)
      ensures forall a :: a in actions <==> SwapReported(budget.budgets, pool.blocks, list, a)
      ensures forall a :: a in actions <==>
                && a.SwappedOut? && a.agent in budget.budgets
                && exists c :: c in list && a.agent <= c && c in pool.blocks && pool.blocks[c].state == Swapped
    {
      actions := [];
      for n := 0 to |list|
        invariant forall a :: a in actions <==> SwapReported(budget.budgets, pool.blocks, list[..n], a)
      {
        var block := list[n];
        var swapped := block in pool.blocks && pool.blocks[block].state == Swapped;
        ghost var before := actions;
        var rest := budget.budgets.Keys;
        while rest != {}
          invariant rest <= budget.budgets.Keys
          invariant forall a :: a in actions <==>
                      a in before || (a.SwappedOut? && a.agent in budget.budgets && a.agent !in rest
                                      && a.agent <= block && swapped)
          decreases rest
        {
          var agent :| agent in rest;
          rest := rest - {agent};
          if agent <= block && swapped {
            actions := actions + [SwappedOut(agent)];
          }
        }
        assert list[..n + 1] == list[..n] + [block];
      }
      assert list[..|list|] == list;
    }

    /** The kill phase: agents are killed in order until the block fits and is placed. */
    method KillUntilPlaced(requester: Id, blockId: Id, size: Usize, ptr: nat)
        returns (r: Result<seq<OomAction>, OomError>, ghost killed: seq<Id>)
      requires Named(pool.blocks)
      modifies pool, budget
      ensures LowestKilledFirst(old(budget.budgets), old(pool.blocks), requester, killed)
      ensures budget.budgets == old(budget.budgets) - IdSet(killed)
      ensures KilledInTurn(old(budget.budgets), old(pool.blocks), requester, pool.capacity, size, killed, r.Ok?)
      ensures r.Ok? <==> killed != [] && Fits(pool.capacity, FreedBlocks(old(pool.blocks), killed), size)
      ensures r.Ok? ==> r.value == KilledActions(killed)
      ensures pool.State() == if r.Ok? then Placed(AfterKills(old(pool.State()), killed), blockId, size, ptr)
                              else AfterKills(old(pool.State()), killed)
    {
      hide Total, FreedBlocks, KillList, LowestKilledFirst, Placed, IdSet, KilledActions, ShortestCover, Fits,
           AgentBytes, Resident, Killable, PriorityOf, TotalUsage;
      ghost var start, budgets := pool.State(), budget.budgets;
      killed := [];
      ghost var rated;
      var victims: seq<Candidate>;
      victims, rated := GetKillCandidates(requester, size);
      CoverIsPrefix(rated, victims, size);
      NoKills(start, budgets, requester);
      for n := 0 to |victims|
        invariant killed == Agents(rated[..n])
        invariant pool.State() == AfterKills(start, killed)
        invariant budget.budgets == budgets - IdSet(killed)
        invariant |killed| == n && killed == Agents(victims[..n])
        invariant forall m :: 0 < m <= n ==> !Fits(pool.capacity, FreedBlocks(start.blocks, killed[..m]), size)
        invariant killed[..n] == killed
        invariant LowestKilledFirst(budgets, start.blocks, requester, killed)
      {
        var victim := victims[n].agent;
        Kill(victim);
        KillMore(start, killed, victim);
        AgentsAppend(rated, n);
        AgentsAppend(victims, n);
        assert rated[..n] == victims[..n];
        ghost var before := killed;
        killed := killed + [victim];
        assert forall m :: 0 < m <= n ==> killed[..m] == before[..m];
        assert killed[..n + 1] == killed;
        KilledPrefixIsLowest(budgets, start.blocks, requester, rated, n + 1);
        var fits := pool.HasCapacity(size);
        if fits {
          var _ := pool.Allocate(blockId, size, ptr);
          assert victims[..n + 1] == rated[..n + 1];
          var actions := KilledList(victims[..n + 1]);
          return Ok(actions), killed;
        }
      }
      r := Err(AllocationFailed(size));
    }

    method Allocate(requester: Id, blockId: Id, size: Usize, ptr: nat)
        returns (r: Result<seq<OomAction>, OomError>, ghost list: seq<Id>, ghost owners: seq<Id>,
                 ghost killed: seq<Id>)
      requires Named(pool.blocks)
      modifies pool, budget
      ensures SwapList(old(budget.budgets), old(pool.blocks), requester, list, owners)
      ensures AutoSwapSucceeds(pool.capacity, old(pool.State()), size, Some(list)) ==>
                && pool.State() == AfterAutoSwap(pool.capacity, old(pool.State()), blockId, size, ptr, Some(list))
                && budget.budgets == old(budget.budgets) && killed == []
                && r.Ok?
                && forall a :: a in r.value <==> SwapReported(budget.budgets, pool.blocks, list, a)
      ensures !AutoSwapSucceeds(pool.capacity, old(pool.State()), size, Some(list)) ==>
                var swapped := AfterAutoSwap(pool.capacity, old(pool.State()), blockId, size, ptr, Some(list));
                && KilledInTurn(old(budget.budgets), swapped.blocks, requester, pool.capacity, size, killed, r.Ok?)
                && LowestKilledFirst(old(budget.budgets), swapped.blocks, requester, killed)
                && budget.budgets == old(budget.budgets) - IdSet(killed)
                && (r.Ok? <==> killed != [] && Fits(pool.capacity, FreedBlocks(swapped.blocks, killed), size))
                && (r.Ok? ==> r.value == KilledActions(killed))
                && pool.State() == if r.Ok? then Placed(AfterKills(swapped, killed), blockId, size, ptr)
                                   else AfterKills(swapped, killed)
      ensures r.Ok? ==> blockId in pool.blocks && pool.blocks[blockId] == Block(blockId, size, ptr, false, Allocated)
      ensures Named(pool.blocks)
      ensures old(Used(pool.blocks)) <= pool.capacity && pool.capacity + size < WORDS ==>
                Used(pool.blocks) <= pool.capacity
    {
      hide AutoSwapSucceeds, AfterAutoSwap, Total, FreedBlocks, SwapList, LowestKilledFirst, Placed, SwapReported,
           KilledInTurn;
      ghost var start := pool.State();
      var candidates: seq<Id>;
      candidates, owners := GetSwapCandidates(requester);
      list, killed := candidates, [];
      var placed := pool.AllocateWithAutoSwap(blockId, size, ptr, Some(candidates));
      SwapOutcome(pool.capacity, start, blockId, size, ptr, Some(candidates));
      if placed.Ok? {
        var actions := SwapActions(candidates);
        r := Ok(actions);
      } else {
        ghost var swapped := pool.State();
        r, killed := KillUntilPlaced(requester, blockId, size, ptr);
        KillOutcome(pool.capacity, swapped, killed, blockId, size, ptr);
      }
    }
  }

  // ---------------------------------------------------------------- lemmas of the killer

  /** The kill list goes by class, lowest first, and by usage within a class, largest first; an owner
      that is not registered is in the class of batch agents. */
  lemma KillOrder(budgets: Budgets, blocks: Blocks, requester: Id, rated: seq<Candidate>, i: nat, j: nat)
    requires KillList(budgets, blocks, requester, rated) && i < j < |rated|
    ensures var a, b := rated[i].agent, rated[j].agent;
            var p, q := if a in budgets then budgets[a].priority else Batch,
                        if b in budgets then budgets[b].priority else Batch;
            && (p == q ==> AgentBytes(blocks, a) >= AgentBytes(blocks, b))
            && match p
               case Batch => true
               case Normal => q != Batch
               case Interactive => q == Interactive || q == System
               case System => q == System
  {
    hide AgentBytes, Killable;
    assert rated[i] in rated && rated[j] in rated;
    assert Before(rated[i], rated[j]);
  }

  function FreeAmong(blocks: Blocks, ids: seq<Id>): Blocks {
    map k | k in blocks :: if k in ids then blocks[k].(state := Freed) else blocks[k]
  }

  lemma FreeOneMore(blocks: Blocks, ids: seq<Id>, b: nat)
    requires b < |ids| && ids[b] in blocks
    ensures FreeAmong(blocks, ids[..b + 1])
         == FreeAmong(blocks, ids[..b])[ids[b] := FreeAmong(blocks, ids[..b])[ids[b]].(state := Freed)]
  {
    assert ids[..b + 1] == ids[..b] + [ids[b]];
    assert forall k :: k in ids[..b + 1] <==> k in ids[..b] || k == ids[b];
  }

  lemma FreeAmongIsKill(blocks: Blocks, ids: seq<Id>, agent: Id)
    requires forall k :: k in ids <==> k in BlocksOf(blocks, agent)
    ensures FreeAmong(blocks, ids) == FreedBlocks(blocks, [agent])
  {
    assert agent in [agent];
    assert forall k :: NamedByAny(k, [agent]) <==> agent <= k;
  }

  ghost predicate SwapReported(budgets: Budgets, blocks: Blocks, list: seq<Id>, a: OomAction) {
    && a.SwappedOut? && a.agent in budgets
    && exists c :: c in list && a.agent <= c && c in blocks && blocks[c].state == Swapped
  }

  /** Auto-swap keeps names and the capacity, and places the block when it succeeds. */
  lemma SwapOutcome(capacity: Usize, st: PoolState, id: Id, size: Usize, ptr: nat, given: Option<seq<Id>>)
    requires Named(st.blocks)
    ensures var after := AfterAutoSwap(capacity, st, id, size, ptr, given).blocks;
            && Named(after)
            && (Used(st.blocks) <= capacity && capacity + size < WORDS ==> Used(after) <= capacity)
            && (AutoSwapSucceeds(capacity, st, size, given) ==>
                  id in after && after[id] == NewBlock(id, size, ptr))
            && (Used(st.blocks) <= capacity && !AutoSwapSucceeds(capacity, st, size, given) ==>
                  Used(after) <= capacity)
  {
    hide Total, Victims, Candidates, Resident, NewHosts;
    EvictedTotals(st.blocks, IdSet(Victims(st.blocks, Candidates(st, given), size)));
    var op := DoAutoSwap(id, size, ptr, given);
    if Used(st.blocks) <= capacity && Keeps(capacity, st, op) {
      StepKeepsCapacityExactly(capacity, st, op);
    }
  }

  /** So do the kills and the placement after them. */
  lemma KillOutcome(capacity: Usize, st: PoolState, killed: seq<Id>, id: Id, size: Usize, ptr: nat)
    requires Named(st.blocks)
    ensures var after := AfterKills(st, killed);
            && Named(after.blocks) && (Used(st.blocks) <= capacity ==> Used(after.blocks) <= capacity)
            && (Used(st.blocks) <= capacity && Fits(capacity, after.blocks, size) && capacity + size < WORDS ==>
                  Used(Placed(after, id, size, ptr).blocks) <= capacity)
            && Named(Placed(after, id, size, ptr).blocks)
            && id in Placed(after, id, size, ptr).blocks
            && Placed(after, id, size, ptr).blocks[id] == NewBlock(id, size, ptr)
  {
    hide Total;
    FreedTotal(st.blocks, killed);
    PlacedTotal(AfterKills(st, killed), id, size, ptr);
  }

  lemma {:induction false} FreedTotal(blocks: Blocks, killed: seq<Id>)
    ensures Used(FreedBlocks(blocks, killed)) <= Used(blocks)
    decreases |blocks|
  {
    hide NamedByAny;
    var after := FreedBlocks(blocks, killed);
    if blocks == map[] {
      assert after == map[];
    } else {
      var k :| k in blocks;
      FreedTotal(blocks - {k}, killed);
      hide Total;
      assert after - {k} == FreedBlocks(blocks - {k}, killed);
      TotalSplit(blocks, Allocated, k);
      TotalSplit(after, Allocated, k);
    }
  }

  // ---------------------------------------------------------------- who is affected

  /** No name in `names` is a proper prefix of another. */
  ghost predicate PrefixFree(names: set<Id>) {
    forall a, b :: a in names && b in names && a <= b ==> a == b
  }

  lemma PrefixesAgree(names: set<Id>, a: Id, b: Id, block: Id)
    requires PrefixFree(names) && a in names && b in names && a <= block && b <= block
    ensures a == b
  {
    assert a == block[..|a|] && b == block[..|b|];
    assert |a| <= |b| ==> a == b[..|a|];
    assert |b| <= |a| ==> b == a[..|b|];
  }

  /** With prefix-free agent ids the swap phase touches only blocks of strictly lower-priority
      agents, never the requester's own. */
  lemma SwapPhaseSparesEquals(budgets: Budgets, blocks: Blocks, requester: Id, list: seq<Id>,
                              owners: seq<Id>, i: nat, agent: Id)
    requires SwapList(budgets, blocks, requester, list, owners) && i < |list|
    requires PrefixFree(budgets.Keys + {requester})
    requires agent in budgets.Keys + {requester} && agent <= list[i]
    ensures agent == owners[i] && agent in budgets && agent != requester
    ensures budgets[agent].priority.Rank() < RequesterPriority(budgets, requester).Rank()
  {
    hide AgentBytes;
    PrefixesAgree(budgets.Keys + {requester}, agent, owners[i], list[i]);
  }

  /** The swap phase among agents `names`: a listed block belongs, by its name, to nobody but agents of
      strictly lower priority. */
  ghost predicate SparesEquals(names: set<Id>, budgets: Budgets, blocks: Blocks, requester: Id,
                               list: seq<Id>, owners: seq<Id>)
  {
    budgets.Keys + {requester} <= names && SwapList(budgets, blocks, requester, list, owners) ==>
      forall i, agent ::
        0 <= i < |list| && agent in budgets.Keys + {requester} && agent <= list[i] ==>
          && agent in budgets && agent != requester
          && budgets[agent].priority.Rank() < RequesterPriority(budgets, requester).Rank()
  }

  /** That holds for every list the killer may draw up among them, exactly when no name is a prefix
      of another. */
  lemma SwapPhaseSparesExactly(names: set<Id>)
    ensures (forall budgets, blocks, requester, list, owners ::
               SparesEquals(names, budgets, blocks, requester, list, owners))
       <==> PrefixFree(names)
  {
    if PrefixFree(names) {
      forall budgets, blocks, requester, list, owners
        ensures SparesEquals(names, budgets, blocks, requester, list, owners)
      {
        hide Preemptable, ResidentOf;
        if budgets.Keys + {requester} <= names && SwapList(budgets, blocks, requester, list, owners) {
          forall i, agent | 0 <= i < |list| && agent in budgets.Keys + {requester} && agent <= list[i]
            ensures agent in budgets && agent != requester
            ensures budgets[agent].priority.Rank() < RequesterPriority(budgets, requester).Rank()
          {
            SwapPhaseSparesEquals(budgets, blocks, requester, list, owners, i, agent);
          }
        }
      }
    } else {
      var a, b :| a in names && b in names && a <= b && a != b;
      PrefixIsSwappedForItself(names, a, b);
    }
  }

  /** When the name of `b` extends that of a lower-priority agent `a`, a request of `b` may swap out
      the very blocks of `b`. */
  lemma PrefixIsSwappedForItself(names: set<Id>, a: Id, b: Id)
    requires a in names && b in names && a <= b && a != b
    ensures exists budgets :: !SparesEquals(names, budgets, SoleBlock(b, 1), b, [b], [a])
  {
    hide AgentBytes;
    var budgets := map[a := AgentBudget(0, 0, Batch), b := AgentBudget(0, 0, System)];
    var blocks := SoleBlock(b, 1);
    SoleBlockBytes(b, 1, a);
    assert Preemptable(budgets, blocks, b, a);
    assert SwapList(budgets, blocks, b, [b], [a]);
    assert [b][0] == b && b <= b;
    assert !SparesEquals(names, budgets, blocks, b, [b], [a]);
  }

  /** Blocks are evicted in the order of the list, which is that of priority: a victim precedes
      every listed block that is spared. */
  lemma SwapPhaseInOrder(st: PoolState, budgets: Budgets, requester: Id, list: seq<Id>, owners: seq<Id>,
                         size: Usize, i: nat, j: nat)
    requires SwapList(budgets, st.blocks, requester, list, owners) && j < |list|
    requires i < |Victims(st.blocks, list, size)| && list[j] !in Victims(st.blocks, list, size)
    ensures Victims(st.blocks, list, size) <= list && i < j
    ensures PriorityOf(budgets, owners[i]).Rank() <= PriorityOf(budgets, owners[j]).Rank()
  {
    hide AgentBytes, PriorityOf, Resident;
    ShortestPrefixBound(st.blocks, list, size, 0);
    var victims := Victims(st.blocks, list, size);
    assert forall n :: 0 <= n < |victims| ==> list[n] == victims[n] && list[n] in victims;
  }

  /** No block is evicted while a listed block of a lower-priority agent stays resident. */
  lemma SwapPhaseLowestFirst(capacity: Usize, st: PoolState, budgets: Budgets, requester: Id,
                             list: seq<Id>, owners: seq<Id>, size: Usize, i: nat, j: nat)
    requires SwapList(budgets, st.blocks, requester, list, owners) && i < |list| && j < |list|
    requires PrefixFree(budgets.Keys)
    requires list[i] in Victims(st.blocks, list, size) && list[j] !in Victims(st.blocks, list, size)
    ensures PriorityOf(budgets, owners[i]).Rank() <= PriorityOf(budgets, owners[j]).Rank()
  {
    hide AgentBytes, PriorityOf, Resident;
    ShortestPrefixBound(st.blocks, list, size, 0);
    var victims := Victims(st.blocks, list, size);
    var m :| 0 <= m < |victims| && victims[m] == list[i];
    PrefixesAgree(budgets.Keys, owners[m], owners[i], list[i]);
    assert j >= |victims| by {
      assert forall n :: 0 <= n < |victims| ==> list[n] in victims;
    }
  }

  /** With prefix-free names, registered or taken from block ids, killing frees exactly the
      blocks of the killed agents: a freed block has one owner, and it was killed. */
  lemma KillsHitOnlyVictims(budgets: Budgets, blocks: Blocks, requester: Id, killed: seq<Id>, k: Id, agent: Id)
    requires PrefixFree(budgets.Keys + OwnerNames(blocks))
    requires LowestKilledFirst(budgets, blocks, requester, killed)
    requires k in blocks && agent in budgets.Keys + OwnerNames(blocks) && agent <= k
    ensures NamedByAny(k, killed) <==> agent in killed
    ensures FreedBlocks(blocks, killed)[k]
         == if agent in killed then blocks[k].(state := Freed) else blocks[k]
  {
    hide AgentBytes, PriorityOf;
    if NamedByAny(k, killed) {
      var a :| a in killed && a <= k;
      PrefixesAgree(budgets.Keys + OwnerNames(blocks), a, agent, k);
    }
  }

  // ---------------------------------------------------------------- which names are safe

  /** The convention for block ids: the agent's id, a dash, anything. */
  predicate Owns(agent: Id, block: Id) { agent + "-" <= block }

  ghost predicate OwnedBlocks(names: set<Id>, blocks: Blocks) {
    Named(blocks) && forall k :: k in blocks ==> exists a :: a in names && Owns(a, k)
  }

  ghost predicate DashFree(names: set<Id>) { forall a :: a in names ==> '-' !in a }

  /** One run of the kill phase among agents `names`: every agent that loses a block was killed. */
  ghost predicate OnlyVictimsLose(names: set<Id>, budgets: Budgets, blocks: Blocks, requester: Id,
                                  capacity: Usize, size: Usize, killed: seq<Id>, placed: bool)
  {
    budgets.Keys <= names && OwnedBlocks(names, blocks)
    && KilledInTurn(budgets, blocks, requester, capacity, size, killed, placed) ==>
      forall k, agent :: k in blocks && agent in names && Owns(agent, k) && NamedByAny(k, killed) ==>
        agent in killed
  }

  /** For agents `names` the kill phase takes blocks from nobody but the agents it kills, whatever
      is registered and resident, exactly when no name has a dash and none is a prefix of
      another. */
  lemma KillsAreFairExactly(names: set<Id>)
    ensures (forall budgets, blocks, requester, capacity, size, killed, placed ::
               OnlyVictimsLose(names, budgets, blocks, requester, capacity, size, killed, placed))
       <==> DashFree(names) && PrefixFree(names)
  {
    if DashFree(names) && PrefixFree(names) {
      forall budgets, blocks, requester, capacity: Usize, size: Usize, killed, placed
        ensures OnlyVictimsLose(names, budgets, blocks, requester, capacity, size, killed, placed)
      {
        PlainNamesAreFair(names, budgets, blocks, requester, capacity, size, killed, placed);
      }
    } else if !DashFree(names) {
      var b :| b in names && '-' in b;
      DashedNameIsUnfair(names, b);
    } else {
      var a, b :| a in names && b in names && a <= b && a != b;
      PrefixIsUnfair(names, a, b);
    }
  }

  lemma TurnsKillKillable(budgets: Budgets, blocks: Blocks, requester: Id, capacity: Usize, size: Usize,
                          killed: seq<Id>, placed: bool)
    requires KilledInTurn(budgets, blocks, requester, capacity, size, killed, placed)
    ensures forall a :: a in killed ==> Killable(budgets, blocks, requester, a)
  {
    hide AgentBytes, PriorityOf, TotalUsage, Fits, FreedBlocks;
    var rated, victims :| KillList(budgets, blocks, requester, rated) && ShortestCover(rated, victims, size)
                          && TurnsOf(blocks, capacity, size, victims, killed, placed);
    forall a | a in killed
      ensures Killable(budgets, blocks, requester, a)
    {
      var i :| 0 <= i < |killed| && killed[i] == a;
      assert victims[..|killed|][i] == victims[i] == rated[i];
      assert rated[i] in rated;
    }
  }

  lemma PlainNamesAreFair(names: set<Id>, budgets: Budgets, blocks: Blocks, requester: Id,
                          capacity: Usize, size: Usize, killed: seq<Id>, placed: bool)
    requires DashFree(names) && PrefixFree(names)
    ensures OnlyVictimsLose(names, budgets, blocks, requester, capacity, size, killed, placed)
  {
    hide KilledInTurn, AgentBytes;
    if budgets.Keys <= names && OwnedBlocks(names, blocks)
       && KilledInTurn(budgets, blocks, requester, capacity, size, killed, placed)
    {
      TurnsKillKillable(budgets, blocks, requester, capacity, size, killed, placed);
      forall k, agent | k in blocks && agent in names && Owns(agent, k) && NamedByAny(k, killed)
        ensures agent in killed
      {
        var a :| a in killed && a <= k;
        assert a in names by {
          if a !in budgets {
            var j :| j in blocks && OwnerName(j) == a;
            var owner :| owner in names && Owns(owner, j);
            OwnerOfPlain(owner, j);
          }
        }
        assert agent <= k;
        PrefixesAgree(names, a, agent, k);
      }
    }
  }

  lemma {:induction false} OwnerOfPlain(agent: Id, block: Id)
    requires Owns(agent, block) && '-' !in agent
    ensures OwnerName(block) == agent
  {
    if agent == [] {
    } else {
      assert (agent + "-")[1..] == agent[1..] + "-";
      OwnerOfPlain(agent[1..], block[1..]);
    }
  }

  lemma SoleBlockBytes(k: Id, size: Usize, agent: Id)
    ensures AgentBytes(SoleBlock(k, size), agent) == if agent <= k then size else 0
    ensures OwnerNames(SoleBlock(k, size)) == {OwnerName(k)}
  {
    hide Total, OwnerName;
    var blocks := SoleBlock(k, size);
    var mine := BlocksOf(blocks, agent);
    if agent <= k {
      assert Among(blocks, mine) == blocks;
      SoleBlockTotal(k, blocks[k]);
    } else {
      assert Among(blocks, mine) == map[];
      NoBlocksNoBytes();
    }
    assert k in blocks && OwnerName(k) in OwnerNames(blocks);
  }

  lemma SoleBlockFreed(k: Id, size: Usize, agent: Id, capacity: Usize, wanted: Usize)
    requires agent <= k && wanted <= capacity
    ensures FreedBlocks(SoleBlock(k, size), [agent]) == map[k := NewBlock(k, size, 0).(state := Freed)]
    ensures Fits(capacity, FreedBlocks(SoleBlock(k, size), [agent]), wanted)
  {
    hide Total;
    assert agent in [agent] && NamedByAny(k, [agent]);
    var freed := NewBlock(k, size, 0).(state := Freed);
    assert FreedBlocks(SoleBlock(k, size), [agent]) == map[k := freed];
    SoleBlockTotal(k, freed);
  }

  lemma OneVictim(budgets: Budgets, k: Id, requester: Id, rated: seq<Candidate>)
    requires rated != [] && rated[0].agent <= k && rated[0].usage == 1
    requires KillList(budgets, SoleBlock(k, 1), requester, rated)
    ensures KilledInTurn(budgets, SoleBlock(k, 1), requester, 1, 1, [rated[0].agent], true)
  {
    hide AgentBytes, KillList, Fits, FreedBlocks;
    var victims := rated[..1];
    SoleBlockFreed(k, 1, rated[0].agent, 1, 1);
    assert TotalUsage(victims) == 1 && TotalUsage([]) == 0 by {
      assert victims[1..] == [];
    }
    assert victims[..0] == [];
    assert Agents(victims[..1]) == [rated[0].agent];
    assert [rated[0].agent][..1] == [rated[0].agent];
    assert ShortestCover(rated, victims, 1);
    assert TurnsOf(SoleBlock(k, 1), 1, 1, victims, [rated[0].agent], true);
  }

  /** An agent with a dash in its name falls with the part before the dash, which nobody need
      have registered. */
  lemma DashedNameIsUnfair(names: set<Id>, b: Id)
    requires b in names && '-' in b
    ensures exists k :: !OnlyVictimsLose(names, map[], SoleBlock(k, 1), k, 1, 1, [OwnerName(k)], true)
  {
    hide AgentBytes, PriorityOf, KilledInTurn;
    var k := b + "-";
    var stem := OwnerName(k);
    StemOfDashed(k, b);
    OwnerNameIsPrefix(k);
    var c := Candidate(stem, 1, PriorityOf(map[], stem).Rank());
    forall x ensures x in [c] <==>
        Killable(map[], SoleBlock(k, 1), k, x.agent)
        && x == Candidate(x.agent, AgentBytes(SoleBlock(k, 1), x.agent), PriorityOf(map[], x.agent).Rank())
    {
      SoleBlockBytes(k, 1, x.agent);
      SoleBlockBytes(k, 1, stem);
    }
    assert KillList(map[], SoleBlock(k, 1), k, [c]);
    OneVictim(map[], k, k, [c]);
    assert stem in [stem] && NamedByAny(k, [stem]);
    assert OwnedBlocks(names, SoleBlock(k, 1));
    assert !OnlyVictimsLose(names, map[], SoleBlock(k, 1), k, 1, 1, [stem], true) by {
      assert Owns(b, k) && b !in [stem];
    }
  }

  /** An agent whose name extends another's falls with the other. */
  lemma PrefixIsUnfair(names: set<Id>, a: Id, b: Id)
    requires a in names && b in names && a <= b && a != b && DashFree(names)
    ensures exists budgets, k :: !OnlyVictimsLose(names, budgets, SoleBlock(k, 1), k, 1, 1, [a], true)
  {
    hide AgentBytes, KilledInTurn;
    var k := b + "-";
    var budgets := map[a := AgentBudget(0, 0, Batch)];
    OwnerOfPlain(b, k);
    var rated := [Candidate(a, 1, 0), Candidate(b, 1, 0)];
    assert PriorityOf(budgets, a) == Batch && PriorityOf(budgets, b) == Batch;
    forall x ensures x in rated <==>
        Killable(budgets, SoleBlock(k, 1), k, x.agent)
        && x == Candidate(x.agent, AgentBytes(SoleBlock(k, 1), x.agent), PriorityOf(budgets, x.agent).Rank())
    {
      SoleBlockBytes(k, 1, x.agent);
      SoleBlockBytes(k, 1, a);
      SoleBlockBytes(k, 1, b);
    }
    assert KillList(budgets, SoleBlock(k, 1), k, rated);
    OneVictim(budgets, k, k, rated);
    assert a in [a] && NamedByAny(k, [a]);
    assert OwnedBlocks(names, SoleBlock(k, 1));
    assert !OnlyVictimsLose(names, budgets, SoleBlock(k, 1), k, 1, 1, [a], true) by {
      assert Owns(b, k) && b !in [a];
    }
  }

  /** In any pool, the resident block of an agent with a dash makes the part before the dash a
      killable agent of the lowest priority, and killing that frees the block. */
  lemma DashedAgentFallsWithItsStem(budgets: Budgets, blocks: Blocks, requester: Id, agent: Id, k: Id)
    requires agent in budgets && '-' in agent
    requires k in blocks && agent <= k && Evictable(blocks[k])
    requires OwnerName(k) !in budgets && OwnerName(k) != requester
    ensures OwnerName(k) < agent
    ensures Killable(budgets, blocks, requester, OwnerName(k)) <==> AgentBytes(blocks, OwnerName(k)) > 0
    ensures Used(blocks) < WORDS ==> AgentBytes(blocks, OwnerName(k)) > 0
    ensures PriorityOf(budgets, OwnerName(k)) == Batch
    ensures FreedBlocks(blocks, [OwnerName(k)])[k].state == Freed
  {
    hide Total, Resident, Used;
    var stem := OwnerName(k);
    OwnerNameIsPrefix(k);
    StemOfDashed(k, agent);
    assert stem in [stem];
    if Used(blocks) < WORDS {
      StemOwnsBytes(blocks, stem, k);
    }
  }

  /** An agent with a resident block under its name has resident bytes, up to overflow. */
  lemma StemOwnsBytes(blocks: Blocks, stem: Id, k: Id)
    requires k in blocks && stem <= k && Evictable(blocks[k]) && Used(blocks) < WORDS
    ensures AgentBytes(blocks, stem) > 0
  {
    hide Total, Resident, Used;
    assert k in BlocksOf(blocks, stem);
    ResidentSplit(blocks, BlocksOf(blocks, stem), k);
    ResidentMonotone(blocks, BlocksOf(blocks, stem), blocks.Keys);
    ResidentAll(blocks);
  }

  lemma {:induction false} StemOfDashed(block: Id, agent: Id)
    requires agent <= block && '-' in agent
    ensures OwnerName(block) < agent
  {
    assert agent != [] && agent[0] == block[0];
    if block[0] != '-' {
      assert '-' in agent[1..] && agent[1..] <= block[1..];
      StemOfDashed(block[1..], agent[1..]);
    }
  }

  /** A single block whose owner `a` may not be swapped out for `b`, while the part of its id before
      the dash is registered nowhere: the swap phase finds nothing, the kill phase kills the stem,
      and the block is gone. */
  ghost predicate StemRun(budgets: Budgets, a: Id, b: Id, k: Id, stem: Id, size: Usize, wanted: Usize) {
    && budgets.Keys == {a, b} && a != b
    && a <= k && stem == OwnerName(k) && stem <= k && stem != a && stem != b && !(b <= k)
    && Batch.Rank() < budgets[b].priority.Rank() < budgets[a].priority.Rank()
    && 0 < wanted <= size
  }

  lemma NobodyToPreempt(budgets: Budgets, blocks: Blocks, a: Id, b: Id, k: Id, stem: Id, size: Usize,
                        wanted: Usize, agent: Id)
    requires StemRun(budgets, a, b, k, stem, size, wanted)
    ensures !Preemptable(budgets, blocks, b, agent)
  {
    hide AgentBytes, OwnerName;
  }

  lemma NothingToSwap(capacity: Usize, budgets: Budgets, st: PoolState, a: Id, b: Id, k: Id, stem: Id,
                      size: Usize, wanted: Usize, ptr: nat, id: Id, list: seq<Id>, owners: seq<Id>)
    requires StemRun(budgets, a, b, k, stem, size, wanted)
    requires st.blocks == SoleBlock(k, size) && capacity < size + wanted < WORDS
    requires SwapList(budgets, st.blocks, b, list, owners)
    ensures !AutoSwapSucceeds(capacity, st, wanted, Some(list))
    ensures AfterAutoSwap(capacity, st, id, wanted, ptr, Some(list)) == st
  {
    hide Total, OwnerName, ResidentOf, Evicted;
    var first := if list == [] then a else owners[0];
    NobodyToPreempt(budgets, st.blocks, a, b, k, stem, size, wanted, first);
    assert list == [];
    SoleBlockTotal(k, st.blocks[k]);
    assert !Fits(capacity, st.blocks, wanted);
    EvictNothing(st);
    ShortestPrefixBound(st.blocks, [], wanted, 0);
    assert Victims(st.blocks, [], wanted) == [];
  }

  lemma StemIsKilled(capacity: Usize, budgets: Budgets, a: Id, b: Id, k: Id, stem: Id, size: Usize, wanted: Usize,
                     killed: seq<Id>, placed: bool)
    requires StemRun(budgets, a, b, k, stem, size, wanted) && wanted <= capacity
    requires KilledInTurn(budgets, SoleBlock(k, size), b, capacity, wanted, killed, placed)
    ensures placed && killed == [stem]
  {
    hide AgentBytes, FreedBlocks, Fits, Total, OwnerName;
    var blocks := SoleBlock(k, size);
    var rated: seq<Candidate>, victims: seq<Candidate> :|
      KillList(budgets, blocks, b, rated) && ShortestCover(rated, victims, wanted)
      && TurnsOf(blocks, capacity, wanted, victims, killed, placed);
    SoleBlockBytes(k, size, stem);
    StemComesFirst(budgets, a, b, k, stem, size, wanted, rated);
    assert rated[0].agent == stem && rated[0].usage == size;
    hide KillList;
    OneVictimCovers(rated, victims, wanted);
    assert Agents(victims[..1]) == [stem] && victims[..0] == [];
    SoleBlockFreed(k, size, stem, capacity, wanted);
    assert killed == [stem] ==> killed[..1] == [stem];
    assert Agents(victims[..0]) == [];
  }

  lemma StemComesFirst(budgets: Budgets, a: Id, b: Id, k: Id, stem: Id, size: Usize, wanted: Usize,
                       rated: seq<Candidate>)
    requires StemRun(budgets, a, b, k, stem, size, wanted)
    requires KillList(budgets, SoleBlock(k, size), b, rated)
    ensures rated != [] && rated[0] == Candidate(stem, size, 0)
  {
    hide AgentBytes, Total, OwnerName;
    SoleBlockBytes(k, size, stem);
    var c := Candidate(stem, size, 0);
    assert c in rated;
    var i :| 0 <= i < |rated| && rated[i] == c;
    assert i > 0 ==> Before(rated[0], rated[i]);
    assert rated[0] in rated;
    SoleBlockBytes(k, size, rated[0].agent);
  }

  lemma OneVictimCovers(rated: seq<Candidate>, victims: seq<Candidate>, wanted: Usize)
    requires rated != [] && rated[0].usage >= wanted > 0 && ShortestCover(rated, victims, wanted)
    ensures victims == [rated[0]]
  {
    assert TotalUsage([]) == 0;
    assert TotalUsage([rated[0]]) == rated[0].usage by { assert [rated[0]][1..] == []; }
    assert victims != [];
    assert victims[..1] == [rated[0]];
  }

  const STEM: Id := "agent"
  const AGENT_A: Id := STEM + "-a"
  const AGENT_B: Id := STEM + "-b"
  const BLOCK_A: Id := AGENT_A + "-block-1"
  const BLOCK_B: Id := AGENT_B + "-block-1"

  lemma NamesOfRun()
    ensures AGENT_A != AGENT_B && AGENT_A <= BLOCK_A && !(AGENT_B <= BLOCK_A)
    ensures OwnerName(BLOCK_A) == STEM && STEM <= BLOCK_A && STEM != AGENT_A && STEM != AGENT_B
    ensures BLOCK_A != BLOCK_B
  {
    assert '-' !in STEM;
    assert |STEM| == 5;
    hide STEM;
    assert AGENT_A[6] == 'a' && AGENT_B[6] == 'b';
    assert STEM + "-" <= BLOCK_A;
    OwnerOfPlain(STEM, BLOCK_A);
    hide OwnerName;
    assert BLOCK_A[6] == 'a' && BLOCK_B[6] == 'b';
  }

  /** A run of the killer with the repository's own kind of names. Agent a has the higher
      priority, so its block may not be swapped out for agent b; but the kill phase takes it, in
      the name of an agent that nobody registered, and agent a stays registered. */
  method HigherPriorityLosesItsBlock() returns (killer: GpuOomKiller, r: Result<seq<OomAction>, OomError>)
    ensures r == Ok([Killed(STEM)])
    ensures BLOCK_A in killer.pool.blocks && killer.pool.blocks[BLOCK_A].state == Freed
    ensures AGENT_A in killer.budget.budgets && AGENT_B in killer.budget.budgets
    ensures killer.budget.budgets[AGENT_A].priority.Rank() > killer.budget.budgets[AGENT_B].priority.Rank()
  {
    hide Total, Fits, FreedBlocks, KilledInTurn, LowestKilledFirst, AutoSwapSucceeds, AfterAutoSwap, SwapList,
         OwnerName, AGENT_A, AGENT_B, STEM, BLOCK_A, BLOCK_B, IdSet;
    NamesOfRun();
    var pool := new GpuMemoryPool(500);
    EmptyPoolFits();
    var _ := pool.Allocate(BLOCK_A, 400, 0);
    var budget := new GpuBudgetController();
    budget.RegisterAgent(AGENT_A, 300, Interactive);
    budget.RegisterAgent(AGENT_B, 300, Normal);
    killer := new GpuOomKiller(pool, budget);
    ghost var before, st := budget.budgets, pool.State();
    assert st.blocks == SoleBlock(BLOCK_A, 400);
    ghost var list, owners, killed;
    r, list, owners, killed := killer.Allocate(AGENT_B, BLOCK_B, 200, 0);
    assert StemRun(before, AGENT_A, AGENT_B, BLOCK_A, STEM, 400, 200);
    NothingToSwap(500, before, st, AGENT_A, AGENT_B, BLOCK_A, STEM, 400, 200, 0, BLOCK_B, list, owners);
    StemIsKilled(500, before, AGENT_A, AGENT_B, BLOCK_A, STEM, 400, 200, killed, r.Ok?);
    SoleBlockFreed(BLOCK_A, 400, STEM, 500, 200);
    OnlyThatName(STEM);
    assert KilledActions([STEM]) == [Killed(STEM)];
  }

  lemma OnlyThatName(a: Id)
    ensures IdSet([a]) == {a}
  {
  }

  lemma EmptyPoolFits()
    ensures Fits(500, map[], 400)
  {
  }

  function Agents(cs: seq<Candidate>): seq<Id> {
    seq(|cs|, i requires 0 <= i < |cs| => cs[i].agent)
  }

  lemma AgentsAppend(rated: seq<Candidate>, n: nat)
    requires n < |rated|
    ensures Agents(rated[..n + 1]) == Agents(rated[..n]) + [rated[n].agent]
  {
  }

  method KilledList(victims: seq<Candidate>) returns (actions: seq<OomAction>)
    ensures actions == KilledActions(Agents(victims))
  {
    actions := [];
    for i := 0 to |victims|
      invariant actions == KilledActions(Agents(victims[..i]))
    {
      actions := actions + [Killed(victims[i].agent)];
    }
    assert victims[..|victims|] == victims;
  }

  lemma NoKills(st: PoolState, budgets: Budgets, requester: Id)
    ensures AfterKills(st, []) == st
    ensures budgets - IdSet([]) == budgets
    ensures LowestKilledFirst(budgets, st.blocks, requester, [])
  {
    assert IdSet([]) == {};
    assert FreedBlocks(st.blocks, []) == st.blocks;
  }

  lemma KillMore(st: PoolState, killed: seq<Id>, a: Id)
    ensures AfterKills(AfterKills(st, killed), [a]) == AfterKills(st, killed + [a])
    ensures IdSet(killed + [a]) == IdSet(killed) + {a}
  {
    forall k
      ensures NamedByAny(k, killed + [a]) <==> NamedByAny(k, killed) || NamedByAny(k, [a])
    {
      assert a in [a] && a in killed + [a];
      assert forall x :: x in killed + [a] <==> x in killed || x == a;
      assert NamedByAny(k, [a]) <==> a <= k;
    }
    assert FreedBlocks(FreedBlocks(st.blocks, killed), [a]) == FreedBlocks(st.blocks, killed + [a]);
  }

  lemma KilledPrefixIsLowest(budgets: Budgets, blocks: Blocks, requester: Id, rated: seq<Candidate>, n: nat)
    requires KillList(budgets, blocks, requester, rated) && n <= |rated|
    ensures LowestKilledFirst(budgets, blocks, requester, Agents(rated[..n]))
  {
    hide AgentBytes, PriorityOf, KillList, Killable;
    var killed := Agents(rated[..n]);
    forall a | a in killed
      ensures Killable(budgets, blocks, requester, a)
    {
      var i :| 0 <= i < n && killed[i] == a;
      ListedAreKillable(budgets, blocks, requester, rated, i);
    }
    forall a, b | a in killed && b !in killed && Killable(budgets, blocks, requester, b)
      ensures PriorityOf(budgets, a).Rank() <= PriorityOf(budgets, b).Rank()
    {
      var i :| 0 <= i < n && killed[i] == a;
      var j := KillableAreListed(budgets, blocks, requester, rated, b);
      SparedIsLater(rated, n, j);
      ListedAreKillable(budgets, blocks, requester, rated, i);
      ListedInOrder(budgets, blocks, requester, rated, i, j);
    }
  }

  lemma SparedIsLater(rated: seq<Candidate>, n: nat, j: nat)
    requires n <= |rated| && j < |rated| && rated[j].agent !in Agents(rated[..n])
    ensures n <= j
  {
    var killed := Agents(rated[..n]);
    assert forall m :: 0 <= m < n ==> killed[m] == rated[m].agent && killed[m] in killed;
  }

  lemma ListedAreKillable(budgets: Budgets, blocks: Blocks, requester: Id, rated: seq<Candidate>, i: nat)
    requires KillList(budgets, blocks, requester, rated) && i < |rated|
    ensures Killable(budgets, blocks, requester, rated[i].agent)
    ensures rated[i].rank == PriorityOf(budgets, rated[i].agent).Rank()
  {
    hide AgentBytes, PriorityOf, Killable, Ordered;
    assert rated[i] in rated;
  }

  lemma KillableAreListed(budgets: Budgets, blocks: Blocks, requester: Id, rated: seq<Candidate>, a: Id)
      returns (j: nat)
    requires KillList(budgets, blocks, requester, rated) && Killable(budgets, blocks, requester, a)
    ensures j < |rated| && rated[j].agent == a
  {
    hide AgentBytes, PriorityOf, Killable, Ordered;
    var c := Candidate(a, AgentBytes(blocks, a), PriorityOf(budgets, a).Rank());
    assert c in rated;
    j :| 0 <= j < |rated| && rated[j] == c;
  }

  lemma ListedInOrder(budgets: Budgets, blocks: Blocks, requester: Id, rated: seq<Candidate>, i: nat, j: nat)
    requires KillList(budgets, blocks, requester, rated) && i < |rated| && j < |rated| && i <= j
    ensures PriorityOf(budgets, rated[i].agent).Rank() <= PriorityOf(budgets, rated[j].agent).Rank()
  {
    hide AgentBytes, PriorityOf, Killable;
    assert rated[i] in rated && rated[j] in rated;
    assert i < j ==> Before(rated[i], rated[j]);
  }

  lemma PriorityOfRegistered(budgets: Budgets, agent: Id)
    requires agent in budgets
    ensures PriorityOf(budgets, agent) == budgets[agent].priority
  {
  }

  function TotalUsage(cs: seq<Candidate>): nat {
    if cs == [] then 0 else cs[0].usage + TotalUsage(cs[1..])
  }

  lemma {:induction false} TotalUsageAppend(cs: seq<Candidate>, c: Candidate)
    ensures TotalUsage(cs + [c]) == TotalUsage(cs) + c.usage
  {
    if cs != [] {
      assert (cs + [c])[1..] == cs[1..] + [c];
      TotalUsageAppend(cs[1..], c);
    }
  }

  /** All killable agents with their bytes, lowest priority first, larger users first. */
  ghost predicate KillList(budgets: Budgets, blocks: Blocks, requester: Id, rated: seq<Candidate>) {
    && Ordered(rated)
    && forall c :: c in rated <==>
         Killable(budgets, blocks, requester, c.agent)
         && c == Candidate(c.agent, AgentBytes(blocks, c.agent), PriorityOf(budgets, c.agent).Rank())
  }
}
