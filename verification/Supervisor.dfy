/** Agent lifecycle under a concurrent supervisor.

    The agent table is shared; every section that holds its lock is one atomic method here,
    and between two of them any other section may run. A supervisor round takes a snapshot,
    starts one task per agent and waits for all of them before the next round. */
module Supervisor {
  import opened Wrappers

  /** A 64-bit id; 0 stands for none. */
  type AgentId = n: nat | n <= MAX_ID

  const MAX_ID := 0xFFFF_FFFF_FFFF_FFFF

  const MAX_ATTEMPTS := 0xFFFF_FFFF

  /** Restarts are counted in 32 bits. */
  type Attempts = n: nat | n <= MAX_ATTEMPTS

  datatype AgentState = Creating | Running | Paused | Terminating | Failed | Restarting

  /** `placed` tells whether a compute target is set. */
  datatype ControlBlock = ControlBlock(state: AgentState, attempts: Attempts, placed: bool)

  type Agents = map<AgentId, ControlBlock>

  datatype SchedulerError = AlreadyExists | AgentNotFound | AgentNotRunning | AgentNotPaused

  // ---------------------------------------------------------------- scheduler sections

  function Started(acb: ControlBlock): ControlBlock {
    if acb.placed && acb.state == Creating then acb.(state := Running) else acb
  }

  function NextId(id: AgentId): AgentId { if id < MAX_ID then id + 1 else MAX_ID }

  /** The id an agent is registered under: one without an id is given a new one. */
  function GivenId(id: AgentId, nextId: AgentId): AgentId { if id == 0 then nextId else id }

  function NextAfterSpawn(id: AgentId, nextId: AgentId): AgentId { if id == 0 then NextId(nextId) else nextId }

  function AfterSpawn(agents: Agents, nextId: AgentId, id: AgentId, acb: ControlBlock): Agents {
    var given := GivenId(id, nextId);
    if given in agents then agents else agents[given := Started(acb)]
  }

  function AfterPause(agents: Agents, id: AgentId): Agents {
    if id in agents && agents[id].state == Running then agents[id := agents[id].(state := Paused)]
    else agents
  }

  function AfterResume(agents: Agents, id: AgentId): Agents {
    if id in agents && agents[id].state == Paused then agents[id := agents[id].(state := Running)]
    else agents
  }

  function AfterFail(agents: Agents, id: AgentId): Agents {
    if id in agents then agents[id := agents[id].(state := Failed)] else agents
  }

  function AfterPlacement(agents: Agents, id: AgentId, success: bool): Agents {
    if id !in agents then agents
    else if !success then agents[id := agents[id].(state := Failed)]
    else agents[id := agents[id].(placed := true,
                                  state := if agents[id].state == Creating then Running
                                           else agents[id].state)]
  }

  // ---------------------------------------------------------------- supervisor sections

  /** What a task of the current round still has to do. */
  datatype Task =
    | ToRestart(attempts: Attempts)
    | ToFinish
    | ToReset

  type Tasks = map<AgentId, Task>

  /** The task a snapshot of an agent leads to, if any. */
  function TaskFor(acb: ControlBlock, maxRestarts: Attempts): Option<Task> {
    if acb.state == Failed && acb.attempts < maxRestarts then Some(ToRestart(acb.attempts))
    else if acb.state == Running && acb.attempts > 0 then Some(ToReset)
    else None
  }

  /** An agent a round does something about: a Failed one with restarts left, or a Running one that
      was restarted. */
  predicate NeedsCare(acb: ControlBlock, maxRestarts: Attempts) {
    || (acb.state == Failed && acb.attempts < maxRestarts)
    || (acb.state == Running && acb.attempts > 0)
  }

  function RoundTasks(agents: Agents, maxRestarts: Attempts): Tasks {
    map id | id in agents && TaskFor(agents[id], maxRestarts).Some? ::
      TaskFor(agents[id], maxRestarts).value
  }

  function Bump(attempts: Attempts): Attempts { if attempts < MAX_ATTEMPTS then attempts + 1 else MAX_ATTEMPTS }

  function AfterBegin(agents: Agents, id: AgentId): Agents {
    if id in agents then agents[id := agents[id].(state := Restarting, attempts := Bump(agents[id].attempts))]
    else agents
  }

  function AfterFinish(agents: Agents, id: AgentId): Agents {
    if id in agents then agents[id := agents[id].(state := Running)] else agents
  }

  function AfterReset(agents: Agents, id: AgentId): Agents {
    if id in agents then agents[id := agents[id].(attempts := 0)] else agents
  }

  // ---------------------------------------------------------------- the objects

  class AgentTable {
    var agents: Agents

    constructor ()
      ensures agents == map[]
    {
      agents := map[];
    }
  }

  class AgentScheduler {
    const table: AgentTable
    var nextAgentId: AgentId

    constructor (table: AgentTable)
      ensures this.table == table && nextAgentId == 1
    {
      this.table, nextAgentId := table, 1;
    }

    method AllocateAgentId() returns (id: AgentId)
      modifies this
      ensures id == old(nextAgentId) && nextAgentId == if id < MAX_ID then id + 1 else MAX_ID
    {
      id := nextAgentId;
      nextAgentId := NextId(id);
    }

    method SpawnAgent(asked: AgentId, acb: ControlBlock) returns (r: Result<AgentId, SchedulerError>)
      modifies this, table
      ensures table.agents == AfterSpawn(old(table.agents), old(nextAgentId), asked, acb)
      ensures nextAgentId == NextAfterSpawn(asked, old(nextAgentId))
      ensures var given := if asked == 0 then old(nextAgentId) else asked;
              && r == (if given in old(table.agents) then Err(AlreadyExists) else Ok(given))
              && (r.Ok? ==> given in table.agents && table.agents[given] == acb.(
                    state := if acb.placed && acb.state == Creating then Running else acb.state))
              && table.agents - {given} == old(table.agents) - {given}
              && (r.Err? ==> table.agents == old(table.agents))
    {
      var id := asked;
      if id == 0 {
        id := AllocateAgentId();
      }
      if id in table.agents {
        return Err(AlreadyExists);
      }
      var started := acb;
      if started.placed && started.state == Creating {
        started := started.(state := Running);
      }
      table.agents := table.agents[id := started];
      r := Ok(id);
    }

    method PauseAgent(id: AgentId) returns (r: Result<(), SchedulerError>)
      modifies table
      ensures table.agents == AfterPause(old(table.agents), id)
      ensures r.Ok? ==> id in old(table.agents)
                        && table.agents == old(table.agents)[id := old(table.agents)[id].(state := Paused)]
      ensures r.Err? ==> table.agents == old(table.agents)
      ensures r == if id !in old(table.agents) then Err(AgentNotFound)
                   else if old(table.agents)[id].state != Running then Err(AgentNotRunning) else Ok(())
    {
      if id !in table.agents {
        return Err(AgentNotFound);
      }
      if table.agents[id].state != Running {
        return Err(AgentNotRunning);
      }
      table.agents := table.agents[id := table.agents[id].(state := Paused)];
      r := Ok(());
    }

    method ResumeAgent(id: AgentId) returns (r: Result<(), SchedulerError>)
      modifies table
      ensures table.agents == AfterResume(old(table.agents), id)
      ensures r.Ok? ==> id in old(table.agents)
                        && table.agents == old(table.agents)[id := old(table.agents)[id].(state := Running)]
      ensures r.Err? ==> table.agents == old(table.agents)
      ensures r == if id !in old(table.agents) then Err(AgentNotFound)
                   else if old(table.agents)[id].state != Paused then Err(AgentNotPaused) else Ok(())
    {
      if id !in table.agents {
        return Err(AgentNotFound);
      }
      if table.agents[id].state != Paused {
        return Err(AgentNotPaused);
      }
      table.agents := table.agents[id := table.agents[id].(state := Running)];
      r := Ok(());
    }

    method TerminateAgent(id: AgentId) returns (r: Result<(), SchedulerError>)
      modifies table
      ensures table.agents == old(table.agents) - {id}
      ensures r == if id in old(table.agents) then Ok(()) else Err(AgentNotFound)
    {
      if id !in table.agents {
        return Err(AgentNotFound);
      }
      table.agents := table.agents[id := table.agents[id].(state := Terminating)];
      table.agents := table.agents - {id};
      r := Ok(());
    }

    method FailAgent(id: AgentId) returns (r: Result<(), SchedulerError>)
      modifies table
      ensures table.agents == AfterFail(old(table.agents), id)
      ensures r.Ok? ==> id in old(table.agents)
                        && table.agents == old(table.agents)[id := old(table.agents)[id].(state := Failed)]
      ensures r.Err? ==> table.agents == old(table.agents)
      ensures r == if id in old(table.agents) then Ok(()) else Err(AgentNotFound)
    {
      if id !in table.agents {
        return Err(AgentNotFound);
      }
      table.agents := table.agents[id := table.agents[id].(state := Failed)];
      r := Ok(());
    }

    /** The placement arm of intent routing; an unknown agent is ignored. */
    method PlacementResponse(id: AgentId, success: bool)
      modifies table
      ensures table.agents == AfterPlacement(old(table.agents), id, success)
      ensures id in old(table.agents) ==>
                var acb := old(table.agents)[id];
                table.agents == old(table.agents)[id :=
                  if !success then acb.(state := Failed)
                  else acb.(placed := true, state := if acb.state == Creating then Running else acb.state)]
    {
      if id in table.agents {
        var acb := table.agents[id];
        if !success {
          table.agents := table.agents[id := acb.(state := Failed)];
        } else {
          acb := acb.(placed := true);
          if acb.state == Creating {
            acb := acb.(state := Running);
          }
          table.agents := table.agents[id := acb];
        }
      }
    }
  }

  class SupervisorService {
    const table: AgentTable
    const maxRestarts: Attempts
    var tasks: Tasks

    constructor (table: AgentTable, maxRestarts: Attempts)
      ensures this.table == table && this.maxRestarts == maxRestarts && tasks == map[]
    {
      this.table, this.maxRestarts := table, maxRestarts;
      tasks := map[];
    }

    /** Starts a round once every task of the previous one is done. */
    method StartRound()
      modifies this
      ensures tasks == if old(tasks) == map[] then RoundTasks(table.agents, maxRestarts) else old(tasks)
      ensures old(tasks) == map[] ==>
                forall id ::
                  && (id in tasks <==> id in table.agents && NeedsCare(table.agents[id], maxRestarts))
                  && (id in tasks ==>
                        tasks[id] == if table.agents[id].state == Failed then ToRestart(table.agents[id].attempts)
                                     else ToReset)
    {
      if tasks == map[] {
        var snapshot := table.agents;
        tasks := map id | id in snapshot && TaskFor(snapshot[id], maxRestarts).Some? ::
                   TaskFor(snapshot[id], maxRestarts).value;
      }
    }

    /** After the back-off: first lock section of a restart. */
    method BeginRestart(id: AgentId) returns (found: bool)
      requires id in tasks && tasks[id].ToRestart?
      modifies this, table
      ensures table.agents == AfterBegin(old(table.agents), id)
      ensures id in old(table.agents) ==>
                var acb := old(table.agents)[id];
                table.agents == old(table.agents)[id := acb.(
                  state := Restarting,
                  attempts := if acb.attempts < MAX_ATTEMPTS then acb.attempts + 1 else acb.attempts)]
      ensures found == (id in old(table.agents))
      ensures tasks == if found then old(tasks)[id := ToFinish] else old(tasks) - {id}
    {
      found := id in table.agents;
      if found {
        var acb := table.agents[id];
        acb := acb.(state := Restarting);
        acb := acb.(attempts := Bump(acb.attempts));
        table.agents := table.agents[id := acb];
        tasks := tasks[id := ToFinish];
      } else {
        tasks := tasks - {id};
      }
    }

    /** After the pause: second lock section of a restart. */
    method FinishRestart(id: AgentId) returns (restarted: bool)
      requires id in tasks && tasks[id].ToFinish?
      modifies this, table
      ensures table.agents == AfterFinish(old(table.agents), id)
      ensures id in old(table.agents) ==>
                table.agents == old(table.agents)[id := old(table.agents)[id].(state := Running)]
      ensures restarted == (id in old(table.agents))
      ensures tasks == old(tasks) - {id}
    {
      restarted := id in table.agents;
      if restarted {
        table.agents := table.agents[id := table.agents[id].(state := Running)];
      }
      tasks := tasks - {id};
    }

    method ResetCounter(id: AgentId)
      requires id in tasks && tasks[id].ToReset?
      modifies this, table
      ensures table.agents == AfterReset(old(table.agents), id)
      ensures id in old(table.agents) ==>
                table.agents == old(table.agents)[id := old(table.agents)[id].(attempts := 0)]
      ensures tasks == old(tasks) - {id}
    {
      if id in table.agents {
        table.agents := table.agents[id := table.agents[id].(attempts := 0)];
      }
      tasks := tasks - {id};
    }
  }

  // ---------------------------------------------------------------- interleavings

  /** The shared state: the table, the tasks of the current round, and the id counter. */
  datatype SystemState = SystemState(agents: Agents, tasks: Tasks, nextId: AgentId)

  datatype Event =
    | Allocate               // a new id is taken; the spawn that uses it may come any time later
    | Spawn(id: AgentId, acb: ControlBlock)
    | Pause(id: AgentId)
    | Resume(id: AgentId)
    | Terminate(id: AgentId)
    | Fail(id: AgentId)
    | Placement(id: AgentId, success: bool)
    | Round
    | Begin(id: AgentId)
    | Finish(id: AgentId)
    | Reset(id: AgentId)

  predicate IsSupervisorEvent(ev: Event) { ev.Round? || ev.Begin? || ev.Finish? || ev.Reset? }

  /** One atomic section; a supervisor section without its task does nothing. */
  function Step(maxRestarts: Attempts, s: SystemState, ev: Event): SystemState {
    match ev
    case Allocate => s.(nextId := NextId(s.nextId))
    case Spawn(id, acb) =>
      s.(agents := AfterSpawn(s.agents, s.nextId, id, acb), nextId := NextAfterSpawn(id, s.nextId))
    case Pause(id) => s.(agents := AfterPause(s.agents, id))
    case Resume(id) => s.(agents := AfterResume(s.agents, id))
    case Terminate(id) => s.(agents := s.agents - {id})
    case Fail(id) => s.(agents := AfterFail(s.agents, id))
    case Placement(id, success) => s.(agents := AfterPlacement(s.agents, id, success))
    case Round => if s.tasks == map[] then s.(tasks := RoundTasks(s.agents, maxRestarts)) else s
    case Begin(id) =>
      if id in s.tasks && s.tasks[id].ToRestart?
      then s.(agents := AfterBegin(s.agents, id),
              tasks := if id in s.agents then s.tasks[id := ToFinish] else s.tasks - {id})
      else s
    case Finish(id) =>
      if id in s.tasks && s.tasks[id].ToFinish?
      then s.(agents := AfterFinish(s.agents, id), tasks := s.tasks - {id}) else s
    case Reset(id) =>
      if id in s.tasks && s.tasks[id].ToReset?
      then s.(agents := AfterReset(s.agents, id), tasks := s.tasks - {id}) else s
  }

  function Run(maxRestarts: Attempts, s: SystemState, events: seq<Event>): SystemState
    decreases |events|
  {
    if events == [] then s else Run(maxRestarts, Step(maxRestarts, s, events[0]), events[1..])
  }

  const EMPTY := SystemState(map[], map[], 1)

  /** No restart of an earlier agent with this id is still under way. */
  predicate NoRestartPending(s: SystemState, id: AgentId) { id in s.tasks ==> s.tasks[id].ToReset? }

  /** A spawn is refused, or brings an agent within its restarts that suits the task pending under
      its id, if there is one. */
  predicate LegalSpawn(maxRestarts: Attempts, s: SystemState, ev: Event) {
    ev.Spawn? ==>
      var given := GivenId(ev.id, s.nextId);
      || given in s.agents
      || (&& ev.acb.attempts <= maxRestarts
          && (given in s.tasks ==> TaskFits(Started(ev.acb), s.tasks[given], maxRestarts))
          && (ev.acb.state == Restarting ==> given in s.tasks && s.tasks[given] == ToFinish))
  }

  predicate LegalRun(maxRestarts: Attempts, s: SystemState, events: seq<Event>)
    decreases |events|
  {
    events == [] ||
    (LegalSpawn(maxRestarts, s, events[0]) && LegalRun(maxRestarts, Step(maxRestarts, s, events[0]), events[1..]))
  }

  // ---------------------------------------------------------------- what every step keeps

  predicate TaskFits(acb: ControlBlock, task: Task, maxRestarts: Attempts) {
    match task
    case ToRestart(attempts) => acb.state == Failed && acb.attempts == attempts < maxRestarts
    case ToFinish => acb.state == Restarting || acb.state == Failed
    case ToReset => true
  }

  ghost predicate Supervised(maxRestarts: Attempts, s: SystemState) {
    && (forall id :: id in s.agents ==> s.agents[id].attempts <= maxRestarts)
    && (forall id :: id in s.agents && id in s.tasks ==> TaskFits(s.agents[id], s.tasks[id], maxRestarts))
    && (forall id :: id in s.agents && s.agents[id].state == Restarting ==>
          id in s.tasks && s.tasks[id] == ToFinish)
  }

  lemma SpawnKeepsSupervised(maxRestarts: Attempts, s: SystemState, ev: Event)
    requires Supervised(maxRestarts, s) && ev.Spawn?
    ensures Supervised(maxRestarts, Step(maxRestarts, s, ev)) <==> LegalSpawn(maxRestarts, s, ev)
  {
    var given, t := GivenId(ev.id, s.nextId), Step(maxRestarts, s, ev);
    if given !in s.agents {
      assert t.agents[given] == Started(ev.acb);
      assert forall id :: id in t.agents && id != given ==> id in s.agents && t.agents[id] == s.agents[id];
    }
  }

  lemma RoundKeepsSupervised(maxRestarts: Attempts, s: SystemState)
    requires Supervised(maxRestarts, s)
    ensures Supervised(maxRestarts, Step(maxRestarts, s, Round))
  {
  }

  lemma TaskKeepsSupervised(maxRestarts: Attempts, s: SystemState, ev: Event)
    requires Supervised(maxRestarts, s) && IsSupervisorEvent(ev) && !ev.Round?
    ensures Supervised(maxRestarts, Step(maxRestarts, s, ev))
  {
    hide RoundTasks;
  }

  lemma LifecycleKeepsSupervised(maxRestarts: Attempts, s: SystemState, ev: Event)
    requires Supervised(maxRestarts, s) && !ev.Spawn? && !IsSupervisorEvent(ev)
    ensures Supervised(maxRestarts, Step(maxRestarts, s, ev))
  {
  }

  lemma SupervisorKeepsSupervised(maxRestarts: Attempts, s: SystemState, ev: Event)
    requires Supervised(maxRestarts, s) && IsSupervisorEvent(ev)
    ensures Supervised(maxRestarts, Step(maxRestarts, s, ev))
  {
    hide Supervised, Step;
    if ev.Round? {
      RoundKeepsSupervised(maxRestarts, s);
    } else {
      TaskKeepsSupervised(maxRestarts, s, ev);
    }
  }

  /** Every atomic section keeps the invariant, a spawn exactly when it is legal. */
  lemma StepKeepsSupervised(maxRestarts: Attempts, s: SystemState, ev: Event)
    requires Supervised(maxRestarts, s)
    ensures Supervised(maxRestarts, Step(maxRestarts, s, ev)) <==> LegalSpawn(maxRestarts, s, ev)
  {
    hide *;
    OnlySpawnsAreIllegal(maxRestarts, s, ev);
    if ev.Spawn? {
      SpawnKeepsSupervised(maxRestarts, s, ev);
    } else if IsSupervisorEvent(ev) {
      SupervisorKeepsSupervised(maxRestarts, s, ev);
    } else {
      LifecycleKeepsSupervised(maxRestarts, s, ev);
    }
  }

  lemma OnlySpawnsAreIllegal(maxRestarts: Attempts, s: SystemState, ev: Event)
    ensures !ev.Spawn? ==> LegalSpawn(maxRestarts, s, ev)
  {
  }

  /** Every state of every legal interleaving satisfies the invariant. */
  lemma {:induction false} RunsAreSupervised(maxRestarts: Attempts, s: SystemState, events: seq<Event>)
    requires Supervised(maxRestarts, s) && LegalRun(maxRestarts, s, events)
    ensures Supervised(maxRestarts, Run(maxRestarts, s, events))
    decreases |events|
  {
    hide Supervised, Step;
    if events != [] {
      StepKeepsSupervised(maxRestarts, s, events[0]);
      RunsAreSupervised(maxRestarts, Step(maxRestarts, s, events[0]), events[1..]);
    }
  }

  /** Every prefix of a run satisfies the invariant exactly when every spawn in it is legal. */
  lemma {:induction false} RunsAreSupervisedExactly(maxRestarts: Attempts, s: SystemState, events: seq<Event>)
    requires Supervised(maxRestarts, s)
    ensures LegalRun(maxRestarts, s, events)
       <==> forall i :: 0 <= i <= |events| ==> Supervised(maxRestarts, Run(maxRestarts, s, events[..i]))
    decreases |events|
  {
    hide Supervised, Step;
    if events == [] {
      assert events[..0] == [];
    } else {
      var next := Step(maxRestarts, s, events[0]);
      StepKeepsSupervised(maxRestarts, s, events[0]);
      forall i | 0 < i <= |events|
        ensures Run(maxRestarts, s, events[..i]) == Run(maxRestarts, next, events[1..][..i - 1])
      {
        assert events[..i][1..] == events[1..][..i - 1];
      }
      assert events[1..][..0] == [] && events[..0] == [];
      if LegalSpawn(maxRestarts, s, events[0]) {
        RunsAreSupervisedExactly(maxRestarts, next, events[1..]);
        assert forall i :: 0 <= i <= |events[1..]| ==>
            Run(maxRestarts, next, events[1..][..i]) == Run(maxRestarts, s, events[..i + 1]);
      } else {
        assert Run(maxRestarts, s, events[..1]) == next;
      }
    }
  }

  /** In every reachable state: the steps of a restart find their agent Failed, and then
      Restarting or Failed; each Restarting agent has its one finish step pending; and no
      agent has been restarted more often than allowed since it was last seen running. */
  lemma ReachableStatesAreSupervised(maxRestarts: Attempts, events: seq<Event>, id: AgentId)
    requires LegalRun(maxRestarts, EMPTY, events)
    ensures var s := Run(maxRestarts, EMPTY, events);
            id in s.agents ==>
              && (id in s.tasks && s.tasks[id].ToRestart? ==> s.agents[id].state == Failed)
              && (id in s.tasks && s.tasks[id].ToFinish? ==> s.agents[id].state in {Restarting, Failed})
              && (s.agents[id].state == Restarting ==> id in s.tasks && s.tasks[id].ToFinish?)
              && s.agents[id].attempts <= maxRestarts
  {
    hide Run, LegalRun;
    RunsAreSupervised(maxRestarts, EMPTY, events);
  }

  /** Supervisor steps never move an agent that is Creating, Running, Paused or Terminating, and
      never add or remove one. */
  lemma SupervisorMovesOnlyFailing(maxRestarts: Attempts, s: SystemState, ev: Event, id: AgentId)
    requires Supervised(maxRestarts, s) && IsSupervisorEvent(ev) && id in s.agents
    ensures Step(maxRestarts, s, ev).agents.Keys == s.agents.Keys
    ensures s.agents[id].state !in {Failed, Restarting} ==>
              Step(maxRestarts, s, ev).agents[id].state == s.agents[id].state
    ensures Step(maxRestarts, s, ev).agents[id].attempts > s.agents[id].attempts ==>
              ev == Begin(id) && s.agents[id].state == Failed && s.agents[id].attempts < maxRestarts
  {
  }

  // ---------------------------------------------------------------- restarts are counted

  /** The event restarts this agent. */
  predicate Restarts(s: SystemState, ev: Event, id: AgentId) {
    ev == Begin(id) && id in s.agents && id in s.tasks && s.tasks[id].ToRestart?
  }

  /** How often a run restarts this agent. */
  function RestartCount(maxRestarts: Attempts, s: SystemState, events: seq<Event>, id: AgentId): nat
    decreases |events|
  {
    if events == [] then 0
    else
      (if Restarts(s, events[0], id) then 1 else 0)
      + RestartCount(maxRestarts, Step(maxRestarts, s, events[0]), events[1..], id)
  }

  /** The agent is not terminated, and its count is not reset, during the run. */
  predicate Unreset(maxRestarts: Attempts, s: SystemState, events: seq<Event>, id: AgentId)
    decreases |events|
  {
    events == [] ||
    (&& events[0] != Terminate(id)
     && !(events[0] == Reset(id) && id in s.tasks && s.tasks[id].ToReset?)
     && Unreset(maxRestarts, Step(maxRestarts, s, events[0]), events[1..], id))
  }

  lemma StepCounts(maxRestarts: Attempts, s: SystemState, ev: Event, id: AgentId)
    requires id in s.agents && Unreset(maxRestarts, s, [ev], id)
    ensures var t := Step(maxRestarts, s, ev);
            && id in t.agents
            && t.agents[id].attempts == if !Restarts(s, ev, id) then s.agents[id].attempts
                                        else if s.agents[id].attempts < MAX_ATTEMPTS then s.agents[id].attempts + 1
                                        else MAX_ATTEMPTS
  {
    hide RoundTasks;
  }

  /** While an agent lives and its count is not reset, the count grows by exactly the number of its
      restarts, up to the largest 32-bit number, whatever else happens. */
  lemma {:induction false} RestartsAreCounted(maxRestarts: Attempts, s: SystemState, events: seq<Event>, id: AgentId)
    requires id in s.agents && Unreset(maxRestarts, s, events, id)
    ensures var t, n := Run(maxRestarts, s, events), s.agents[id].attempts + RestartCount(maxRestarts, s, events, id);
            id in t.agents && t.agents[id].attempts == if n <= MAX_ATTEMPTS then n else MAX_ATTEMPTS
    decreases |events|
  {
    hide Step;
    if events != [] {
      assert [events[0]][1..] == [];
      StepCounts(maxRestarts, s, events[0], id);
      RestartsAreCounted(maxRestarts, Step(maxRestarts, s, events[0]), events[1..], id);
    }
  }

  lemma RestartHasOneLeft(maxRestarts: Attempts, s: SystemState, ev: Event, id: AgentId)
    requires Supervised(maxRestarts, s) && Restarts(s, ev, id)
    ensures s.agents[id].attempts < maxRestarts
  {
  }

  /** So between two resets an agent is restarted at most as often as allowed, in every legal
      interleaving, and with the next failure it has used up its restarts. */
  lemma {:induction false} RestartsAreBounded(maxRestarts: Attempts, s: SystemState, events: seq<Event>, id: AgentId)
    requires Supervised(maxRestarts, s) && LegalRun(maxRestarts, s, events)
    requires id in s.agents && Unreset(maxRestarts, s, events, id)
    ensures s.agents[id].attempts + RestartCount(maxRestarts, s, events, id) <= maxRestarts
    ensures s.agents[id].attempts + RestartCount(maxRestarts, s, events, id) == maxRestarts ==>
              Exhausted(maxRestarts, Step(maxRestarts, Run(maxRestarts, s, events), Fail(id)), id)
    decreases |events|
  {
    hide Supervised, Step;
    if events == [] {
      SupervisedCount(maxRestarts, s, id);
      FailureExhausts(maxRestarts, s, id);
    } else {
      var next := Step(maxRestarts, s, events[0]);
      assert [events[0]][1..] == [];
      StepCounts(maxRestarts, s, events[0], id);
      StepKeepsSupervised(maxRestarts, s, events[0]);
      if Restarts(s, events[0], id) {
        RestartHasOneLeft(maxRestarts, s, events[0], id);
      }
      RestartsAreBounded(maxRestarts, next, events[1..], id);
    }
  }

  lemma SupervisedCount(maxRestarts: Attempts, s: SystemState, id: AgentId)
    requires Supervised(maxRestarts, s) && id in s.agents
    ensures s.agents[id].attempts <= maxRestarts
  {
  }

  lemma FailureExhausts(maxRestarts: Attempts, s: SystemState, id: AgentId)
    requires id in s.agents
    ensures s.agents[id].attempts == maxRestarts ==> Exhausted(maxRestarts, Step(maxRestarts, s, Fail(id)), id)
  {
  }

  /** What one undisturbed round does for an agent: a Failed one with restarts left runs again with
      one more restart counted, a Running one that was restarted starts counting anew, and any
      other is left as it is. */
  lemma RoundCares(maxRestarts: Attempts, s: SystemState, id: AgentId)
    requires s.tasks == map[] && id in s.agents
    ensures var acb := s.agents[id];
            var t := Run(maxRestarts, s, [Round, Begin(id), Finish(id), Reset(id)]);
            && id in t.agents
            && t.agents[id] == (if acb.state == Failed && acb.attempts < maxRestarts
                                then acb.(state := Running, attempts := acb.attempts + 1)
                                else if acb.state == Running then acb.(attempts := 0) else acb)
            && id !in t.tasks
  {
    var events := [Round, Begin(id), Finish(id), Reset(id)];
    var s1 := Step(maxRestarts, s, Round);
    var s2 := Step(maxRestarts, s1, Begin(id));
    var s3 := Step(maxRestarts, s2, Finish(id));
    var s4 := Step(maxRestarts, s3, Reset(id));
    assert Run(maxRestarts, s, events) == s4 by {
      hide Step;
      assert events[1..] == [Begin(id), Finish(id), Reset(id)];
      assert events[1..][1..] == [Finish(id), Reset(id)] && events[1..][1..][1..] == [Reset(id)];
      assert [Reset(id)][1..] == [];
      assert Run(maxRestarts, s3, [Reset(id)]) == s4;
      assert Run(maxRestarts, s2, [Finish(id), Reset(id)]) == s4;
      assert Run(maxRestarts, s1, [Begin(id), Finish(id), Reset(id)]) == s4;
    }
  }

  /** An agent that failed with its restarts used up. */
  predicate Exhausted(maxRestarts: Attempts, s: SystemState, id: AgentId) {
    id in s.agents && s.agents[id].state == Failed && s.agents[id].attempts >= maxRestarts
  }

  /** No task of the round is pending that would change it. */
  predicate LeftAlone(s: SystemState, id: AgentId)
    requires id in s.agents
  {
    id in s.tasks ==> s.tasks[id].ToReset? && s.agents[id].attempts == 0
  }

  predicate SameFailure(s: SystemState, t: SystemState, id: AgentId)
    requires id in s.agents
  {
    id in t.agents && t.agents[id].state == Failed && t.agents[id].attempts == s.agents[id].attempts
  }

  /** Such an agent stays Failed, with the same count, for as long as it exists. */
  lemma {:induction false} ExhaustedStaysFailed(maxRestarts: Attempts, s: SystemState, events: seq<Event>, id: AgentId)
    requires Exhausted(maxRestarts, s, id) && LeftAlone(s, id)
    requires Terminate(id) !in events
    ensures var t := Run(maxRestarts, s, events); SameFailure(s, t, id) && LeftAlone(t, id)
    decreases |events|
  {
    if events != [] {
      var next := Step(maxRestarts, s, events[0]);
      assert events[0] in events;
      ExhaustedStep(maxRestarts, s, events[0], id);
      hide Step;
      ExhaustedStaysFailed(maxRestarts, next, events[1..], id);
    }
  }

  lemma ExhaustedStep(maxRestarts: Attempts, s: SystemState, ev: Event, id: AgentId)
    requires Exhausted(maxRestarts, s, id) && LeftAlone(s, id)
    requires ev != Terminate(id)
    ensures var t := Step(maxRestarts, s, ev);
            SameFailure(s, t, id) && Exhausted(maxRestarts, t, id) && LeftAlone(t, id)
  {
  }

  /** An agent with its restarts used up stays Failed, with the same count, whatever else happens to
      the system while it exists, exactly when no task of the round is pending that would change
      it. */
  lemma ExhaustedStaysFailedExactly(maxRestarts: Attempts, s: SystemState, id: AgentId)
    requires Exhausted(maxRestarts, s, id)
    ensures (forall events :: Terminate(id) !in events ==> SameFailure(s, Run(maxRestarts, s, events), id))
       <==> LeftAlone(s, id)
  {
    hide Step, Run;
    if LeftAlone(s, id) {
      forall events | Terminate(id) !in events
        ensures SameFailure(s, Run(maxRestarts, s, events), id)
      {
        ExhaustedStaysFailed(maxRestarts, s, events, id);
      }
    } else {
      var ev := PendingTaskChangesIt(maxRestarts, s, id);
      RunOne(maxRestarts, s, ev);
      assert Terminate(id) !in [ev];
    }
  }

  lemma PendingTaskChangesIt(maxRestarts: Attempts, s: SystemState, id: AgentId) returns (ev: Event)
    requires Exhausted(maxRestarts, s, id) && !LeftAlone(s, id)
    ensures ev != Terminate(id) && !SameFailure(s, Step(maxRestarts, s, ev), id)
  {
    match s.tasks[id] {
      case ToRestart(_) => ev := Begin(id);
      case ToFinish => ev := Finish(id);
      case ToReset => ev := Reset(id);
    }
  }

  lemma RunOne(maxRestarts: Attempts, s: SystemState, ev: Event)
    ensures Run(maxRestarts, s, [ev]) == Step(maxRestarts, s, ev)
  {
    hide Step;
    assert [ev][1..] == [];
  }

  /** Spawning a new agent under a free id keeps the invariant exactly when no restart of an
      earlier agent with that id is pending: the condition to check before reusing an id. */
  lemma SpawnKeepsSupervisedExactly(maxRestarts: Attempts, s: SystemState, id: AgentId, acb: ControlBlock)
    requires Supervised(maxRestarts, s) && GivenId(id, s.nextId) !in s.agents
    requires acb.attempts == 0 && acb.state !in {Failed, Restarting}
    ensures Supervised(maxRestarts, Step(maxRestarts, s, Spawn(id, acb)))
       <==> NoRestartPending(s, GivenId(id, s.nextId))
  {
    hide Supervised, Step;
    StepKeepsSupervised(maxRestarts, s, Spawn(id, acb));
  }

  /** A new agent that waits for its placement is moved by some supervisor step right after its
      spawn exactly when a restart of an earlier agent with its id is still pending. */
  lemma NewAgentDisturbedExactly(maxRestarts: Attempts, s: SystemState, id: AgentId, acb: ControlBlock)
    requires GivenId(id, s.nextId) !in s.agents && acb.state == Creating && !acb.placed
    ensures var given, t := GivenId(id, s.nextId), Step(maxRestarts, s, Spawn(id, acb));
            (exists ev :: IsSupervisorEvent(ev) && given in Step(maxRestarts, t, ev).agents
                          && Step(maxRestarts, t, ev).agents[given].state != Creating)
            <==> !NoRestartPending(s, given)
  {
    var given, t := GivenId(id, s.nextId), Step(maxRestarts, s, Spawn(id, acb));
    if !NoRestartPending(s, given) {
      var ev := if s.tasks[given].ToRestart? then Begin(given) else Finish(given);
      assert Step(maxRestarts, t, ev).agents[given].state != Creating;
    }
  }

  /** Such a state is reachable: a task that outlives its agent restarts a new agent with the
      same id, whatever state it is in. */
  lemma ReusedIdIsRestarted(id: AgentId, acb: ControlBlock)
    requires id > 0 && acb.state == Creating && !acb.placed && acb.attempts == 0
    ensures var s := Run(1, EMPTY, [Spawn(id, acb), Fail(id), Round, Terminate(id), Spawn(id, acb)]);
            && id in s.agents && s.agents[id].state == Creating && !NoRestartPending(s, id)
            && Step(1, s, Begin(id)).agents[id].state == Restarting
  {
    var s1 := Step(1, EMPTY, Spawn(id, acb));
    var s2 := Step(1, s1, Fail(id));
    var s3 := Step(1, s2, Round);
    var s4 := Step(1, s3, Terminate(id));
    var s5 := Step(1, s4, Spawn(id, acb));
    assert s3.tasks[id] == ToRestart(0);
    RunFive(1, EMPTY, [Spawn(id, acb), Fail(id), Round, Terminate(id), Spawn(id, acb)]);
  }

  lemma RunFive(maxRestarts: Attempts, s: SystemState, e: seq<Event>)
    requires |e| == 5
    ensures Run(maxRestarts, s, e)
         == Step(maxRestarts, Step(maxRestarts, Step(maxRestarts, Step(maxRestarts,
              Step(maxRestarts, s, e[0]), e[1]), e[2]), e[3]), e[4])
  {
    hide Step;
    var s1 := Step(maxRestarts, s, e[0]);
    var s2 := Step(maxRestarts, s1, e[1]);
    var s3 := Step(maxRestarts, s2, e[2]);
    var s4 := Step(maxRestarts, s3, e[3]);
    assert e[1..][1..] == e[2..] && e[2..][1..] == e[3..] && e[3..][1..] == e[4..] && e[4..][1..] == [];
    assert Run(maxRestarts, s1, e[1..]) == Run(maxRestarts, s2, e[2..]);
    assert Run(maxRestarts, s2, e[2..]) == Run(maxRestarts, s3, e[3..]);
    assert Run(maxRestarts, s3, e[3..]) == Run(maxRestarts, s4, e[4..]);
    assert Run(maxRestarts, s4, e[4..]) == Step(maxRestarts, s4, e[4]);
  }
}
