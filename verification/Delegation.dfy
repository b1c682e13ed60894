/** Spawn routing between nodes: local spawn, delegation to a remote node, and what happens to
    a delegated intent when every node sees it. */
module Delegation {
  import opened Wrappers

  type NodeId = string
  type AgentId = n: nat | n < 0x1_0000_0000_0000_0000

  datatype Workload = KernelLogic | SmallLlm | LargeLlm | VectorIndexing

  function Label(w: Workload): string {
    match w
    case KernelLogic => "kernel"
    case SmallLlm => "small"
    case LargeLlm => "large"
    case VectorIndexing => "vector"
  }

  function ParseWorkload(text: string): Workload {
    if text == "kernel" then KernelLogic
    else if text == "large" then LargeLlm
    else if text == "vector" then VectorIndexing
    else SmallLlm
  }

  function ParseProfile(text: string): Workload {
    if text == "battery" then SmallLlm
    else if text == "throughput" then LargeLlm
    else ParseWorkload(text)
  }

  /** The `payload` metadata, read as JSON: what it says about the workload. */
  datatype Payload = NoPayload | NotJson | Json(workload: Option<string>, profile: Option<string>)

  datatype RoutingMode = LocalMode | DelegatedMode

  /** A spawn intent: the metadata that routing reads and writes. */
  datatype Intent = Intent(
    target: Option<NodeId>,
    mode: Option<RoutingMode>,
    origin: Option<NodeId>,
    forwardedBy: Option<NodeId>,
    delegatedId: Option<AgentId>,
    workload: Option<string>,
    payload: Payload)

  function MetadataWorkload(intent: Intent): Workload {
    ParseWorkload(if intent.workload.Some? then intent.workload.value else "small")
  }

  function WorkloadOf(intent: Intent): Workload {
    match intent.payload
    case Json(Some(w), _) => ParseProfile(w)
    case Json(None, Some(p)) => ParseProfile(p)
    case _ => MetadataWorkload(intent)
  }

  datatype RemoteNode = RemoteNode(slots: nat, trust: nat, capabilities: seq<string>)

  datatype Policy = Policy(localId: NodeId, remoteEnabled: bool, maxLocalAgents: nat,
                           thresholdPercent: nat, minTrust: nat)

  datatype RouteError = AlreadyExists | NoEligibleRemoteNode | DispatchFailed | RemoteRoutingLoop

  datatype Outcome =
    | Ignored
    | Spawned(id: AgentId, workload: Workload)
    | Delegated(intent: Intent)
    | Failed(error: RouteError)

  // ---------------------------------------------------------------- decisions

  const USIZE_MAX := 0xFFFF_FFFF_FFFF_FFFF

  function Saturated(n: nat): nat { if n <= USIZE_MAX then n else USIZE_MAX }

  predicate Overloaded(policy: Policy, agentCount: nat) {
    policy.maxLocalAgents == 0
    || Saturated(agentCount * 100) >= Saturated(policy.maxLocalAgents * policy.thresholdPercent)
  }

  function ShouldSpawnLocally(policy: Policy, agentCount: nat, intent: Intent): Result<bool, RouteError> {
    if intent.target.Some? then
      if intent.target.value == policy.localId then Ok(true)
      else if intent.mode == Some(DelegatedMode) then Ok(false)
      else Err(RemoteRoutingLoop)
    else Ok(!policy.remoteEnabled || !Overloaded(policy, agentCount))
  }

  predicate Supports(node: RemoteNode, w: Workload) {
    node.capabilities == [] || Label(w) in node.capabilities
  }

  predicate Eligible(policy: Policy, id: NodeId, node: RemoteNode, w: Workload) {
    node.trust >= policy.minTrust && node.slots > 0 && id != policy.localId && Supports(node, w)
  }

  /** Higher trust first, then more free slots. */
  predicate AtLeastAsGood(a: RemoteNode, b: RemoteNode) {
    a.trust > b.trust || (a.trust == b.trust && a.slots >= b.slots)
  }

  ghost predicate BestRemote(policy: Policy, remotes: map<NodeId, RemoteNode>, w: Workload, id: NodeId) {
    && id in remotes && Eligible(policy, id, remotes[id], w)
    && forall other :: other in remotes && Eligible(policy, other, remotes[other], w) ==>
         AtLeastAsGood(remotes[id], remotes[other])
  }

  function NextId(id: AgentId): AgentId { if id < USIZE_MAX then id + 1 else USIZE_MAX }

  /** The id an intent is routed under: the one it carries, or a new one. */
  function ChosenId(intent: Intent, nextId: AgentId): AgentId {
    if intent.delegatedId.Some? then intent.delegatedId.value else nextId
  }

  function NextAfterChoice(intent: Intent, nextId: AgentId): AgentId {
    if intent.delegatedId.Some? then nextId else NextId(nextId)
  }

  /** The id an agent is spawned under: an agent with id 0 is given a new one. */
  function SpawnedId(id: AgentId, nextId: AgentId): AgentId { if id == 0 then nextId else id }

  function NextAfterSpawn(id: AgentId, nextId: AgentId): AgentId { if id == 0 then NextId(nextId) else nextId }

  predicate Mine(policy: Policy, intent: Intent) {
    intent.target.None? || intent.target.value == policy.localId
  }

  predicate Stays(policy: Policy, agentCount: nat, intent: Intent) {
    intent.target.Some? || !policy.remoteEnabled || !Overloaded(policy, agentCount)
  }

  /** The id counter after routing. */
  function NextAfterRouting(policy: Policy, agentCount: nat, nextId: AgentId, intent: Intent): AgentId {
    if !Mine(policy, intent) then nextId
    else
      var chosen, next := ChosenId(intent, nextId), NextAfterChoice(intent, nextId);
      if Stays(policy, agentCount, intent) then NextAfterSpawn(chosen, next) else next
  }

  /** The intent published when `from` hands `intent` over to `target`. */
  function HandOver(intent: Intent, from: NodeId, target: NodeId, id: AgentId): Intent {
    Intent(Some(target), Some(DelegatedMode),
           Some(if intent.origin.Some? then intent.origin.value else from),
           Some(from), Some(id), Some(Label(WorkloadOf(intent))), intent.payload)
  }

  // ---------------------------------------------------------------- one node

  class Node {
    var policy: Policy
    var agents: set<AgentId>
    var nextAgentId: AgentId
    var remotes: map<NodeId, RemoteNode>
    var published: seq<Intent>

    constructor (policy: Policy)
      ensures this.policy == policy && agents == {} && nextAgentId == 1
      ensures remotes == map[] && published == []
    {
      this.policy := policy;
      agents, nextAgentId, remotes, published := {}, 1, map[], [];
    }

    method UpsertRemoteNode(id: NodeId, node: RemoteNode)
      modifies this`remotes
      ensures remotes == old(remotes)[id := node]
    {
      remotes := remotes[id := node];
    }

    method AllocateAgentId() returns (id: AgentId)
      modifies this`nextAgentId
      ensures id == old(nextAgentId) && nextAgentId == if id < USIZE_MAX then id + 1 else USIZE_MAX
    {
      id := nextAgentId;
      nextAgentId := NextId(id);
    }

    method SelectRemoteNode(w: Workload) returns (r: Option<NodeId>)
      ensures r.Some? ==> BestRemote(policy, remotes, w, r.value)
      ensures r.None? ==> forall id :: id in remotes ==> !Eligible(policy, id, remotes[id], w)
    {
      r := None;
      var rest := remotes.Keys;
      while rest != {}
        invariant rest <= remotes.Keys
        invariant r.Some? ==>
                    && r.value in remotes && Eligible(policy, r.value, remotes[r.value], w)
                    && forall id :: id in remotes && id !in rest && Eligible(policy, id, remotes[id], w) ==>
                         AtLeastAsGood(remotes[r.value], remotes[id])
        invariant r.None? ==> forall id :: id in remotes && id !in rest ==> !Eligible(policy, id, remotes[id], w)
        decreases rest
      {
        var id :| id in rest;
        rest := rest - {id};
        if Eligible(policy, id, remotes[id], w)
           && (r.None? || !AtLeastAsGood(remotes[r.value], remotes[id])) {
          r := Some(id);
        }
      }
    }

    /** Registers an agent; one without an id gets a new one first. */
    method SpawnAgent(id: AgentId) returns (r: Result<AgentId, RouteError>)
      modifies this`agents, this`nextAgentId
      ensures var final := if id == 0 then old(nextAgentId) else id;
              && r == (if final in old(agents) then Err(AlreadyExists) else Ok(final))
              && agents == old(agents) + {final}
      ensures nextAgentId == NextAfterSpawn(id, old(nextAgentId))
    {
      var final := id;
      if id == 0 {
        final := AllocateAgentId();
      }
      if final in agents {
        return Err(AlreadyExists);
      }
      agents := agents + {final};
      r := Ok(final);
    }

    /** The spawn arm of intent routing. `busUp` tells whether publishing works. */
    method RouteSpawn(intent: Intent, busUp: bool) returns (out: Outcome)
      modifies this`agents, this`nextAgentId, this`published
      ensures Routed(policy, old(agents), old(nextAgentId), remotes, busUp, intent, out)
      ensures agents == old(agents) + (if out.Spawned? then {out.id} else {})
      ensures published == old(published) + (if out.Delegated? then [out.intent] else [])
      ensures nextAgentId == NextAfterRouting(policy, |old(agents)|, old(nextAgentId), intent)
    {
      if intent.target.Some? && intent.target.value != policy.localId {
        return Ignored;
      }
      var w := WorkloadOf(intent);
      var locally := ShouldSpawnLocally(policy, |agents|, intent);
      if locally.Err? {
        assert false;
        return Failed(RemoteRoutingLoop);
      }
      var id;
      if intent.delegatedId.Some? {
        id := intent.delegatedId.value;
      } else {
        id := AllocateAgentId();
      }
      if !locally.value {
        var target := SelectRemoteNode(w);
        if target.None? {
          return Failed(NoEligibleRemoteNode);
        }
        assert BestRemote(policy, remotes, w, target.value);
        if !busUp {
          return Failed(DispatchFailed);
        }
        var handed := HandOver(intent, policy.localId, target.value, id);
        published := published + [handed];
        return Delegated(handed);
      }
      var spawned := SpawnAgent(id);
      out := if spawned.Err? then Failed(spawned.error) else Spawned(spawned.value, w);
    }
  }

  // ---------------------------------------------------------------- what routing guarantees

  /** Everything routing may answer, in terms of the intent and the node's state. */
  ghost predicate Routed(policy: Policy, agents: set<AgentId>, nextId: AgentId,
                         remotes: map<NodeId, RemoteNode>, busUp: bool, intent: Intent, out: Outcome)
  {
    var mine, stay := Mine(policy, intent), Stays(policy, |agents|, intent);
    var id := ChosenId(intent, nextId);
    var final := SpawnedId(id, NextAfterChoice(intent, nextId));
    var w := WorkloadOf(intent);
    && (out == Ignored <==> !mine)
    && (out == Spawned(final, w) <==> mine && stay && final !in agents)
    && (out == Failed(AlreadyExists) <==> mine && stay && final in agents)
    && (mine && !stay ==>
          || (exists t :: BestRemote(policy, remotes, w, t) && busUp
                          && out == Delegated(HandOver(intent, policy.localId, t, id)))
          || ((forall t :: t in remotes ==> !Eligible(policy, t, remotes[t], w))
              && out == Failed(NoEligibleRemoteNode))
          || (!busUp && (exists t :: BestRemote(policy, remotes, w, t)) && out == Failed(DispatchFailed)))
    && (out.Spawned? ==> out == Spawned(final, w))
    && (out.Delegated? ==> mine && !stay)
  }

  /** When a node hands a spawn on instead of keeping it: exactly when the intent has no target,
      remote spawning is on, and the node is at its limit: it allows no agents, or its agents make
      up the given percentage of those it allows, in saturating arithmetic. */
  lemma HandsOnExactly(policy: Policy, agents: set<AgentId>, nextId: AgentId, remotes: map<NodeId, RemoteNode>,
                       busUp: bool, intent: Intent, out: Outcome)
    requires Routed(policy, agents, nextId, remotes, busUp, intent, out)
    ensures var load, limit := |agents| * 100, policy.maxLocalAgents * policy.thresholdPercent;
            && (out.Delegated? || out in {Failed(NoEligibleRemoteNode), Failed(DispatchFailed)} <==>
                  && intent.target.None? && policy.remoteEnabled
                  && (policy.maxLocalAgents == 0 || load >= limit || load >= USIZE_MAX))
            && (out == Ignored <==> intent.target.Some? && intent.target.value != policy.localId)
  {
  }

  /** Where it is handed on to: a node other than this one, with free slots, trusted enough, that
      supports the workload or lists nothing, and of those the most trusted, with the most free
      slots among equals. What is sent names target and sender, keeps the first origin, and says
      the workload in words. */
  lemma HandedOnSays(policy: Policy, agents: set<AgentId>, nextId: AgentId, remotes: map<NodeId, RemoteNode>,
                     busUp: bool, intent: Intent, out: Outcome)
    requires Routed(policy, agents, nextId, remotes, busUp, intent, out) && out.Delegated?
    ensures var word := match WorkloadOf(intent)
                        case KernelLogic => "kernel"
                        case SmallLlm => "small"
                        case LargeLlm => "large"
                        case VectorIndexing => "vector";
            var sent := out.intent;
            && sent.target.Some? && sent.target.value in remotes && sent.target.value != policy.localId
            && sent.mode == Some(DelegatedMode) && sent.forwardedBy == Some(policy.localId)
            && sent.origin == (if intent.origin.Some? then intent.origin else Some(policy.localId))
            && sent.delegatedId == Some(if intent.delegatedId.Some? then intent.delegatedId.value else nextId)
            && sent.workload == Some(word) && sent.payload == intent.payload
            && var best := remotes[sent.target.value];
               && best.slots > 0 && best.trust >= policy.minTrust
               && (best.capabilities == [] || word in best.capabilities)
               && forall n :: n in remotes && n != policy.localId && remotes[n].slots > 0
                              && remotes[n].trust >= policy.minTrust
                              && (remotes[n].capabilities == [] || word in remotes[n].capabilities) ==>
                    remotes[n].trust < best.trust || (remotes[n].trust == best.trust && remotes[n].slots <= best.slots)
  {
    hide Overloaded, WorkloadOf;
    var t :| BestRemote(policy, remotes, WorkloadOf(intent), t)
             && out == Delegated(HandOver(intent, policy.localId, t, ChosenId(intent, nextId)));
    assert forall n :: n in remotes && Eligible(policy, n, remotes[n], WorkloadOf(intent)) ==>
        AtLeastAsGood(remotes[t], remotes[n]);
  }

  /** What routing does to the id counter: it is untouched when the intent is for another node or
      brings its own id; it moves on by one when an id is given out, to a spawn or a message; and an
      agent with id 0 that stays here takes one too. The largest number is kept. */
  lemma CounterAfterRouting(policy: Policy, agentCount: nat, nextId: AgentId, intent: Intent)
    requires nextId > 0
    ensures var mine := intent.target.None? || intent.target.value == policy.localId;
            var gives := mine && (intent.delegatedId == None
                                  || (intent.delegatedId == Some(0) && Stays(policy, agentCount, intent)));
            NextAfterRouting(policy, agentCount, nextId, intent)
            == if !gives then nextId else if nextId < USIZE_MAX then nextId + 1 else USIZE_MAX
  {
    hide Overloaded;
  }

  /** What workload an intent asks for: what its payload says, or else the profile in the payload, or
      else its metadata; an unknown word, or none, means a small model. */
  lemma WorkloadSaid(intent: Intent)
    ensures var text := if intent.payload.Json? && intent.payload.workload.Some? then intent.payload.workload
                        else if intent.payload.Json? && intent.payload.profile.Some? then intent.payload.profile
                        else intent.workload;
            var inPayload := intent.payload.Json? && (intent.payload.workload.Some? || intent.payload.profile.Some?);
            && (WorkloadOf(intent) == KernelLogic <==> text == Some("kernel"))
            && (WorkloadOf(intent) == VectorIndexing <==> text == Some("vector"))
            && (WorkloadOf(intent) == LargeLlm <==> text == Some("large") || (inPayload && text == Some("throughput")))
  {
  }

  /** The routing-loop error exists, for an intent aimed at another node outside delegation, but
      routing drops such an intent first, so it never reports that error. */
  lemma RoutingLoopUnreachable(policy: Policy, agents: set<AgentId>, nextId: AgentId,
                               remotes: map<NodeId, RemoteNode>, busUp: bool, intent: Intent, out: Outcome)
    requires Routed(policy, agents, nextId, remotes, busUp, intent, out)
    ensures out != Failed(RemoteRoutingLoop)
    ensures ShouldSpawnLocally(policy, |agents|, intent) == Err(RemoteRoutingLoop) ==> out == Ignored
  {
  }

  lemma LabelRoundTrip(w: Workload)
    ensures ParseWorkload(Label(w)) == w
  {
  }

  /** Delegation keeps the workload: the receiving node reads the same one out of the intent,
      whether it came from the payload, its profile or the metadata. */
  lemma HandOverKeepsWorkload(intent: Intent, from: NodeId, target: NodeId, id: AgentId)
    ensures WorkloadOf(HandOver(intent, from, target, id)) == WorkloadOf(intent)
    ensures HandOver(intent, from, target, id).delegatedId == Some(id)
  {
    LabelRoundTrip(WorkloadOf(intent));
  }

  // ---------------------------------------------------------------- the network

  /** A node's state as routing sees it. */
  datatype NodeState =
    NodeState(policy: Policy, agents: set<AgentId>, nextId: AgentId, remotes: map<NodeId, RemoteNode>)

  datatype NetworkEvent =
    | Submit(node: NodeId, intent: Intent, out: Outcome)       // an intent from outside
    | Deliver(node: NodeId, message: nat, out: Outcome)        // a published intent, any number of times
    | Change(node: NodeId, state: NodeState)                   // load, policy, remote snapshots, terminations

  /** `bus` holds every intent published so far; each is visible to all nodes. */
  datatype Network = Network(nodes: map<NodeId, NodeState>, bus: seq<Intent>)

  /** Nodes are stored under their fixed ids, and their counters started at 1. */
  ghost predicate FixedIds(net: Network) {
    forall n :: n in net.nodes ==> net.nodes[n].policy.localId == n && net.nodes[n].nextId > 0
  }

  ghost predicate Answers(state: NodeState, intent: Intent, out: Outcome) {
    exists busUp :: Routed(state.policy, state.agents, state.nextId, state.remotes, busUp, intent, out)
  }

  function Publish(net: Network, out: Outcome): Network {
    if out.Delegated? then net.(bus := net.bus + [out.intent]) else net
  }

  function Settle(net: Network, node: NodeId, intent: Intent, out: Outcome): Network
    requires node in net.nodes
  {
    var st := net.nodes[node];
    var next := st.(agents := st.agents + (if out.Spawned? then {out.id} else {}),
                    nextId := NextAfterRouting(st.policy, |st.agents|, st.nextId, intent));
    Publish(net.(nodes := net.nodes[node := next]), out)
  }

  ghost predicate Possible(net: Network, ev: NetworkEvent) {
    && ev.node in net.nodes
    && match ev
       case Submit(n, intent, out) => Answers(net.nodes[n], intent, out)
       case Deliver(n, m, out) => m < |net.bus| && Answers(net.nodes[n], net.bus[m], out)
       case Change(n, state) => state.policy.localId == n && state.nextId > 0
  }

  function After(net: Network, ev: NetworkEvent): Network
    requires ev.node in net.nodes
    requires ev.Deliver? ==> ev.message < |net.bus|
  {
    match ev
    case Submit(n, intent, out) => Settle(net, n, intent, out)
    case Deliver(n, m, out) => Settle(net, n, net.bus[m], out)
    case Change(n, state) => net.(nodes := net.nodes[n := state])
  }

  ghost predicate RunOf(net: Network, events: seq<NetworkEvent>)
    decreases |events|
  {
    events == [] || (Possible(net, events[0]) && RunOf(After(net, events[0]), events[1..]))
  }

  ghost function Final(net: Network, events: seq<NetworkEvent>): Network
    requires RunOf(net, events)
    decreases |events|
  {
    if events == [] then net else Final(After(net, events[0]), events[1..])
  }

  /** Everything on the bus is addressed to a node other than its sender, and carries its id. */
  ghost predicate BusAddressed(net: Network) {
    forall m :: 0 <= m < |net.bus| ==>
      && net.bus[m].target.Some? && net.bus[m].mode == Some(DelegatedMode)
      && net.bus[m].delegatedId.Some? && net.bus[m].forwardedBy.Some?
      && net.bus[m].target != net.bus[m].forwardedBy
  }

  lemma EventKeepsBus(net: Network, ev: NetworkEvent)
    requires FixedIds(net) && BusAddressed(net) && Possible(net, ev)
    ensures FixedIds(After(net, ev)) && BusAddressed(After(net, ev))
    ensures net.bus <= After(net, ev).bus
  {
    if ev.Submit? && ev.out.Delegated? {
      AnswerIsAddressed(net.nodes[ev.node], ev.intent, ev.out);
    }
    NextIsGiven(net.nodes[ev.node]);
    hide Overloaded, WorkloadOf, Supports, Label, NextAfterRouting, BestRemote, HandOver;
  }

  lemma AnswerIsAddressed(state: NodeState, intent: Intent, out: Outcome)
    requires Answers(state, intent, out) && out.Delegated?
    ensures var sent := out.intent;
            && sent.target.Some? && sent.mode == Some(DelegatedMode) && sent.delegatedId.Some?
            && sent.forwardedBy == Some(state.policy.localId) && sent.target != sent.forwardedBy
  {
    hide Routed, WorkloadOf;
    var busUp :| Routed(state.policy, state.agents, state.nextId, state.remotes, busUp, intent, out);
    HandedOnSays(state.policy, state.agents, state.nextId, state.remotes, busUp, intent, out);
  }

  lemma NextIsGiven(state: NodeState)
    ensures state.nextId > 0 ==>
              forall intent :: NextAfterRouting(state.policy, |state.agents|, state.nextId, intent) > 0
  {
    hide Overloaded;
  }

  lemma {:induction false} RunKeepsBus(net: Network, events: seq<NetworkEvent>)
    requires FixedIds(net) && BusAddressed(net) && RunOf(net, events)
    ensures FixedIds(Final(net, events)) && BusAddressed(Final(net, events))
    decreases |events|
  {
    hide FixedIds, BusAddressed;
    if events != [] {
      EventKeepsBus(net, events[0]);
      RunKeepsBus(After(net, events[0]), events[1..]);
    }
  }

  /** Over every run of the network: a delegated spawn is never delegated again; it is ignored
      everywhere but on its target; and on its target it is spawned with the workload it was sent
      with, exactly when its id, or the new one an agent with id 0 gets, is free there. */
  lemma DelegatedSpawnsStayPut(net: Network, events: seq<NetworkEvent>, ev: NetworkEvent)
    requires FixedIds(net) && net.bus == [] && RunOf(net, events)
    requires ev.Deliver? && Possible(Final(net, events), ev)
    ensures var now := Final(net, events);
            var message := now.bus[ev.message];
            && message.delegatedId.Some?
            && !ev.out.Delegated?
            && (ev.out == Ignored <==> message.target != Some(ev.node))
            && (message.target == Some(ev.node) ==>
                  var final := SpawnedId(message.delegatedId.value, now.nodes[ev.node].nextId);
                  ev.out == if final in now.nodes[ev.node].agents then Failed(AlreadyExists)
                            else Spawned(final, WorkloadOf(message)))
  {
    RunKeepsBus(net, events);
    hide RunOf, Final;
  }

  /** A delegated spawn keeps the id it was sent with exactly when that id is not 0. */
  lemma DelegatedIdKeptExactly(net: Network, events: seq<NetworkEvent>, ev: NetworkEvent)
    requires FixedIds(net) && net.bus == [] && RunOf(net, events)
    requires ev.Deliver? && Possible(Final(net, events), ev) && ev.out.Spawned?
    ensures Final(net, events).bus[ev.message].delegatedId == Some(ev.out.id)
       <==> Final(net, events).bus[ev.message].delegatedId != Some(0)
  {
    DelegatedSpawnsStayPut(net, events, ev);
    RunKeepsBus(net, events);
    hide RunOf, Final;
  }

  /** Two deliveries of one message, with nothing else in between, spawn once exactly when the
      message carries an id other than 0, or the target has run out of new ids to give. */
  lemma SecondDeliveryIsRefused(net: Network, n: NodeId, m: nat, first: Outcome, second: Outcome)
    requires FixedIds(net) && BusAddressed(net)
    requires Possible(net, Deliver(n, m, first)) && first.Spawned?
    requires Possible(After(net, Deliver(n, m, first)), Deliver(n, m, second))
    ensures second == Failed(AlreadyExists)
       <==> || net.bus[m].delegatedId != Some(0)
            || NextId(net.nodes[n].nextId) in net.nodes[n].agents + {net.nodes[n].nextId}
    ensures second != Failed(AlreadyExists) ==> second.Spawned? && second.id != first.id
  {
  }

  /** A message with id 0 spawns one more agent on every delivery. */
  lemma ZeroIdSpawnsTwice(net: Network, n: NodeId, m: nat)
    requires FixedIds(net) && BusAddressed(net) && n in net.nodes && m < |net.bus|
    requires net.bus[m].target == Some(n) && net.bus[m].delegatedId == Some(0)
    requires var st := net.nodes[n]; st.nextId + 1 < USIZE_MAX && st.nextId !in st.agents && st.nextId + 1 !in st.agents
    ensures var st, w := net.nodes[n], WorkloadOf(net.bus[m]);
            var first, second := Spawned(st.nextId, w), Spawned(st.nextId + 1, w);
            && Possible(net, Deliver(n, m, first))
            && Possible(After(net, Deliver(n, m, first)), Deliver(n, m, second))
  {
    var st, w := net.nodes[n], WorkloadOf(net.bus[m]);
    var first, second := Spawned(st.nextId, w), Spawned(st.nextId + 1, w);
    assert Routed(st.policy, st.agents, st.nextId, st.remotes, true, net.bus[m], first);
    var next := After(net, Deliver(n, m, first)).nodes[n];
    assert Routed(next.policy, next.agents, next.nextId, next.remotes, true, net.bus[m], second);
  }

  /** Ids 0 come from outside only: what a node hands over on its own account carries a new id. */
  lemma ZeroIdsComeFromOutside(net: Network, ev: NetworkEvent)
    requires FixedIds(net) && Possible(net, ev) && ev.Submit? && ev.out.Delegated?
    ensures ev.out.intent.delegatedId == Some(0) <==> ev.intent.delegatedId == Some(0)
  {
  }
}
