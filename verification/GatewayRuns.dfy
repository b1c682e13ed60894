/** Every interleaving of requests, streams and countermeasures on one gateway: permits are
    conserved, each decision has its audit record, and a revoked key stays out. */
module GatewayRuns {
  import opened Wrappers
  import opened Gateway
  import ChainedLog
  import CrashRuns
  import LineCodec
  import StreamGuard
  import Utf8

  // ---------------------------------------------------------------- the requests in flight

  /** Where a request is. Other requests run between any two phases. */
  datatype Phase =
    | Auditing    // inspected, its record being written
    | Forwarding  // waiting for the upstream
    | Streaming   // its event stream is open
    | Buffered    // the whole response inspected, its record being written
    | Finished

  datatype Job = Job(
    phase: Phase,
    pending: Pending,
    permit: Option<Permit>,
    recorded: bool,          // its record is in the chain
    write: Option<Write>,    // how writing it ended, if inspection saw the end
    returned: Option<Reply>,
    responses: nat,
    responseAudited: bool)

  datatype System = System(core: Core, jobs: map<nat, Job>)

  datatype Event =
    | Arrive(id: nat, request: Request, now: nat, wall: nat)
    | Record(id: nat, write: Write)
    | UpstreamAnswered(id: nat, upstream: UpstreamAnswer)
    | StreamAudit(id: nat, inspected: Option<StreamGuard.Inspection>, write: Write)
    | StreamEnds(id: nat)
    | BodyRecord(id: nat, inspection: StreamGuard.Inspection, write: Write)
    | Dropped(id: nat, landed: bool)
    | Suspend(tenant: Tenant, until: nat)
    | RevokeKey(tenant: Tenant)
    | ClearOverride(tenant: Tenant)

  /** How many records a write leaves in the chain. */
  function Kept(write: Write): nat { if write == NoTrace then 0 else 1 }

  function Finish(job: Job): Job { job.(phase := Finished, permit := None) }

  /** One step of a request that has arrived. A step that does not fit its phase does nothing. */
  function Advance(core: Core, job: Job, event: Event): (Core, Job) {
    match event
    case Record(_, write) =>
      if job.phase != Auditing then (core, job)
      else
        var c := Conclude(core, job.pending, job.permit, write);
        (c.core, job.(phase := if Admitted(c.reply) then Forwarding else Finished, permit := c.permit,
                      recorded := write != NoTrace, write := Some(write), returned := Some(c.reply)))
    case UpstreamAnswered(_, upstream) =>
      if job.phase != Forwarding then (core, job)
      else if upstream.EventStream? then (core, job.(phase := Streaming))
      else if upstream.Whole? && upstream.inspected.Some? then (core, job.(phase := Buffered))
      else (Release(core, job.permit), Finish(job))
    case StreamAudit(_, inspected, write) =>
      if job.phase != Streaming || job.responseAudited then (core, job)
      else
        var base := job.pending.entry;
        var entry := if inspected.None? then RefusedResponseEntry(base) else ResponseEntry(base, inspected.value);
        (AfterWrite(core, job.pending.home, entry, write),
         job.(responses := job.responses + Kept(write), responseAudited := true))
    case StreamEnds(_) =>
      if job.phase != Streaming then (core, job) else (Release(core, job.permit), Finish(job))
    case BodyRecord(_, inspection, write) =>
      if job.phase != Buffered then (core, job)
      else
        var entry := ResponseEntry(job.pending.entry, inspection);
        (Release(AfterWrite(core, job.pending.home, entry, write), job.permit),
         Finish(job).(responses := job.responses + Kept(write)))
    case Dropped(_, landed) =>
      // the client is gone: the record being written may or may not have got in
      if job.phase == Finished then (core, job)
      else if job.phase == Auditing && landed
      then (Release(Append(core, job.pending.home, job.pending.entry), job.permit), Finish(job).(recorded := true))
      else (Release(core, job.permit), Finish(job))
    case _ => (core, job)
  }

  function Arriving(b: Begun): Job { Job(Auditing, b.pending, b.permit, false, None, None, 0, false) }

  function Step(cfg: Config, s: System, event: Event): System {
    match event
    case Arrive(id, request, now, wall) =>
      if id in s.jobs then s
      else
        var b := Begin(cfg, s.core, id, request, now, wall);
        System(b.core, s.jobs[id := Arriving(b)])
    case Suspend(tenant, until) => s.(core := SuspendedFor(s.core, tenant, until))
    case RevokeKey(tenant) => s.(core := KeyRevokedFor(s.core, tenant))
    case ClearOverride(tenant) => s.(core := OverrideCleared(s.core, tenant))
    case _ =>
      if event.id !in s.jobs then s
      else
        var (core, job) := Advance(s.core, s.jobs[event.id], event);
        System(core, s.jobs[event.id := job])
  }

  function Run(cfg: Config, s: System, events: seq<Event>): System
    decreases |events|
  {
    if events == [] then s else Step(cfg, Run(cfg, s, events[..|events| - 1]), events[|events| - 1])
  }

  function Initial(cfg: Config): System { System(InitialCore(cfg), map[]) }

  // ---------------------------------------------------------------- one request

  predicate Holds(job: Job, tenant: Tenant) { job.permit == Some(Pooled(tenant)) }

  function Share(job: Job, tenant: Tenant): nat { if Holds(job, tenant) then 1 else 0 }

  function Records(job: Job): nat { (if job.recorded then 1 else 0) + job.responses }

  /** What holds of a request wherever it is. */
  predicate Sound(id: nat, job: Job) {
    && job.pending.entry.id == id
    && (job.phase == Finished ==> job.permit == None)
    && (job.phase == Auditing ==> job.returned == None && !job.recorded && job.responses == 0)
    && (job.phase in {Forwarding, Streaming, Buffered} ==>
          job.recorded && job.returned == Some(job.pending.reply) && job.permit == Some(Pooled(job.pending.home)))
    && (job.returned.Some? <==> job.write.Some?)
    && (job.write.Some? ==>
          && job.recorded == (job.write.value != NoTrace)
          && job.returned == Some(if job.write.value.Written? then job.pending.reply else Unrecorded))
    && Matches(job.pending.reply, job.pending.entry)
    && (job.permit.Some? ==> job.permit.value == Pooled(job.pending.home))
    && (job.phase == Auditing && Admitted(job.pending.reply) ==> job.permit == Some(Pooled(job.pending.home)))
    && (job.responses > 0 ==> job.recorded)
    && job.responses <= 1
    && (job.phase in {Forwarding, Buffered} ==> job.responses == 0)
    && (job.phase == Streaming && !job.responseAudited ==> job.responses == 0)
  }

  function Count(chain: seq<Entry>, id: nat): nat {
    if chain == [] then 0
    else Count(chain[..|chain| - 1], id) + (if chain[|chain| - 1].id == id then 1 else 0)
  }

  lemma CountAppended(core: Core, home: Tenant, entry: Entry, tenant: Tenant, id: nat)
    ensures Count(ChainOf(Append(core, home, entry), tenant), id)
         == Count(ChainOf(core, tenant), id) + (if tenant == home && entry.id == id then 1 else 0)
  {
    if tenant == home {
      var chain := ChainOf(core, home);
      assert (chain + [entry])[..|chain|] == chain;
    }
  }

  function Available(core: Core, tenant: Tenant): nat {
    if tenant in core.available then core.available[tenant] else 0
  }

  /** A step of a request moves its share of the permits between the pool and the request. */
  lemma AdvanceConserves(core: Core, job: Job, event: Event, tenant: Tenant)
    requires tenant in core.available
    ensures var (core', job') := Advance(core, job, event);
            && core'.available.Keys == core.available.Keys
            && core'.available[tenant] + Share(job', tenant) == core.available[tenant] + Share(job, tenant)
  {
    hide Append, AfterWrite, Release, Admitted, ResponseEntry, RefusedResponseEntry;
    ReleaseReturnsShare(core, job, tenant);
    AppendKeepsPermits(core, job.pending.home, EventEntry(job, event), job, tenant, EventWrite(event));
  }

  /** The entry an event writes, if it writes one, and how that ends. */
  function EventEntry(job: Job, event: Event): Entry {
    var base := job.pending.entry;
    if event.BodyRecord? then ResponseEntry(base, event.inspection)
    else if event.StreamAudit? then
      (if event.inspected.None? then RefusedResponseEntry(base) else ResponseEntry(base, event.inspected.value))
    else base
  }

  function EventWrite(event: Event): Write {
    if event.Record? || event.BodyRecord? || event.StreamAudit? then event.write else Landed
  }

  lemma ReleaseReturnsShare(core: Core, job: Job, tenant: Tenant)
    requires tenant in core.available
    ensures var freed := Release(core, job.permit).available;
            freed.Keys == core.available.Keys && freed[tenant] == core.available[tenant] + Share(job, tenant)
  {
  }

  lemma AppendKeepsPermits(core: Core, home: Tenant, entry: Entry, job: Job, tenant: Tenant, write: Write)
    requires tenant in core.available
    ensures Append(core, home, entry).available == AfterWrite(core, home, entry, write).available == core.available
    ensures var freed := Release(core, job.permit).available;
            && Release(Append(core, home, entry), job.permit).available == freed
            && Release(AfterWrite(core, home, entry, write), job.permit).available == freed
  {
  }

  lemma AdvanceKeepsSound(core: Core, id: nat, job: Job, event: Event)
    requires Sound(id, job)
    ensures Sound(id, Advance(core, job, event).1)
  {
    hide Release, Append, AfterWrite, Matches;
  }

  /** A step of a request writes its own records to its own chain, and counts them. */
  lemma AdvanceCounts(core: Core, id: nat, job: Job, event: Event, tenant: Tenant, x: nat)
    requires Sound(id, job)
    ensures var (core', job') := Advance(core, job, event);
            && Count(ChainOf(core', tenant), x)
               == Count(ChainOf(core, tenant), x)
                + (if tenant == job.pending.home && x == id then Records(job') - Records(job) else 0)
            && job'.pending == job.pending
            && core'.overrides == core.overrides
  {
    hide Count, Matches, ChainOf, Append, AfterWrite, Release, ResponseEntry, RefusedResponseEntry;
    ReleaseKeepsChains(core, job.permit, tenant);
    EventEntryKeepsId(job, event);
    AppendAndRelease(core, job.pending.home, EventEntry(job, event), EventWrite(event), job.permit, tenant, x);
  }

  lemma EventEntryKeepsId(job: Job, event: Event)
    ensures EventEntry(job, event).id == job.pending.entry.id
  {
  }

  lemma AppendAndRelease(core: Core, home: Tenant, entry: Entry, write: Write, permit: Option<Permit>,
                         tenant: Tenant, x: nat)
    ensures var logged := AfterWrite(core, home, entry, write);
            && Count(ChainOf(logged, tenant), x)
               == Count(ChainOf(core, tenant), x) + (if tenant == home && entry.id == x then Kept(write) else 0)
            && ChainOf(Release(logged, permit), tenant) == ChainOf(logged, tenant)
            && logged.overrides == core.overrides && Release(logged, permit).overrides == core.overrides
            && (write != NoTrace ==> logged == Append(core, home, entry))
  {
    CountAppended(core, home, entry, tenant, x);
  }

  /** Chains only grow, and a request marked as recorded has its record in its chain. */
  lemma AdvanceKeepsRecords(core: Core, job: Job, event: Event, tenant: Tenant)
    ensures var (core', job') := Advance(core, job, event);
            && ChainOf(core, tenant) <= ChainOf(core', tenant)
            && (job'.recorded && !job.recorded ==> job.pending.entry in ChainOf(core', job.pending.home))
  {
    hide ResponseEntry, RefusedResponseEntry, ChainOf, Release, Append, AfterWrite, Matches;
    var home, entry, write := job.pending.home, EventEntry(job, event), EventWrite(event);
    ReleaseKeepsChains(core, job.permit, tenant);
    AppendGrows(core, home, entry, write, job.permit, tenant);
    AppendGrows(core, home, entry, write, job.permit, home);
  }

  lemma AppendGrows(core: Core, home: Tenant, entry: Entry, write: Write, permit: Option<Permit>, tenant: Tenant)
    ensures var logged := AfterWrite(core, home, entry, write);
            && ChainOf(logged, tenant)
               == ChainOf(core, tenant) + (if tenant == home && write != NoTrace then [entry] else [])
            && ChainOf(Release(logged, permit), tenant) == ChainOf(logged, tenant)
            && (write != NoTrace ==> logged == Append(core, home, entry))
  {
  }

  lemma ReleaseKeepsChains(core: Core, permit: Option<Permit>, tenant: Tenant)
    ensures ChainOf(Release(core, permit), tenant) == ChainOf(core, tenant)
    ensures Release(core, permit).overrides == core.overrides
  {
  }

  // ---------------------------------------------------------------- arrivals

  /** Inspection answers and records the same thing; a request it admits holds a permit of its
      own tenant's semaphore, and the branch that makes a semaphore on demand is never taken. */
  lemma BeginIsSound(cfg: Config, core: Core, id: nat, request: Request, now: nat, wall: nat)
    requires core.available.Keys == cfg.policy.tenants.Keys
    ensures Sound(id, Arriving(Begin(cfg, core, id, request, now, wall)))
  {
  }

  lemma BeginConserves(cfg: Config, core: Core, id: nat, request: Request, now: nat, wall: nat, tenant: Tenant)
    requires tenant in core.available
    ensures var b := Begin(cfg, core, id, request, now, wall);
            && b.core.available.Keys == core.available.Keys
            && b.core.available[tenant] + Share(Arriving(b), tenant) == core.available[tenant]
            && b.core.chains == core.chains
            && b.core.overrides == core.overrides
  {
    hide Authenticate, Authorize, Inspect;
  }

  /** Nothing but its load keeps this tenant's request out. */
  predicate Entitled(cfg: Config, core: Core, tenant: Tenant, request: Request, wall: nat) {
    && tenant in cfg.policy.tenants
    && var o := OverrideOf(core, tenant);
       var p := cfg.policy.tenants[tenant];
       && !o.keyRevoked
       && (o.suspendedUntil.Some? ==> o.suspendedUntil.value <= wall)
       && !p.suspended && request.endpoint in p.endpoints && request.model in p.models
  }

  predicate GuardRefuses(cfg: Config, payload: string) {
    cfg.guard.Some? && cfg.guard.value(cfg.extract(payload)).decision == Deny
  }

  /** Exactly who is admitted: an authenticated tenant under no countermeasure, allowed the
      endpoint and the model, with a permit left, whose text the guard does not refuse. And
      exactly who is turned away for load: one that only lacks the permit. */
  lemma AdmittedExactlyWhen(cfg: Config, core: Core, id: nat, request: Request, now: nat, wall: nat)
    requires core.available.Keys == cfg.policy.tenants.Keys
    ensures var reply := Begin(cfg, core, id, request, now, wall).pending.reply;
            var identity := Authenticate(cfg.policy, request.header, now);
            && (Admitted(reply) <==> && identity.Ok? && Entitled(cfg, core, identity.value, request, wall)
                                     && Available(core, identity.value) > 0
                                     && !GuardRefuses(cfg, request.payload))
            && (reply == Rejected(ConcurrencyLimit) <==>
                  && identity.Ok? && Entitled(cfg, core, identity.value, request, wall)
                  && Available(core, identity.value) == 0)
  {
    assert Authenticate(cfg.policy, request.header, now) != Err(ConcurrencyLimit);
  }

  /** Why a request is refused before the guard sees it, in this order: its credentials, a revoked
      key, a suspension, the endpoint, the model, the load. */
  lemma RefusedBecause(cfg: Config, core: Core, id: nat, request: Request, now: nat, wall: nat)
    requires core.available.Keys == cfg.policy.tenants.Keys
    ensures var reply := Begin(cfg, core, id, request, now, wall).pending.reply;
            match Authenticate(cfg.policy, request.header, now)
            case Err(why) => reply == Rejected(why)
            case Ok(tenant) =>
              var o, p := OverrideOf(core, tenant), cfg.policy.tenants[tenant];
              if o.keyRevoked then reply == Rejected(KeyRevoked)
              else if o.suspendedUntil.Some? && wall < o.suspendedUntil.value then reply == Rejected(TenantSuspended)
              else if request.endpoint !in p.endpoints then
                reply.Answered? && reply.decision == Deny && reply.reason == Refused(EndpointNotPermitted)
              else if request.model !in p.models then
                reply.Answered? && reply.decision == Deny && reply.reason == Refused(ModelNotPermitted)
              else if core.available[tenant] == 0 then reply == Rejected(ConcurrencyLimit)
              else reply.Answered? && !reply.reason.Refused?
  {
    AuthenticatesKnown(cfg.policy, request.header, now);
    hide Authenticate;
  }

  /** What the audit record of a request says, in all cases: whose it is, what was asked for, and what
      the guard found; the record of a tenant's request goes to the tenant's own chain, any other
      to that of `anonymous`. */
  lemma RecordSays(cfg: Config, core: Core, id: nat, request: Request, now: nat, wall: nat)
    ensures var b := Begin(cfg, core, id, request, now, wall);
            var entry, identity := b.pending.entry, Authenticate(cfg.policy, request.header, now);
            && entry.id == id && entry.endpoint == request.endpoint && entry.model == request.model
            && entry.tenant == b.pending.home == (if identity.Ok? then identity.value else "anonymous")
            && (b.permit == None || cfg.guard == None ==> entry.rules == {} && entry.redacted == None)
            && (b.permit.Some? && cfg.guard.Some? ==>
                  var verdict := cfg.guard.value(cfg.extract(request.payload));
                  && entry.rules == verdict.rules
                  && entry.redacted == if verdict.decision == Deny then None else Some(verdict.findings))
  {
    hide Authenticate;
  }

  /** What goes on once a permit is held, by the answer of the guard: nothing when it refuses, its own
      text when it redacts, and the payload as it came when it allows it or there is no guard. */
  lemma GuardAnswers(cfg: Config, core: Core, id: nat, request: Request, now: nat, wall: nat)
    requires Begin(cfg, core, id, request, now, wall).permit.Some?
    ensures var reply := Begin(cfg, core, id, request, now, wall).pending.reply;
            reply.Answered? &&
            if cfg.guard.None? then
              reply.decision == Allow && reply.reason == Passed && reply.payload == request.payload
            else
              var verdict := cfg.guard.value(cfg.extract(request.payload));
              && reply.decision == verdict.decision
              && match verdict.decision
                 case Deny => reply.reason == PromptInjection && reply.payload == ""
                 case Redacted => reply.reason == PiiRedacted && reply.payload == verdict.text
                 case Allow => reply.reason == Passed && reply.payload == request.payload
  {
    hide Authenticate;
  }

  /** What a response record says: that of the request again, marked with the findings when the
      response was redacted, and refused when inspection failed. It is appended to the same chain,
      unless writing it leaves no trace. */
  lemma ResponseRecordSays(core: Core, job: Job, event: Event)
    requires (event.StreamAudit? && job.phase == Streaming && !job.responseAudited)
             || (event.BodyRecord? && job.phase == Buffered)
    ensures var inspected := if event.BodyRecord? then Some(event.inspection) else event.inspected;
            var base := job.pending.entry;
            var entry := if inspected.None? then base.(decision := Deny, reason := ResponseInspectionFailed)
                         else if inspected.value.Clean? then base
                         else base.(decision := Redacted, reason := PiiRedactedInResponse,
                                    redacted := Some(inspected.value.count));
            ChainOf(Advance(core, job, event).0, job.pending.home)
            == ChainOf(core, job.pending.home) + (if event.write == NoTrace then [] else [entry])
  {
  }

  /** The guard judges the extracted text alone, not what is forwarded: payloads with the same
      extraction are judged alike, and a redaction replaces either of them by the same text,
      but when the guard allows it each goes on as it came. What the extraction leaves
      out goes on unjudged. */
  lemma GuardSeesOnlyTheExtraction(cfg: Config, core: Core, id: nat, a: Request, b: Request, now: nat, wall: nat)
    requires a == b.(payload := a.payload) && cfg.extract(a.payload) == cfg.extract(b.payload)
    ensures var forA, forB := Begin(cfg, core, id, a, now, wall).pending, Begin(cfg, core, id, b, now, wall).pending;
            && forA.entry == forB.entry && forA.reply.Answered? == forB.reply.Answered?
            && (Admitted(forA.reply) ==>
                  && Admitted(forB.reply)
                  && (forA.reply.payload == forB.reply.payload
                      <==> a.payload == b.payload || forA.reply.decision == Redacted))
  {
  }

  // ---------------------------------------------------------------- the whole gateway

  function Holders(jobs: map<nat, Job>, tenant: Tenant): set<nat> {
    set id | id in jobs && Holds(jobs[id], tenant)
  }

  lemma WithOrWithout(whole: set<nat>, rest: set<nat>, id: nat, present: bool)
    requires id !in rest
    requires forall x :: x in whole <==> x in rest || (present && x == id)
    ensures |whole| == |rest| + (if present then 1 else 0)
  {
    assert whole == if present then rest + {id} else rest;
  }

  lemma HoldersAfter(jobs: map<nat, Job>, id: nat, job: Job, tenant: Tenant)
    ensures |Holders(jobs[id := job], tenant)|
         == |Holders(jobs, tenant)| + Share(job, tenant) - (if id in jobs then Share(jobs[id], tenant) else 0)
  {
    var rest := Holders(jobs, tenant) - {id};
    WithOrWithout(Holders(jobs[id := job], tenant), rest, id, Holds(job, tenant));
    WithOrWithout(Holders(jobs, tenant), rest, id, id in jobs && Holds(jobs[id], tenant));
  }

  /** How many records of a request a chain should hold. */
  function Due(jobs: map<nat, Job>, id: nat, tenant: Tenant): nat {
    if id in jobs && jobs[id].pending.home == tenant then Records(jobs[id]) else 0
  }

  ghost predicate Conserved(cfg: Config, s: System) {
    && s.core.available.Keys == cfg.policy.tenants.Keys
    && forall t :: t in cfg.policy.tenants ==> s.core.available[t] + |Holders(s.jobs, t)| == Cap(cfg.policy, t)
  }

  ghost predicate Accounted(s: System) {
    && (forall id :: id in s.jobs ==> Sound(id, s.jobs[id]))
    && (forall id, t :: Count(ChainOf(s.core, t), id) == Due(s.jobs, id, t))
    && forall id :: id in s.jobs ==> RecordPresent(s.core, s.jobs[id])
  }

  predicate RecordPresent(core: Core, job: Job) {
    job.recorded ==> job.pending.entry in ChainOf(core, job.pending.home)
  }

  lemma StepKeepsRecords(cfg: Config, s: System, event: Event)
    requires forall id :: id in s.jobs ==> RecordPresent(s.core, s.jobs[id])
    ensures var s' := Step(cfg, s, event); forall id :: id in s'.jobs ==> RecordPresent(s'.core, s'.jobs[id])
  {
    hide Begin, Advance, ChainOf;
    var s' := Step(cfg, s, event);
    forall id | id in s'.jobs ensures RecordPresent(s'.core, s'.jobs[id]) {
      if event.Arrive? {
        if event.id !in s.jobs && id != event.id {
          BeginKeepsChains(cfg, s.core, event.id, event.request, event.now, event.wall, s.jobs[id].pending.home);
        }
      } else if event.Suspend? || event.RevokeKey? || event.ClearOverride? {
        ChainsDecideChain(s.core, s'.core, s.jobs[id].pending.home);
      } else if event.id in s.jobs {
        AdvanceKeepsPending(s.core, s.jobs[event.id], event);
        AdvanceKeepsRecords(s.core, s.jobs[event.id], event, s.jobs[id].pending.home);
      }
    }
  }

  lemma AdvanceKeepsPending(core: Core, job: Job, event: Event)
    ensures Advance(core, job, event).1.pending == job.pending
    ensures Advance(core, job, event).0.overrides == core.overrides
  {
    hide ResponseEntry, RefusedResponseEntry, Admitted;
  }

  lemma StepKeepsConserved(cfg: Config, s: System, event: Event)
    requires Conserved(cfg, s)
    ensures Conserved(cfg, Step(cfg, s, event))
  {
    hide Begin, Advance, Holders, Cap, Share;
    forall t | t in cfg.policy.tenants
      ensures var s' := Step(cfg, s, event);
              && s'.core.available.Keys == cfg.policy.tenants.Keys
              && s'.core.available[t] + |Holders(s'.jobs, t)| == Cap(cfg.policy, t)
    {
      if event.Arrive? {
        BeginConserves(cfg, s.core, event.id, event.request, event.now, event.wall, t);
        HoldersAfter(s.jobs, event.id, Arriving(Begin(cfg, s.core, event.id, event.request, event.now, event.wall)), t);
      } else if !event.Suspend? && !event.RevokeKey? && !event.ClearOverride? && event.id in s.jobs {
        AdvanceConserves(s.core, s.jobs[event.id], event, t);
        HoldersAfter(s.jobs, event.id, Advance(s.core, s.jobs[event.id], event).1, t);
      }
    }
    StepKeepsTenants(cfg, s, event);
  }

  lemma StepKeepsTenants(cfg: Config, s: System, event: Event)
    ensures Step(cfg, s, event).core.available.Keys == s.core.available.Keys
  {
    hide Begin, Advance;
    if event.Arrive? {
      BeginKeepsTenants(cfg, s.core, event.id, event.request, event.now, event.wall);
    } else if !event.Suspend? && !event.RevokeKey? && !event.ClearOverride? && event.id in s.jobs {
      AdvanceKeepsTenants(s.core, s.jobs[event.id], event);
    }
  }

  lemma BeginKeepsTenants(cfg: Config, core: Core, id: nat, request: Request, now: nat, wall: nat)
    ensures Begin(cfg, core, id, request, now, wall).core.available.Keys == core.available.Keys
  {
    hide Authenticate, Authorize, Inspect;
  }

  lemma AdvanceKeepsTenants(core: Core, job: Job, event: Event)
    ensures Advance(core, job, event).0.available.Keys == core.available.Keys
  {
    hide Admitted, ResponseEntry, RefusedResponseEntry;
  }

  lemma StepKeepsAccounted(cfg: Config, s: System, event: Event)
    requires Accounted(s) && s.core.available.Keys == cfg.policy.tenants.Keys
    ensures Accounted(Step(cfg, s, event))
  {
    hide Begin, Advance, Count, Sound, Records, ChainOf;
    var s' := Step(cfg, s, event);
    StepKeepsRecords(cfg, s, event);
    if event.Arrive? {
      if event.id !in s.jobs {
        BeginIsSound(cfg, s.core, event.id, event.request, event.now, event.wall);
        var job := s'.jobs[event.id];
        assert Records(job) == 0 by {
          ArrivingWroteNothing(Begin(cfg, s.core, event.id, event.request, event.now, event.wall));
        }
        forall id, t ensures Count(ChainOf(s'.core, t), id) == Due(s'.jobs, id, t) {
          BeginKeepsChains(cfg, s.core, event.id, event.request, event.now, event.wall, t);
          assert Count(ChainOf(s.core, t), id) == Due(s.jobs, id, t);
        }
      }
    } else if event.Suspend? || event.RevokeKey? || event.ClearOverride? {
      forall id, t ensures Count(ChainOf(s'.core, t), id) == Due(s'.jobs, id, t) {
        ChainsDecideChain(s.core, s'.core, t);
        assert Count(ChainOf(s.core, t), id) == Due(s.jobs, id, t);
      }
    } else if event.id in s.jobs {
      AdvanceKeepsSound(s.core, event.id, s.jobs[event.id], event);
      forall id, t ensures Count(ChainOf(s'.core, t), id) == Due(s'.jobs, id, t) {
        AdvanceCounts(s.core, event.id, s.jobs[event.id], event, t, id);
        assert Count(ChainOf(s.core, t), id) == Due(s.jobs, id, t);
      }
    }
  }

  lemma ArrivingWroteNothing(b: Begun)
    ensures Records(Arriving(b)) == 0
  {
  }

  lemma BeginKeepsChains(cfg: Config, core: Core, id: nat, request: Request, now: nat, wall: nat, tenant: Tenant)
    ensures ChainOf(Begin(cfg, core, id, request, now, wall).core, tenant) == ChainOf(core, tenant)
  {
    hide Authenticate, Authorize, Inspect;
  }

  lemma ChainsDecideChain(a: Core, b: Core, tenant: Tenant)
    requires a.chains == b.chains
    ensures ChainOf(a, tenant) == ChainOf(b, tenant)
  {
  }

  lemma {:induction false} RunKeepsInvariants(cfg: Config, events: seq<Event>)
    ensures Conserved(cfg, Run(cfg, Initial(cfg), events)) && Accounted(Run(cfg, Initial(cfg), events))
    decreases |events|
  {
    hide Step, Conserved, Accounted;
    if events == [] {
      InitialHolds(cfg);
    } else {
      var before := events[..|events| - 1];
      RunKeepsInvariants(cfg, before);
      var s := Run(cfg, Initial(cfg), before);
      StepKeepsConserved(cfg, s, events[|events| - 1]);
      ConservedTenants(cfg, s);
      StepKeepsAccounted(cfg, s, events[|events| - 1]);
    }
  }

  lemma ConservedTenants(cfg: Config, s: System)
    requires Conserved(cfg, s)
    ensures s.core.available.Keys == cfg.policy.tenants.Keys
  {
  }

  lemma InitialHolds(cfg: Config)
    ensures Conserved(cfg, Initial(cfg)) && Accounted(Initial(cfg))
  {
    assert forall t :: Holders(map[], t) == {};
  }

  /** In every interleaving a tenant's requests and open streams hold at most its cap of
      permits, and once they have all finished every permit is back, none twice. */
  lemma PermitsWithinCap(cfg: Config, events: seq<Event>, tenant: Tenant)
    requires tenant in cfg.policy.tenants
    ensures var s := Run(cfg, Initial(cfg), events);
            && tenant in s.core.available
            && var most := cfg.policy.tenants[tenant].maxConcurrent;
               var cap := if most == 0 then 1 else most;
               && s.core.available[tenant] + |Holders(s.jobs, tenant)| == cap
               && (forall id :: id in s.jobs && Live(s.jobs[id], tenant) ==> id in Holders(s.jobs, tenant))
               && (AllFinished(s, tenant) ==> s.core.available[tenant] == cap)
  {
    hide Run, Holders, Live, Accounted;
    RunKeepsInvariants(cfg, events);
    var s := Run(cfg, Initial(cfg), events);
    LiveRequestsHold(s, tenant);
    if AllFinished(s, tenant) {
      FinishedHoldNothing(s, tenant);
    }
  }

  lemma LiveRequestsHold(s: System, tenant: Tenant)
    requires Accounted(s)
    ensures forall id :: id in s.jobs && Live(s.jobs[id], tenant) ==> id in Holders(s.jobs, tenant)
  {
    hide Matches, Count, ChainOf;
    assert forall id :: id in s.jobs ==> Sound(id, s.jobs[id]);
  }

  predicate AllFinished(s: System, tenant: Tenant) {
    forall id :: id in s.jobs && s.jobs[id].pending.home == tenant ==> s.jobs[id].phase == Finished
  }

  lemma FinishedHoldNothing(s: System, tenant: Tenant)
    requires Accounted(s) && AllFinished(s, tenant)
    ensures Holders(s.jobs, tenant) == {}
  {
    hide Matches, Count, ChainOf;
    assert forall id :: id in s.jobs ==> Sound(id, s.jobs[id]) && !Holds(s.jobs[id], tenant);
  }

  /** A request past inspection whose answer is not complete. */
  predicate Live(job: Job, tenant: Tenant) {
    job.pending.home == tenant && job.phase in {Forwarding, Streaming, Buffered}
  }

  /** In every interleaving, a decision that inspection returned has exactly one record, in the
      chain of its tenant and nowhere else, and it tells the same story. A decision withheld
      because writing its record failed has at most one, exactly when the record got into the
      file all the same. Response records come on top, at most one for each request. */
  lemma OneRecordPerDecision(cfg: Config, events: seq<Event>, id: nat, tenant: Tenant)
    ensures var s := Run(cfg, Initial(cfg), events);
            id in s.jobs && s.jobs[id].returned.Some? ==>
              var job := s.jobs[id];
              && job.write.Some? && Record(id, job.write.value) in events
              && (job.returned.value == Unrecorded <==> !job.write.value.Written?)
              && job.responses <= 1
              && Count(ChainOf(s.core, tenant), id)
                 == (if tenant != job.pending.home then 0 else Kept(job.write.value) + job.responses)
              && (job.write.value != NoTrace ==>
                    exists entry :: entry in ChainOf(s.core, job.pending.home) && entry.id == id
                                    && Matches(job.pending.reply, entry))
              && (job.write.value == NoTrace ==> job.responses == 0)
              && (job.returned.value != Unrecorded ==> job.returned.value == job.pending.reply)
  {
    hide Run, Count, ChainOf;
    RunKeepsInvariants(cfg, events);
    WritesAreEvents(cfg, events, id);
    var s := Run(cfg, Initial(cfg), events);
    if id in s.jobs && s.jobs[id].returned.Some? {
      assert Sound(id, s.jobs[id]) && RecordPresent(s.core, s.jobs[id]);
      assert Count(ChainOf(s.core, tenant), id) == Due(s.jobs, id, tenant);
    }
  }

  lemma {:induction false} WritesAreEvents(cfg: Config, events: seq<Event>, id: nat)
    ensures var s := Run(cfg, Initial(cfg), events);
            id in s.jobs && s.jobs[id].write.Some? ==> Record(id, s.jobs[id].write.value) in events
    decreases |events|
  {
    hide Begin, Conclude, Release, AfterWrite, Append;
    if events != [] {
      var before, event := events[..|events| - 1], events[|events| - 1];
      WritesAreEvents(cfg, before, id);
      assert event in events && forall e :: e in before ==> e in events;
    }
  }

  // ---------------------------------------------------------------- the fate of a write

  /** How an attempt to record ends, in terms of the log: failed with a trace exactly when the
      whole JSON text got in. */
  function FateOf(st: ChainedLog.LogState, stamped: LineCodec.Entry, fault: ChainedLog.Fault): Write {
    if ChainedLog.Acknowledged(st, fault) then Written
    else if CrashRuns.WholeJsonWritten(st, stamped, fault) then Landed
    else NoTrace
  }

  /** The three outcomes are those of the log: an attempt leaves one more survivor exactly when it
      does not end without a trace. */
  lemma LogDecidesFate(sha: ChainedLog.Digest, chainId: Utf8.Bytes, events: seq<CrashRuns.Event>,
                       e: LineCodec.Entry, fault: ChainedLog.Fault)
    ensures var st, before := CrashRuns.Run(sha, chainId, events), CrashRuns.Survivors(sha, chainId, events);
            var stamped := ChainedLog.Stamp(sha, chainId, e, ChainedLog.LastHash(before));
            CrashRuns.Survivors(sha, chainId, events + [CrashRuns.Recorded(e, fault)])
            == before + (if FateOf(st, stamped, fault) == NoTrace then [] else [stamped])
    ensures var st := CrashRuns.Run(sha, chainId, events);
            var before := CrashRuns.Survivors(sha, chainId, events);
            var stamped := ChainedLog.Stamp(sha, chainId, e, ChainedLog.LastHash(before));
            FateOf(st, stamped, fault) == Written <==> ChainedLog.Acknowledged(st, fault)
  {
    hide CrashRuns.Run, LineCodec.Serialize;
    var attempt := CrashRuns.Recorded(e, fault);
    assert (events + [attempt])[..|events|] == events;
  }

  // ---------------------------------------------------------------- countermeasures

  /** A revoked key stays revoked over every run in which the operator does not clear it. */
  lemma {:induction false} RevocationSticks(cfg: Config, s: System, events: seq<Event>, tenant: Tenant)
    requires OverrideOf(s.core, tenant).keyRevoked
    requires ClearOverride(tenant) !in events
    ensures OverrideOf(Run(cfg, s, events).core, tenant).keyRevoked
    decreases |events|
  {
    hide Begin, Advance;
    if events != [] {
      var before, event := events[..|events| - 1], events[|events| - 1];
      RevocationSticks(cfg, s, before, tenant);
      var t := Run(cfg, s, before);
      if event.Arrive? {
        BeginKeepsOverrides(cfg, t.core, event.id, event.request, event.now, event.wall);
      } else if !event.Suspend? && !event.RevokeKey? && !event.ClearOverride? && event.id in t.jobs {
        AdvanceKeepsPending(t.core, t.jobs[event.id], event);
      }
    }
  }

  lemma BeginKeepsOverrides(cfg: Config, core: Core, id: nat, request: Request, now: nat, wall: nat)
    ensures Begin(cfg, core, id, request, now, wall).core.overrides == core.overrides
  {
    hide Authenticate, Authorize, Inspect;
  }

  /** After the key of a tenant is revoked, no request that arrives later in its name is ever
      admitted, whatever else happens, unless the operator clears the override. */
  lemma RevokedTenantIsRefused(cfg: Config, s: System, tenant: Tenant, events: seq<Event>,
                               id: nat, request: Request, now: nat, wall: nat)
    requires ClearOverride(tenant) !in events
    requires Authenticate(cfg.policy, request.header, now) == Ok(tenant)
    ensures var later := Run(cfg, Step(cfg, s, RevokeKey(tenant)), events);
            var b := Begin(cfg, later.core, id, request, now, wall);
            b.pending.reply == Rejected(KeyRevoked) && b.permit == None && b.core == later.core
  {
    hide Run;
    RevocationSticks(cfg, Step(cfg, s, RevokeKey(tenant)), events, tenant);
  }

  lemma {:induction false} SuspensionSticks(cfg: Config, s: System, events: seq<Event>, tenant: Tenant)
    requires ClearOverride(tenant) !in events
    requires forall until :: Suspend(tenant, until) !in events
    ensures OverrideOf(Run(cfg, s, events).core, tenant).suspendedUntil == OverrideOf(s.core, tenant).suspendedUntil
    decreases |events|
  {
    hide Begin, Advance;
    if events != [] {
      var before, event := events[..|events| - 1], events[|events| - 1];
      assert event in events && forall e :: e in before ==> e in events;
      SuspensionSticks(cfg, s, before, tenant);
      var t := Run(cfg, s, before);
      if event.Arrive? {
        BeginKeepsOverrides(cfg, t.core, event.id, event.request, event.now, event.wall);
      } else if !event.Suspend? && !event.RevokeKey? && !event.ClearOverride? && event.id in t.jobs {
        AdvanceKeepsPending(t.core, t.jobs[event.id], event);
      }
    }
  }

  /** A suspended tenant is refused, whatever else happens, until the time is over or the operator
      changes it; and from then on the suspension keeps none of its requests out. */
  lemma SuspendedTenantIsRefused(cfg: Config, s: System, tenant: Tenant, until: nat, events: seq<Event>,
                                 id: nat, request: Request, now: nat, wall: nat)
    requires ClearOverride(tenant) !in events && forall other :: Suspend(tenant, other) !in events
    requires Authenticate(cfg.policy, request.header, now) == Ok(tenant)
    ensures var later := Run(cfg, Step(cfg, s, Suspend(tenant, until)), events);
            var b := Begin(cfg, later.core, id, request, now, wall);
            && (wall < until ==> b.pending.reply in {Rejected(TenantSuspended), Rejected(KeyRevoked)}
                                 && b.permit == None && b.core == later.core)
            && (wall >= until ==> b.pending.reply != Rejected(TenantSuspended))
  {
    hide Run, Authenticate;
    SuspensionSticks(cfg, Step(cfg, s, Suspend(tenant, until)), events, tenant);
  }

  // ---------------------------------------------------------------- the handler is a run

  /** The events of one request that is handled without interruption. */
  function Story(id: nat, request: Request, now: nat, wall: nat, write: Write,
                 upstream: UpstreamAnswer, responseWrite: Write): seq<Event>
  {
    [Arrive(id, request, now, wall), Record(id, write), UpstreamAnswered(id, upstream)]
    + (if upstream.Whole? && upstream.inspected.Some?
       then [BodyRecord(id, upstream.inspected.value, responseWrite)] else [])
  }

  lemma RunExtends(cfg: Config, s: System, events: seq<Event>, event: Event)
    ensures Run(cfg, s, events + [event]) == Step(cfg, Run(cfg, s, events), event)
  {
    assert (events + [event])[..|events|] == events;
  }

  lemma RunOfThree(cfg: Config, s: System, a: Event, b: Event, c: Event)
    ensures Run(cfg, s, [a, b, c]) == Step(cfg, Step(cfg, Step(cfg, s, a), b), c)
  {
    hide Step;
    assert Run(cfg, s, []) == s;
    RunExtends(cfg, s, [], a);
    RunExtends(cfg, s, [a], b);
    RunExtends(cfg, s, [a, b], c);
    assert [] + [a] == [a] && [a] + [b] == [a, b] && [a, b] + [c] == [a, b, c];
  }

  /** The uninterrupted handler does exactly what the run of its steps does. */
  lemma HandlerIsARun(cfg: Config, s: System, id: nat, request: Request, now: nat, wall: nat,
                      write: Write, upstream: UpstreamAnswer, responseWrite: Write)
    requires id !in s.jobs
    ensures Run(cfg, s, Story(id, request, now, wall, write, upstream, responseWrite)).core
         == Handled(cfg, s.core, id, request, now, wall, write, upstream, responseWrite).0
  {
    hide Begin, AfterWrite, Release, ResponseEntry, RefusedResponseEntry;
    var three := [Arrive(id, request, now, wall), Record(id, write), UpstreamAnswered(id, upstream)];
    RunOfThree(cfg, s, three[0], three[1], three[2]);
    if upstream.Whole? && upstream.inspected.Some? {
      RunExtends(cfg, s, three, BodyRecord(id, upstream.inspected.value, responseWrite));
    } else {
      assert three + [] == three;
    }
    PendingNamesHome(cfg, s.core, id, request, now, wall);
  }

  /** What the handler answers: a body or a stream exactly for an admitted request whose upstream
      gave one, a body moreover only once its record is acknowledged; the stream takes the permit
      and the record of the request along, and every other answer has given the permit back. */
  lemma HandlerAnswers(cfg: Config, core: Core, id: nat, request: Request, now: nat, wall: nat,
                       write: Write, upstream: UpstreamAnswer, responseWrite: Write)
    ensures var b := Begin(cfg, core, id, request, now, wall);
            var admitted := write.Written? && Admitted(b.pending.reply);
            var (after, outcome) := Handled(cfg, core, id, request, now, wall, write, upstream, responseWrite);
            && (outcome == Body <==>
                  admitted && upstream.Whole? && upstream.inspected.Some? && responseWrite.Written?)
            && (outcome.Stream? <==> admitted && upstream.EventStream?)
            && (outcome.Stream? ==> outcome == Stream(b.permit, b.pending.entry) && after.available == b.core.available)
            && (!outcome.Stream? ==> after.available == Release(b.core, b.permit).available)
  {
    PendingNamesHome(cfg, core, id, request, now, wall);
    hide Begin, ResponseEntry;
  }

  lemma PendingNamesHome(cfg: Config, core: Core, id: nat, request: Request, now: nat, wall: nat)
    ensures var p := Begin(cfg, core, id, request, now, wall).pending;
            p.entry.tenant == p.home && (p.reply.Answered? ==> p.reply.entry == p.entry)
  {
  }
}
