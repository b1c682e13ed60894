/** The gateway core: who is let in, who holds a concurrency permit, and what is written to the
    audit chains by one call. Interleavings of calls are in `GatewayRuns`. */
module Gateway {
  import opened Arith
  import opened Wrappers
  import StreamGuard

  type Tenant = string

  // ---------------------------------------------------------------- policy

  datatype DenyReason =
    | MissingCredentials
    | MalformedHeader
    | UnknownTenant
    | TenantSuspended
    | KeyExpired
    | KeyRevoked
    | EndpointNotPermitted
    | ModelNotPermitted
    | ConcurrencyLimit

  datatype TenantPolicy =
    TenantPolicy(endpoints: set<string>, models: set<string>, maxConcurrent: nat, suspended: bool)

  datatype Credential = Credential(tenant: Tenant, key: seq<bv8>, expiresAt: nat)

  /** Credentials are in the order in which they are searched. */
  datatype Policy = Policy(tenants: map<Tenant, TenantPolicy>, credentials: seq<Credential>)

  /** The authorization header, once split into scheme and key. */
  datatype Header = Missing | Malformed | Key(key: seq<bv8>)

  function FindCredential(credentials: seq<Credential>, key: seq<bv8>): Option<Credential> {
    if credentials == [] then None
    else if credentials[0].key == key then Some(credentials[0])
    else FindCredential(credentials[1..], key)
  }

  /** The credential that counts for a key: the first one that has it. */
  predicate IsFirstWithKey(credentials: seq<Credential>, key: seq<bv8>, i: int) {
    && 0 <= i < |credentials| && credentials[i].key == key
    && forall j :: 0 <= j < i ==> credentials[j].key != key
  }

  lemma {:induction false} FindsFirst(credentials: seq<Credential>, key: seq<bv8>)
    ensures match FindCredential(credentials, key)
            case None => forall i :: 0 <= i < |credentials| ==> credentials[i].key != key
            case Some(found) => exists i :: IsFirstWithKey(credentials, key, i) && credentials[i] == found
  {
    if credentials != [] {
      if credentials[0].key == key {
        assert IsFirstWithKey(credentials, key, 0);
      } else {
        FindsFirst(credentials[1..], key);
        if FindCredential(credentials[1..], key).Some? {
          var i :| IsFirstWithKey(credentials[1..], key, i)
                   && credentials[1..][i] == FindCredential(credentials[1..], key).value;
          assert forall j :: 0 < j <= i ==> credentials[j].key == credentials[1..][j - 1].key;
          assert IsFirstWithKey(credentials, key, i + 1);
        }
      }
    }
  }

  function Authenticate(policy: Policy, header: Header, now: nat): Result<Tenant, DenyReason> {
    match header
    case Missing => Err(MissingCredentials)
    case Malformed => Err(MalformedHeader)
    case Key(key) =>
      match FindCredential(policy.credentials, key)
      case None => Err(UnknownTenant)
      case Some(credential) =>
        if now > credential.expiresAt then Err(KeyExpired)
        else if credential.tenant !in policy.tenants then Err(UnknownTenant)
        else if policy.tenants[credential.tenant].suspended then Err(TenantSuspended)
        else Ok(credential.tenant)
  }

  /** Exactly who authenticates as a tenant: the holder of a key whose first credential is the
      tenant's own and has not expired, if the tenant is known and not suspended. And why others
      do not. */
  lemma AuthenticatesExactly(policy: Policy, header: Header, now: nat, tenant: Tenant)
    ensures var identity := Authenticate(policy, header, now);
            && (identity == Ok(tenant) <==>
                  && header.Key? && tenant in policy.tenants && !policy.tenants[tenant].suspended
                  && exists i :: IsFirstWithKey(policy.credentials, header.key, i)
                                 && policy.credentials[i].tenant == tenant && now <= policy.credentials[i].expiresAt)
            && (identity == Err(MissingCredentials) <==> header == Missing)
            && (identity == Err(MalformedHeader) <==> header == Malformed)
            && (identity == Err(KeyExpired) <==>
                  header.Key? && exists i :: IsFirstWithKey(policy.credentials, header.key, i)
                                             && now > policy.credentials[i].expiresAt)
            && (identity == Err(TenantSuspended) <==>
                  header.Key? && exists i :: IsFirstWithKey(policy.credentials, header.key, i)
                                             && now <= policy.credentials[i].expiresAt
                                             && policy.credentials[i].tenant in policy.tenants
                                             && policy.tenants[policy.credentials[i].tenant].suspended)
            && (identity.Err? ==> identity.error in {MissingCredentials, MalformedHeader, KeyExpired,
                                                     TenantSuspended, UnknownTenant})
  {
    if header.Key? {
      FindsFirst(policy.credentials, header.key);
      var credentials, key := policy.credentials, header.key;
      forall i, j | IsFirstWithKey(credentials, key, i) && IsFirstWithKey(credentials, key, j)
        ensures i == j
      {
      }
    }
  }

  lemma AuthenticatesKnown(policy: Policy, header: Header, now: nat)
    ensures var identity := Authenticate(policy, header, now);
            identity.Ok? ==> identity.value in policy.tenants && !policy.tenants[identity.value].suspended
  {
  }

  /** The reason an authenticated tenant is refused, if it is. */
  function Authorize(tenant: TenantPolicy, endpoint: string, model: string): Option<DenyReason> {
    if tenant.suspended then Some(TenantSuspended)
    else if endpoint !in tenant.endpoints then Some(EndpointNotPermitted)
    else if model !in tenant.models then Some(ModelNotPermitted)
    else None
  }

  function Cap(policy: Policy, tenant: Tenant): nat
    requires tenant in policy.tenants
  {
    AtLeastOne(policy.tenants[tenant].maxConcurrent)
  }

  // ---------------------------------------------------------------- records

  datatype Decision = Allow | Redacted | Deny

  datatype Reason =
    | Refused(why: DenyReason)
    | PromptInjection
    | PiiRedacted
    | Passed
    | PiiRedactedInResponse
    | ResponseInspectionFailed

  datatype Entry = Entry(
    id: nat,
    tenant: Tenant,
    endpoint: string,
    model: string,
    decision: Decision,
    reason: Reason,
    redacted: Option<nat>,
    rules: set<string>)

  datatype Request = Request(header: Header, endpoint: string, model: string, payload: string)

  /** The verdict of the content guard on a text; it is an input of the model. */
  datatype GuardVerdict = GuardVerdict(decision: Decision, text: string, findings: nat, rules: set<string>)

  type Guard = string -> GuardVerdict

  /** `extract` gives the text of a payload that the guard gets to see: the decoded values of its
      JSON, without keys. */
  datatype Config = Config(policy: Policy, guard: Option<Guard>, extract: string -> string)

  datatype Override = Override(suspendedUntil: Option<nat>, keyRevoked: bool)

  /** A permit of the tenant's own semaphore, or of one made for the occasion. */
  datatype Permit = Pooled(tenant: Tenant) | OnDemand(tenant: Tenant)

  datatype Reply =
    | Rejected(why: DenyReason)
    | Unrecorded
    | Answered(decision: Decision, reason: Reason, payload: string, entry: Entry)

  predicate Admitted(reply: Reply) { reply.Answered? && reply.decision != Deny }

  /** A record and an answer that tell the same story. */
  predicate Matches(reply: Reply, entry: Entry) {
    match reply
    case Rejected(why) => entry.decision == Deny && entry.reason == Refused(why)
    case Unrecorded => false
    case Answered(decision, reason, payload, recorded) =>
      && recorded == entry
      && entry.decision == decision
      && entry.reason == reason
      && (decision == Deny ==> payload == "")
  }

  // ---------------------------------------------------------------- the shared state

  datatype Core = Core(
    available: map<Tenant, nat>,
    overrides: map<Tenant, Override>,
    chains: map<Tenant, seq<Entry>>)

  function ChainOf(core: Core, tenant: Tenant): seq<Entry> {
    if tenant in core.chains then core.chains[tenant] else []
  }

  function Append(core: Core, home: Tenant, entry: Entry): Core {
    core.(chains := core.chains[home := ChainOf(core, home) + [entry]])
  }

  /** How writing a record ends: acknowledged, failed without a trace, or failed although its
      JSON got into the file. */
  datatype Write = Written | NoTrace | Landed

  function AfterWrite(core: Core, home: Tenant, entry: Entry, write: Write): Core {
    if write == NoTrace then core else Append(core, home, entry)
  }

  function Release(core: Core, permit: Option<Permit>): Core {
    if permit.Some? && permit.value.Pooled? && permit.value.tenant in core.available
    then core.(available := core.available[permit.value.tenant := core.available[permit.value.tenant] + 1])
    else core
  }

  function Acquire(core: Core, tenant: Tenant): (Core, Option<Permit>) {
    if tenant !in core.available then (core, Some(OnDemand(tenant)))
    else if core.available[tenant] == 0 then (core, None)
    else (core.(available := core.available[tenant := core.available[tenant] - 1]), Some(Pooled(tenant)))
  }

  function OverrideOf(core: Core, tenant: Tenant): Override {
    if tenant in core.overrides then core.overrides[tenant] else Override(None, false)
  }

  const WORD_LIMIT := 0x1_0000_0000_0000_0000

  /** The end of a suspension in milliseconds: the duration truncated to a word, the sum
      saturated. */
  function SuspensionEnd(wall: nat, duration: nat): nat {
    var end := wall + duration % WORD_LIMIT;
    if end < WORD_LIMIT then end else WORD_LIMIT - 1
  }

  predicate Suspended(o: Override, wall: nat) { o.suspendedUntil.Some? && wall < o.suspendedUntil.value }

  // ---------------------------------------------------------------- one request

  /** What inspection has settled when it starts to write the audit record. */
  datatype Pending = Pending(home: Tenant, entry: Entry, reply: Reply)

  datatype Begun = Begun(core: Core, pending: Pending, permit: Option<Permit>)

  datatype Concluded = Concluded(core: Core, reply: Reply, permit: Option<Permit>)

  function EntryFor(id: nat, tenant: Tenant, request: Request, decision: Decision, reason: Reason): Entry {
    Entry(id, tenant, request.endpoint, request.model, decision, reason, None, {})
  }

  function Reject(id: nat, tenant: Tenant, request: Request, why: DenyReason): Pending {
    Pending(tenant, EntryFor(id, tenant, request, Deny, Refused(why)), Rejected(why))
  }

  function Answer(entry: Entry, payload: string): Pending {
    Pending(entry.tenant, entry, Answered(entry.decision, entry.reason, payload, entry))
  }

  /** The outcome once a permit is held. */
  function Inspect(cfg: Config, id: nat, tenant: Tenant, request: Request): Pending {
    if cfg.guard.None? then Answer(EntryFor(id, tenant, request, Allow, Passed), request.payload)
    else
      var v := cfg.guard.value(cfg.extract(request.payload));
      match v.decision
      case Deny => Answer(EntryFor(id, tenant, request, Deny, PromptInjection).(rules := v.rules), "")
      case Redacted =>
        Answer(EntryFor(id, tenant, request, Redacted, PiiRedacted).(redacted := Some(v.findings), rules := v.rules),
               v.text)
      case Allow =>
        Answer(EntryFor(id, tenant, request, Allow, Passed).(redacted := Some(v.findings), rules := v.rules),
               request.payload)
  }

  /** Everything before the audit record: no other request runs in between. */
  function Begin(cfg: Config, core: Core, id: nat, request: Request, now: nat, wall: nat): Begun {
    match Authenticate(cfg.policy, request.header, now)
    case Err(why) => Begun(core, Reject(id, "anonymous", request, why), None)
    case Ok(tenant) =>
      var o := OverrideOf(core, tenant);
      if o.keyRevoked then Begun(core, Reject(id, tenant, request, KeyRevoked), None)
      else if Suspended(o, wall) then Begun(core, Reject(id, tenant, request, TenantSuspended), None)
      else
        match Authorize(cfg.policy.tenants[tenant], request.endpoint, request.model)
        case Some(why) =>
          Begun(core, Answer(EntryFor(id, tenant, request, Deny, Refused(why)), ""), None)
        case None =>
          var (taken, permit) := Acquire(core, tenant);
          if permit.None? then Begun(core, Reject(id, tenant, request, ConcurrencyLimit), None)
          else Begun(taken, Inspect(cfg, id, tenant, request), permit)
  }

  /** The write of the audit record ends, and the call returns. */
  function Conclude(core: Core, pending: Pending, permit: Option<Permit>, write: Write): Concluded {
    var logged := AfterWrite(core, pending.home, pending.entry, write);
    if !write.Written? then Concluded(Release(logged, permit), Unrecorded, None)
    else if Admitted(pending.reply) then Concluded(logged, pending.reply, permit)
    else Concluded(Release(logged, permit), pending.reply, None)
  }

  function Inspected(cfg: Config, core: Core, id: nat, request: Request, now: nat, wall: nat, write: Write): Concluded {
    var b := Begin(cfg, core, id, request, now, wall);
    Conclude(b.core, b.pending, b.permit, write)
  }

  /** The record of a response: that of the request, marked when the response was redacted. */
  function ResponseEntry(base: Entry, inspection: StreamGuard.Inspection): Entry {
    match inspection
    case Clean => base
    case RedactedItems(count) => base.(decision := Redacted, reason := PiiRedactedInResponse, redacted := Some(count))
  }

  function RefusedResponseEntry(base: Entry): Entry {
    base.(decision := Deny, reason := ResponseInspectionFailed)
  }

  // ---------------------------------------------------------------- the core as an object

  datatype UpstreamAnswer = ForwardFailed | EventStream | Whole(inspected: Option<StreamGuard.Inspection>)

  datatype Outcome =
    | Errored
    | Stream(permit: Option<Permit>, base: Entry)
    | Body

  /** One request from arrival to the answer, when nothing else runs in between. */
  function Handled(cfg: Config, core: Core, id: nat, request: Request, now: nat, wall: nat,
                   write: Write, upstream: UpstreamAnswer, responseWrite: Write): (Core, Outcome) {
    var c := Inspected(cfg, core, id, request, now, wall, write);
    if !Admitted(c.reply) then (c.core, Errored)
    else
      match upstream
      case ForwardFailed => (Release(c.core, c.permit), Errored)
      case EventStream => (c.core, Stream(c.permit, c.reply.entry))
      case Whole(None) => (Release(c.core, c.permit), Errored)
      case Whole(Some(inspection)) =>
        var logged := AfterWrite(c.core, c.reply.entry.tenant, ResponseEntry(c.reply.entry, inspection), responseWrite);
        (Release(logged, c.permit), if responseWrite.Written? then Body else Errored)
  }

  class GatewayCore {
    const cfg: Config
    var available: map<Tenant, nat>
    var overrides: map<Tenant, Override>
    var chains: map<Tenant, seq<Entry>>

    constructor (cfg: Config)
      ensures this.cfg == cfg && State() == InitialCore(cfg)
      ensures available.Keys == cfg.policy.tenants.Keys && overrides == map[] && chains == map[]
      ensures forall t :: t in available ==>
                var most := cfg.policy.tenants[t].maxConcurrent; available[t] == if most == 0 then 1 else most
    {
      this.cfg := cfg;
      available := map t | t in cfg.policy.tenants :: Cap(cfg.policy, t);
      overrides, chains := map[], map[];
    }

    ghost function State(): Core
      reads this
    {
      Core(available, overrides, chains)
    }

    method SuspendTenantFor(tenant: Tenant, wall: nat, duration: nat)
      modifies this
      ensures State() == SuspendedFor(old(State()), tenant, SuspensionEnd(wall, duration))
      ensures available == old(available) && chains == old(chains) && tenant in overrides
      ensures overrides - {tenant} == old(overrides) - {tenant}
      ensures var end := wall + duration % 0x1_0000_0000_0000_0000;
              overrides[tenant].suspendedUntil
              == Some(if end < 0x1_0000_0000_0000_0000 then end else 0xFFFF_FFFF_FFFF_FFFF)
      ensures overrides[tenant].keyRevoked <==> tenant in old(overrides) && old(overrides)[tenant].keyRevoked
    {
      var entry := if tenant in overrides then overrides[tenant] else Override(None, false);
      overrides := overrides[tenant := entry.(suspendedUntil := Some(SuspensionEnd(wall, duration)))];
    }

    method RevokeTenantKey(tenant: Tenant)
      modifies this
      ensures State() == KeyRevokedFor(old(State()), tenant)
      ensures available == old(available) && chains == old(chains) && tenant in overrides
      ensures overrides - {tenant} == old(overrides) - {tenant} && overrides[tenant].keyRevoked
      ensures overrides[tenant].suspendedUntil
           == if tenant in old(overrides) then old(overrides)[tenant].suspendedUntil else None
    {
      var entry := if tenant in overrides then overrides[tenant] else Override(None, false);
      overrides := overrides[tenant := entry.(keyRevoked := true)];
    }

    method ClearTenantOverride(tenant: Tenant)
      modifies this
      ensures State() == OverrideCleared(old(State()), tenant)
      ensures overrides == old(overrides) - {tenant} && available == old(available) && chains == old(chains)
    {
      overrides := overrides - {tenant};
    }

    method AcquireConcurrency(tenant: Tenant) returns (permit: Option<Permit>)
      modifies this
      ensures (State(), permit) == Acquire(old(State()), tenant)
      ensures tenant in old(available) ==>
                if old(available)[tenant] == 0 then permit == None && available == old(available)
                else permit == Some(Pooled(tenant))
                     && available == old(available)[tenant := old(available)[tenant] - 1]
    {
      if tenant !in available {
        return Some(OnDemand(tenant));
      }
      if available[tenant] == 0 {
        return None;
      }
      available := available[tenant := available[tenant] - 1];
      permit := Some(Pooled(tenant));
    }

    /** The permit goes out of scope. */
    method DropPermit(permit: Option<Permit>)
      modifies this
      ensures State() == Release(old(State()), permit)
      ensures permit.Some? && permit.value.Pooled? && permit.value.tenant in old(available) ==>
                var t := permit.value.tenant; available == old(available)[t := old(available)[t] + 1]
    {
      if permit.Some? && permit.value.Pooled? && permit.value.tenant in available {
        available := available[permit.value.tenant := available[permit.value.tenant] + 1];
      }
    }

    method RecordAudit(home: Tenant, entry: Entry, write: Write) returns (ok: bool)
      modifies this
      ensures ok == write.Written?
      ensures State() == AfterWrite(old(State()), home, entry, write)
      ensures available == old(available) && overrides == old(overrides)
      ensures chains == if write.NoTrace? then old(chains)
                        else old(chains)[home := (if home in old(chains) then old(chains)[home] else []) + [entry]]
    {
      if write != NoTrace {
        var chain := if home in chains then chains[home] else [];
        chains := chains[home := chain + [entry]];
      }
      ok := write.Written?;
    }

    method InspectRequest(id: nat, request: Request, now: nat, wall: nat, write: Write)
      returns (reply: Reply, permit: Option<Permit>)
      modifies this
      ensures Concluded(State(), reply, permit) == Inspected(cfg, old(State()), id, request, now, wall, write)
    {
      AuthenticatesKnown(cfg.policy, request.header, now);
      hide AfterWrite, Authenticate, Authorize;
      permit := None;
      var identity := Authenticate(cfg.policy, request.header, now);
      if identity.Err? {
        var ok := RecordAudit("anonymous", EntryFor(id, "anonymous", request, Deny, Refused(identity.error)), write);
        return if ok then Rejected(identity.error) else Unrecorded, None;
      }
      var tenant := identity.value;
      if tenant in overrides {
        var revoked, suspended := overrides[tenant].keyRevoked, Suspended(overrides[tenant], wall);
        if revoked || suspended {
          var why := if revoked then KeyRevoked else TenantSuspended;
          var ok := RecordAudit(tenant, EntryFor(id, tenant, request, Deny, Refused(why)), write);
          return if ok then Rejected(why) else Unrecorded, None;
        }
      }
      var refusal := Authorize(cfg.policy.tenants[tenant], request.endpoint, request.model);
      if refusal.Some? {
        var entry := EntryFor(id, tenant, request, Deny, Refused(refusal.value));
        var ok := RecordAudit(tenant, entry, write);
        return if ok then Answered(Deny, Refused(refusal.value), "", entry) else Unrecorded, None;
      }
      permit := AcquireConcurrency(tenant);
      if permit.None? {
        var ok := RecordAudit(tenant, EntryFor(id, tenant, request, Deny, Refused(ConcurrencyLimit)), write);
        return if ok then Rejected(ConcurrencyLimit) else Unrecorded, None;
      }
      var entry, payload := EntryFor(id, tenant, request, Allow, Passed), request.payload;
      if cfg.guard.Some? {
        var verdict := cfg.guard.value(cfg.extract(request.payload));
        entry := entry.(rules := verdict.rules);
        match verdict.decision {
          case Deny =>
            entry, payload := entry.(decision := Deny, reason := PromptInjection), "";
          case Redacted =>
            entry := entry.(decision := Redacted, reason := PiiRedacted, redacted := Some(verdict.findings));
            payload := verdict.text;
          case Allow =>
            entry := entry.(redacted := Some(verdict.findings));
        }
      }
      var ok := RecordAudit(tenant, entry, write);
      if !ok || entry.decision == Deny {
        DropPermit(permit);
        permit := None;
      }
      reply := if ok then Answered(entry.decision, entry.reason, payload, entry) else Unrecorded;
    }

    method Handle(id: nat, request: Request, now: nat, wall: nat, write: Write,
                  upstream: UpstreamAnswer, responseWrite: Write) returns (outcome: Outcome)
      modifies this
      ensures (State(), outcome)
           == Handled(cfg, old(State()), id, request, now, wall, write, upstream, responseWrite)
    {
      hide Inspected, AfterWrite, Release;
      var reply, permit := InspectRequest(id, request, now, wall, write);
      if !Admitted(reply) {
        return Errored;
      }
      var base := reply.entry;
      match upstream {
        case ForwardFailed =>
          DropPermit(permit);
          outcome := Errored;
        case EventStream =>
          outcome := Stream(permit, base);
        case Whole(None) =>
          DropPermit(permit);
          outcome := Errored;
        case Whole(Some(inspection)) =>
          var ok := RecordAudit(base.tenant, ResponseEntry(base, inspection), responseWrite);
          DropPermit(permit);
          outcome := if ok then Body else Errored;
      }
    }
  }

  function InitialCore(cfg: Config): Core {
    Core(map t | t in cfg.policy.tenants :: Cap(cfg.policy, t), map[], map[])
  }

  function SuspendedFor(core: Core, tenant: Tenant, until: nat): Core {
    core.(overrides := core.overrides[tenant := OverrideOf(core, tenant).(suspendedUntil := Some(until))])
  }

  function KeyRevokedFor(core: Core, tenant: Tenant): Core {
    core.(overrides := core.overrides[tenant := OverrideOf(core, tenant).(keyRevoked := true)])
  }

  function OverrideCleared(core: Core, tenant: Tenant): Core {
    core.(overrides := core.overrides - {tenant})
  }
}
