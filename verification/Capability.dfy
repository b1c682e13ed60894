/** Capability tokens: issuing, checking, revoking, and a garbage collector that forgets. */
module Capability {
  import opened Wrappers
  import opened RateLimiter

  type TokenId = nat
  function BlankSecret(): seq<bv8> { seq(32, _ => 0) }

  type Secret = s: seq<bv8> | |s| == 32 witness BlankSecret()

  /** `expiresAt` is wall-clock time; the limiter runs on its own monotonic clock. */
  datatype Token =
    Token(id: TokenId, scope: Scope, capabilities: seq<string>, expiresAt: nat, secret: Secret)

  datatype Verdict = Allow | Deny

  datatype Policy = Policy(allowed: set<string>, default: Verdict)

  datatype CapabilityError = RateLimited | AuditWriteFailed

  datatype AuditEntry =
    | Issued(id: TokenId)
    | Revoked(id: TokenId)
    | Allowed(id: TokenId)
    | Denied(id: TokenId)

  type Tokens = map<TokenId, Token>

  // ---------------------------------------------------------------- decisions

  predicate IsValid(token: Token, wall: nat) { wall <= token.expiresAt }

  function Decide(policy: Policy, token: Token, scope: Scope, capability: string, wall: nat): Verdict {
    if !IsValid(token, wall) || capability !in token.capabilities || capability !in policy.allowed then Deny
    else if token.scope == scope || token.scope == GlobalScope then Allow
    else policy.default
  }

  predicate Authorizes(policy: Policy, token: Token, scope: Scope, capability: string, wall: nat) {
    Decide(policy, token, scope, capability, wall) == Allow
  }

  // The three checks. Each reads the token table, then the revocations, then the clock, under
  // separate locks, so the readings may come from different moments.

  predicate ValidateAnswer(policy: Policy, tokens: Tokens, revoked: set<TokenId>, id: TokenId,
                           secret: Secret, scope: Scope, capability: string, wall: nat)
  {
    && id in tokens && id !in revoked && tokens[id].secret == secret
    && IsValid(tokens[id], wall) && Authorizes(policy, tokens[id], scope, capability, wall)
  }

  function DecisionAnswer(policy: Policy, tokens: Tokens, revoked: set<TokenId>, id: TokenId,
                          secret: Secret, scope: Scope, capability: string, wall: nat): Verdict
  {
    if id !in tokens || id in revoked || tokens[id].secret != secret then Deny
    else Decide(policy, tokens[id], scope, capability, wall)
  }

  /** The caller brings the token here; its validity is read once before the revocations and
      once after. */
  predicate AuthorizeAnswer(policy: Policy, token: Token, early: nat, revoked: set<TokenId>,
                            capability: string, late: nat)
  {
    IsValid(token, early) && token.id !in revoked
    && Authorizes(policy, token, token.scope, capability, late)
  }

  /** Exactly what is allowed, in all three checks: an unexpired token that is not revoked and lists
      the capability, under a policy that lists it too, for its own scope, a global one, or any
      under a permissive default; and with its secret, where one is asked for. A check of the
      token's own scope never needs the default. */
  lemma AllowedExactly(policy: Policy, tokens: Tokens, revoked: set<TokenId>, token: Token, secret: Secret,
                       scope: Scope, capability: string, early: nat, late: nat)
    ensures ValidateAnswer(policy, tokens, revoked, token.id, secret, scope, capability, late)
       <==> && token.id in tokens && token.id !in revoked && tokens[token.id].secret == secret
            && late <= tokens[token.id].expiresAt
            && capability in tokens[token.id].capabilities && capability in policy.allowed
            && (tokens[token.id].scope in {scope, GlobalScope} || policy.default == Allow)
    ensures DecisionAnswer(policy, tokens, revoked, token.id, secret, scope, capability, late) == Allow
       <==> ValidateAnswer(policy, tokens, revoked, token.id, secret, scope, capability, late)
    ensures AuthorizeAnswer(policy, token, early, revoked, capability, late)
       <==> && early <= token.expiresAt && late <= token.expiresAt && token.id !in revoked
            && capability in token.capabilities && capability in policy.allowed
  {
  }

  // ---------------------------------------------------------------- comparing secrets

  lemma OrKeepsDifference(diff: bv8, x: bv8, y: bv8)
    ensures diff | (x ^ y) == 0 <==> diff == 0 && x == y
  {
  }

  /** Compares without stopping at the first difference, and still decides equality. */
  method ConstantTimeEq(a: Secret, b: Secret) returns (equal: bool)
    ensures equal <==> a == b
  {
    var diff: bv8 := 0;
    for i := 0 to |a|
      invariant diff == 0 <==> a[..i] == b[..i]
    {
      OrKeepsDifference(diff, a[i], b[i]);
      assert a[..i + 1] == a[..i] + [a[i]] && b[..i + 1] == b[..i] + [b[i]];
      diff := diff | (a[i] ^ b[i]);
    }
    assert a[..|a|] == a && b[..|b|] == b;
    equal := diff == 0;
  }

  // ---------------------------------------------------------------- the manager

  function Kept(tokens: Tokens, wall: nat): Tokens {
    map id | id in tokens && IsValid(tokens[id], wall) :: tokens[id]
  }

  class CapabilityManager {
    const policy: Policy
    const limiter: IssueLimiter
    var tokens: Tokens
    var revoked: set<TokenId>
    var audit: seq<AuditEntry>

    constructor (policy: Policy, limiter: IssueLimiter)
      ensures this.policy == policy && this.limiter == limiter
      ensures tokens == map[] && revoked == {} && audit == []
    {
      this.policy, this.limiter := policy, limiter;
      tokens, revoked, audit := map[], {}, [];
    }

    /** The state that revocation is about, at a time of the wall clock. */
    ghost function Now(wall: nat): Moment
      reads this
    {
      Moment(tokens, revoked, wall)
    }

    /** `auditOk` tells whether the audit log takes the entry. */
    method Record(entry: AuditEntry, auditOk: bool) returns (ok: bool)
      modifies this`audit
      ensures ok == auditOk
      ensures audit == old(audit) + (if auditOk then [entry] else [])
    {
      if auditOk {
        audit := audit + [entry];
      }
      ok := auditOk;
    }

    /** The clock is read before the limiter's lock is taken at `locked`. */
    method IssueToken(token: Token, sampled: nat, ghost locked: nat, auditOk: bool)
      returns (r: Result<(), CapabilityError>)
      requires limiter.Valid() && sampled <= locked && limiter.clock <= locked
      modifies this, limiter
      ensures limiter.Valid() && limiter.clock == locked && revoked == old(revoked)
      ensures limiter.history == old(limiter.history) + [Try(token.scope, sampled, locked, r != Err(RateLimited))]
      ensures r.Ok? ==> auditOk && tokens == old(tokens)[token.id := token]
                        && audit == old(audit) + [Issued(token.id)]
      ensures r.Ok? ==> forall wall :: Now(wall) == Effect(old(Now(wall)), Issue(token), wall)
      ensures r.Err? ==> tokens == old(tokens) && audit == old(audit)
      ensures r == Err(AuditWriteFailed) ==> !auditOk
    {
      hide IssueLimiter.Valid;
      var passed := limiter.Admit(token.scope, sampled, locked);
      if !passed {
        return Err(RateLimited);
      }
      var ok := Record(Issued(token.id), auditOk);
      if !ok {
        return Err(AuditWriteFailed);
      }
      tokens := tokens[token.id := token];
      r := Ok(());
    }

    /** The revocation stands even when its audit entry cannot be written. */
    method RevokeToken(id: TokenId, auditOk: bool) returns (r: Result<(), CapabilityError>)
      modifies this`revoked, this`audit
      ensures revoked == old(revoked) + {id}
      ensures forall wall :: Now(wall) == Effect(old(Now(wall)), Revoke(id), wall)
      ensures audit == old(audit) + (if auditOk then [Revoked(id)] else [])
      ensures r == if auditOk then Ok(()) else Err(AuditWriteFailed)
    {
      revoked := revoked + {id};
      var ok := Record(Revoked(id), auditOk);
      r := if ok then Ok(()) else Err(AuditWriteFailed);
    }

    method GarbageCollect(now: nat, wall: nat)
      requires limiter.Valid() && limiter.clock <= now
      modifies this`tokens, this`revoked, limiter
      ensures limiter.Valid() && limiter.clock == now && limiter.history == old(limiter.history) + [Collection(now)]
      ensures Now(wall) == Effect(old(Now(wall)), Collect, wall)
      ensures forall id :: id in tokens <==> id in old(tokens) && wall <= old(tokens)[id].expiresAt
      ensures forall id :: id in tokens ==> tokens[id] == old(tokens)[id]
      ensures revoked == old(revoked) * tokens.Keys
    {
      hide IssueLimiter.Valid;
      tokens := map id | id in tokens && IsValid(tokens[id], wall) :: tokens[id];
      revoked := set id | id in revoked && id in tokens;
      limiter.Collect(now);
    }

    method Validate(id: TokenId, secret: Secret, scope: Scope, capability: string, wall: nat, auditOk: bool)
        returns (r: Result<bool, CapabilityError>)
      modifies this`audit
      ensures r.Ok? ==> (r.value <==> ValidateAnswer(policy, tokens, revoked, id, secret, scope, capability, wall))
      ensures r == Ok(true) ==>
                && id in tokens && id !in revoked && tokens[id].secret == secret && wall <= tokens[id].expiresAt
                && capability in tokens[id].capabilities && capability in policy.allowed
      ensures r.Ok? <==> id !in tokens || auditOk
      ensures audit == old(audit) + (if id !in tokens || !auditOk then []
                                     else if r == Ok(true) then [Allowed(id)] else [Denied(id)])
      ensures r.Err? ==> r == Err(AuditWriteFailed)
    {
      if id !in tokens {
        return Ok(false);
      }
      var token := tokens[id];
      var allowed := false;
      if id !in revoked {
        var same := ConstantTimeEq(token.secret, secret);
        if same {
          allowed := IsValid(token, wall) && Authorizes(policy, token, scope, capability, wall);
        }
      }
      var ok := Record(if allowed then Allowed(id) else Denied(id), auditOk);
      r := if ok then Ok(allowed) else Err(AuditWriteFailed);
    }

    method DecisionFor(id: TokenId, secret: Secret, scope: Scope, capability: string, wall: nat, auditOk: bool)
        returns (r: Result<Verdict, CapabilityError>)
      modifies this`audit
      ensures r.Ok? ==> r.value == DecisionAnswer(policy, tokens, revoked, id, secret, scope, capability, wall)
      ensures r.Ok? <==> auditOk
      ensures audit == old(audit) + (if !auditOk then []
                                     else if r == Ok(Allow) then [Allowed(id)] else [Denied(id)])
    {
      var verdict := Deny;
      if id in tokens && id !in revoked {
        var same := ConstantTimeEq(tokens[id].secret, secret);
        if same {
          verdict := Decide(policy, tokens[id], scope, capability, wall);
        }
      }
      var ok := Record(if verdict == Allow then Allowed(id) else Denied(id), auditOk);
      r := if ok then Ok(verdict) else Err(AuditWriteFailed);
    }

    method AuthorizeToken(token: Token, capability: string, early: nat, late: nat, auditOk: bool)
        returns (r: Result<bool, CapabilityError>)
      modifies this`audit
      ensures r.Ok? ==> (r.value <==> AuthorizeAnswer(policy, token, early, revoked, capability, late))
      ensures r.Ok? <==> auditOk
      ensures audit == old(audit) + (if !auditOk then []
                                     else if r == Ok(true) then [Allowed(token.id)] else [Denied(token.id)])
    {
      var allowed := IsValid(token, early) && token.id !in revoked
                     && Authorizes(policy, token, token.scope, capability, late);
      var ok := Record(if allowed then Allowed(token.id) else Denied(token.id), auditOk);
      r := if ok then Ok(allowed) else Err(AuditWriteFailed);
    }
  }

  // ---------------------------------------------------------------- revocation over time

  /** The manager's state and the wall clock at one moment. */
  datatype Moment = Moment(tokens: Tokens, revoked: set<TokenId>, wall: nat)

  datatype Event =
    | Issue(token: Token)
    | Revoke(id: TokenId)
    | Collect
    | Check                    // validate, decide, authorize: nothing changes

  function Effect(m: Moment, ev: Event, wall: nat): Moment {
    match ev
    case Issue(token) => Moment(m.tokens[token.id := token], m.revoked, wall)
    case Revoke(id) => Moment(m.tokens, m.revoked + {id}, wall)
    case Collect => var kept := Kept(m.tokens, wall); Moment(kept, m.revoked * kept.Keys, wall)
    case Check => Moment(m.tokens, m.revoked, wall)
  }

  /** Consecutive moments, one event apart, on a clock that does not go back. */
  ghost predicate History(moments: seq<Moment>, events: seq<Event>) {
    && |moments| == |events| + 1
    && forall n :: 0 <= n < |events| ==>
         && moments[n].wall <= moments[n + 1].wall
         && moments[n + 1] == Effect(moments[n], events[n], moments[n + 1].wall)
  }

  predicate NeverReissued(events: seq<Event>, id: TokenId) {
    forall n :: 0 <= n < |events| && events[n].Issue? ==> events[n].token.id != id
  }

  /** Still remembered as revoked, or expired; and not replaced by another token. */
  predicate Dead(m: Moment, token: Token) {
    && (token.id in m.revoked || !IsValid(token, m.wall))
    && (token.id in m.tokens ==> m.tokens[token.id] == token)
  }

  lemma EventKeepsDead(m: Moment, ev: Event, wall: nat, token: Token)
    requires Dead(m, token) && m.wall <= wall
    requires ev.Issue? ==> ev.token.id != token.id
    requires ev.Collect? && token.id in m.revoked ==> token.id in m.tokens || !IsValid(token, wall)
    ensures Dead(Effect(m, ev, wall), token)
  {
  }

  /** From the moment an issued token is revoked it stays dead, although the collector forgets
      both the token and its revocation once it has expired. */
  lemma {:induction false} RevokedStaysDead(moments: seq<Moment>, events: seq<Event>, token: Token, n: nat)
    requires History(moments, events) && NeverReissued(events, token.id) && n < |moments|
    requires token.id in moments[0].tokens && moments[0].tokens[token.id] == token
    requires token.id in moments[0].revoked
    ensures Dead(moments[n], token)
    ensures token.id in moments[n].tokens || !IsValid(token, moments[n].wall)
  {
    if n > 0 {
      RevokedStaysDead(moments, events, token, n - 1);
      assert moments[n - 1 + 1] == Effect(moments[n - 1], events[n - 1], moments[n].wall);
      assert events[n - 1].Issue? ==> events[n - 1].token.id != token.id;
      EventKeepsDead(moments[n - 1], events[n - 1], moments[n].wall, token);
    }
  }

  lemma {:induction false} ClockMonotone(moments: seq<Moment>, events: seq<Event>, i: nat, j: nat)
    requires History(moments, events) && i <= j < |moments|
    ensures moments[i].wall <= moments[j].wall
    decreases j - i
  {
    if i < j {
      ClockMonotone(moments, events, i, j - 1);
      assert moments[j - 1].wall <= moments[j - 1 + 1].wall;
    }
  }

  /** A check denies a token that is dead when the table is read and when the revocations are,
      whenever the clock is read after that. */
  lemma DeadIsDenied(policy: Policy, moments: seq<Moment>, events: seq<Event>, token: Token,
                     i: nat, j: nat, k: nat, secret: Secret, scope: Scope, capability: string)
    requires History(moments, events) && i <= j <= k < |moments|
    requires Dead(moments[i], token) && Dead(moments[j], token)
    ensures !ValidateAnswer(policy, moments[i].tokens, moments[j].revoked, token.id, secret, scope,
                            capability, moments[k].wall)
    ensures DecisionAnswer(policy, moments[i].tokens, moments[j].revoked, token.id, secret, scope,
                           capability, moments[k].wall) == Deny
    ensures !AuthorizeAnswer(policy, token, moments[i].wall, moments[j].revoked, capability, moments[k].wall)
  {
    ClockMonotone(moments, events, j, k);
  }

  /** Revocation is permanent: every later check of the token denies, wherever between other
      operations its readings of the token table, the revocations and the clock fall. */
  lemma RevocationIsPermanent(policy: Policy, moments: seq<Moment>, events: seq<Event>, token: Token,
                              i: nat, j: nat, k: nat, secret: Secret, scope: Scope, capability: string)
    requires History(moments, events) && NeverReissued(events, token.id)
    requires token.id in moments[0].tokens && moments[0].tokens[token.id] == token
    requires token.id in moments[0].revoked
    requires i <= j <= k < |moments|
    ensures !ValidateAnswer(policy, moments[i].tokens, moments[j].revoked, token.id, secret, scope,
                            capability, moments[k].wall)
    ensures DecisionAnswer(policy, moments[i].tokens, moments[j].revoked, token.id, secret, scope,
                           capability, moments[k].wall) == Deny
    ensures !AuthorizeAnswer(policy, token, moments[i].wall, moments[j].revoked, capability, moments[k].wall)
  {
    RevokedStaysDead(moments, events, token, i);
    RevokedStaysDead(moments, events, token, j);
    DeadIsDenied(policy, moments, events, token, i, j, k, secret, scope, capability);
  }

  // ---------------------------------------------------------------- revoking before issuing

  predicate NoCollection(events: seq<Event>) { Collect !in events }

  predicate LeavesAlone(events: seq<Event>, id: TokenId) {
    forall n :: 0 <= n < |events| ==> events[n] != Revoke(id) && (events[n].Issue? ==> events[n].token.id != id)
  }

  lemma LeftAloneLonger(events: seq<Event>, last: Event, id: TokenId)
    ensures LeavesAlone(events + [last], id)
       <==> LeavesAlone(events, id) && last != Revoke(id) && (last.Issue? ==> last.token.id != id)
    ensures NoCollection(events + [last]) <==> NoCollection(events) && last != Collect
  {
    var all := events + [last];
    assert all[|events|] == last && forall m :: 0 <= m < |events| ==> all[m] == events[m];
    assert forall e :: e in all <==> e in events || e == last;
  }

  /** An id that was revoked without being in the table is remembered exactly until the first
      collection, as long as it is neither issued nor revoked again. */
  lemma {:induction false} EarlyRevocationRememberedExactly(moments: seq<Moment>, events: seq<Event>,
                                                            id: TokenId, n: nat)
    requires History(moments, events) && n < |moments|
    requires id in moments[0].revoked && id !in moments[0].tokens
    requires LeavesAlone(events[..n], id)
    ensures id in moments[n].revoked <==> NoCollection(events[..n])
    ensures id !in moments[n].tokens
  {
    if n > 0 {
      var before := events[..n - 1];
      assert events[..n] == before + [events[n - 1]];
      LeftAloneLonger(before, events[n - 1], id);
      EarlyRevocationRememberedExactly(moments, events, id, n - 1);
      assert moments[n - 1 + 1] == Effect(moments[n - 1], events[n - 1], moments[n].wall);
    }
  }

  lemma HistorySuffix(moments: seq<Moment>, events: seq<Event>, p: nat)
    requires History(moments, events) && p <= |events|
    ensures History(moments[p..], events[p..])
  {
    forall n | 0 <= n < |events[p..]|
      ensures moments[p..][n].wall <= moments[p..][n + 1].wall
      ensures moments[p..][n + 1] == Effect(moments[p..][n], events[p..][n], moments[p..][n + 1].wall)
    {
      assert moments[p + n].wall <= moments[p + n + 1].wall;
    }
  }

  lemma {:induction false} ExpiredStaysDead(moments: seq<Moment>, events: seq<Event>, token: Token, n: nat)
    requires History(moments, events) && NeverReissued(events, token.id) && n < |moments|
    requires token.id in moments[0].tokens ==> moments[0].tokens[token.id] == token
    requires !IsValid(token, moments[0].wall)
    ensures Dead(moments[n], token) && !IsValid(token, moments[n].wall)
  {
    if n > 0 {
      ExpiredStaysDead(moments, events, token, n - 1);
      assert moments[n - 1 + 1] == Effect(moments[n - 1], events[n - 1], moments[n].wall);
      assert moments[n - 1].wall <= moments[n - 1 + 1].wall;
      assert events[n - 1].Issue? ==> events[n - 1].token.id != token.id;
    }
  }

  /** So a revocation that comes before the token is issued holds from the issue on exactly when
      no collection ran in between, or the token was born expired. Together with
      `RevocationIsPermanent` this covers every revocation. */
  lemma EarlyRevocationHoldsExactly(moments: seq<Moment>, events: seq<Event>, token: Token, p: nat)
    requires History(moments, events) && p < |events| && events[p] == Issue(token)
    requires token.id in moments[0].revoked && token.id !in moments[0].tokens
    requires LeavesAlone(events[..p], token.id) && NeverReissued(events[p + 1..], token.id)
    ensures (forall n :: p < n < |moments| ==> Dead(moments[n], token))
       <==> NoCollection(events[..p]) || !IsValid(token, moments[p + 1].wall)
  {
    EarlyRevocationRememberedExactly(moments, events, token.id, p);
    var born := moments[p + 1];
    assert born == Effect(moments[p], events[p], born.wall);
    HistorySuffix(moments, events, p + 1);
    var later, rest := moments[p + 1..], events[p + 1..];
    assert later[0] == born;
    if NoCollection(events[..p]) || !IsValid(token, born.wall) {
      forall n | p < n < |moments|
        ensures Dead(moments[n], token)
      {
        assert moments[n] == later[n - p - 1];
        if NoCollection(events[..p]) {
          RevokedStaysDead(later, rest, token, n - p - 1);
        } else {
          ExpiredStaysDead(later, rest, token, n - p - 1);
        }
      }
    } else {
      assert !Dead(born, token);
    }
  }

  // ---------------------------------------------------------------- every allowed request was granted

  /** No event from `from` on and before `to` issues this id. */
  predicate NotIssued(events: seq<Event>, id: TokenId, from: nat, to: nat)
    requires to <= |events|
  {
    forall x :: from <= x < to && events[x].Issue? ==> events[x].token.id != id
  }

  /** The issue that put the token of an id into the table of moment `i`. */
  lemma {:induction false} IssuedBefore(moments: seq<Moment>, events: seq<Event>, id: TokenId, i: nat) returns (n: nat)
    requires History(moments, events) && i < |moments|
    requires moments[0].tokens == map[] && id in moments[i].tokens
    ensures n < i && events[n] == Issue(moments[i].tokens[id]) && moments[i].tokens[id].id == id
    ensures NotIssued(events, id, n + 1, i)
  {
    assert i > 0;
    var ev := events[i - 1];
    assert moments[i - 1 + 1] == Effect(moments[i - 1], ev, moments[i].wall);
    if ev.Issue? && ev.token.id == id {
      n := i - 1;
    } else {
      n := IssuedBefore(moments, events, id, i - 1);
    }
  }

  /** A token stays in the table until it has expired. */
  lemma {:induction false} StaysUntilExpired(moments: seq<Moment>, events: seq<Event>, token: Token, n: nat, m: nat)
    requires History(moments, events) && n < m < |moments| && events[n] == Issue(token)
    requires NotIssued(events, token.id, n + 1, m) && IsValid(token, moments[m].wall)
    ensures token.id in moments[m].tokens && moments[m].tokens[token.id] == token
    decreases m - n
  {
    var ev := events[m - 1];
    assert moments[m - 1 + 1] == Effect(moments[m - 1], ev, moments[m].wall);
    if m - 1 > n {
      assert moments[m - 1].wall <= moments[m - 1 + 1].wall;
      StaysUntilExpired(moments, events, token, n, m - 1);
    }
  }

  /** Over any history from an empty table, with readings of table, revocations and clock that fall
      anywhere one after the other: a request that is allowed goes back to an issue that granted
      it. The token issued had the secret that was shown, the capability and the scope, has not
      expired, and was not revoked since, as long as its id was not issued again. */
  lemma AllowedWasGranted(policy: Policy, moments: seq<Moment>, events: seq<Event>, i: nat, j: nat, k: nat,
                          id: TokenId, secret: Secret, scope: Scope, capability: string) returns (n: nat)
    requires History(moments, events) && moments[0].tokens == map[] && i <= j <= k < |moments|
    requires DecisionAnswer(policy, moments[i].tokens, moments[j].revoked, id, secret, scope, capability,
                            moments[k].wall) == Allow
    ensures n < i && events[n].Issue? && capability in policy.allowed
    ensures var token := events[n].token;
            && token.id == id && token.secret == secret && capability in token.capabilities
            && moments[k].wall <= token.expiresAt
            && (token.scope in {scope, GlobalScope} || policy.default == Allow)
    ensures NotIssued(events, id, n + 1, j) ==> forall m :: n < m < j ==> events[m] != Revoke(id)
  {
    n := IssuedBefore(moments, events, id, i);
    var token := moments[i].tokens[id];
    if NotIssued(events, id, n + 1, j) {
      forall m | n < m < j
        ensures events[m] != Revoke(id)
      {
        if events[m] == Revoke(id) {
          RevokedIsDeadLater(moments, events, token, n, m, j, k);
        }
      }
    }
  }

  lemma RevokedIsDeadLater(moments: seq<Moment>, events: seq<Event>, token: Token, n: nat, m: nat, j: nat, k: nat)
    requires History(moments, events) && n < m < j <= k < |moments|
    requires events[n] == Issue(token) && events[m] == Revoke(token.id)
    requires NotIssued(events, token.id, n + 1, j) && IsValid(token, moments[k].wall)
    ensures token.id in moments[j].revoked
  {
    ClockMonotone(moments, events, m + 1, k);
    ClockMonotone(moments, events, j, k);
    StaysUntilExpired(moments, events, token, n, m + 1);
    assert moments[m + 1] == Effect(moments[m], events[m], moments[m + 1].wall);
    HistoryBetween(moments, events, token.id, m + 1, j);
    var between, rest := moments[m + 1..j + 1], events[m + 1..j];
    RevokedStaysDead(between, rest, token, j - m - 1);
    assert between[j - m - 1] == moments[j] && between[0] == moments[m + 1];
  }

  lemma HistoryBetween(moments: seq<Moment>, events: seq<Event>, id: TokenId, p: nat, q: nat)
    requires History(moments, events) && p <= q <= |events| && NotIssued(events, id, p, q)
    ensures History(moments[p..q + 1], events[p..q]) && NeverReissued(events[p..q], id)
  {
    forall n | 0 <= n < q - p
      ensures var between := moments[p..q + 1];
              && between[n].wall <= between[n + 1].wall
              && between[n + 1] == Effect(between[n], events[p..q][n], between[n + 1].wall)
    {
      assert moments[p + n].wall <= moments[p + n + 1].wall;
    }
  }
}
