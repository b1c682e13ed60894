/** The guarded response stream: a prefix is withheld until it has been inspected, and one
    audit entry is written for the response before its first data chunk. */
module StreamGuard {
  import opened Arith
  import opened Wrappers

  type Bytes = seq<bv8>

  // ---------------------------------------------------------------- inspection

  /** What the content guard says about a text; it may also fail to decide. */
  datatype Verdict =
    | Allow
    | Redacted(text: Bytes, findings: nat)
    | Deny(rules: nat)
    | Undecided

  type Guard = Bytes -> Verdict

  datatype Inspection = Clean | RedactedItems(count: nat)

  datatype GatewayError = Upstream(message: string) | Denied(rules: nat) | GuardFailed

  function InspectBuffered(guard: Option<Guard>, body: Bytes): Result<(Bytes, Inspection), GatewayError> {
    if guard.None? then Ok((body, Clean))
    else
      match guard.value(body)
      case Allow => Ok((body, Clean))
      case Redacted(text, findings) => Ok((text, RedactedItems(findings)))
      case Deny(rules) => Err(Denied(rules))
      case Undecided => Err(GuardFailed)
  }

  // ---------------------------------------------------------------- the stream

  /** What the upstream yields; the end of the sequence is the end of the stream. */
  datatype Item = Chunk(bytes: Bytes) | Fault(message: string)

  type Out = Result<Bytes, GatewayError>

  datatype Phase = Gathering | Releasing | Poisoned

  datatype StreamState = StreamState(inner: seq<Item>, phase: Phase, report: Option<Inspection>)

  /** The bytes gathered for the prefix, what remains upstream, and the error that ended the
      gathering, if one did. */
  datatype Gathered = Gathered(prefix: Bytes, rest: seq<Item>, fault: Option<string>)

  function Gather(inner: seq<Item>, buffer: Bytes, need: nat): Gathered
    decreases |inner|
  {
    if |buffer| >= need || inner == [] then Gathered(buffer, inner, None)
    else
      match inner[0]
      case Chunk(bytes) => Gather(inner[1..], buffer + bytes, need)
      case Fault(message) => Gathered(buffer, inner[1..], Some(message))
  }

  function Relay(item: Item): Out {
    match item
    case Chunk(bytes) => Ok(bytes)
    case Fault(message) => Err(Upstream(message))
  }

  /** One poll: the next state and the item yielded, none at the end. */
  function Poll(guard: Option<Guard>, need: nat, st: StreamState): (StreamState, Option<Out>) {
    match st.phase
    case Gathering =>
      var g := Gather(st.inner, [], need);
      if g.fault.Some? then (StreamState(g.rest, Releasing, st.report), Some(Err(Upstream(g.fault.value))))
      else (match InspectBuffered(guard, g.prefix)
            case Err(e) => (StreamState(g.rest, Poisoned, st.report), Some(Err(e)))
            case Ok((out, inspection)) =>
              (StreamState(g.rest, Releasing, Some(inspection)), Some(Ok(out))))
    case Releasing =>
      if st.inner == [] then (st, None)
      else (st.(inner := st.inner[1..]), Some(Relay(st.inner[0])))
    case Poisoned => (st, None)
  }

  class GuardedStream {
    const guard: Option<Guard>
    const need: nat
    var inner: seq<Item>
    var phase: Phase
    var report: Option<Inspection>

    constructor (inner: seq<Item>, prefixLen: nat, guard: Option<Guard>)
      ensures this.guard == guard && need == if prefixLen == 0 then 1 else prefixLen
      ensures State() == StreamState(inner, Gathering, None)
    {
      this.guard, this.need := guard, AtLeastOne(prefixLen);
      this.inner, phase, report := inner, Gathering, None;
    }

    ghost function State(): StreamState
      reads this
    {
      StreamState(inner, phase, report)
    }

    method Next() returns (r: Option<Out>)
      modifies this
      ensures (State(), r) == Poll(guard, need, old(State()))
      ensures old(phase) == Releasing && old(inner) != [] ==>
                r == Some(match old(inner)[0]
                          case Chunk(bytes) => Ok(bytes)
                          case Fault(message) => Err(Upstream(message)))
      ensures old(phase) == Poisoned || (old(phase) == Releasing && old(inner) == []) ==> r == None
    {
      match phase {
        case Gathering =>
          var buffer: Bytes := [];
          while |buffer| < need && inner != []
            invariant phase == Gathering && report == old(report)
            invariant Gather(inner, buffer, need) == Gather(old(inner), [], need)
            decreases |inner|
          {
            var item := inner[0];
            inner := inner[1..];
            match item {
              case Chunk(bytes) =>
                buffer := buffer + bytes;
              case Fault(message) =>
                phase := Releasing;
                return Some(Err(Upstream(message)));
            }
          }
          phase := Releasing;
          var inspected := InspectBuffered(guard, buffer);
          if inspected.Err? {
            phase := Poisoned;
            return Some(Err(inspected.error));
          }
          report := Some(inspected.value.1);
          r := Some(Ok(inspected.value.0));
        case Releasing =>
          if inner == [] {
            return None;
          }
          var item := inner[0];
          inner := inner[1..];
          r := Some(Relay(item));
        case Poisoned =>
          r := None;
      }
    }
  }

  // ---------------------------------------------------------------- whole streams

  lemma {:induction false} GatherShrinks(inner: seq<Item>, buffer: Bytes, need: nat)
    ensures |Gather(inner, buffer, need).rest| <= |inner|
    decreases |inner|
  {
    if |buffer| < need && inner != [] && inner[0].Chunk? {
      GatherShrinks(inner[1..], buffer + inner[0].bytes, need);
    }
  }

  function Pending(st: StreamState): nat {
    match st.phase
    case Gathering => |st.inner| + 1
    case Releasing => |st.inner|
    case Poisoned => 0
  }

  lemma PollProgresses(guard: Option<Guard>, need: nat, st: StreamState)
    ensures Poll(guard, need, st).1.Some? ==> Pending(Poll(guard, need, st).0) < Pending(st)
  {
    GatherShrinks(st.inner, [], need);
  }

  /** Everything a consumer gets that polls until the end, and the report it leaves. */
  function Drain(guard: Option<Guard>, need: nat, st: StreamState): (seq<Out>, Option<Inspection>)
    decreases Pending(st)
  {
    PollProgresses(guard, need, st);
    var (next, item) := Poll(guard, need, st);
    if item.None? then ([], next.report)
    else
      var (more, report) := Drain(guard, need, next);
      ([item.value] + more, report)
  }

  function RelayAll(items: seq<Item>): seq<Out> {
    if items == [] then [] else [Relay(items[0])] + RelayAll(items[1..])
  }

  lemma {:induction false} DrainReleasing(guard: Option<Guard>, need: nat, st: StreamState)
    requires st.phase == Releasing
    ensures Drain(guard, need, st) == (RelayAll(st.inner), st.report)
    decreases |st.inner|
  {
    if st.inner != [] {
      DrainReleasing(guard, need, st.(inner := st.inner[1..]));
    }
  }

  /** The whole output, by cases of what the gathering and the inspection gave. */
  lemma DrainedOutput(guard: Option<Guard>, need: nat, inner: seq<Item>)
    ensures var g := Gather(inner, [], need);
            Drain(guard, need, StreamState(inner, Gathering, None))
            == if g.fault.Some? then ([Err(Upstream(g.fault.value))] + RelayAll(g.rest), None)
               else match InspectBuffered(guard, g.prefix)
                    case Err(e) => ([Err(e)], None)
                    case Ok((out, inspection)) => ([Ok(out)] + RelayAll(g.rest), Some(inspection))
  {
    var st := StreamState(inner, Gathering, None);
    var (next, item) := Poll(guard, need, st);
    if next.phase == Releasing {
      DrainReleasing(guard, need, next);
    } else {
      assert Drain(guard, need, next) == ([], next.report);
      assert [item.value] + [] == [item.value];
    }
  }

  /** The data of an output, and of the upstream. */
  function DataOf(outs: seq<Out>): Bytes {
    if outs == [] then [] else (if outs[0].Ok? then outs[0].value else []) + DataOf(outs[1..])
  }

  function Payload(items: seq<Item>): Bytes {
    if items == [] then [] else (if items[0].Chunk? then items[0].bytes else []) + Payload(items[1..])
  }

  /** Where gathering stops: after the fewest whole chunks that hold `need` bytes, or at the end of
      the stream, or at the first error before that; what is behind is left upstream. */
  lemma {:induction false} GatherStopsEarliest(inner: seq<Item>, need: nat) returns (n: nat)
    ensures n <= |inner| && forall i :: 0 <= i < n ==> inner[i].Chunk?
    ensures forall m :: 0 <= m < n ==> |Payload(inner[..m])| < need
    ensures var g := Gather(inner, [], need);
            && g.prefix == Payload(inner[..n])
            && match g.fault
               case None => g.rest == inner[n..] && (|g.prefix| >= need || n == |inner|)
               case Some(message) =>
                 n < |inner| && inner[n] == Fault(message) && g.rest == inner[n + 1..] && |g.prefix| < need
  {
    n := GatherFrom(inner, [], need);
    assert forall m :: 0 <= m <= n ==> [] + Payload(inner[..m]) == Payload(inner[..m]);
  }

  lemma {:induction false} GatherFrom(inner: seq<Item>, buffer: Bytes, need: nat) returns (n: nat)
    ensures n <= |inner| && forall i :: 0 <= i < n ==> inner[i].Chunk?
    ensures forall m :: 0 <= m < n ==> |buffer + Payload(inner[..m])| < need
    ensures var g := Gather(inner, buffer, need);
            && g.prefix == buffer + Payload(inner[..n])
            && match g.fault
               case None => g.rest == inner[n..] && (|g.prefix| >= need || n == |inner|)
               case Some(message) =>
                 n < |inner| && inner[n] == Fault(message) && g.rest == inner[n + 1..] && |g.prefix| < need
    decreases |inner|
  {
    n := 0;
    NoPayload(buffer);
    if |buffer| < need && inner != [] && inner[0].Chunk? {
      var chunk := inner[0].bytes;
      var k := GatherFrom(inner[1..], buffer + chunk, need);
      n := k + 1;
      forall m | 0 < m <= n
        ensures buffer + Payload(inner[..m]) == buffer + chunk + Payload(inner[1..][..m - 1])
      {
        assert inner[..m][1..] == inner[1..][..m - 1];
        assert buffer + (chunk + Payload(inner[1..][..m - 1])) == buffer + chunk + Payload(inner[1..][..m - 1]);
      }
    }
  }

  lemma NoPayload(buffer: Bytes)
    ensures Payload([]) == [] && buffer + Payload([]) == buffer
  {
  }

  /** An upstream error is the last thing it yields. */
  ghost predicate TerminalErrors(items: seq<Item>) {
    forall i :: 0 <= i < |items| && items[i].Fault? ==> i == |items| - 1
  }

  lemma {:induction false} RelayKeepsData(items: seq<Item>)
    ensures DataOf(RelayAll(items)) == Payload(items)
  {
    if items != [] {
      RelayKeepsData(items[1..]);
    }
  }

  /** Gathering takes whole chunks until there is enough, and loses no byte: it stops with at
      least `need` bytes, at the end of the stream, or at an error. */
  lemma {:induction false} GatherSplits(inner: seq<Item>, buffer: Bytes, need: nat)
    requires TerminalErrors(inner)
    ensures var g := Gather(inner, buffer, need);
            && buffer + Payload(inner) == g.prefix + Payload(g.rest)
            && (g.fault.None? ==> |g.prefix| >= need || g.rest == [])
            && (g.fault.Some? ==> g.rest == [] && |g.prefix| < need)
            && TerminalErrors(g.rest)
    decreases |inner|
  {
    if |buffer| < need && inner != [] {
      if inner[0].Chunk? {
        assert TerminalErrors(inner[1..]) by {
          assert forall i :: 0 <= i < |inner| - 1 ==> inner[1..][i] == inner[i + 1];
        }
        GatherSplits(inner[1..], buffer + inner[0].bytes, need);
        assert buffer + (inner[0].bytes + Payload(inner[1..])) == (buffer + inner[0].bytes) + Payload(inner[1..]);
      } else {
        assert inner[1..] == [];
      }
    }
  }

  /** The guarantee of the guarded stream, for every chunking of an upstream whose errors are
      terminal. Either nothing but one error comes out, when the upstream fails or inspection
      refuses before the prefix is complete; or the output is the inspected prefix followed by
      all remaining bytes unchanged. The report is filled exactly in the second case. */
  lemma GuardedStreamGuarantee(guard: Option<Guard>, prefixLen: nat, inner: seq<Item>)
    requires TerminalErrors(inner)
    ensures var need := AtLeastOne(prefixLen);
            var g := Gather(inner, [], need);
            var (outs, report) := Drain(guard, need, StreamState(inner, Gathering, None));
            var inspected := InspectBuffered(guard, g.prefix);
            && Payload(inner) == g.prefix + Payload(g.rest)
            && (g.fault.None? ==> |g.prefix| >= need || g.rest == [])
            && (if g.fault.Some? then outs == [Err(Upstream(g.fault.value))] && report == None
                else if inspected.Err? then outs == [Err(inspected.error)] && report == None
                else && outs[0] == Ok(inspected.value.0)
                     && DataOf(outs) == inspected.value.0 + Payload(g.rest)
                     && report == Some(inspected.value.1))
  {
    var need := AtLeastOne(prefixLen);
    var g := Gather(inner, [], need);
    GatherSplits(inner, [], need);
    assert [] + Payload(inner) == Payload(inner);
    DrainedOutput(guard, need, inner);
    RelayKeepsData(g.rest);
  }

  /** Without a guard, or with one that allows the prefix, the data passes unchanged; only when the
      upstream fails while the prefix is gathered, nothing passes. */
  lemma AllowedStreamIsIdentity(guard: Option<Guard>, prefixLen: nat, inner: seq<Item>)
    requires TerminalErrors(inner)
    requires guard.None? || guard.value(Gather(inner, [], AtLeastOne(prefixLen)).prefix) == Allow
    ensures var need := AtLeastOne(prefixLen);
            DataOf(Drain(guard, need, StreamState(inner, Gathering, None)).0)
            == if Gather(inner, [], need).fault.Some? then [] else Payload(inner)
  {
    GuardedStreamGuarantee(guard, prefixLen, inner);
    var outs := Drain(guard, AtLeastOne(prefixLen), StreamState(inner, Gathering, None)).0;
    if Gather(inner, [], AtLeastOne(prefixLen)).fault.Some? {
      assert outs[1..] == [];
    }
  }

  predicate HasData(outs: seq<Out>) { exists i :: 0 <= i < |outs| && outs[i].Ok? }

  predicate HasChunk(items: seq<Item>) { exists i :: 0 <= i < |items| && items[i].Chunk? }

  lemma {:induction false} RelayHasData(items: seq<Item>)
    ensures |RelayAll(items)| == |items|
    ensures forall i :: 0 <= i < |items| ==>
              RelayAll(items)[i] == match items[i]
                                    case Chunk(bytes) => Ok(bytes)
                                    case Fault(message) => Err(Upstream(message))
  {
    if items != [] {
      RelayHasData(items[1..]);
    }
  }

  /** Why errors must be terminal: after an error during gathering, data comes out uninspected
      exactly when the upstream yields another chunk after it. */
  lemma UninspectedExactlyAfterResumedError(guard: Option<Guard>, need: nat, inner: seq<Item>)
    requires Gather(inner, [], need).fault.Some?
    ensures var (outs, report) := Drain(guard, need, StreamState(inner, Gathering, None));
            && (HasData(outs) <==> HasChunk(Gather(inner, [], need).rest))
            && report == None
  {
    var rest := Gather(inner, [], need).rest;
    DrainedOutput(guard, need, inner);
    RelayHasData(rest);
    var outs := Drain(guard, need, StreamState(inner, Gathering, None)).0;
    if HasChunk(rest) {
      var i :| 0 <= i < |rest| && rest[i].Chunk?;
      assert outs[i + 1] == Relay(rest[i]);
    }
    if HasData(outs) {
      var i :| 0 <= i < |outs| && outs[i].Ok?;
      assert outs[i] == Relay(rest[i - 1]);
    }
  }

  // ---------------------------------------------------------------- the audit wrapper

  datatype Decision = Allowed | RedactedDecision | Refused

  /** What the response handler does, in order. */
  datatype Action = Audit(decision: Decision) | Yield(out: Out)

  function ResponseDecision(base: Decision, inspection: Inspection): Decision {
    match inspection
    case Clean => base
    case RedactedItems(_) => RedactedDecision
  }

  function ReportOrClean(report: Option<Inspection>): Inspection {
    if report.Some? then report.value else Clean
  }

  /** The audit entry an item triggers, if none was written yet. */
  function Trigger(base: Decision, report: Option<Inspection>, out: Out): seq<Action> {
    match out
    case Ok(_) => [Audit(ResponseDecision(base, ReportOrClean(report)))]
    case Err(Denied(_)) => [Audit(Refused)]
    case Err(GuardFailed) => [Audit(Refused)]
    case Err(Upstream(_)) => []
  }

  function Trace(base: Decision, report: Option<Inspection>, outs: seq<Out>, recorded: bool): seq<Action> {
    if outs == [] then (if recorded then [] else [Audit(base)])
    else
      var now := if recorded then [] else Trigger(base, report, outs[0]);
      now + [Yield(outs[0])] + Trace(base, report, outs[1..], recorded || now != [])
  }

  /** The actions of the first item, then those of the others. */
  lemma TraceUnfolds(base: Decision, report: Option<Inspection>, outs: seq<Out>, i: nat, recorded: bool)
    requires i < |outs|
    ensures var now := if recorded then [] else Trigger(base, report, outs[i]);
            Trace(base, report, outs[i..], recorded)
            == now + [Yield(outs[i])] + Trace(base, report, outs[i + 1..], recorded || now != [])
  {
    assert outs[i..][1..] == outs[i + 1..];
  }

  lemma AppendActions(trace: seq<Action>, now: seq<Action>, rest: seq<Action>)
    ensures trace + (now + rest) == trace + now + rest
  {
  }

  /** The event-stream response, polled to its end. */
  method RelayEvents(base: Decision, report: Option<Inspection>, outs: seq<Out>) returns (trace: seq<Action>)
    ensures trace == Trace(base, report, outs, false)
  {
    trace := [];
    var recorded := false;
    assert outs[0..] == outs;
    for i := 0 to |outs|
      invariant Trace(base, report, outs, false) == trace + Trace(base, report, outs[i..], recorded)
    {
      hide Trace;
      var now: seq<Action> := [];
      if !recorded {
        match outs[i] {
          case Err(Denied(_)) =>
            now := [Audit(Refused)];
          case Err(GuardFailed) =>
            now := [Audit(Refused)];
          case Ok(_) =>
            now := [Audit(ResponseDecision(base, ReportOrClean(report)))];
          case Err(Upstream(_)) =>
        }
      }
      TraceUnfolds(base, report, outs, i, recorded);
      AppendActions(trace, now + [Yield(outs[i])],
                    Trace(base, report, outs[i + 1..], recorded || now != []));
      trace := trace + (now + [Yield(outs[i])]);
      recorded := recorded || now != [];
    }
    if !recorded {
      trace := trace + [Audit(base)];
    }
  }

  function AuditOf(action: Action): seq<Decision> {
    if action.Audit? then [action.decision] else []
  }

  function Audits(trace: seq<Action>): seq<Decision> {
    if trace == [] then [] else AuditOf(trace[0]) + Audits(trace[1..])
  }

  lemma AuditsUnfold(action: Action, rest: seq<Action>)
    ensures Audits([action] + rest) == AuditOf(action) + Audits(rest)
  {
    assert ([action] + rest)[1..] == rest;
  }

  lemma {:induction false} AuditsConcat(a: seq<Action>, b: seq<Action>)
    ensures Audits(a + b) == Audits(a) + Audits(b)
    decreases |a|
  {
    if a == [] {
      assert a + b == b;
    } else {
      hide Audits, AuditOf;
      AuditsConcat(a[1..], b);
      AuditsUnfold(a[0], a[1..]);
      AuditsUnfold(a[0], a[1..] + b);
      assert a == [a[0]] + a[1..];
      assert a + b == [a[0]] + (a[1..] + b);
      assert AuditOf(a[0]) + (Audits(a[1..]) + Audits(b)) == (AuditOf(a[0]) + Audits(a[1..])) + Audits(b);
    }
  }

  lemma {:induction false} TraceAudits(base: Decision, report: Option<Inspection>, outs: seq<Out>, recorded: bool)
    ensures |Audits(Trace(base, report, outs, recorded))| == if recorded then 0 else 1
    decreases |outs|
  {
    if outs != [] {
      var now := if recorded then [] else Trigger(base, report, outs[0]);
      var rest := Trace(base, report, outs[1..], recorded || now != []);
      TraceAudits(base, report, outs[1..], recorded || now != []);
      AuditsOfNow(now, outs[0]);
      hide Audits;
      AuditsConcat(now + [Yield(outs[0])], rest);
    } else {
      assert [Audit(base)][1..] == [];
    }
  }

  lemma AuditsOfNow(now: seq<Action>, out: Out)
    requires |now| <= 1 && forall i :: 0 <= i < |now| ==> now[i].Audit?
    ensures |Audits(now + [Yield(out)])| == |now|
  {
    hide AuditOf;
    assert [Yield(out)][1..] == [];
    assert |Audits([Yield(out)])| == 0 by { YieldIsNoAudit(out); }
    if now == [] {
      assert now + [Yield(out)] == [Yield(out)];
    } else {
      assert now == [now[0]];
      AuditsUnfold(now[0], [Yield(out)]);
      AuditIsOne(now[0]);
    }
  }

  lemma YieldIsNoAudit(out: Out)
    ensures Audits([Yield(out)]) == []
  {
    assert [Yield(out)][1..] == [];
  }

  lemma AuditIsOne(action: Action)
    requires action.Audit?
    ensures |AuditOf(action)| == 1
  {
  }

  lemma {:induction false} AuditComesFirst(base: Decision, report: Option<Inspection>, outs: seq<Out>, k: nat)
    requires var trace := Trace(base, report, outs, false);
             k < |trace| && trace[k].Yield? && trace[k].out.Ok?
    ensures exists j :: 0 <= j < k && Trace(base, report, outs, false)[j].Audit?
    decreases |outs|
  {
    var trace := Trace(base, report, outs, false);
    var now := Trigger(base, report, outs[0]);
    if now != [] {
      assert trace[0] == now[0];
    } else {
      var rest := Trace(base, report, outs[1..], false);
      assert trace == [Yield(outs[0])] + rest;
      AuditComesFirst(base, report, outs[1..], k - 1);
      var j :| 0 <= j < k - 1 && rest[j].Audit?;
      assert trace[j + 1].Audit?;
    }
  }

  /** Every fully polled event stream writes exactly one response audit entry, and writes it
      before its first data chunk. */
  lemma OneAuditBeforeData(base: Decision, report: Option<Inspection>, outs: seq<Out>)
    ensures var trace := Trace(base, report, outs, false);
            && |Audits(trace)| == 1
            && forall k :: 0 <= k < |trace| && trace[k].Yield? && trace[k].out.Ok? ==>
                 exists j :: 0 <= j < k && trace[j].Audit?
  {
    TraceAudits(base, report, outs, false);
    forall k | 0 <= k < |Trace(base, report, outs, false)|
               && Trace(base, report, outs, false)[k].Yield? && Trace(base, report, outs, false)[k].out.Ok?
      ensures exists j :: 0 <= j < k && Trace(base, report, outs, false)[j].Audit?
    {
      AuditComesFirst(base, report, outs, k);
    }
  }

  /** Around the guarded stream that one entry says what the guard did: refused exactly when
      inspection failed, redacted when the prefix was redacted, and otherwise the decision of
      the request. */
  lemma AuditMatchesGuard(guard: Option<Guard>, prefixLen: nat, inner: seq<Item>, base: Decision)
    requires TerminalErrors(inner)
    ensures var need := AtLeastOne(prefixLen);
            var g := Gather(inner, [], need);
            var (outs, report) := Drain(guard, need, StreamState(inner, Gathering, None));
            var inspected := InspectBuffered(guard, g.prefix);
            Audits(Trace(base, report, outs, false))
            == [if g.fault.Some? then base
                else if inspected.Err? then Refused
                else ResponseDecision(base, inspected.value.1)]
  {
    var need := AtLeastOne(prefixLen);
    var (outs, report) := Drain(guard, need, StreamState(inner, Gathering, None));
    GuardedStreamGuarantee(guard, prefixLen, inner);
    TraceAudits(base, report, outs, false);
    var trace := Trace(base, report, outs, false);
    if outs[0].Ok? || !outs[0].error.Upstream? {
      assert trace[0].Audit?;
    } else {
      assert outs[1..] == [];
      assert trace == [Yield(outs[0])] + [Audit(base)];
      assert trace[1..] == [Audit(base)] && [Audit(base)][1..] == [];
    }
  }

  // ---------------------------------------------------------------- what the guard decides

  lemma FirstDataIsAudited(base: Decision, report: Option<Inspection>, first: Bytes, rest: seq<Out>)
    ensures Audits(Trace(base, report, [Ok(first)] + rest, false)) == [ResponseDecision(base, ReportOrClean(report))]
  {
    var outs: seq<Out> := [Ok(first)] + rest;
    TraceAudits(base, report, outs, false);
    assert Trace(base, report, outs, false)[0] == Audit(ResponseDecision(base, ReportOrClean(report)));
  }

  lemma RefusalIsAudited(base: Decision, error: GatewayError)
    requires !error.Upstream?
    ensures Audits(Trace(base, None, [Err(error)], false)) == [Refused]
    ensures DataOf([Err(error)]) == []
  {
    TraceAudits(base, None, [Err(error)], false);
    assert Trace(base, None, [Err(error)], false)[0] == Audit(Refused);
  }

  lemma DataIsSplit(first: Bytes, rest: seq<Out>)
    ensures DataOf([Ok(first)] + rest) == first + DataOf(rest)
  {
    var outs: seq<Out> := [Ok(first)] + rest;
    assert outs[1..] == rest;
  }

  /** What the guard's answer on the gathered prefix does to the whole response, whether upstream
      errors are final or not. Refused or undecided: one error, no byte, no report, and the audit
      says refused. Redacted: its text in place of the prefix, then everything that follows. */
  lemma GuardDecides(guard: Guard, need: nat, inner: seq<Item>, base: Decision)
    requires Gather(inner, [], need).fault.None?
    ensures var g := Gather(inner, [], need);
            var (outs, report) := Drain(Some(guard), need, StreamState(inner, Gathering, None));
            var audits := Audits(Trace(base, report, outs, false));
            match guard(g.prefix)
            case Allow =>
              && outs == [Ok(g.prefix)] + RelayAll(g.rest) && DataOf(outs) == g.prefix + Payload(g.rest)
              && report == Some(Clean) && audits == [base]
            case Redacted(text, findings) =>
              && outs == [Ok(text)] + RelayAll(g.rest) && DataOf(outs) == text + Payload(g.rest)
              && report == Some(RedactedItems(findings)) && audits == [RedactedDecision]
            case Deny(rules) =>
              outs == [Err(Denied(rules))] && DataOf(outs) == [] && report == None && audits == [Refused]
            case Undecided =>
              outs == [Err(GuardFailed)] && DataOf(outs) == [] && report == None && audits == [Refused]
  {
    hide Drain, Trace, Audits, RelayAll, DataOf, Gather;
    var g := Gather(inner, [], need);
    DrainedOutput(Some(guard), need, inner);
    RelayKeepsData(g.rest);
    match guard(g.prefix) {
      case Allow =>
        FirstDataIsAudited(base, Some(Clean), g.prefix, RelayAll(g.rest));
        DataIsSplit(g.prefix, RelayAll(g.rest));
      case Redacted(text, findings) =>
        FirstDataIsAudited(base, Some(RedactedItems(findings)), text, RelayAll(g.rest));
        DataIsSplit(text, RelayAll(g.rest));
      case Deny(rules) =>
        RefusalIsAudited(base, Denied(rules));
      case Undecided =>
        RefusalIsAudited(base, GuardFailed);
    }
  }

  /** Without a guard the prefix goes on as it was gathered, and so does the rest. */
  lemma UnguardedPasses(need: nat, inner: seq<Item>, base: Decision)
    requires Gather(inner, [], need).fault.None?
    ensures var g := Gather(inner, [], need);
            var (outs, report) := Drain(None, need, StreamState(inner, Gathering, None));
            && outs == [Ok(g.prefix)] + RelayAll(g.rest) && report == Some(Clean)
            && Audits(Trace(base, report, outs, false)) == [base]
  {
    hide Drain, Trace, Audits, RelayAll, DataOf, Gather;
    var g := Gather(inner, [], need);
    DrainedOutput(None, need, inner);
    FirstDataIsAudited(base, Some(Clean), g.prefix, RelayAll(g.rest));
  }
}
