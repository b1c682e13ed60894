/** The sliding-window limiter on token issuance, one queue of attempt times per scope.

    Times are nanoseconds of a monotonic clock; an attempt counts for one second, the boundary
    included. Rejected attempts count as well. An attempt reads the clock before it takes the
    lock, so lock sections may see times that go back; the collector reads it under the lock. */
module RateLimiter {
  const SECOND: nat := 1_000_000_000

  datatype Scope = ProcessScope(pid: nat) | ThreadScope(tid: nat) | GlobalScope

  /** A lock section: an attempt that sampled `time` and got the lock at `locked`, or a
      collection. */
  datatype Section =
    | Try(scope: Scope, time: nat, locked: nat, passed: bool)
    | Collection(time: nat)

  function LockedAt(s: Section): nat { if s.Try? then s.locked else s.time }

  predicate Concerns(s: Section, scope: Scope) { s.Try? ==> s.scope == scope }

  // ---------------------------------------------------------------- queues

  predicate Stale(time: nat, now: nat) { now > time + SECOND }

  /** Drop stale times from the front, as far as they go. */
  function Prune(queue: seq<nat>, now: nat): seq<nat> {
    if queue != [] && Stale(queue[0], now) then Prune(queue[1..], now) else queue
  }

  /** The queue of a scope after the lock sections so far, in the order of the lock. */
  function QueueAfter(history: seq<Section>, scope: Scope): seq<nat>
    decreases |history|
  {
    if history == [] then []
    else
      var n := |history| - 1;
      var before, last := QueueAfter(history[..n], scope), history[n];
      if !Concerns(last, scope) then before
      else if last.Try? then Prune(before + [last.time], last.time)
      else Prune(before, last.time)
  }

  /** Lock sections follow each other, and no sample is taken after the lock. */
  ghost predicate Schedule(history: seq<Section>) {
    && (forall i :: 0 <= i < |history| ==> history[i].time <= LockedAt(history[i]))
    && (forall i, j :: 0 <= i < j < |history| ==> LockedAt(history[i]) <= LockedAt(history[j]))
  }

  /** Each attempt passed exactly when its scope's queue, itself included, did not exceed the
      maximum; a maximum of 0 lets everything pass. */
  ghost predicate Judged(history: seq<Section>, max: nat)
    decreases |history|
  {
    history == [] ||
    (var n := |history| - 1;
     && Judged(history[..n], max)
     && (history[n].Try? ==>
           (history[n].passed <==> max == 0 || |QueueAfter(history, history[n].scope)| <= max)))
  }

  /** No attempt waited longer than `wait` for the lock after it had sampled the clock. */
  ghost predicate WaitsAtMost(history: seq<Section>, wait: nat) {
    forall i :: 0 <= i < |history| ==> LockedAt(history[i]) <= history[i].time + wait
  }

  predicate CountsWithin(s: Section, scope: Scope, low: nat, length: nat) {
    s.Try? && s.passed && s.scope == scope && low <= s.time <= low + length
  }

  /** How many attempts of a scope passed with times from `low` to `low + length`. */
  function PassedWithin(history: seq<Section>, scope: Scope, low: nat, length: nat): nat
    decreases |history|
  {
    if history == [] then 0
    else
      var n := |history| - 1;
      PassedWithin(history[..n], scope, low, length)
      + (if CountsWithin(history[n], scope, low, length) then 1 else 0)
  }

  // ---------------------------------------------------------------- the bound

  function From(queue: seq<nat>, low: nat): nat {
    if queue == [] then 0 else (if queue[0] >= low then 1 else 0) + From(queue[1..], low)
  }

  lemma {:induction false} FromAppend(queue: seq<nat>, time: nat, low: nat)
    ensures From(queue + [time], low) == From(queue, low) + (if time >= low then 1 else 0)
    ensures From(queue, low) <= |queue|
  {
    if queue == [] {
      assert [time][1..] == [];
    } else {
      assert (queue + [time])[1..] == queue[1..] + [time];
      FromAppend(queue[1..], time, low);
    }
  }

  lemma {:induction false} PruneKeepsFrom(queue: seq<nat>, now: nat, low: nat)
    requires now <= low + SECOND
    ensures From(Prune(queue, now), low) == From(queue, low)
  {
    if queue != [] && Stale(queue[0], now) {
      PruneKeepsFrom(queue[1..], now, low);
    }
  }

  /** While no section has seen a time more than a second past `low`, everything from `low` on
      is still in the queue. */
  lemma {:induction false} PassedAreQueued(history: seq<Section>, scope: Scope, low: nat, length: nat)
    requires forall i :: 0 <= i < |history| ==> history[i].time <= low + SECOND
    ensures PassedWithin(history, scope, low, length) <= From(QueueAfter(history, scope), low)
    decreases |history|
  {
    if history != [] {
      var n := |history| - 1;
      var before, last := history[..n], history[n];
      PassedAreQueued(before, scope, low, length);
      FromAppend(QueueAfter(before, scope), last.time, low);
      PruneKeepsFrom(QueueAfter(before, scope) + [last.time], last.time, low);
      PruneKeepsFrom(QueueAfter(before, scope), last.time, low);
    }
  }

  lemma {:induction false} AcceptedBounded(history: seq<Section>, max: nat, scope: Scope, low: nat,
                                           length: nat, wait: nat)
    requires max > 0 && Schedule(history) && Judged(history, max) && WaitsAtMost(history, wait)
    requires length + wait <= SECOND
    ensures PassedWithin(history, scope, low, length) <= max
    decreases |history|
  {
    if history != [] {
      var n := |history| - 1;
      if CountsWithin(history[n], scope, low, length) {
        forall i | 0 <= i < |history|
          ensures history[i].time <= low + SECOND
        {
          assert LockedAt(history[i]) <= LockedAt(history[n]) <= history[n].time + wait;
        }
        PassedAreQueued(history, scope, low, length);
        FromAppend(QueueAfter(history, scope), 0, low);
      } else {
        assert Schedule(history[..n]) && WaitsAtMost(history[..n], wait);
        AcceptedBounded(history[..n], max, scope, low, length, wait);
      }
    }
  }

  /** `max` attempts at time 0. */
  function Burst(scope: Scope, max: nat): seq<Section> { seq(max, _ => Try(scope, 0, 0, true)) }

  lemma {:induction false} BurstPasses(scope: Scope, k: nat, max: nat, length: nat)
    requires k <= max
    ensures var burst := Burst(scope, k);
            && QueueAfter(burst, scope) == seq(k, _ => 0)
            && Judged(burst, max)
            && PassedWithin(burst, scope, 0, length) == k
    decreases k
  {
    if k > 0 {
      BurstPasses(scope, k - 1, max, length);
      var burst := Burst(scope, k);
      assert burst[..k - 1] == Burst(scope, k - 1);
      assert seq(k - 1, _ => 0) + [0] == seq(k, _ => 0);
    }
  }

  lemma {:induction false} AllStale(k: nat, now: nat)
    requires now > SECOND
    ensures Prune(seq(k, _ => 0), now) == []
    decreases k
  {
    if k > 0 {
      AllStale(k - 1, now);
      assert seq(k, _ => 0)[1..] == seq(k - 1, _ => 0);
    }
  }

  /** A burst, a collection that forgets it, and an attempt that sampled the clock `wait` before
      it got the lock behind the collection. */
  function LateComer(scope: Scope, max: nat, wait: nat): seq<Section> {
    var now := SECOND + 1;
    Burst(scope, max) + [Collection(now)]
    + [Try(scope, if wait > now then 0 else now - wait, now, true)]
  }

  lemma LateComerIsASchedule(scope: Scope, max: nat, wait: nat)
    ensures Schedule(LateComer(scope, max, wait)) && WaitsAtMost(LateComer(scope, max, wait), wait)
  {
    var history := LateComer(scope, max, wait);
    assert forall i :: 0 <= i < max ==> history[i] == Try(scope, 0, 0, true);
  }

  lemma LateComerPasses(scope: Scope, max: nat, length: nat, wait: nat)
    requires max > 0 && length + wait > SECOND
    ensures var history := LateComer(scope, max, wait);
            Judged(history, max) && PassedWithin(history, scope, 0, length) == max + 1
  {
    hide Burst, QueueAfter, Judged, PassedWithin, Prune;
    var now := SECOND + 1;
    var burst := Burst(scope, max);
    var last := Try(scope, if wait > now then 0 else now - wait, now, true);
    BurstPasses(scope, max, max, length);
    AllStale(max, now);
    OneMore(burst, Collection(now), scope, max, length);
    OneMore(burst + [Collection(now)], last, scope, max, length);
    OwnTimeIsFresh(last.time);
  }

  lemma OwnTimeIsFresh(time: nat)
    ensures Prune([] + [time], time) == [time]
  {
    assert [] + [time] == [time];
  }

  /** What one more lock section does. */
  lemma OneMore(history: seq<Section>, last: Section, scope: Scope, max: nat, length: nat)
    ensures QueueAfter(history + [last], scope)
         == if !Concerns(last, scope) then QueueAfter(history, scope)
            else if last.Try? then Prune(QueueAfter(history, scope) + [last.time], last.time)
            else Prune(QueueAfter(history, scope), last.time)
    ensures PassedWithin(history + [last], scope, 0, length)
         == PassedWithin(history, scope, 0, length) + (if CountsWithin(last, scope, 0, length) then 1 else 0)
    ensures Judged(history + [last], max)
       <==> && Judged(history, max)
            && (last.Try? ==>
                  (last.passed <==> max == 0 || |QueueAfter(history + [last], last.scope)| <= max))
  {
    hide Prune, Concerns, CountsWithin;
    assert (history + [last])[..|history|] == history;
  }

  /** The bound the limiter keeps, exactly. Every window of a given length contains at most `max`
      accepted attempts of a scope, in every schedule whose attempts wait at most `wait` for the
      lock, if and only if length and wait together do not exceed a second. So the full second
      is bounded exactly when no attempt waits between its sample and its lock section. */
  lemma AcceptedBoundedExactly(max: nat, scope: Scope, length: nat, wait: nat)
    requires max > 0
    ensures (forall history, low :: Schedule(history) && Judged(history, max) && WaitsAtMost(history, wait) ==>
               PassedWithin(history, scope, low, length) <= max)
       <==> length + wait <= SECOND
  {
    if length + wait <= SECOND {
      forall history, low | Schedule(history) && Judged(history, max) && WaitsAtMost(history, wait)
        ensures PassedWithin(history, scope, low, length) <= max
      {
        AcceptedBounded(history, max, scope, low, length, wait);
      }
    } else {
      LateComerIsASchedule(scope, max, wait);
      LateComerPasses(scope, max, length, wait);
      assert PassedWithin(LateComer(scope, max, wait), scope, 0, length) > max;
    }
  }

  /** Two attempts are enough to race: one that sampled later and locked first prunes the window
      of the other. With a maximum of 2, three attempts pass within one second. */
  lemma RacingSamplesExceedTheRate(scope: Scope)
    ensures var history := [Try(scope, 0, 0, true), Try(scope, 0, 0, true),
                            Try(scope, 1_000_000_001, 1_000_000_001, true),
                            Try(scope, 900_000_000, 1_000_000_001, true)];
            Schedule(history) && Judged(history, 2) && PassedWithin(history, scope, 0, SECOND) == 3
  {
    var first := Try(scope, 0, 0, true);
    var third, fourth := Try(scope, 1_000_000_001, 1_000_000_001, true), Try(scope, 900_000_000, 1_000_000_001, true);
    BurstPasses(scope, 2, 2, SECOND);
    assert Burst(scope, 2) == [first, first];
    assert seq(2, _ => 0) == [0, 0];
    hide QueueAfter, Judged, PassedWithin, Burst;
    PruneRace();
    OneMore([first, first], third, scope, 2, SECOND);
    OneMore([first, first] + [third], fourth, scope, 2, SECOND);
    assert [first, first] + [third] + [fourth] == [first, first, third, fourth];
  }

  lemma PruneRace()
    ensures Prune([0, 0] + [1_000_000_001], 1_000_000_001) == [1_000_000_001]
    ensures |Prune([1_000_000_001] + [900_000_000], 900_000_000)| == 2
  {
    assert ([0, 0] + [1_000_000_001])[1..] == [0, 1_000_000_001];
    assert [0, 1_000_000_001][1..] == [1_000_000_001];
  }

  // ---------------------------------------------------------------- samples in order

  /** The times of a scope's attempts in the last second, oldest first. */
  function Window(history: seq<Section>, scope: Scope, now: nat): seq<nat> {
    if history == [] then []
    else
      var first := history[0];
      (if first.Try? && first.scope == scope && !Stale(first.time, now) then [first.time] else [])
      + Window(history[1..], scope, now)
  }

  ghost predicate InOrder(history: seq<Section>) {
    forall i, j :: 0 <= i < j < |history| ==> history[i].time <= history[j].time
  }

  lemma {:induction false} FreshWindow(history: seq<Section>, scope: Scope, since: nat, now: nat)
    requires since <= now && forall i :: 0 <= i < |history| ==> !Stale(history[i].time, now)
    ensures Window(history, scope, since) == Window(history, scope, now)
  {
    if history != [] {
      FreshWindow(history[1..], scope, since, now);
    }
  }

  lemma {:induction false} WindowIsFresh(history: seq<Section>, scope: Scope, now: nat)
    ensures Window(history, scope, now) != [] ==> !Stale(Window(history, scope, now)[0], now)
  {
    if history != [] {
      WindowIsFresh(history[1..], scope, now);
    }
  }

  /** Pruning an old window gives the current one. */
  lemma {:induction false} PruneAdvancesWindow(history: seq<Section>, scope: Scope, since: nat, now: nat)
    requires since <= now && InOrder(history)
    ensures Prune(Window(history, scope, since), now) == Window(history, scope, now)
    decreases |history|
  {
    if history != [] {
      var first, rest := history[0], history[1..];
      if Stale(first.time, now) || !first.Try? || first.scope != scope {
        PruneAdvancesWindow(rest, scope, since, now);
        assert [] + Window(rest, scope, since) == Window(rest, scope, since);
        assert [] + Window(rest, scope, now) == Window(rest, scope, now);
        assert ([first.time] + Window(rest, scope, since))[1..] == Window(rest, scope, since);
      } else {
        FreshWindow(history, scope, since, now);
        WindowIsFresh(history, scope, now);
      }
    }
  }

  lemma {:induction false} WindowAppend(history: seq<Section>, s: Section, scope: Scope, now: nat)
    ensures Window(history + [s], scope, now)
         == Window(history, scope, now)
            + (if s.Try? && s.scope == scope && !Stale(s.time, now) then [s.time] else [])
  {
    if history == [] {
      assert [s][1..] == [];
    } else {
      assert (history + [s])[1..] == history[1..] + [s];
      WindowAppend(history[1..], s, scope, now);
    }
  }

  /** When the queue of a scope was last pruned. */
  function LastPruned(history: seq<Section>, scope: Scope): nat
    decreases |history|
  {
    if history == [] then 0
    else
      var n := |history| - 1;
      if Concerns(history[n], scope) then history[n].time else LastPruned(history[..n], scope)
  }

  lemma {:induction false} LastPrunedBound(history: seq<Section>, scope: Scope, now: nat)
    requires forall i :: 0 <= i < |history| ==> history[i].time <= now
    ensures LastPruned(history, scope) <= now
    decreases |history|
  {
    if history != [] {
      LastPrunedBound(history[..|history| - 1], scope, now);
    }
  }

  /** When samples reach the lock in order, each queue is the window of its scope as of its last
      pruning: right after an attempt of the scope, or any collection, exactly the attempts of
      the last second. */
  lemma {:induction false} QueueIsWindow(history: seq<Section>, scope: Scope)
    requires InOrder(history)
    ensures QueueAfter(history, scope) == Window(history, scope, LastPruned(history, scope))
    decreases |history|
  {
    if history != [] {
      var n := |history| - 1;
      var before, last := history[..n], history[n];
      assert history == before + [last];
      QueueIsWindow(before, scope);
      var since := LastPruned(before, scope);
      LastPrunedBound(before, scope, last.time);
      WindowAppend(before, last, scope, since);
      assert Window(before, scope, since) + [] == Window(before, scope, since);
      if Concerns(last, scope) {
        PruneAdvancesWindow(history, scope, since, last.time);
      }
    }
  }

  /** The attempts of a scope in the last second, the boundary included. */
  ghost function Recent(history: seq<Section>, scope: Scope, now: nat): set<nat> {
    set j: nat | j < |history| && IsRecent(history[j], scope, now)
  }

  predicate IsRecent(s: Section, scope: Scope, now: nat) {
    s.Try? && s.scope == scope && s.time + SECOND >= now
  }

  lemma {:induction false} WindowCounts(history: seq<Section>, scope: Scope, now: nat)
    ensures |Window(history, scope, now)| == |Recent(history, scope, now)|
    decreases |history|
  {
    hide Window, Recent;
    if history != [] {
      var n := |history| - 1;
      var before, last := history[..n], history[n];
      assert history == before + [last];
      WindowCounts(before, scope, now);
      WindowAppend(before, last, scope, now);
      RecentAppended(before, last, scope, now);
    } else {
      NothingRecent(scope, now);
    }
  }

  lemma NothingRecent(scope: Scope, now: nat)
    ensures Recent([], scope, now) == {} && Window([], scope, now) == []
  {
  }

  lemma RecentAt(history: seq<Section>, scope: Scope, now: nat, j: nat)
    ensures j in Recent(history, scope, now) <==> j < |history| && IsRecent(history[j], scope, now)
  {
    hide IsRecent;
  }

  lemma OneMoreMember(whole: set<nat>, rest: set<nat>, n: nat, present: bool)
    requires n !in rest
    requires forall j :: j in whole <==> j in rest || (present && j == n)
    ensures |whole| == |rest| + (if present then 1 else 0)
  {
    assert whole == if present then rest + {n} else rest;
  }

  lemma RecentAppended(before: seq<Section>, last: Section, scope: Scope, now: nat)
    ensures |Recent(before + [last], scope, now)|
         == |Recent(before, scope, now)|
            + (if last.Try? && last.scope == scope && !Stale(last.time, now) then 1 else 0)
  {
    assert IsRecent(last, scope, now) <==> last.Try? && last.scope == scope && !Stale(last.time, now);
    hide *;
    var all := before + [last];
    forall j: nat
      ensures j in Recent(all, scope, now)
         <==> j in Recent(before, scope, now) || (IsRecent(last, scope, now) && j == |before|)
    {
      RecentAt(all, scope, now, j);
      RecentAt(before, scope, now, j);
    }
    RecentAt(before, scope, now, |before|);
    OneMoreMember(Recent(all, scope, now), Recent(before, scope, now), |before|, IsRecent(last, scope, now));
  }

  lemma {:induction false} JudgedAt(history: seq<Section>, max: nat, i: nat)
    requires Judged(history, max) && i < |history|
    ensures history[i].Try? ==>
              (history[i].passed <==> max == 0 || |QueueAfter(history[..i + 1], history[i].scope)| <= max)
    decreases |history|
  {
    var n := |history| - 1;
    if i < n {
      JudgedAt(history[..n], max, i);
      assert history[..n][..i + 1] == history[..i + 1];
    } else {
      assert history[..i + 1] == history;
    }
  }

  /** When samples reach the lock in order, an attempt passes exactly when its scope had, itself
      included, at most the maximum of attempts in the last second: neither fewer nor more are let
      in. A maximum of 0 lets everything in. */
  lemma AdmittedInOrderExactly(history: seq<Section>, max: nat, i: nat)
    requires Judged(history, max) && InOrder(history) && i < |history| && history[i].Try?
    ensures history[i].passed
       <==> max == 0
            || |set j: nat | j <= i && history[j].Try? && history[j].scope == history[i].scope
                        && history[j].time + SECOND >= history[i].time| <= max
  {
    hide Judged, QueueAfter, Window;
    var seen, scope, now := history[..i + 1], history[i].scope, history[i].time;
    JudgedAt(history, max, i);
    QueueIsWindow(seen, scope);
    assert LastPruned(seen, scope) == now by { LastIsPruned(seen, scope); }
    WindowCounts(seen, scope, now);
    assert Recent(seen, scope, now)
        == set j: nat | j <= i && history[j].Try? && history[j].scope == scope && history[j].time + SECOND >= now;
  }

  lemma LastIsPruned(history: seq<Section>, scope: Scope)
    requires history != [] && Concerns(history[|history| - 1], scope)
    ensures LastPruned(history, scope) == history[|history| - 1].time
  {
  }

  // ---------------------------------------------------------------- the limiter

  class IssueLimiter {
    const max: nat
    var queues: map<Scope, seq<nat>>

    /** All lock sections so far, and the time of the last one. */
    ghost var history: seq<Section>
    ghost var clock: nat

    ghost predicate Valid()
      reads this
    {
      && Schedule(history) && Judged(history, max)
      && (forall i :: 0 <= i < |history| ==> LockedAt(history[i]) <= clock)
      && (forall s :: s in queues ==> queues[s] == QueueAfter(history, s))
      && (forall s :: s !in queues ==> QueueAfter(history, s) == [])
    }

    constructor (max: nat)
      ensures Valid() && this.max == max && history == [] && queues == map[] && clock == 0
    {
      this.max := max;
      queues, history, clock := map[], [], 0;
    }

    method PruneFront(queue: seq<nat>, now: nat) returns (r: seq<nat>)
      ensures r == Prune(queue, now)
    {
      r := queue;
      while r != [] && Stale(r[0], now)
        invariant Prune(r, now) == Prune(queue, now)
        decreases |r|
      {
        r := r[1..];
      }
    }

    /** The lock section of issuing, entered at `locked` with a time sampled before: record the
        attempt, prune, decide. Other sections may have run since the sample. */
    method Admit(scope: Scope, sampled: nat, ghost locked: nat) returns (passed: bool)
      requires Valid() && sampled <= locked && clock <= locked
      modifies this
      ensures Valid() && clock == locked
      ensures history == old(history) + [Try(scope, sampled, locked, passed)]
      ensures scope in queues && queues[scope] == QueueAfter(history, scope)
      ensures passed <==> max == 0 || |queues[scope]| <= max
    {
      hide Judged, Prune, QueueAfter;
      var queue := if scope in queues then queues[scope] else [];
      queue := PruneFront(queue + [sampled], sampled);
      passed := max == 0 || |queue| <= max;
      ghost var last := Try(scope, sampled, locked, passed);
      forall s ensures QueueAfter(history + [last], s)
                    == if s == scope then queue else QueueAfter(history, s)
      {
        QueueUnfolds(history, last, s);
      }
      JudgedAppend(history, last, max);
      queues := queues[scope := queue];
      history := history + [last];
      clock := locked;
    }

    /** The limiter's part of garbage collection: prune every queue, drop the empty ones. */
    method Collect(now: nat)
      requires Valid() && clock <= now
      modifies this
      ensures Valid() && clock == now && history == old(history) + [Collection(now)]
      ensures forall s :: s in queues <==> s in old(queues) && QueueAfter(history, s) != []
    {
      hide Judged, QueueAfter;
      forall s ensures QueueAfter(history + [Collection(now)], s) == Prune(QueueAfter(history, s), now) {
        QueueUnfolds(history, Collection(now), s);
      }
      JudgedAppend(history, Collection(now), max);
      queues := map s | s in queues && Prune(queues[s], now) != [] :: Prune(queues[s], now);
      history := history + [Collection(now)];
      clock := now;
    }
  }

  lemma QueueUnfolds(history: seq<Section>, last: Section, scope: Scope)
    ensures QueueAfter(history + [last], scope)
         == if !Concerns(last, scope) then QueueAfter(history, scope)
            else if last.Try? then Prune(QueueAfter(history, scope) + [last.time], last.time)
            else Prune(QueueAfter(history, scope), last.time)
  {
    assert (history + [last])[..|history|] == history;
  }

  lemma JudgedAppend(history: seq<Section>, last: Section, max: nat)
    requires Judged(history, max)
    requires last.Try? ==>
               (last.passed <==> max == 0 || |QueueAfter(history + [last], last.scope)| <= max)
    ensures Judged(history + [last], max)
  {
    assert (history + [last])[..|history|] == history;
  }
}
