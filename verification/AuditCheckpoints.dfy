/** Verification of log files against external checkpoints.

    A checkpoint remembers how many entries a chain had and its last hash. With a
    collision-free hash that is enough to recognise every later state of the same log. */
module AuditCheckpoints {
  import opened Wrappers
  import opened Utf8
  import opened LineCodec
  import opened ChainedLog
  import opened CrashRuns

  type Name = string

  datatype VerifyError =
    | FileNotFound
    | ChainMismatch
    | Truncated(before: nat, now: nat)
    | Rewritten

  datatype ChainReport =
    ChainReport(chainId: Name, file: Name, entries: nat, valid: bool, error: Option<VerifyError>)

  datatype ChainCheckpoint = ChainCheckpoint(file: Name, entries: nat, lastHash: Bytes)

  // ---------------------------------------------------------------- one file

  /** The hashes of the entries that carry one. */
  function Hashes(entries: seq<Entry>): seq<Bytes> {
    if entries == [] then []
    else (if entries[0].hash.Some? then [entries[0].hash.value] else []) + Hashes(entries[1..])
  }

  /** A log file in the audit directory; `content` is absent when the file is missing. */
  datatype Shard = Shard(file: Name, chainId: Name, content: Option<Bytes>)

  function EntriesOf(shard: Shard): seq<Entry> {
    if shard.content.None? then [] else Read(shard.content.value)
  }

  function BaseReport(sha: Digest, shard: Shard): ChainReport {
    if shard.content.None? then
      ChainReport(shard.chainId, shard.file, 0, false, Some(FileNotFound))
    else
      var valid := ChainFrom(sha, [], EntriesOf(shard));
      ChainReport(shard.chainId, shard.file, |EntriesOf(shard)|, valid,
                  if valid then None else Some(ChainMismatch))
  }

  function LastOrEmpty(hashes: seq<Bytes>): Bytes {
    if hashes == [] then [] else hashes[|hashes| - 1]
  }

  function FreshCheckpoint(shard: Shard): ChainCheckpoint {
    var hashes := Hashes(EntriesOf(shard));
    ChainCheckpoint(shard.file, |hashes|, LastOrEmpty(hashes))
  }

  /** The verdict a checkpoint adds to a chain that validates by itself. */
  function CompareWith(prev: ChainCheckpoint, hashes: seq<Bytes>): Option<VerifyError> {
    if |hashes| < prev.entries then Some(Truncated(prev.entries, |hashes|))
    else if prev.lastHash != [] && prev.lastHash !in hashes then Some(Rewritten)
    else None
  }

  function CheckedReport(sha: Digest, shard: Shard, checkpoints: seq<ChainCheckpoint>): ChainReport {
    var base := BaseReport(sha, shard);
    var prev := FindIn(checkpoints, shard.file);
    if !base.valid || prev.None? then base
    else
      var error := CompareWith(prev.value, Hashes(EntriesOf(shard)));
      if error.None? then base else base.(valid := false, error := error)
  }

  method VerifyChainChecked(sha: Digest, shard: Shard, checkpoint: AuditCheckpoint)
      returns (report: ChainReport, baseline: ChainCheckpoint)
    ensures report == CheckedReport(sha, shard, checkpoint.chains)
    ensures baseline == FreshCheckpoint(shard)
  {
    report := BaseReport(sha, shard);
    var hashes := Hashes(EntriesOf(shard));
    baseline := ChainCheckpoint(shard.file, |hashes|, LastOrEmpty(hashes));
    if report.valid {
      var found := checkpoint.Find(baseline.file);
      if found.Some? {
        var prev := found.value;
        if |hashes| < prev.entries {
          report := report.(valid := false, error := Some(Truncated(prev.entries, |hashes|)));
        } else if prev.lastHash != [] && prev.lastHash !in hashes {
          report := report.(valid := false, error := Some(Rewritten));
        }
      }
    }
  }

  // ---------------------------------------------------------------- the checkpoint table

  function FindIn(chains: seq<ChainCheckpoint>, file: Name): Option<ChainCheckpoint> {
    if chains == [] then None
    else if chains[0].file == file then Some(chains[0])
    else FindIn(chains[1..], file)
  }

  function Upserted(chains: seq<ChainCheckpoint>, entry: ChainCheckpoint): seq<ChainCheckpoint> {
    if chains == [] then [entry]
    else if chains[0].file == entry.file then [entry] + chains[1..]
    else [chains[0]] + Upserted(chains[1..], entry)
  }

  class AuditCheckpoint {
    var chains: seq<ChainCheckpoint>

    constructor ()
      ensures chains == []
    {
      chains := [];
    }

    method Find(file: Name) returns (r: Option<ChainCheckpoint>)
      ensures r == FindIn(chains, file)
    {
      for i := 0 to |chains|
        invariant FindIn(chains, file) == FindIn(chains[i..], file)
      {
        if chains[i].file == file {
          return Some(chains[i]);
        }
      }
      r := None;
    }

    method Upsert(entry: ChainCheckpoint)
      modifies this
      ensures chains == Upserted(old(chains), entry)
    {
      assert chains[..0] + Upserted(chains[0..], entry) == Upserted(chains, entry);
      for i := 0 to |chains|
        invariant chains == old(chains)
        invariant Upserted(chains, entry) == chains[..i] + Upserted(chains[i..], entry)
      {
        UpsertedUnfolds(chains, i, entry);
        if chains[i].file == entry.file {
          chains := chains[i := entry];
          return;
        }
      }
      assert chains[..|chains|] == chains && chains[|chains|..] == [];
      chains := chains + [entry];
    }
  }

  lemma UpsertedUnfolds(chains: seq<ChainCheckpoint>, i: nat, entry: ChainCheckpoint)
    requires i < |chains|
    ensures chains[..i] + Upserted(chains[i..], entry)
         == if chains[i].file == entry.file then chains[i := entry]
            else chains[..i + 1] + Upserted(chains[i + 1..], entry)
  {
    assert chains[i..][1..] == chains[i + 1..];
    assert chains[..i] + ([entry] + chains[i + 1..]) == chains[i := entry];
    assert chains[..i] + [chains[i]] == chains[..i + 1];
    hide Upserted;
    assert chains[..i] + ([chains[i]] + Upserted(chains[i + 1..], entry))
        == chains[..i] + [chains[i]] + Upserted(chains[i + 1..], entry);
  }

  /** The table behaves as a map from files to checkpoints. */
  lemma {:induction false} FindAfterUpsert(chains: seq<ChainCheckpoint>, entry: ChainCheckpoint, file: Name)
    ensures FindIn(Upserted(chains, entry), file)
         == if file == entry.file then Some(entry) else FindIn(chains, file)
  {
    if chains != [] && chains[0].file != entry.file {
      FindAfterUpsert(chains[1..], entry, file);
    }
  }

  // ---------------------------------------------------------------- what a hash commits to

  ghost predicate CollisionFree(sha: Digest) {
    && (forall x, y :: sha(x) == sha(y) ==> x == y)
    && (forall x :: sha(x) != [])
  }

  /** The hashed text determines both the entry and the hash it is linked to, although the two
      are concatenated without a separator. */
  lemma HashCommitsToEntry(sha: Digest, e: Entry, p: Bytes, f: Entry, q: Bytes)
    requires CollisionFree(sha)
    requires ComputeHash(sha, e, p) == ComputeHash(sha, f, q)
    ensures e.(hash := None) == f.(hash := None) && p == q
  {
    hide Serialize, ParsePrefix;
    RecordRoundTrip(e.(hash := None), p);
    RecordRoundTrip(f.(hash := None), q);
  }

  lemma {:induction false} ChainInit(sha: Digest, prev: Bytes, entries: seq<Entry>)
    requires ChainFrom(sha, prev, entries) && entries != []
    ensures var n := |entries| - 1;
            && ChainFrom(sha, prev, entries[..n])
            && entries[n].hash
               == Some(ComputeHash(sha, entries[n], if n == 0 then prev else LastHash(entries[..n])))
    decreases |entries|
  {
    hide ComputeHash;
    var n := |entries| - 1;
    if n > 0 {
      var h := entries[0].hash.value;
      ChainInit(sha, h, entries[1..]);
      assert entries[1..][..n - 1] == entries[..n][1..];
      if n > 1 {
        ChainLastHash(sha, h, entries[1..][..n - 1]);
      }
      ChainLastHash(sha, prev, entries[..n]);
    }
  }

  lemma {:induction false} ChainPrefix(sha: Digest, entries: seq<Entry>, n: nat)
    requires ChainFrom(sha, [], entries) && n <= |entries|
    ensures ChainFrom(sha, [], entries[..n])
    decreases |entries| - n
  {
    if n == |entries| {
      assert entries[..n] == entries;
    } else {
      ChainPrefix(sha, entries, n + 1);
      ChainInit(sha, [], entries[..n + 1]);
      assert entries[..n + 1][..n] == entries[..n];
    }
  }

  lemma LastIsDigest(sha: Digest, entries: seq<Entry>)
    requires CollisionFree(sha) && ChainFrom(sha, [], entries) && entries != []
    ensures var n := |entries| - 1;
            && ChainFrom(sha, [], entries[..n])
            && LastHash(entries) == ComputeHash(sha, entries[n], LastHash(entries[..n])) != []
            && entries[n].hash == Some(LastHash(entries))
  {
    hide Serialize, ChainFrom;
    ChainInit(sha, [], entries);
    ChainLastHash(sha, [], entries);
  }

  /** The last hash commits to the whole history: two chains that validate and end in the same
      hash are the same chain. */
  lemma {:induction false} LastHashCommits(sha: Digest, a: seq<Entry>, b: seq<Entry>)
    requires CollisionFree(sha)
    requires ChainFrom(sha, [], a) && ChainFrom(sha, [], b)
    requires LastHash(a) == LastHash(b)
    ensures a == b
    decreases |a|
  {
    hide ComputeHash, ChainFrom;
    if a != [] { LastIsDigest(sha, a); }
    if b != [] { LastIsDigest(sha, b); }
    if a != [] && b != [] {
      var m, n := |a| - 1, |b| - 1;
      HashCommitsToEntry(sha, a[m], LastHash(a[..m]), b[n], LastHash(b[..n]));
      LastHashCommits(sha, a[..m], b[..n]);
      assert a == a[..m] + [a[m]] && b == b[..n] + [b[n]];
    }
  }

  lemma {:induction false} ChainHashes(sha: Digest, prev: Bytes, entries: seq<Entry>)
    requires ChainFrom(sha, prev, entries)
    ensures |Hashes(entries)| == |entries|
    ensures forall i :: 0 <= i < |entries| ==> entries[i].hash == Some(Hashes(entries)[i])
    decreases |entries|
  {
    hide ComputeHash;
    if entries != [] {
      ChainHashes(sha, entries[0].hash.value, entries[1..]);
    }
  }

  /** A fresh checkpoint of a valid chain holds its length and last hash. */
  lemma FreshOfValid(sha: Digest, shard: Shard)
    requires ChainFrom(sha, [], EntriesOf(shard))
    ensures FreshCheckpoint(shard)
         == ChainCheckpoint(shard.file, |EntriesOf(shard)|, LastHash(EntriesOf(shard)))
  {
    hide EntriesOf, ComputeHash;
    var entries := EntriesOf(shard);
    ChainHashes(sha, [], entries);
    if entries != [] {
      ChainLastHash(sha, [], entries);
    }
  }

  /** What a report says, case by case: it names the file and counts the entries read from it, and is
      valid exactly when it has no error. A missing file is not found; a chain whose links do not
      hold is a mismatch; against a checkpoint a valid chain is truncated when it has fewer entries,
      and rewritten when it has enough but none with the recorded hash. */
  lemma ReportExactly(sha: Digest, shard: Shard, checkpoints: seq<ChainCheckpoint>, before: nat, now: nat)
    ensures var report, prev := CheckedReport(sha, shard, checkpoints), FindIn(checkpoints, shard.file);
            var entries := EntriesOf(shard);
            var linked := shard.content.Some? && ChainFrom(sha, [], entries);
            && report.file == shard.file && report.chainId == shard.chainId && report.entries == |entries|
            && (report.valid <==> report.error == None)
            && (report.error == Some(FileNotFound) <==> shard.content == None)
            && (report.error == Some(ChainMismatch) <==> shard.content.Some? && !linked)
            && (report.error == Some(Truncated(before, now)) <==>
                  linked && prev.Some? && now == |entries| < prev.value.entries == before)
            && (report.error == Some(Rewritten) <==>
                  && linked && prev.Some? && |entries| >= prev.value.entries && prev.value.lastHash != []
                  && forall i :: 0 <= i < |entries| ==> entries[i].hash != Some(prev.value.lastHash))
  {
    hide ChainFrom, ComputeHash, Read, FindIn;
    var entries := EntriesOf(shard);
    NothingRead(shard);
    hide EntriesOf;
    if shard.content.Some? && ChainFrom(sha, [], entries) {
      ChainHashes(sha, [], entries);
      forall h | h in Hashes(entries)
        ensures exists i :: 0 <= i < |entries| && entries[i].hash == Some(h)
      {
        var i :| 0 <= i < |Hashes(entries)| && Hashes(entries)[i] == h;
        assert entries[i].hash == Some(h);
      }
    }
  }

  lemma NothingRead(shard: Shard)
    ensures shard.content == None ==> EntriesOf(shard) == []
  {
  }

  /** `checkpoint` was taken when the file held the valid chain `known`. */
  ghost predicate TakenOf(sha: Digest, checkpoint: ChainCheckpoint, known: seq<Entry>) {
    && ChainFrom(sha, [], known)
    && checkpoint.entries == |known|
    && checkpoint.lastHash == LastHash(known)
  }

  lemma AcceptedExtends(sha: Digest, prev: ChainCheckpoint, known: seq<Entry>, entries: seq<Entry>)
    requires CollisionFree(sha) && TakenOf(sha, prev, known) && ChainFrom(sha, [], entries)
    ensures CompareWith(prev, Hashes(entries)).None? <==> known <= entries
  {
    hide ComputeHash;
    ChainHashes(sha, [], entries);
    if known != [] {
      ChainLastHash(sha, [], known);
      ChainInit(sha, [], known);
      LastIsDigest(sha, known);
      var n := |known|;
      if known <= entries {
        assert entries[n - 1] == known[n - 1];
        assert Hashes(entries)[n - 1] == prev.lastHash;
      } else if prev.lastHash in Hashes(entries) {
        var i :| 0 <= i < |entries| && Hashes(entries)[i] == prev.lastHash;
        ChainPrefix(sha, entries, i + 1);
        ChainLastHash(sha, [], entries[..i + 1]);
        LastHashCommits(sha, entries[..i + 1], known);
      }
    }
  }

  /** A file is accepted against a checkpoint of a valid log exactly when it holds a valid
      chain of which that log is a prefix. */
  lemma AcceptedExactlyIfExtended(sha: Digest, shard: Shard, checkpoints: seq<ChainCheckpoint>,
                                  known: seq<Entry>)
    requires CollisionFree(sha)
    requires var prev := FindIn(checkpoints, shard.file);
             prev.Some? && TakenOf(sha, prev.value, known)
    ensures CheckedReport(sha, shard, checkpoints).valid
       <==> shard.content.Some? && ChainFrom(sha, [], EntriesOf(shard)) && known <= EntriesOf(shard)
  {
    hide ChainFrom, CompareWith, EntriesOf, CollisionFree;
    if shard.content.Some? && ChainFrom(sha, [], EntriesOf(shard)) {
      AcceptedExtends(sha, FindIn(checkpoints, shard.file).value, known, EntriesOf(shard));
    }
  }

  /** Checkpoints never reject the log's own history: a file that a run left behind is accepted
      against a checkpoint of an earlier moment of that run, unless a write was cut inside a
      character; and then it is rejected as soon as there was something to lose. */
  lemma OwnHistoryIsAccepted(sha: Digest, chainId: Bytes, events: seq<Event>, i: nat, shard: Shard,
                             checkpoints: seq<ChainCheckpoint>)
    requires CollisionFree(sha) && TextDigest(sha) && Valid(chainId) && TextEvents(events)
    requires i <= |events| && shard.content == Some(Run(sha, chainId, events).file)
    requires var prev := FindIn(checkpoints, shard.file);
             prev.Some? && TakenOf(sha, prev.value, Survivors(sha, chainId, events[..i]))
    ensures CheckedReport(sha, shard, checkpoints).valid
       <==> CutsAligned(sha, chainId, events) || Survivors(sha, chainId, events[..i]) == []
  {
    hide CheckedReport, TakenOf, Survivors, CutsAligned, Run, ChainFrom, Read;
    var known := Survivors(sha, chainId, events[..i]);
    ReadersSeeSurvivors(sha, chainId, events);
    SurvivorsGrow(sha, chainId, events, i);
    AcceptedExactlyIfExtended(sha, shard, checkpoints, known);
  }

  // ---------------------------------------------------------------- whole audits

  class VerifyReport {
    var valid: bool
    var totalEntries: nat
    var chains: seq<ChainReport>

    ghost predicate Consistent()
      reads this
    {
      && (valid <==> forall i :: 0 <= i < |chains| ==> chains[i].valid)
      && totalEntries == TotalEntries(chains)
    }

    constructor ()
      ensures Consistent() && chains == []
    {
      valid, totalEntries, chains := true, 0, [];
    }

    method Push(chain: ChainReport)
      requires Consistent()
      modifies this
      ensures Consistent() && chains == old(chains) + [chain]
    {
      TotalEntriesAppend(chains, chain);
      valid := valid && chain.valid;
      totalEntries := totalEntries + chain.entries;
      chains := chains + [chain];
      assert chains[|chains| - 1] == chain;
      assert forall i :: 0 <= i < |chains| - 1 ==> chains[i] == old(chains)[i];
    }

    /** The warning that an empty log proves nothing: it goes by the total, which in a report that
        was filled by `Push` is 0 exactly when no chain has an entry. */
    method EmptyLogWarning() returns (warn: bool)
      ensures warn <==> totalEntries == 0
      ensures Consistent() ==> (warn <==> forall i :: 0 <= i < |chains| ==> chains[i].entries == 0)
    {
      TotalEntriesZero(chains);
      warn := totalEntries == 0;
    }
  }

  function TotalEntries(chains: seq<ChainReport>): nat {
    if chains == [] then 0 else chains[0].entries + TotalEntries(chains[1..])
  }

  lemma {:induction false} TotalEntriesAppend(chains: seq<ChainReport>, chain: ChainReport)
    ensures TotalEntries(chains + [chain]) == TotalEntries(chains) + chain.entries
  {
    if chains != [] {
      assert (chains + [chain])[1..] == chains[1..] + [chain];
      TotalEntriesAppend(chains[1..], chain);
    }
  }

  lemma {:induction false} TotalEntriesZero(chains: seq<ChainReport>)
    ensures TotalEntries(chains) == 0 <==> forall i :: 0 <= i < |chains| ==> chains[i].entries == 0
  {
    if chains != [] {
      TotalEntriesZero(chains[1..]);
      assert forall i :: 0 <= i < |chains| - 1 ==> chains[1..][i] == chains[i + 1];
    }
  }

  function FreshCheckpoints(shards: seq<Shard>): seq<ChainCheckpoint> {
    if shards == [] then []
    else Upserted(FreshCheckpoints(shards[..|shards| - 1]), FreshCheckpoint(shards[|shards| - 1]))
  }

  predicate AuditAccepted(sha: Digest, shards: seq<Shard>, saved: seq<ChainCheckpoint>) {
    shards != [] && forall i :: 0 <= i < |shards| ==> CheckedReport(sha, shards[i], saved).valid
  }

  /** The saved checkpoints after one audit: replaced only when there are files and every one
      of them was accepted. */
  function AfterAudit(sha: Digest, shards: seq<Shard>, saved: seq<ChainCheckpoint>): seq<ChainCheckpoint> {
    if AuditAccepted(sha, shards, saved) then FreshCheckpoints(shards) else saved
  }

  method VerifyAudit(sha: Digest, shards: seq<Shard>, checkpoint: AuditCheckpoint)
      returns (accepted: bool)
    modifies checkpoint
    ensures accepted <==> AuditAccepted(sha, shards, old(checkpoint.chains))
    ensures checkpoint.chains == AfterAudit(sha, shards, old(checkpoint.chains))
  {
    hide CheckedReport, FreshCheckpoint, Upserted, TotalEntries;
    if shards == [] {
      return false;
    }
    var report := new VerifyReport();
    var baseline := new AuditCheckpoint();
    for k := 0 to |shards|
      invariant baseline != checkpoint && checkpoint.chains == old(checkpoint.chains)
      invariant report.Consistent() && |report.chains| == k
      invariant forall i :: 0 <= i < k ==>
                  report.chains[i] == CheckedReport(sha, shards[i], checkpoint.chains)
      invariant baseline.chains == FreshCheckpoints(shards[..k])
    {
      var chain, entry := VerifyChainChecked(sha, shards[k], checkpoint);
      assert shards[..k + 1][..k] == shards[..k];
      baseline.Upsert(entry);
      report.Push(chain);
    }
    assert shards[..|shards|] == shards;
    accepted := report.valid;
    if accepted {
      checkpoint.chains := baseline.chains;
    }
  }

  // ---------------------------------------------------------------- series of audits

  function SavedAfter(sha: Digest, rounds: seq<seq<Shard>>): seq<ChainCheckpoint> {
    if rounds == [] then []
    else AfterAudit(sha, rounds[|rounds| - 1], SavedAfter(sha, rounds[..|rounds| - 1]))
  }

  /** Round `j` of the series was accepted. */
  predicate RoundAccepted(sha: Digest, rounds: seq<seq<Shard>>, j: nat)
    requires j < |rounds|
  {
    AuditAccepted(sha, rounds[j], SavedAfter(sha, rounds[..j]))
  }

  /** `shard` is the file `file` in this round; a directory holds a name once. */
  ghost predicate TheShard(shards: seq<Shard>, file: Name, shard: Shard) {
    && shard in shards && shard.file == file
    && forall s :: s in shards && s.file == file ==> s == shard
  }

  lemma {:induction false} FreshFinds(shards: seq<Shard>, file: Name, shard: Shard)
    requires TheShard(shards, file, shard)
    ensures FindIn(FreshCheckpoints(shards), file) == Some(FreshCheckpoint(shard))
    decreases |shards|
  {
    hide EntriesOf, Hashes, FindIn, Upserted;
    var n := |shards| - 1;
    FindAfterUpsert(FreshCheckpoints(shards[..n]), FreshCheckpoint(shards[n]), file);
    if shards[n].file != file {
      assert shard in shards[..n];
      FreshFinds(shards[..n], file, shard);
    }
  }

  predicate Sees(shards: seq<Shard>, file: Name) { exists i :: 0 <= i < |shards| && shards[i].file == file }

  lemma {:induction false} FreshFindsSeen(shards: seq<Shard>, file: Name)
    ensures FindIn(FreshCheckpoints(shards), file).Some? <==> Sees(shards, file)
    decreases |shards|
  {
    hide EntriesOf, Hashes, Upserted;
    if shards != [] {
      var n := |shards| - 1;
      FindAfterUpsert(FreshCheckpoints(shards[..n]), FreshCheckpoint(shards[n]), file);
      FreshFindsSeen(shards[..n], file);
      SeesLast(shards, file);
    }
  }

  lemma SeesLast(shards: seq<Shard>, file: Name)
    requires shards != []
    ensures var n := |shards| - 1; Sees(shards, file) <==> Sees(shards[..n], file) || shards[n].file == file
  {
    var n := |shards| - 1;
    if Sees(shards[..n], file) {
      var i :| 0 <= i < n && shards[..n][i].file == file;
      assert shards[i].file == file;
    }
    if Sees(shards, file) && shards[n].file != file {
      var i :| 0 <= i < |shards| && shards[i].file == file;
      assert shards[..n][i].file == file;
    }
  }

  /** Why a series must see the file every time: an accepted round drops the checkpoint of a file
      exactly when it does not see the file, and then nothing holds the file to its history. */
  lemma AcceptedRoundForgetsExactly(sha: Digest, shards: seq<Shard>, saved: seq<ChainCheckpoint>, shard: Shard)
    requires AuditAccepted(sha, shards, saved)
    ensures FindIn(AfterAudit(sha, shards, saved), shard.file).None? <==> !Sees(shards, shard.file)
    ensures !Sees(shards, shard.file) ==>
              CheckedReport(sha, shard, AfterAudit(sha, shards, saved)) == BaseReport(sha, shard)
  {
    hide BaseReport, CompareWith, EntriesOf;
    FreshFindsSeen(shards, shard.file);
  }

  /** An accepted file leaves a checkpoint of exactly its entries. */
  lemma AcceptedRoundSaves(sha: Digest, shards: seq<Shard>, saved: seq<ChainCheckpoint>, shard: Shard)
    requires AuditAccepted(sha, shards, saved) && TheShard(shards, shard.file, shard)
    ensures var now := FindIn(AfterAudit(sha, shards, saved), shard.file);
            now.Some? && TakenOf(sha, now.value, EntriesOf(shard))
  {
    hide ChainFrom, CompareWith, EntriesOf;
    var i :| 0 <= i < |shards| && shards[i] == shard;
    assert CheckedReport(sha, shards[i], saved).valid;
    FreshFinds(shards, shard.file, shard);
    FreshOfValid(sha, shard);
  }

  /** Every accepted round of a stretch of the series saw the file, as `shards` tells. Rounds that
      were rejected, and rounds outside the stretch, may have missed it. */
  ghost predicate SeenThroughout(sha: Digest, rounds: seq<seq<Shard>>, shards: seq<Shard>, file: Name, i: nat, j: nat)
    requires i <= j < |rounds| == |shards|
  {
    forall k :: i <= k <= j && RoundAccepted(sha, rounds, k) ==> TheShard(rounds[k], file, shards[k])
  }

  lemma RoundAcceptedInPrefix(sha: Digest, rounds: seq<seq<Shard>>, n: nat, k: nat)
    requires k < n <= |rounds|
    ensures RoundAccepted(sha, rounds[..n], k) <==> RoundAccepted(sha, rounds, k)
  {
    assert rounds[..n][..k] == rounds[..k];
  }

  lemma SeenInPrefix(sha: Digest, rounds: seq<seq<Shard>>, shards: seq<Shard>, file: Name, i: nat, j: nat, n: nat)
    requires i <= j < |rounds| == |shards| && i < n <= j + 1
    requires SeenThroughout(sha, rounds, shards, file, i, j)
    ensures SeenThroughout(sha, rounds[..n], shards[..n], file, i, n - 1)
  {
    hide RoundAccepted, TheShard;
    forall k | i <= k <= n - 1 && RoundAccepted(sha, rounds[..n], k)
      ensures TheShard(rounds[..n][k], file, shards[..n][k])
    {
      RoundAcceptedInPrefix(sha, rounds, n, k);
    }
  }

  /** Whatever round `i` accepted for a file is a prefix of what the saved checkpoint of that
      file stands for, as long as every accepted round since then saw the file. */
  lemma {:induction false} BaselineGrows(sha: Digest, rounds: seq<seq<Shard>>, shards: seq<Shard>,
                                         file: Name, i: nat) returns (known: seq<Entry>)
    requires CollisionFree(sha) && i < |rounds| == |shards|
    requires SeenThroughout(sha, rounds, shards, file, i, |rounds| - 1)
    requires RoundAccepted(sha, rounds, i)
    ensures var saved := FindIn(SavedAfter(sha, rounds), file);
            saved.Some? && TakenOf(sha, saved.value, known)
    ensures EntriesOf(shards[i]) <= known
    decreases |rounds|
  {
    hide TakenOf, EntriesOf, CheckedReport, CollisionFree;
    var n := |rounds| - 1;
    var before := rounds[..n];
    var saved := SavedAfter(sha, before);
    if i == n {
      AcceptedRoundSaves(sha, rounds[n], saved, shards[n]);
      known := EntriesOf(shards[n]);
    } else {
      RoundAcceptedInPrefix(sha, rounds, n, i);
      SeenInPrefix(sha, rounds, shards, file, i, n, n);
      known := BaselineGrows(sha, before, shards[..n], file, i);
      if AuditAccepted(sha, rounds[n], saved) {
        assert RoundAccepted(sha, rounds, n);
        AcceptedRoundSaves(sha, rounds[n], saved, shards[n]);
        var k :| 0 <= k < |rounds[n]| && rounds[n][k] == shards[n];
        assert CheckedReport(sha, rounds[n][k], saved).valid;
        AcceptedExactlyIfExtended(sha, shards[n], saved, known);
        known := EntriesOf(shards[n]);
      }
    }
  }

  /** In any series of audits, two accepted rounds saw a file only grow, if the accepted rounds
      between them saw it too: what the earlier one read is a prefix of what the later one read. */
  lemma AcceptedAuditsSawOnlyGrowth(sha: Digest, rounds: seq<seq<Shard>>, shards: seq<Shard>,
                                    file: Name, i: nat, j: nat)
    requires CollisionFree(sha) && i < j < |rounds| == |shards|
    requires SeenThroughout(sha, rounds, shards, file, i, j)
    requires RoundAccepted(sha, rounds, i) && RoundAccepted(sha, rounds, j)
    ensures EntriesOf(shards[i]) <= EntriesOf(shards[j])
  {
    hide TakenOf, EntriesOf, CheckedReport, CollisionFree;
    RoundAcceptedInPrefix(sha, rounds, j, i);
    SeenInPrefix(sha, rounds, shards, file, i, j, j);
    var known := BaselineGrows(sha, rounds[..j], shards[..j], file, i);
    var saved := SavedAfter(sha, rounds[..j]);
    var k :| 0 <= k < |rounds[j]| && rounds[j][k] == shards[j];
    assert CheckedReport(sha, rounds[j][k], saved).valid;
    AcceptedExactlyIfExtended(sha, shards[j], saved, known);
  }

  /** One accepted round that misses the file is enough to lose this: any two valid contents of a
      file are accepted one after the other, related or not, when a round that was accepted on
      other files came between. */
  lemma MissedRoundUnbindsHistory(sha: Digest, rounds: seq<seq<Shard>>, m: nat, shard: Shard)
    requires m < |rounds| && RoundAccepted(sha, rounds, m) && !Sees(rounds[m], shard.file)
    requires BaseReport(sha, shard).valid
    ensures RoundAccepted(sha, rounds[..m + 1] + [[shard]], m + 1)
  {
    hide BaseReport, CompareWith, EntriesOf;
    var longer := rounds[..m + 1] + [[shard]];
    assert longer[..m + 1] == rounds[..m + 1] && rounds[..m + 1][..m] == rounds[..m];
    AcceptedRoundForgetsExactly(sha, rounds[m], SavedAfter(sha, rounds[..m]), shard);
  }

  /** So what is accepted after a file was accepted, and then one more round: any valid content
      when that round missed the file, and otherwise exactly the extensions of what it saw. */
  lemma NextContentAcceptedExactly(sha: Digest, first: Shard, middle: seq<Shard>, seen: Shard, next: Shard)
    requires CollisionFree(sha) && first.file == next.file && AuditAccepted(sha, [first], [])
    requires RoundAccepted(sha, [[first], middle], 1)
    requires Sees(middle, first.file) ==> TheShard(middle, first.file, seen)
    ensures RoundAccepted(sha, [[first], middle, [next]], 2)
       <==> && BaseReport(sha, next).valid
            && (Sees(middle, first.file) ==> EntriesOf(seen) <= EntriesOf(next))
  {
    hide BaseReport, EntriesOf, CollisionFree, TakenOf, CompareWith;
    var two, three := [[first], middle], [[first], middle, [next]];
    assert three[..2] == two && two[..1] == [[first]] && two[..1][..0] == [];
    var before := SavedAfter(sha, [[first]]);
    var saved := AfterAudit(sha, middle, before);
    assert SavedAfter(sha, two) == saved;
    assert AuditAccepted(sha, middle, before);
    OneFileRound(sha, next, saved);
    assert RoundAccepted(sha, three, 2) <==> AuditAccepted(sha, [next], saved);
    AcceptedRoundForgetsExactly(sha, middle, before, next);
    if Sees(middle, first.file) {
      AcceptedRoundSaves(sha, middle, before, seen);
      AcceptedExactlyIfExtended(sha, next, saved, EntriesOf(seen));
      BaseValidMeans(sha, next);
    }
  }

  lemma OneFileRound(sha: Digest, shard: Shard, saved: seq<ChainCheckpoint>)
    ensures AuditAccepted(sha, [shard], saved) <==> CheckedReport(sha, shard, saved).valid
  {
    hide CheckedReport;
    assert [shard][0] == shard;
  }

  lemma BaseValidMeans(sha: Digest, shard: Shard)
    ensures BaseReport(sha, shard).valid <==> shard.content.Some? && ChainFrom(sha, [], EntriesOf(shard))
  {
    hide ChainFrom, EntriesOf;
  }
}
