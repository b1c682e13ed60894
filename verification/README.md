# Model of the agent kernel's safety-critical core

Dafny 4.11 models of seven components of a Rust system that schedules AI agents and guards their
access to models and GPUs, with proofs of what each keeps over whole runs. `dafny verify
dfyconfig.toml` checks everything. Where the source changes state in place the model is a class
whose methods are proved against specification functions; laws over runs and interleavings are
lemmas about those functions.

| files | component |
|---|---|
| `Utf8`, `LineCodec`, `ChainedLog`, `CrashRuns`, `DroppedRecords` | the hash-chained audit log: a file of bytes, a line codec with JSON string escapes (section 7 of RFC 8259) and UTF-8 decoding, one writer, failures at any byte, restarts, abandoned calls |
| `AuditCheckpoints` | the chain verifier, external checkpoints, and series of audits |
| `Mix64`, `MinHash`, `Arith`, `LshBands` | the hash of strings, MinHash signatures and similarity, LSH bands, on 64-bit words |
| `GpuPool`, `GpuPoolRuns`, `GpuOom` | the GPU memory pool in simulated mode, auto-swap, and the OOM killer |
| `Supervisor`, `Delegation` | agent lifecycle under a concurrent supervisor; spawn delegation between nodes |
| `RateLimiter`, `Capability` | token issue limits, revocation and garbage collection |
| `StreamGuard`, `Gateway`, `GatewayRuns` | the guarded response stream, inspection, permits and audit records of the gateway |
| `Batching` | the batch queue |

Inputs of the model instead of code: the hash (`sha`, any collision-free function with non-empty
results where a law needs that), clocks, whether and where a write fails, the content guard's
verdict, the upstream's answer, the engine's outputs, addresses of allocations. Lock-protected
sections are atomic steps; at the awaits and sleeps of the supervisor, the gateway and the log any
other step may run, while routing a spawn is one step. A Rust `HashMap` iterates in no particular
order, and neither does the model.

## What the proofs found

Properties the code has only under a condition, each with the exact condition or a lemma that
shows the failure:

- A write torn inside a multi-byte character makes the whole file invalid UTF-8: `entries` then
  returns an empty log, `validate` accepts it, and appending goes on, since the writer decodes
  lossily (`ReadersSeeSurvivors`, `CutsSafeExactlyForAscii`, `NextWriteSafeExactlyForAscii`).
  A checkpoint notices (`OwnHistoryIsAccepted`).
- A `record` call whose caller goes away while its line is being written leaves the writer open and
  the cached hash stale: the next record is linked past it, or merged with it into one line and
  lost, although it was acknowledged. The chain stays valid, whatever is recorded afterwards, exactly
  when nothing was under way (`ValidAfterDropExactly`), or the very next thing to happen is a
  restart, or a failing write or second drop of the right length (`RecoversExactly`); otherwise it
  may be broken, and then for good (`WholeLineBreaksChain`, `TornLineBreaksChain`, `BrokenForGood`).
- A write that is reported as failed may have its record in the file, so a withheld decision can
  have a record (`OneRecordPerDecision`, `LogDecidesFate`).
- The capacity test of `allocate` adds two machine words; a release build does not check the sum,
  so it wraps (`StepKeepsCapacityExactly`, `OverflowSlipsIn`, `OneWayRunsExactly`). `swap_in` and
  `migrate_to_gpu` test no capacity at all.
- The OOM killer finds an agent's blocks by the prefix of their ids: it takes blocks from agents it
  does not kill exactly when some name has a dash or is a prefix of another (`KillsAreFairExactly`),
  in the repository's own style of names too (`HigherPriorityLosesItsBlock`). The swap phase spares
  agents of equal or higher priority exactly when no name is a prefix of another
  (`SwapPhaseSparesExactly`).
- Padding a text keeps its shingles, and lowers its signature, exactly when the text is empty or has
  a window of words (`PaddingKeepsShinglesExactly`, `PaddingLowersSignatureExactly`).
- An accepted audit that misses a file forgets it: any valid content passes afterwards
  (`AcceptedRoundForgetsExactly`, `MissedRoundUnbindsHistory`).
- A supervisor restart that is pending when its agent is removed hits whatever agent has the id
  afterwards: an id may be reused exactly when no restart is pending (`SpawnKeepsSupervisedExactly`).
  An agent out of restarts stays down exactly when no task of a round is still pending that changes
  it (`ExhaustedStaysFailedExactly`).
- A delegated spawn keeps its id, and is refused when delivered again, only if that id is not 0
  (`DelegatedIdKeptExactly`, `SecondDeliveryIsRefused`); and its id may already be taken on the
  target, where the spawn then fails (`DelegatedSpawnsStayPut`).
- Issuing reads the clock before it takes the limiter's lock, so the bound on accepted tokens holds
  for a full second only when nobody waits for the lock (`AcceptedBoundedExactly`,
  `RacingSamplesExceedTheRate`).
- A revocation of an id that is not in the table lasts exactly until the next collection
  (`EarlyRevocationHoldsExactly`).
- The guard of a request sees the values of its JSON, while the raw payload is forwarded
  (`GuardSeesOnlyTheExtraction`).
- The guarded stream relies on upstream errors being final: after an error while the prefix is
  gathered, later chunks pass uninspected (`UninspectedExactlyAfterResumedError`).

## Model

| member | source | states |
|---|---|---|
| `LineCodec.ParseInvertsSerialize` | crates/capability-security/src/chained_log.rs:199-223 | every record that is written as a line is read back as the same record |
| `LineCodec.RecordRoundTrip` | crates/capability-security/src/chained_log.rs:199-209 | a written record is read back from the front of any longer text, and what follows it is left over |
| `LineCodec.LineInFull` | crates/capability-security/src/chained_log.rs:199-209 | one line in full: the keys and their order, a quote, a newline and another control character escaped |
| `LineCodec.TornLineDoesNotParse` | crates/capability-security/src/chained_log.rs:172-184 | no proper prefix of a line is a record, so a torn line is never mistaken for one |
| `LineCodec.ForeignTextIsNoRecord` | crates/capability-security/src/chained_log.rs:225-244 | no part of a record, nor a whole one, is a record with a text behind it that starts as a record or as U+FFFD does and is never read, as the rest of a string, up to a quote with a comma or a closing brace behind it |
| `LineCodec.SerializeIsPrintable` | crates/capability-security/src/chained_log.rs:199-223 | a line has no byte below 0x20, so no raw newline: one record is one line |
| `LineCodec.SerializeIsValid` | crates/capability-security/src/chained_log.rs:199-223 | a line of valid text is valid UTF-8 |
| `Utf8.LossySplits` | crates/capability-security/src/chained_log.rs:126-140 | lossy decoding works line by line: text before a newline decodes apart from what follows it |
| `Utf8.ValidIsLossless` | crates/capability-security/src/chained_log.rs:131-131 | lossy decoding, used by the tail scan, changes nothing in valid UTF-8 |
| `Utf8.CutText` | crates/capability-security/src/chained_log.rs:172-184 | a write cut short leaves valid text, or text cut inside a character, which decodes to the whole characters before that followed by U+FFFD |
| `Utf8.CutsSafeExactlyForAscii` | crates/capability-security/src/chained_log.rs:251-261 | a text stays valid wherever it is cut if and only if it is pure ASCII |
| `ChainedLog.ReadAgreesWithScan` | crates/capability-security/src/chained_log.rs:251-261 | readers, who decode strictly, and the writer, who decodes lossily, see the same entries in a valid file |
| `ChainedLog.LinesSplit` | crates/capability-security/src/chained_log.rs:251-261 | complete lines are split off without regard to what follows them |
| `ChainedLog.TailScanIsSound` | crates/capability-security/src/chained_log.rs:110-157 | for every file content and every start, a hash found in the tail is the hash a scan of all lines finds, although the first line may be partial and cut inside a character; a tail from 0 is the full scan |
| `ChainedLog.Log.LastHashFromFile` | crates/capability-security/src/chained_log.rs:110-157 | the loop over growing chunks ends and returns the hash of a full scan, the empty hash when there is none |
| `ChainedLog.Log.EndsWithoutNewline` | crates/capability-security/src/chained_log.rs:160-179 | true exactly when the file is not empty and its last byte is not a newline |
| `ChainedLog.Log.OpenWriter` | crates/capability-security/src/chained_log.rs:225-248 | the writer is open exactly when opening and, after a torn last line, the repair succeed; the file then has the missing newline, and a failed repair may have left it too |
| `ChainedLog.Log.Record` | crates/capability-security/src/chained_log.rs:185-248 | one attempt takes file, cached hash and writer to the state of the step relation, for success and for every point of failure; when it succeeds the line it appended has the data it was given, the id of the log, and the hash of the two and the hash before |
| `ChainedLog.Log.RecordDropped` | crates/capability-security/src/chained_log.rs:185-248 | the same call abandoned at one of its awaits: the bytes that landed are the beginning of such a line, the writer stays open and the cached hash stays old |
| `ChainedLog.Log.Entries` | crates/capability-security/src/chained_log.rs:251-261 | returns the entries of the lines that parse, in order, and none at all when the file is not valid UTF-8 |
| `ChainedLog.Log.Validate` | crates/capability-security/src/chained_log.rs:267-283 | true exactly when every entry carries the hash of itself linked to its predecessor, the first to the empty hash |
| `CrashRuns.TornScan` | crates/capability-security/src/chained_log.rs:172-184 | scanning an unfinished line finds its entry exactly when the whole JSON text is there, and a newline after it makes no difference |
| `CrashRuns.RepairChangesNoEntry` | crates/capability-security/src/chained_log.rs:172-184 | ending the last line with a newline neither adds nor loses an entry, in whatever file a run leaves behind |
| `CrashRuns.AppendKeepsEntries` | crates/capability-security/src/chained_log.rs:199-248 | writing any prefix of a line adds its entry exactly when the whole JSON text got in |
| `CrashRuns.RecordKeepsGood` | crates/capability-security/src/chained_log.rs:185-248 | every attempt to record, successful or torn anywhere, keeps the invariant: the file holds the survivors, they form a chain, a cached hash is that of the last one, and an open writer means complete lines |
| `CrashRuns.CrashSafety` | crates/capability-security/src/chained_log.rs:185-248 | after every run of records, failures at any byte and restarts, the entries in the file are exactly the survivors, they form a valid chain, and the next record links to the last survivor |
| `CrashRuns.AcknowledgedRecordsSurvive` | crates/capability-security/src/chained_log.rs:185-248 | an acknowledged record is never lost by anything that happens later |
| `CrashRuns.FileSaysWhatWasAsked` | crates/capability-security/src/chained_log.rs:185-248 | after every run the entries in the file have, in order, exactly the data handed to the attempts whose whole JSON got in, and all carry the id of the log |
| `CrashRuns.AcknowledgedRecordIsThere` | crates/capability-security/src/chained_log.rs:185-248 | an acknowledged record is in the file after everything that happens later, right behind the entries that were there before it, with exactly the data it was given |
| `CrashRuns.SurvivorsGrow` | crates/capability-security/src/chained_log.rs:185-248 | the survivors at one moment are a prefix of the survivors at any later moment |
| `CrashRuns.FileValidity` | crates/capability-security/src/chained_log.rs:251-261 | the file is valid UTF-8 exactly when no torn write was cut inside a character |
| `CrashRuns.ReadersSeeSurvivors` | crates/capability-security/src/chained_log.rs:251-283 | readers see the survivors if and only if no torn write was cut inside a character or nothing survived; otherwise they see an empty log, which `validate` accepts |
| `CrashRuns.NextWriteSafeExactlyForAscii` | crates/capability-security/src/chained_log.rs:185-283 | after a readable run, readers keep seeing the survivors whatever happens to the next write if and only if its entry is pure ASCII or nothing survived so far |
| `CrashRuns.AsciiRunsAreAligned` | crates/capability-security/src/chained_log.rs:185-283 | when everything recorded is ASCII no torn write is ever cut inside a character |
| `DroppedRecords.DropAndRestartIsAFailedWrite` | crates/capability-security/src/chained_log.rs:227-244 | a call dropped with bytes of its line under way, followed by a restart, is a failed write of the same bytes |
| `DroppedRecords.TornPairHoldsNothing` | crates/capability-security/src/chained_log.rs:225-244 | a torn record with part of another line, or a whole one, behind it holds no record, ended or not |
| `DroppedRecords.MendKeepsGood` | crates/capability-security/src/chained_log.rs:185-248 | what follows a drop and mends it (a restart; a failing write, before its whole JSON text is in if the dropped line is in whole; or, if that is not, a second drop that gets a whole line in) restores the invariant, with the dropped record kept exactly when its line is in, or its JSON text is with nothing written behind it |
| `DroppedRecords.SettledRunsAreSafe` | crates/capability-security/src/chained_log.rs:185-248 | crash safety for runs with dropped calls as well: when each drop that left bytes is followed by a happening that mends it, the file holds exactly the records whose whole JSON got in, dropped ones only if nothing was written right behind their text, as a valid chain, and the next record links to the last |
| `DroppedRecords.SettledFileSaysWhatWasAsked` | crates/capability-security/src/chained_log.rs:185-248 | after a settled run the entries in the file come, in order, from different calls, each with the data of its call and the id of the log |
| `DroppedRecords.ValidAfterDropExactly` | crates/capability-security/src/chained_log.rs:187-246 | after a settled run and a dropped call, the chain stays valid whatever is recorded and restarted afterwards, if and only if no byte of the line was under way |
| `DroppedRecords.RecoversExactly` | crates/capability-security/src/chained_log.rs:187-246 | after a settled run, a call dropped with bytes under way, and one more happening of any kind, the chain stays valid whatever is recorded and restarted afterwards if and only if that happening mends the drop |
| `DroppedRecords.WholeLineBreaksChain` | crates/capability-security/src/chained_log.rs:227-246 | when the whole line of the dropped call landed, the next acknowledged record is linked past it and the chain is invalid |
| `DroppedRecords.TornLineBreaksChain` | crates/capability-security/src/chained_log.rs:227-246 | when part of it landed, the next record is acknowledged but not in the file, and the one acknowledged after it leaves an invalid chain in complete lines |
| `DroppedRecords.BrokenForGood` | crates/capability-security/src/chained_log.rs:267-283 | an invalid chain in complete lines is invalid after every continuation |
| `AuditCheckpoints.HashCommitsToEntry` | crates/capability-security/src/audit.rs:58-69 | the hashed text determines the entry and the previous hash, although they are concatenated without a separator |
| `AuditCheckpoints.LastHashCommits` | crates/capability-security/src/chained_log.rs:267-283 | two chains that validate and end in the same hash are equal |
| `AuditCheckpoints.ChainPrefix` | crates/capability-security/src/chained_log.rs:267-283 | a prefix of a valid chain is a valid chain |
| `AuditCheckpoints.VerifyChainChecked` | crates/capability-security/src/verify_report.rs:233-262 | the report and the fresh checkpoint for one file: invalid when unreadable or broken, truncated when it has fewer hashes than the checkpoint, rewritten when the recorded hash occurs nowhere in it |
| `AuditCheckpoints.ReportExactly` | crates/capability-security/src/verify_report.rs:233-262 | a report names its file, counts the entries read, is valid exactly when it has no error, and has each of the four errors exactly when: no file; links that do not hold; fewer entries than recorded; the recorded hash in none of them |
| `AuditCheckpoints.AuditCheckpoint.Find` | crates/capability-security/src/verify_report.rs:188-190 | the first entry for a file name, none when there is none |
| `AuditCheckpoints.AuditCheckpoint.Upsert` | crates/capability-security/src/verify_report.rs:193-199 | replaces the entry of its file or appends it |
| `AuditCheckpoints.FindAfterUpsert` | crates/capability-security/src/verify_report.rs:188-199 | find after upsert returns the new entry for its file and the old answer for every other file |
| `AuditCheckpoints.FreshOfValid` | crates/capability-security/src/verify_report.rs:233-262 | the fresh checkpoint of a valid chain records its length and its last hash |
| `AuditCheckpoints.AcceptedExactlyIfExtended` | crates/capability-security/src/verify_report.rs:233-262 | against a checkpoint of a valid log a file is accepted if and only if it holds a valid chain that has that log as a prefix |
| `AuditCheckpoints.OwnHistoryIsAccepted` | crates/capability-security/src/verify_report.rs:233-262 | what a run leaves behind is accepted against a checkpoint of an earlier moment of the run if and only if no torn write was cut inside a character or the earlier log was empty |
| `AuditCheckpoints.VerifyReport.Push` | crates/capability-security/src/verify_report.rs:74-80 | adds a chain and keeps validity the conjunction, and the total the sum, over all chains |
| `AuditCheckpoints.VerifyReport.EmptyLogWarning` | crates/capability-security/src/verify_report.rs:97-107 | warns exactly when the total is 0; in a report filled by pushes that means no chain has an entry |
| `AuditCheckpoints.VerifyAudit` | crates/ai-gateway/src/main.rs:494-569 | checks every file against the saved checkpoints and replaces them only when there are files and all were accepted |
| `AuditCheckpoints.AcceptedRoundSaves` | crates/ai-gateway/src/main.rs:557-569 | an accepted round leaves, for each file, a checkpoint of exactly the entries it read |
| `AuditCheckpoints.AcceptedRoundForgetsExactly` | crates/ai-gateway/src/main.rs:557-569 | an accepted round drops the checkpoint of a file if and only if it does not see the file; the file is then judged by its own chain alone |
| `AuditCheckpoints.BaselineGrows` | crates/ai-gateway/src/main.rs:494-569 | as long as every accepted round since then sees the file, what an accepted round read is a prefix of what the saved checkpoint stands for, whatever came before it and through rejected rounds of any kind |
| `AuditCheckpoints.AcceptedAuditsSawOnlyGrowth` | crates/ai-gateway/src/main.rs:494-569 | in any series of audits, what one accepted audit read of a file is a prefix of what a later accepted one read, if the accepted rounds from the one to the other all see the file |
| `AuditCheckpoints.MissedRoundUnbindsHistory` | crates/ai-gateway/src/main.rs:494-569 | after an accepted round that misses a file, an audit accepts any content of the file that is valid on its own |
| `AuditCheckpoints.NextContentAcceptedExactly` | crates/ai-gateway/src/main.rs:494-569 | with one accepted round between two audits of a file, the second accepts a content if and only if it is valid on its own and, unless that round missed the file, has what it read as a prefix |
| `Mix64.MixBijective` | crates/extraction-det/src/minhash.rs:23-29 | the splitmix64 finaliser is a bijection on 64-bit words: an explicit inverse undoes it on both sides |
| `Mix64.MixInjective` | crates/extraction-det/src/minhash.rs:23-29 | two words with the same mix are equal |
| `Mix64.AbsorbInverts` | crates/extraction-det/src/minhash.rs:33-40 | one FNV-1a step can be undone in the accumulator and in the byte |
| `MinHash.HashStr` | crates/extraction-det/src/minhash.rs:33-40 | the loop over bytes computes the mixed FNV-1a fold of the string |
| `MinHash.FnvSeparatesOneChange` | crates/extraction-det/src/minhash.rs:33-40 | the fold never confuses two inputs that differ in exactly one position |
| `MinHash.HashSeparatesOneChange` | crates/extraction-det/src/minhash.rs:33-40 | two strings of equal length that differ in exactly one byte have different hashes |
| `MinHash.PaddingKeepsShingles` | crates/extraction-det/src/minhash.rs:89-101 | a text of at least one window keeps all its shingles when words are added before or after it |
| `MinHash.PaddingKeepsShinglesExactly` | crates/extraction-det/src/minhash.rs:89-101 | a text keeps all its shingles, whatever words are added before and after it, if and only if it is empty or has at least one window of words |
| `MinHash.PaddingLowersSignature` | crates/extraction-det/src/minhash.rs:89-126 | an empty text, or one of at least one window, has, once padded, a signature at or below the original at every position |
| `MinHash.PaddingLowersSignatureExactly` | crates/extraction-det/src/minhash.rs:89-126 | that holds for every padding and all seeds if and only if the text is empty or has at least one window of words |
| `MinHash.ShinglesAreWindows` | crates/extraction-det/src/minhash.rs:89-101 | a text of at least one window has one shingle for each window, in order, the hash of its words with the separator between them; a shorter one has one, an empty one none |
| `MinHash.JoinTellsWordsApart` | crates/extraction-det/src/minhash.rs:89-101 | equally many words that do not contain the separator are joined alike only if they are the same words |
| `MinHash.SeedsTellApart` | crates/extraction-det/src/minhash.rs:115-126 | two seeds rank a shingle alike if and only if they are the same |
| `MinHash.MinRankIsLeast` | crates/extraction-det/src/minhash.rs:115-126 | a signature word is below every hash and is one of them, or all ones when there is no shingle |
| `MinHash.SignatureDependsOnSet` | crates/extraction-det/src/minhash.rs:115-126 | order and repetition of shingles do not matter |
| `MinHash.SignatureOfUnion` | crates/extraction-det/src/minhash.rs:115-126 | the signature of a union is the pointwise minimum |
| `MinHash.UniqueMinimiserExists` | crates/extraction-det/src/minhash.rs:115-126 | over a non-empty union each hash function has exactly one minimiser |
| `MinHash.MinHashTheorem` | crates/extraction-det/src/minhash.rs:115-138 | for non-empty sets the signatures agree at a position if and only if the unique minimiser over the union lies in both sets |
| `MinHash.ScoreSamplesIntersection` | crates/extraction-det/src/minhash.rs:132-138 | the similarity is exactly the share of positions whose minimiser is a shared shingle |
| `MinHash.DisjointSetsScoreZero` | crates/extraction-det/src/minhash.rs:132-138 | non-empty sets without a common shingle score exactly 0 |
| `MinHash.EqualSetsScoreOne` | crates/extraction-det/src/minhash.rs:132-138 | equal sets score exactly 1 |
| `LshBands.BandKeys` | crates/extraction-det/src/minhash.rs:151-164 | one key for each chunk of the signature, in order: its index in 32 bits and the mixed fold of its words |
| `LshBands.KeysTellTheirBand` | crates/extraction-det/src/minhash.rs:151-164 | each key carries the index of its band; with at most 2^32 bands the keys of a signature are all different, and one signature has a key of another only at the same band |
| `LshBands.CommonKeyIsShared` | crates/extraction-det/src/minhash.rs:151-164 | two signatures have a key in common if and only if bands of the same index have the same hash |
| `LshBands.WidthIsLeast` | crates/extraction-det/src/minhash.rs:151-154 | the bands are the narrowest of which the given number is enough |
| `LshBands.ChunksPartition` | crates/extraction-det/src/minhash.rs:151-164 | the chunks concatenate to the signature; there are ceil(n / width), each of 1 to width words |
| `LshBands.BandCount` | crates/extraction-det/src/minhash.rs:151-164 | there are ceil(n / ceil(n / bands)) keys, at most `bands` (at least one) |
| `LshBands.DifferingBandsBound` | crates/extraction-det/src/minhash.rs:151-164 | at most as many chunks differ as positions do |
| `LshBands.NearSignaturesShareKey` | crates/extraction-det/src/minhash.rs:151-164 | signatures that differ in fewer positions than there are keys share a key at the same band index |
| `LshBands.SharedKeyExactly` | crates/extraction-det/src/minhash.rs:151-164 | that bound is the exact one: all signatures of a length that differ in at most d positions share a key if and only if d is less than the number of keys |
| `LshBands.OneChangedWordChangesKey` | crates/extraction-det/src/minhash.rs:151-164 | bands that differ in exactly one word have different keys |
| `LshBands.SingleWordBandsAreExact` | crates/extraction-det/src/minhash.rs:151-164 | with one word a band, keys agree at a band if and only if the signatures agree there |
| `GpuPool.GpuMemoryPool.UsedBytes` | crates/compute-scheduler/src/gpu_pool.rs:343-351 | the sum of the resident blocks, whatever order they are visited in |
| `GpuPool.GpuMemoryPool.HasCapacity` | crates/compute-scheduler/src/gpu_pool.rs:325-333 | true exactly when the sum in machine arithmetic stays within the capacity |
| `GpuPool.GpuMemoryPool.Allocate` | crates/compute-scheduler/src/gpu_pool.rs:144-199 | places the block as the newest, or fails leaving everything as it was; the capacity test wraps at 2^64 |
| `GpuPool.GpuMemoryPool.Deallocate` | crates/compute-scheduler/src/gpu_pool.rs:202-229 | the block is marked freed and nothing else changes; an unknown id is an error |
| `GpuPool.GpuMemoryPool.Offload` | crates/compute-scheduler/src/gpu_pool.rs:232-277 | the transition shared by swap-out and migration to the CPU |
| `GpuPool.GpuMemoryPool.SwapOut` | crates/compute-scheduler/src/gpu_pool.rs:396-445 | a resident block moves to the host; any other state is left alone |
| `GpuPool.GpuMemoryPool.MigrateToCpu` | crates/compute-scheduler/src/gpu_pool.rs:232-277 | the same for migration |
| `GpuPool.GpuMemoryPool.SwapIn` | crates/compute-scheduler/src/gpu_pool.rs:448-505 | a swapped block becomes resident again without a capacity test |
| `GpuPool.GpuMemoryPool.MigrateToGpu` | crates/compute-scheduler/src/gpu_pool.rs:280-321 | the same for a migrated block |
| `GpuPool.GpuMemoryPool.SwapUntil` | crates/compute-scheduler/src/gpu_pool.rs:535-560 | the swap loop evicts exactly the shortest sufficient prefix of the candidates |
| `GpuPool.GpuMemoryPool.AllocateWithAutoSwap` | crates/compute-scheduler/src/gpu_pool.rs:508-576 | succeeds exactly when the block fits at once, or enough is swapped out and it fits then, with the state of the specification |
| `GpuPool.EvictedTotals` | crates/compute-scheduler/src/gpu_pool.rs:396-445 | evicting moves exactly the named resident bytes from allocated to swapped |
| `GpuPool.AutoSwapExact` | crates/compute-scheduler/src/gpu_pool.rs:508-576 | within capacity, auto-swap succeeds if and only if the block fits at once or the distinct resident candidates hold at least the request, and the retry never fails; over capacity, if and only if the excess is swapped out too |
| `GpuPool.AutoSwapEvictsShortestPrefix` | crates/compute-scheduler/src/gpu_pool.rs:522-576 | no shorter prefix of the candidates would have been enough; the resident blocks in it become swapped, with a zeroed host buffer of their size, the new block is resident, and nothing else changes |
| `GpuPool.DefaultVictimsAreNewest` | crates/compute-scheduler/src/gpu_pool.rs:520-529 | without given candidates the victims are the shortest sufficient stretch at the end of the order of use, newest first |
| `GpuPool.FailedAutoSwapConserves` | crates/compute-scheduler/src/gpu_pool.rs:508-576 | a failed auto-swap leaves allocated plus swapped bytes unchanged |
| `GpuPoolRuns.StepKeepsCapacityExactly` | crates/compute-scheduler/src/gpu_pool.rs:144-576 | an operation keeps used <= capacity if and only if a condition the caller can check beforehand holds: no block slips in through the wrapped test, counting the replaced block as free, and one brought back finds room |
| `GpuPoolRuns.RunsStayWithinCapacity` | crates/compute-scheduler/src/gpu_pool.rs:144-576 | used <= capacity at every point of a run whose steps meet the condition |
| `GpuPoolRuns.OneWayRunsStayWithinCapacity` | crates/compute-scheduler/src/gpu_pool.rs:144-576 | without swap-in and migration to the GPU no run exceeds the capacity, as long as no request overflows a machine word when added to the capacity |
| `GpuPoolRuns.OverflowSlipsIn` | crates/compute-scheduler/src/gpu_pool.rs:144-207 | a request that fills up the machine word exactly is let in and leaves a full word allocated, more than any capacity |
| `GpuPoolRuns.OneWayRunsExactly` | crates/compute-scheduler/src/gpu_pool.rs:144-576 | with requests of at most a given size, all runs without swap-in and migration to the GPU stay within the capacity if and only if that size does not overflow a machine word when added to the capacity |
| `GpuPoolRuns.OrderOfUseIsOrderOfPlacing` | crates/compute-scheduler/src/gpu_pool.rs:144-576 | over every run from an empty pool the order of use is the order in which blocks were last placed, by allocation or by swap-in, and holds just the blocks ever placed |
| `GpuPoolRuns.NewestIsPlacedLast` | crates/compute-scheduler/src/gpu_pool.rs:522-576 | so the first default victim is the block that was placed last |
| `GpuPoolRuns.OffloadRoundTrip` | crates/compute-scheduler/src/gpu_pool.rs:232-505 | swap-out then swap-in, or migration there and back, restores the block whatever happened to other ids in between |
| `GpuOom.GpuBudgetController.RegisterAgent` | crates/compute-scheduler/src/budget.rs:116-145 | an agent is registered with no usage, replacing an earlier entry |
| `GpuOom.GpuBudgetController.UnregisterAgent` | crates/compute-scheduler/src/budget.rs:200-209 | the agent is dropped |
| `GpuOom.GpuOomKiller.BlockIdsForAgent` | crates/compute-scheduler/src/gpu_pool.rs:600-607 | the blocks whose id starts with the agent id, and no others |
| `GpuOom.GpuOomKiller.UsedBytesForAgent` | crates/compute-scheduler/src/gpu_pool.rs:620-628 | the resident bytes of those blocks, summed up in machine words |
| `GpuOom.GpuOomKiller.OwnerNamesOf` | crates/compute-scheduler/src/gpu_pool.rs:631-641 | the names that precede the first dash of a block id |
| `GpuOom.OwnerNameIsPrefix` | crates/compute-scheduler/src/gpu_pool.rs:631-641 | such a name has no dash and is followed by one, or is the whole id |
| `GpuOom.PreemptableExactly` | crates/compute-scheduler/src/gpu_oom.rs:142-180 | who may be swapped out for whom, class by class; a requester that is not registered counts as normal |
| `GpuOom.GpuOomKiller.GetSwapCandidates` | crates/compute-scheduler/src/gpu_oom.rs:142-180 | all resident blocks of agents of strictly lower priority, lower priorities first, and no others |
| `GpuOom.GpuOomKiller.GetKillCandidates` | crates/compute-scheduler/src/gpu_oom.rs:183-235 | all killable agents by priority, then by usage, cut to the shortest prefix that covers the request |
| `GpuOom.KillOrder` | crates/compute-scheduler/src/gpu_oom.rs:183-235 | the kill list goes by class, lowest first, and by usage within a class, largest first; an owner that is not registered counts as a batch agent |
| `GpuOom.CoverRequest` | crates/compute-scheduler/src/gpu_oom.rs:223-234 | the loop that cuts the list: enough bytes or the whole list, and no shorter prefix is enough |
| `GpuOom.GpuOomKiller.Kill` | crates/compute-scheduler/src/gpu_oom.rs:111-116 | all blocks named after the agent are freed and its budget dropped |
| `GpuOom.GpuOomKiller.SwapActions` | crates/compute-scheduler/src/gpu_oom.rs:86-97 | reports exactly the listed blocks that are swapped out, for each registered agent they are named after |
| `GpuOom.GpuOomKiller.KillUntilPlaced` | crates/compute-scheduler/src/gpu_oom.rs:108-138 | kills the candidates in turn: as many as it takes to make the block fit, or all of them in vain |
| `GpuOom.GpuOomKiller.Allocate` | crates/compute-scheduler/src/gpu_oom.rs:71-139 | both phases, exactly: success means the block is resident under its id, failure that all candidates were killed in vain; used <= capacity is kept unless the request overflows when added to the capacity |
| `GpuOom.SwapOutcome` | crates/compute-scheduler/src/gpu_oom.rs:79-106 | auto-swap keeps blocks under their own names and used <= capacity |
| `GpuOom.KillOutcome` | crates/compute-scheduler/src/gpu_oom.rs:108-138 | so do the kills and the placement after them |
| `GpuOom.SwapPhaseSparesEquals` | crates/compute-scheduler/src/gpu_oom.rs:142-180 | with prefix-free agent ids the swap phase touches only blocks of strictly lower-priority agents, never the requester's |
| `GpuOom.SwapPhaseSparesExactly` | crates/compute-scheduler/src/gpu_oom.rs:142-180 | among a set of names every list of swap candidates, whatever is registered and resident, has only blocks that belong to agents of strictly lower priority, if and only if no name is a prefix of another |
| `GpuOom.PrefixIsSwappedForItself` | crates/compute-scheduler/src/gpu_oom.rs:142-180 | an agent whose name extends that of a lower-priority one may have its own block swapped out by its own request: a list for every such pair |
| `GpuOom.SwapPhaseInOrder` | crates/compute-scheduler/src/gpu_oom.rs:142-180 | blocks are evicted in the order of the list, from its start, so a victim is listed under an agent of no higher priority than any listed block that is spared |
| `GpuOom.SwapPhaseLowestFirst` | crates/compute-scheduler/src/gpu_oom.rs:142-180 | with prefix-free registered ids, no block is evicted while a listed block of a lower-priority agent stays resident |
| `GpuOom.KillsHitOnlyVictims` | crates/compute-scheduler/src/gpu_oom.rs:108-138 | with prefix-free names a block is freed if and only if the one agent it is named after was killed |
| `GpuOom.KillsAreFairExactly` | crates/compute-scheduler/src/gpu_oom.rs:108-138 | for a set of agent names the kill phase takes blocks from killed agents only, whatever is registered and resident, if and only if no name has a dash and none is a prefix of another |
| `GpuOom.PrefixIsUnfair` | crates/compute-scheduler/src/gpu_pool.rs:600-607 | an agent whose name extends another's loses its block when the other is killed: a run of the kill phase for every such pair |
| `GpuOom.DashedNameIsUnfair` | crates/compute-scheduler/src/gpu_pool.rs:631-641 | an agent with a dash in its name loses its block when the part before the dash is killed: a run of the kill phase for every such name |
| `GpuOom.HigherPriorityLosesItsBlock` | crates/compute-scheduler/src/gpu_oom.rs:71-139 | a call for agent-b frees the block of the higher-priority agent-a and reports agent as killed |
| `GpuOom.KilledPrefixIsLowest` | crates/compute-scheduler/src/gpu_oom.rs:183-235 | no agent is killed while a killable agent of lower priority is spared |
| `GpuOom.DashedAgentFallsWithItsStem` | crates/compute-scheduler/src/gpu_pool.rs:631-641 | in any pool, a resident block of an agent with a dash makes the part before the dash a candidate of lowest priority; killing that frees the block |
| `Supervisor.AgentScheduler.SpawnAgent` | crates/agent-scheduler/src/scheduler.rs:298-321 | inserts the agent under its id, or under a new one when it has id 0, Running at once when it was Creating with a target; fails on an id in use |
| `Supervisor.AgentScheduler.AllocateAgentId` | crates/agent-scheduler/src/scheduler.rs:287-292 | the counter is returned and advanced, saturating |
| `Supervisor.AgentScheduler.PauseAgent` | crates/agent-scheduler/src/scheduler.rs:858-881 | Running becomes Paused; other states and unknown ids are errors |
| `Supervisor.AgentScheduler.ResumeAgent` | crates/agent-scheduler/src/scheduler.rs:884-902 | Paused becomes Running; other states and unknown ids are errors |
| `Supervisor.AgentScheduler.TerminateAgent` | crates/agent-scheduler/src/scheduler.rs:905-925 | the agent is removed; an unknown id is an error |
| `Supervisor.AgentScheduler.FailAgent` | crates/agent-scheduler/src/scheduler.rs:928-943 | the agent becomes Failed from any state; an unknown id is an error |
| `Supervisor.AgentScheduler.PlacementResponse` | crates/agent-scheduler/src/scheduler.rs:809-843 | a refusal makes the agent Failed, an acceptance places it and starts it when it was Creating; an unknown id is ignored |
| `Supervisor.SupervisorService.StartRound` | crates/agent-scheduler/src/supervisor.rs:116-147 | a round takes one task from the snapshot of every agent that needs one |
| `Supervisor.SupervisorService.BeginRestart` | crates/agent-scheduler/src/supervisor.rs:73-84 | first lock section of a restart |
| `Supervisor.SupervisorService.FinishRestart` | crates/agent-scheduler/src/supervisor.rs:89-99 | second lock section of a restart, after the pause |
| `Supervisor.SupervisorService.ResetCounter` | crates/agent-scheduler/src/supervisor.rs:102-107 | the counter of an agent seen Running goes back to 0 |
| `Supervisor.StepKeepsSupervised` | crates/agent-scheduler/src/supervisor.rs:39-147 | every atomic section of the scheduler and of the supervisor keeps the invariant, a spawn if and only if it is refused or brings an agent within the maximum of restarts that suits the task pending under its id |
| `Supervisor.RunsAreSupervised` | crates/agent-scheduler/src/supervisor.rs:39-147 | every interleaving of them whose spawns meet that condition keeps it |
| `Supervisor.RunsAreSupervisedExactly` | crates/agent-scheduler/src/supervisor.rs:39-147 | the invariant holds at every point of an interleaving if and only if each of its spawns meets that condition |
| `Supervisor.ReachableStatesAreSupervised` | crates/agent-scheduler/src/supervisor.rs:39-147 | in every state reached from an empty table with such spawns restart steps find their agent Failed, then Restarting or Failed; each Restarting agent has its one finish step pending; no agent exceeds the maximum of restarts |
| `Supervisor.SupervisorMovesOnlyFailing` | crates/agent-scheduler/src/supervisor.rs:39-147 | where the invariant holds the supervisor never moves a Creating, Running, Paused or Terminating agent, and counts a restart only for a Failed agent below the maximum |
| `Supervisor.RestartsAreCounted` | crates/agent-scheduler/src/supervisor.rs:73-107 | while an agent lives and its count is not reset, the count grows by exactly the number of its restarts, in every interleaving |
| `Supervisor.RestartsAreBounded` | crates/agent-scheduler/src/supervisor.rs:39-107 | so in an interleaving whose spawns meet that condition an agent is restarted at most the maximum of times between two resets, and then the next failure leaves it out of restarts |
| `Supervisor.RoundCares` | crates/agent-scheduler/src/supervisor.rs:39-147 | one undisturbed round brings a Failed agent with restarts left back to Running with one more counted, resets the count of a Running one, and leaves any other as it is |
| `Supervisor.SpawnKeepsSupervisedExactly` | crates/agent-scheduler/src/supervisor.rs:73-100 | spawning a new agent under a free id keeps the invariant if and only if no restart of an earlier agent with that id is pending |
| `Supervisor.NewAgentDisturbedExactly` | crates/agent-scheduler/src/supervisor.rs:73-100 | a new agent that waits for placement is moved by a supervisor step if and only if such a restart is pending |
| `Supervisor.ExhaustedStaysFailed` | crates/agent-scheduler/src/supervisor.rs:39-70 | an agent out of restarts, with no task pending that would change it, stays Failed with its count through all events but its termination |
| `Supervisor.ExhaustedStaysFailedExactly` | crates/agent-scheduler/src/supervisor.rs:39-107 | an agent out of restarts stays Failed with its count through all events but its termination if and only if no task of its id is pending, or only the reset of a count that is 0 |
| `Supervisor.ReusedIdIsRestarted` | crates/agent-scheduler/src/supervisor.rs:73-100 | a run in which a pending restart hits a new agent that took over the id |
| `Delegation.Node.UpsertRemoteNode` | crates/agent-scheduler/src/scheduler.rs:266-269 | the node is stored under its id |
| `Delegation.Node.AllocateAgentId` | crates/agent-scheduler/src/scheduler.rs:287-292 | the counter is returned and advanced |
| `Delegation.Node.SelectRemoteNode` | crates/agent-scheduler/src/scheduler.rs:374-403 | an eligible node, none better in trust and then in free slots; none exactly when no node is eligible |
| `Delegation.Node.SpawnAgent` | crates/agent-scheduler/src/scheduler.rs:298-321 | registers the id, or a new one in place of id 0, or fails when it is in use |
| `Delegation.Node.RouteSpawn` | crates/agent-scheduler/src/scheduler.rs:618-747 | the outcome of routing a spawn is one the declarative relation allows, with the new state |
| `Delegation.RoutingLoopUnreachable` | crates/agent-scheduler/src/scheduler.rs:334-359 | routing never reports the routing-loop error: an intent that would cause it is dropped first |
| `Delegation.HandsOnExactly` | crates/agent-scheduler/src/scheduler.rs:325-372 | a spawn is handed on, or fails for want of a node or a bus, if and only if it has no target, remote spawning is on and the agents reach the given percentage of the maximum, which may be 0 |
| `Delegation.HandedOnSays` | crates/agent-scheduler/src/scheduler.rs:374-446 | it goes to another node with free slots, trusted enough and fit for the workload, the most trusted of those and with the most slots among equals; the message names target, sender, first origin, id and workload |
| `Delegation.WorkloadSaid` | crates/agent-scheduler/src/scheduler.rs:406-446 | the workload is what the payload says, else its profile, else the metadata; unknown words and none mean a small model |
| `Delegation.CounterAfterRouting` | crates/agent-scheduler/src/scheduler.rs:618-747 | the id counter moves on by one exactly when routing gives an id out |
| `Delegation.HandOverKeepsWorkload` | crates/agent-scheduler/src/scheduler.rs:406-446 | the receiving node reads the same workload out of a delegated intent |
| `Delegation.EventKeepsBus` | crates/agent-scheduler/src/scheduler.rs:406-446 | every event keeps each message addressed to a node other than its sender, with an agent id |
| `Delegation.DelegatedSpawnsStayPut` | crates/agent-scheduler/src/scheduler.rs:618-747 | over every run of the network a delegated spawn is never delegated again, is ignored everywhere but on its target, and is spawned there under its id, or under a new one for id 0, unless that is taken |
| `Delegation.DelegatedIdKeptExactly` | crates/agent-scheduler/src/scheduler.rs:298-301 | it keeps the id it was sent with if and only if that id is not 0 |
| `Delegation.ZeroIdSpawnsTwice` | crates/agent-scheduler/src/scheduler.rs:298-301 | a message with id 0 spawns one more agent on every delivery |
| `Delegation.ZeroIdsComeFromOutside` | crates/agent-scheduler/src/scheduler.rs:730-738 | a node hands over id 0 if and only if the intent already carried it |
| `Delegation.SecondDeliveryIsRefused` | crates/agent-scheduler/src/scheduler.rs:298-321 | a second delivery of one message is refused if and only if its id is not 0 or the next new id is taken |
| `RateLimiter.IssueLimiter.Admit` | crates/capability-security/src/lib.rs:191-208 | the lock section, for a time sampled any while before it: the queue is pruned by that time, and the attempt passes exactly when the queue holds at most the maximum |
| `RateLimiter.IssueLimiter.Collect` | crates/capability-security/src/lib.rs:282-304 | every queue is pruned and the empty ones are dropped |
| `RateLimiter.PruneAdvancesWindow` | crates/capability-security/src/lib.rs:191-208 | pruning the window of an earlier time gives the window of a later one |
| `RateLimiter.AcceptedBoundedExactly` | crates/capability-security/src/lib.rs:191-220 | every window of a given length has at most the maximum of accepted attempts of a scope, in all schedules whose attempts wait at most so long between sample and lock, if and only if length and wait together do not exceed one second |
| `RateLimiter.RacingSamplesExceedTheRate` | crates/capability-security/src/lib.rs:191-208 | two attempts that reach the lock in the other order of their samples let three pass in one second with a maximum of 2 |
| `RateLimiter.QueueIsWindow` | crates/capability-security/src/lib.rs:191-208 | when samples reach the lock in order, each queue is exactly the attempts of its scope in the second before its last pruning |
| `RateLimiter.AdmittedInOrderExactly` | crates/capability-security/src/lib.rs:191-208 | then an attempt passes if and only if its scope had, with it, at most the maximum of attempts in the last second |
| `Capability.ConstantTimeEq` | crates/capability-security/src/lib.rs:95-101 | the accumulator loop decides equality |
| `Capability.CapabilityManager.IssueToken` | crates/capability-security/src/lib.rs:191-220 | every attempt counts for the limiter; the token is stored only with its audit entry written, and refused as rate-limited exactly when the limiter does not pass it |
| `Capability.CapabilityManager.RevokeToken` | crates/capability-security/src/lib.rs:224-242 | the id is remembered as revoked even when the audit entry cannot be written |
| `Capability.CapabilityManager.GarbageCollect` | crates/capability-security/src/lib.rs:282-304 | expired tokens go, and revocations of ids that are no longer in the table |
| `Capability.CapabilityManager.Validate` | crates/capability-security/src/lib.rs:340-407 | the answer is the policy decision on the stored token, refused for a revoked, unknown or expired token or a wrong secret |
| `Capability.CapabilityManager.DecisionFor` | crates/capability-security/src/lib.rs:410-478 | the same for the decision interface |
| `Capability.CapabilityManager.AuthorizeToken` | crates/capability-security/src/lib.rs:314-337 | the same for a token brought by the caller, whose validity is read twice |
| `Capability.AllowedExactly` | crates/capability-security/src/policy.rs:58-81 | for all three answers exactly what is allowed: an unexpired token that is not revoked, has the secret that was shown and lists the capability, a policy that lists it too, and the token's own scope, a global one, or a permissive default |
| `Capability.AllowedWasGranted` | crates/capability-security/src/lib.rs:191-478 | over every history from an empty table an allowed request goes back to an issue of a token with that secret, capability and scope, unexpired and not revoked since unless its id was issued again |
| `Capability.RevokedStaysDead` | crates/capability-security/src/lib.rs:224-304 | from its revocation on, a token is remembered as revoked or has expired, across garbage collection |
| `Capability.RevocationIsPermanent` | crates/capability-security/src/lib.rs:224-478 | every later validate, decision or authorize of a revoked token denies, wherever its reads of table, revocations and clock fall |
| `Capability.EarlyRevocationRememberedExactly` | crates/capability-security/src/lib.rs:224-304 | an id revoked while it is not in the table is remembered if and only if no collection ran since, as long as it is neither issued nor revoked again |
| `Capability.EarlyRevocationHoldsExactly` | crates/capability-security/src/lib.rs:191-304 | a revocation that comes before the issue holds at every later moment if and only if no collection ran in between or the token was born expired |
| `StreamGuard.GuardedStream.Next` | crates/ai-gateway/src/proxy.rs:305-364 | one poll of the stream: gathers, inspects and releases as the specification says |
| `StreamGuard.GatherSplits` | crates/ai-gateway/src/proxy.rs:308-325 | when upstream errors are final, gathering loses no byte and stops at the prefix length, at the end of the stream or at an error |
| `StreamGuard.GatherStopsEarliest` | crates/ai-gateway/src/proxy.rs:308-325 | the prefix is the fewest whole chunks that hold the prefix length, or all before the end or the first error; what is behind is left upstream |
| `StreamGuard.RelayHasData` | crates/ai-gateway/src/proxy.rs:339-364 | after the prefix chunks come out as they are and errors as upstream errors, one by one |
| `StreamGuard.DrainedOutput` | crates/ai-gateway/src/proxy.rs:290-364 | everything a consumer gets by polling to the end, by the outcome of gathering and inspection |
| `StreamGuard.GuardDecides` | crates/ai-gateway/src/proxy.rs:247-364 | what the guard says of the prefix decides the response: denied or undecided, exactly one error, no byte, no report, and the audit says refused; redacted, its text in place of the prefix and the rest unchanged, the count reported, and the audit says redacted; allowed, everything as it came |
| `StreamGuard.UnguardedPasses` | crates/ai-gateway/src/proxy.rs:247-364 | without a guard the prefix and the rest pass as they came |
| `StreamGuard.GuardedStreamGuarantee` | crates/ai-gateway/src/proxy.rs:290-364 | when upstream errors are final, for every chunking, either one error and no byte, or the inspected prefix followed by all remaining bytes unchanged; the report is filled exactly in the second case |
| `StreamGuard.AllowedStreamIsIdentity` | crates/ai-gateway/src/proxy.rs:290-364 | when upstream errors are final: without a guard, or when it allows the prefix, the data is the upstream's, or nothing when the upstream fails while the prefix is gathered |
| `StreamGuard.UninspectedExactlyAfterResumedError` | crates/ai-gateway/src/proxy.rs:311-316 | after an error while gathering, data comes out uninspected if and only if the upstream yields another chunk |
| `StreamGuard.RelayEvents` | crates/ai-gateway/src/routes.rs:354-399 | the event-stream wrapper performs exactly the trace of the specification |
| `StreamGuard.OneAuditBeforeData` | crates/ai-gateway/src/routes.rs:354-399 | a stream polled to its end issues exactly one response audit, before its first data chunk |
| `StreamGuard.AuditMatchesGuard` | crates/ai-gateway/src/routes.rs:341-399 | when upstream errors are final, that audit says what the guard did: refused, redacted, or the decision of the request |
| `Gateway.AuthenticatesExactly` | crates/ai-gateway/src/policy.rs:233-267 | a request authenticates as a tenant if and only if the first credential with its key is that tenant's and has not expired, and the tenant is known and not suspended; and the reasons why others do not |
| `Gateway.GatewayCore.constructor` | crates/ai-gateway/src/lib.rs:459-465 | one semaphore for each tenant, of max(1, max_concurrent) permits |
| `Gateway.GatewayCore.SuspendTenantFor` | crates/ai-gateway/src/lib.rs:501-512 | sets the end of the suspension, saturating, and keeps the rest of the override |
| `Gateway.GatewayCore.RevokeTenantKey` | crates/ai-gateway/src/lib.rs:518-524 | marks the key revoked and keeps the rest of the override |
| `Gateway.GatewayCore.ClearTenantOverride` | crates/ai-gateway/src/lib.rs:527-529 | drops the override |
| `Gateway.GatewayCore.AcquireConcurrency` | crates/ai-gateway/src/lib.rs:936-955 | takes one permit of the tenant's semaphore, fails when none is left |
| `Gateway.GatewayCore.RecordAudit` | crates/ai-gateway/src/lib.rs:964-978 | appends to the tenant's chain; a failed write leaves the chain as it was, or has the record in it all the same |
| `Gateway.GatewayCore.InspectRequest` | crates/ai-gateway/src/lib.rs:575-879 | the whole of inspection: state, reply and permit, for every outcome of the audit write |
| `Gateway.GatewayCore.Handle` | crates/ai-gateway/src/routes.rs:258-446 | one request to its answer: who holds the permit afterwards and what was recorded |
| `GatewayRuns.BeginIsSound` | crates/ai-gateway/src/lib.rs:575-879 | reply and record tell the same story, an admitted request holds a permit of its own tenant, and a semaphore on demand is never made |
| `GatewayRuns.AdmittedExactlyWhen` | crates/ai-gateway/src/lib.rs:575-879 | a request is admitted if and only if its tenant authenticates, is under no countermeasure, may use endpoint and model, has a permit left, and the guard does not refuse; it is shed for load if and only if only the permit is missing |
| `GatewayRuns.RefusedBecause` | crates/ai-gateway/src/lib.rs:575-752 | why a request is refused before the guard sees it, in order: credentials, revoked key, suspension, endpoint, model, load |
| `GatewayRuns.RecordSays` | crates/ai-gateway/src/lib.rs:575-879 | what every audit record of a request says: id, tenant, endpoint and model asked for, the rules and findings of the guard; and whose chain it goes to |
| `GatewayRuns.GuardAnswers` | crates/ai-gateway/src/lib.rs:754-879 | what goes on by the answer of the guard: nothing, its text, or the payload as it came |
| `GatewayRuns.ResponseRecordSays` | crates/ai-gateway/src/routes.rs:258-446 | the record of a response is that of the request, marked with the findings or as refused, and is appended to the same chain |
| `GatewayRuns.GuardSeesOnlyTheExtraction` | crates/ai-gateway/src/lib.rs:754-758 | payloads with the same extracted text get the same record and verdict; what is forwarded is then the same if and only if the payloads are, or the guard redacted |
| `GatewayRuns.AdvanceConserves` | crates/ai-gateway/src/routes.rs:258-446 | each step of a request moves exactly its share of the permits between pool and request |
| `GatewayRuns.AdvanceCounts` | crates/ai-gateway/src/routes.rs:258-446 | each step writes only the request's own records, to its own chain |
| `GatewayRuns.RunKeepsInvariants` | crates/ai-gateway/src/lib.rs:575-955 | permits are conserved and records accounted for in every interleaving |
| `GatewayRuns.PermitsWithinCap` | crates/ai-gateway/src/routes.rs:258-446 | in every interleaving free permits plus holders are max(1, max_concurrent), every live request or stream is a holder, and once all have finished each permit is back exactly once |
| `GatewayRuns.OneRecordPerDecision` | crates/ai-gateway/src/lib.rs:575-978 | every decision inspection returned has exactly one matching record, in its tenant's chain and nowhere else; one withheld because its write failed has at most one, exactly when the record got into the file; at most one response record comes on top |
| `GatewayRuns.LogDecidesFate` | crates/capability-security/src/chained_log.rs:227-244 | a failed write leaves its record exactly when the whole JSON text got in: the outcomes of a write are those of the log |
| `GatewayRuns.RevokedTenantIsRefused` | crates/ai-gateway/src/lib.rs:630-664 | after a key is revoked no later request of the tenant is admitted, in any interleaving without a clear |
| `GatewayRuns.SuspendedTenantIsRefused` | crates/ai-gateway/src/lib.rs:630-664 | a suspended tenant is refused in every interleaving until the time is over, unless the operator changes the override, and from then on not for the suspension |
| `GatewayRuns.HandlerIsARun` | crates/ai-gateway/src/routes.rs:258-446 | the uninterrupted handler has the effect of the run of its steps |
| `GatewayRuns.HandlerAnswers` | crates/ai-gateway/src/routes.rs:258-446 | a body is answered exactly for an admitted request with an inspected response whose record is acknowledged, a stream exactly when the upstream opened one; the stream takes the permit along, any other answer has returned it |
| `Batching.Serve` | crates/compute-scheduler/src/batching.rs:25-98 | the nested loops give the answers of the batches the specification forms |
| `Batching.Distribute` | crates/compute-scheduler/src/batching.rs:77-96 | each request of a batch is answered from the result at its position |
| `Batching.BatchesPartition` | crates/compute-scheduler/src/batching.rs:33-68 | the batches concatenate to the received requests, each of size 1 to max(1, max_batch_size) |
| `Batching.WithoutWaitsBatchesAreFull` | crates/compute-scheduler/src/batching.rs:48-68 | without an ending wait there are as few batches as the maximum allows |
| `Batching.LimitIsTheMaximum` | crates/compute-scheduler/src/batching.rs:33-68 | the token limit of a batch is the largest requested in it |
| `Batching.OneAnswerEach` | crates/compute-scheduler/src/batching.rs:25-123 | every request gets exactly one answer on its own channel: its output when the engine gave one, the engine's error, or a dropped channel |

## Left out

- TailScanIsSound: read timeouts, which make the writer fall back to the empty hash, are not steps of the model.
- LastHashFromFile: the same; failing reads other than a missing file are not modelled.
- Record: a write that lands after its timeout was reported and the file was opened again is not modelled; SHA-256 and the clock are parameters.
- CrashSafety: its runs have no abandoned calls; those are in `DroppedRecords`, where `SettledRunsAreSafe`, `ValidAfterDropExactly` and `RecoversExactly` say when it holds for them.
- RecoversExactly: is about the one happening right after the drop; a longer sequence that only mends the log at its end is not characterised.
- TornLineBreaksChain: takes a dropped line that lands in part while later writes succeed. How the asynchronous file splits a line and reports a failed background write is not part of this model; if it writes a block of up to 2 MiB at once and reports the failure on the next call, this takes a line longer than a block.
- ValidAfterDropExactly: speaks of the entries as the writer decodes them; a torn character can hide an invalid chain from readers, as `ReadersSeeSurvivors` shows.
- ParseInvertsSerialize: the codec is one fixed layout with one text field, a chain id and the optional hash; the real records have more fields, and a JSON reader would also accept other key orders, white space and unknown fields. Float fields need not round-trip in the real codec.
- LastHashCommits: holds for a collision-free hash with non-empty results, which SHA-256 is assumed to be.
- VerifyChainChecked: the source reads the file twice, for validation and for the hashes; a write in between is not modelled.
- VerifyAudit: loading and saving of the checkpoint file always succeed.
- AcceptedAuditsSawOnlyGrowth: is about accepted rounds that see the file; `AcceptedRoundForgetsExactly`, `MissedRoundUnbindsHistory` and `NextContentAcceptedExactly` say what happens otherwise.
- MinHashTheorem: the permutation seeds are arbitrary words; that the constructor derives them from one seed, and tokenisation, are not modelled. The similarity is a real number, not a float.
- DefaultVictimsAreNewest: follows the code, newest first; the comment at `crates/compute-scheduler/src/gpu_pool.rs:526` says oldest first.
- Allocate: OOM completeness is not claimed, as killing may fail although the swapped-out pool would fit the request. The addresses and logging of allocations are left out.
- SwapPhaseLowestFirst: for prefix-free registered ids, which the source does not enforce; `SwapPhaseInOrder` is the form without them, for the agents blocks are listed under.
- GetSwapCandidates: agents of equal priority come in an unspecified order in the source; the model fixes the larger user first.
- GetKillCandidates: agents of equal priority and usage come in an unspecified order.
- SwapActions: states which agents are reported, not how often and in which order, which depends on the iteration of a map.
- ReachableStatesAreSupervised: one monitoring loop, spawns that meet `LegalSpawn`. Total restarts are not bounded, as the counter is reset once the agent is seen Running.
- RouteSpawn: routing a spawn is one atomic step; the source awaits between reading the policy, the load, the id and the remote nodes, so that these may come from different moments.
- DelegatedSpawnsStayPut: node ids are distinct and fixed; mesh synchronisation, lifecycle intents and the capability grants of a spawn are left out.
- AcceptedBoundedExactly: waiting is measured in lock sections; a poisoned lock is not modelled.
- RevocationIsPermanent: the wall clock does not go back and ids are not reissued.
- ConstantTimeEq: states the result, not that its timing is independent of the data.
- GuardedStreamGuarantee: upstream errors are final; `UninspectedExactlyAfterResumedError` says what happens otherwise.
- OneRecordPerDecision: request ids are not reused, and the write of an abandoned request ends with the whole line or none of it. It counts records, not their links: what an abandoned write does to the chain, and that part of a line swallows the next record, is in `DroppedRecords`.
- InspectRequest: the header arrives split into scheme and key; the guard's verdict and the extraction of the text it judges are inputs. The extraction detector, latency, token counts and security events are left out: they change no decision.
- Handle: parsing of the request body, HTTP status codes and header sanitising are left out.
- Serve: the channel's capacity and the closing of a queue before a request is sent are left out.
- The budget controller's own `allocate`, `deallocate` and `preempt_for`: the OOM killer uses none of them.
- Real GPU mode, FFI, HTTP, TLS, metrics, UI, the run queue, hot and cold stores, placement, mesh and watchtower: I/O, foreign code, or easy members.
