/** The log when the caller of `record` may go away at any wait. The call is then abandoned where
    it stands, possibly with its line in the file, the writer still open and the cached hash
    that of the record before. */
module DroppedRecords {
  import opened Wrappers
  import opened Utf8
  import opened LineCodec
  import opened ChainedLog
  import opened CrashRuns
  import opened AuditCheckpoints

  datatype Happening =
    | Plain(event: Event)
    | Dropped(entry: Entry, at: Stage)

  function Happen(sha: Digest, chainId: Bytes, st: LogState, h: Happening): LogState {
    match h
    case Plain(event) => Step(sha, chainId, st, event)
    case Dropped(e, at) => DroppedStep(sha, chainId, st, e, at)
  }

  function RunAll(sha: Digest, chainId: Bytes, hs: seq<Happening>): LogState
    decreases |hs|
  {
    if hs == [] then FRESH
    else Happen(sha, chainId, RunAll(sha, chainId, hs[..|hs| - 1]), hs[|hs| - 1])
  }

  function RunFrom(sha: Digest, chainId: Bytes, st: LogState, events: seq<Event>): LogState
    decreases |events|
  {
    if events == [] then st
    else Step(sha, chainId, RunFrom(sha, chainId, st, events[..|events| - 1]), events[|events| - 1])
  }

  /** The state after a call was dropped with `landed` bytes of its line under way. */
  function AfterDrop(sha: Digest, chainId: Bytes, st: LogState, e: Entry, landed: nat): LogState {
    DroppedStep(sha, chainId, st, e, AtWrite(landed))
  }

  /** The call was dropped with bytes of its line under way. */
  predicate LeavesBytes(h: Happening) { h.Dropped? && h.at.AtWrite? && h.at.landed > 0 }

  /** What puts the log in order after such a drop, whose call linked to `prev`: a restart; a write
      that fails, before its whole JSON is in if the line of the dropped call is; and, if that line
      is not, a second drop that gets a whole line in. */
  predicate Mends(sha: Digest, chainId: Bytes, prev: Bytes, e: Entry, landed: nat, h: Happening) {
    var whole := landed >= |LineOf(Stamp(sha, chainId, e, prev))|;
    match h
    case Plain(Reopened) => true
    case Plain(Recorded(f, fault)) =>
      fault.WriteFailed? && (whole ==> fault.written < |Serialize(Stamp(sha, chainId, f, prev))|)
    case Dropped(f, at) =>
      !whole && at.AtWrite? && at.landed >= |LineOf(Stamp(sha, chainId, f, prev))|
  }

  /** What the dropped call adds to the entries of the file, once `h` has put the log in order: its
      record, if the whole line is in, or the whole JSON with nothing written behind it. */
  function FromDrop(sha: Digest, chainId: Bytes, prev: Bytes, e: Entry, landed: nat, h: Happening): seq<Entry> {
    var stamped := Stamp(sha, chainId, e, prev);
    if landed >= |LineOf(stamped)| || (landed == |Serialize(stamped)| && WritesNothing(h)) then [stamped] else []
  }

  predicate WritesNothing(h: Happening) {
    match h
    case Plain(Reopened) => true
    case Plain(Recorded(_, fault)) => fault == WriteFailed(0)
    case Dropped(_, _) => false
  }

  /** Each drop with bytes under way is followed by a happening that puts the log in order. */
  predicate Settled(sha: Digest, chainId: Bytes, hs: seq<Happening>)
    decreases |hs|
  {
    var m := |hs|;
    || m == 0
    || EndsQuietly(sha, chainId, hs)
    || (m > 1 && LeavesBytes(hs[m - 2]) && Settled(sha, chainId, hs[..m - 2])
        && Mends(sha, chainId, PreviousHash(RunAll(sha, chainId, hs[..m - 2])),
                 hs[m - 2].entry, hs[m - 2].at.landed, hs[m - 1]))
  }

  predicate EndsQuietly(sha: Digest, chainId: Bytes, hs: seq<Happening>)
    decreases |hs|, 0
  {
    hs != [] && !LeavesBytes(hs[|hs| - 1]) && Settled(sha, chainId, hs[..|hs| - 1])
  }

  /** What any other happening adds to the entries, in a state that holds `entries`. */
  function Added(sha: Digest, chainId: Bytes, st: LogState, entries: seq<Entry>, h: Happening): seq<Entry> {
    match h
    case Plain(Recorded(e, fault)) =>
      var stamped := Stamp(sha, chainId, e, LastHash(entries));
      if WholeJsonWritten(st, stamped, fault) then [stamped] else []
    case _ => []
  }

  /** The entries the file should hold after a settled run. */
  function Kept(sha: Digest, chainId: Bytes, hs: seq<Happening>): seq<Entry>
    requires Settled(sha, chainId, hs)
    decreases |hs|
  {
    var m := |hs|;
    if m == 0 then []
    else if EndsQuietly(sha, chainId, hs) then
      var before := Kept(sha, chainId, hs[..m - 1]);
      before + Added(sha, chainId, RunAll(sha, chainId, hs[..m - 1]), before, hs[m - 1])
    else
      var before := Kept(sha, chainId, hs[..m - 2]);
      before + FromDrop(sha, chainId, LastHash(before), hs[m - 2].entry, hs[m - 2].at.landed, hs[m - 1])
  }

  predicate TextEvent(event: Event) { event.Recorded? ==> Valid(event.entry.data) }

  predicate TextHappening(h: Happening) {
    match h
    case Plain(event) => TextEvent(event)
    case Dropped(e, _) => Valid(e.data)
  }

  ghost predicate TextHappenings(hs: seq<Happening>) { forall i :: 0 <= i < |hs| ==> TextHappening(hs[i]) }

  // ---------------------------------------------------------------- a record behind a torn line

  /** A text that starts as a record does. */
  predicate StartsRecord(c: Bytes) {
    && c != [] && c[0] == DATA_KEY[0]
    && (|c| > 1 ==> c[1] == QUOTE)
    && (|c| > 2 ==> c[2] < 0x80 && c[2] !in {CHAIN_KEY[0], CLOSE})
  }

  lemma StartIsForeign(c: Bytes)
    requires StartsRecord(c)
    ensures Foreign(Lossy(c))
  {
    hide Foreign;
    EmptyText();
    if |c| == 1 {
      AsciiStep(c);
      assert c == [DATA_KEY[0]] && [c[0]] + [] == c;
      ForeignStart([]);
    } else {
      AsciiPrefix(c[..2], c[2..]);
      assert c == c[..2] + c[2..] && c[..2] == [DATA_KEY[0], QUOTE];
      if |c| > 2 { LossyStarts(c[2..]); }
      hide Lossy;
      ForeignStart(Lossy(c[2..]));
    }
  }

  lemma BraceThenStart(c: Bytes)
    requires StartsRecord(c)
    ensures Foreign(Lossy([DATA_KEY[0]] + c))
  {
    hide Foreign, StartsRecord;
    StartIsForeign(c);
    AsciiPrefix([DATA_KEY[0]], c);
    ForeignAfterPlain(DATA_KEY[0], Lossy(c));
  }

  lemma RecordStarts(e: Entry, n: nat)
    requires 0 < n <= |Serialize(e)|
    ensures StartsRecord(Serialize(e)[..n])
  {
    var body := StringBody(e.data) + (CHAIN_KEY + (StringBody(e.chainId) + Tail(e.hash)));
    assert Serialize(e) == DATA_KEY + body;
    assert forall i :: 0 <= i < 3 ==> Serialize(e)[i] == DATA_KEY[i];
  }

  lemma RecordIsLong(e: Entry)
    ensures |Serialize(e)| > 2
  {
  }

  /** What was cut off a record, in front of a whole one, starts as a record does, or one byte
      later. */
  lemma PairIsForeign(f: Entry, m: nat, g: Entry)
    requires m <= |Serialize(f)|
    ensures Foreign(Lossy(Serialize(f)[..m] + Serialize(g)))
    ensures var c := Serialize(f)[..m] + Serialize(g); c != [] && c[0] == DATA_KEY[0]
  {
    hide Serialize, Foreign;
    var part, json := Serialize(f)[..m], Serialize(g);
    RecordIsLong(g);
    RecordStarts(g, |json|);
    assert json[..|json|] == json;
    if m == 0 {
      assert part + json == json;
      StartIsForeign(json);
    } else if m == 1 {
      RecordStarts(f, 1);
      assert part == [DATA_KEY[0]];
      BraceThenStart(json);
    } else {
      RecordStarts(f, m);
      assert m == 2 ==> (part + json)[2] == json[0];
      StartIsForeign(part + json);
    }
  }

  /** A torn record with such a text behind it does not parse. */
  lemma CutThenForeign(e: Entry, n: nat, c: Bytes)
    requires WellFormed(e) && 0 < n <= |Serialize(e)|
    requires c != [] && c[0] == DATA_KEY[0] && Foreign(Lossy(c))
    ensures Parse(Lossy(Serialize(e)[..n] + c)).None?
  {
    hide Serialize, Foreign, Parse, Lossy, Valid;
    var json := Serialize(e);
    SerializeIsValid(e);
    RecordStarts(e, n);
    AsciiEndsText(json[..n], c);
    LossyStarts(json[..n]);
    var m := CutText(json, n);
    if m == n {
      assert json[..m] + [] == json[..m];
      ForeignTextIsNoRecord(e, n, Lossy(c));
    } else {
      assert m > 0;
      ForeignAfterReplacement(Lossy(c));
      ForeignTextIsNoRecord(e, m, REPLACEMENT + Lossy(c));
      assert json[..m] + REPLACEMENT + Lossy(c) == json[..m] + (REPLACEMENT + Lossy(c));
    }
  }

  /** A line that does not parse holds nothing, ended or not. */
  lemma DeadLine(t: Bytes)
    requires t != [] && Parse(Lossy(t)).None? && forall b :: b in t ==> b >= 0x20
    ensures HoldsEntries(t, [])
  {
    var text := Lossy(t);
    LossyAddsNoAscii(t, NEWLINE);
    LossyAddsNoAscii(t, 0x0D);
    LossyStarts(t);
    hide Lossy, Parse, Lines;
    assert text[|text| - 1] in text;
    SingleLine(text);
    NewlineEndsText(t);
    ParseOne(text);
  }

  lemma PairIsPrintable(e: Entry, n: nat, rest: Bytes)
    requires n <= |Serialize(e)| && forall b :: b in rest ==> b >= 0x20
    ensures forall b :: b in Serialize(e)[..n] + rest ==> b >= 0x20
  {
    SerializeIsPrintable(e);
    hide *;
    var cut := Serialize(e)[..n];
    forall b | b in cut + rest
      ensures b >= 0x20
    {
      if b !in rest {
        assert b in cut;
        assert b in Serialize(e);
      }
    }
  }

  /** A torn record with part of another one behind it holds nothing. */
  lemma TornPairHoldsNothing(e: Entry, n: nat, f: Entry, m: nat)
    requires WellFormed(e) && WellFormed(f) && 0 < n <= |Serialize(e)| && 0 < m <= |LineOf(f)|
    ensures HoldsEntries(Serialize(e)[..n] + LineOf(f)[..m], [])
  {
    hide Serialize, WellFormed, Foreign, Parse, Lossy, HoldsEntries;
    var torn, json := Serialize(e)[..n], Serialize(f);
    var k := if m < |json| then m else |json|;
    RecordIsLong(f);
    RecordStarts(f, k);
    StartIsForeign(json[..k]);
    CutThenForeign(e, n, json[..k]);
    PairIsPrintable(f, k, []);
    assert json[..k] + [] == json[..k];
    PairIsPrintable(e, n, json[..k]);
    DeadLine(torn + json[..k]);
    assert LineOf(f)[..k] == json[..k];
    if m > |json| {
      RepairKeepsEntries(torn + json, []);
      assert json[..k] == json && torn + LineOf(f)[..m] == torn + json + [NEWLINE];
    }
  }

  /** A line added behind `t` is lost. */
  ghost predicate Swallows(t: Bytes) {
    forall g :: WellFormed(g) ==> Scan(t + LineOf(g)) == []
  }

  lemma TornPairSwallows(e: Entry, n: nat, f: Entry, m: nat)
    requires WellFormed(e) && 0 < n <= |Serialize(e)| && m <= |Serialize(f)|
    ensures Swallows(Serialize(e)[..n] + Serialize(f)[..m])
  {
    hide Serialize, WellFormed, Foreign, Parse, Lossy, Scan;
    var torn, part := Serialize(e)[..n], Serialize(f)[..m];
    forall g | WellFormed(g)
      ensures Scan(torn + part + LineOf(g)) == []
    {
      var c := part + Serialize(g);
      PairIsForeign(f, m, g);
      CutThenForeign(e, n, c);
      PairIsPrintable(g, |Serialize(g)|, []);
      assert Serialize(g)[..|Serialize(g)|] + [] == Serialize(g);
      PairIsPrintable(f, m, Serialize(g));
      PairIsPrintable(e, n, c);
      DeadLine(torn + c);
      assert torn + part + LineOf(g) == torn + c + [NEWLINE];
    }
  }

  lemma TornSwallows(e: Entry, n: nat)
    requires WellFormed(e) && 0 < n <= |Serialize(e)|
    ensures Swallows(Serialize(e)[..n])
  {
    hide *;
    TornPairSwallows(e, n, e, 0);
    assert Serialize(e)[..n] + Serialize(e)[..0] == Serialize(e)[..n];
  }

  // ---------------------------------------------------------------- the log after a drop

  /** A drop with bytes under way, followed by a restart, is a failed write. */
  lemma DropAndRestartIsAFailedWrite(sha: Digest, chainId: Bytes, st: LogState, e: Entry, landed: nat)
    ensures Step(sha, chainId, DroppedStep(sha, chainId, st, e, AtWrite(landed)), Reopened)
         == Step(sha, chainId, RecordStep(sha, chainId, st, e, WriteFailed(landed)), Reopened)
    ensures DroppedStep(sha, chainId, st, e, AtWrite(landed)).file
         == RecordStep(sha, chainId, st, e, WriteFailed(landed)).file
  {
    hide Stamp, LineOf, PreviousHash, NeedsRepair;
  }

  lemma OpenWriterGoesOn(sha: Digest, chainId: Bytes, st: LogState, prev: Bytes, f: Entry)
    requires st.writer && st.cache == Some(prev)
    ensures var stamped := Stamp(sha, chainId, f, prev);
            var line := LineOf(stamped);
            && (forall fault: Fault :: !fault.WriteFailed? ==>
                  Step(sha, chainId, st, Recorded(f, fault)) == LogState(st.file + line, stamped.hash, true))
            && (forall n: nat :: Step(sha, chainId, st, Recorded(f, WriteFailed(n)))
                            == LogState(st.file + line[..Landing(n, |line|)], None, false))
            && (forall n: nat :: DroppedStep(sha, chainId, st, f, AtWrite(n))
                            == LogState(st.file + line[..Landing(n, |line|)], Some(prev), true))
            && (forall at: Stage :: !at.AtWrite? ==> DroppedStep(sha, chainId, st, f, at) == st)
  {
    hide Serialize, Scan, ComputeHash;
    var line := LineOf(Stamp(sha, chainId, f, prev));
    assert line[..|line|] == line;
  }

  lemma RestartForgets(sha: Digest, chainId: Bytes, st: LogState)
    ensures Step(sha, chainId, st, Reopened) == LogState(st.file, None, false)
  {
  }

  /** The log a drop leaves: complete lines with the entries before, then the bytes that landed. */
  lemma DropLeaves(sha: Digest, chainId: Bytes, st: LogState, entries: seq<Entry>, e: Entry, landed: nat)
    requires TextDigest(sha) && Valid(chainId) && Valid(e.data) && Good(sha, st, entries)
    ensures PreviousHash(st) == LastHash(entries)
    ensures var stamped, file := Stamp(sha, chainId, e, LastHash(entries)), OpenedFile(st, NoFault);
            && Complete(file) && HoldsEntries(file, entries) && ChainFrom(sha, [], entries)
            && WellFormed(stamped)
            && AfterDrop(sha, chainId, st, e, landed)
               == LogState(file + LineOf(stamped)[..Landing(landed, |LineOf(stamped)|)], Some(LastHash(entries)), true)
  {
    hide Serialize, HoldsEntries, ChainFrom, Scan, LastHash, WellFormed, TextDigest;
    GoodScans(sha, st, entries);
    OpenKeepsEntries(st, NoFault, entries);
    StampIsWellFormed(sha, chainId, e, LastHash(entries));
  }

  lemma LineHolds(f: Entry, n: nat)
    requires WellFormed(f) && n <= |LineOf(f)|
    ensures HoldsEntries(LineOf(f)[..n], if n >= |Serialize(f)| then [f] else [])
    ensures Complete(LineOf(f)) && |LineOf(f)| == |Serialize(f)| + 1
    ensures LineOf(f)[..|LineOf(f)|] == LineOf(f)
  {
    hide Serialize, JsonOf, HoldsEntries, WellFormed;
    SerializeIsJson(f);
    PartHolds(Serialize(f), f, n);
  }

  lemma CompleteConcat(a: Bytes, b: Bytes)
    requires Complete(a) && Complete(b)
    ensures Complete(a + b)
  {
  }

  /** The whole line landed: its record is in, and the cached hash is not its hash. */
  lemma WholeLineLands(sha: Digest, chainId: Bytes, st: LogState, entries: seq<Entry>, e: Entry, landed: nat)
    requires TextDigest(sha) && Valid(chainId) && Valid(e.data) && Good(sha, st, entries)
    requires landed >= |LineOf(Stamp(sha, chainId, e, LastHash(entries)))|
    ensures var stamped := Stamp(sha, chainId, e, LastHash(entries));
            var after := AfterDrop(sha, chainId, st, e, landed);
            && after == LogState(after.file, Some(LastHash(entries)), true)
            && Complete(after.file) && HoldsEntries(after.file, entries + [stamped])
            && ChainFrom(sha, [], entries + [stamped])
            && LastHash(entries + [stamped]) == stamped.hash.value
  {
    hide *;
    var stamped, file := Stamp(sha, chainId, e, LastHash(entries)), OpenedFile(st, NoFault);
    DropLeaves(sha, chainId, st, entries, e, landed);
    LineHolds(stamped, |LineOf(stamped)|);
    LandsWhole(landed, |LineOf(stamped)|);
    CompleteConcat(file, LineOf(stamped));
    HoldsAppended(file, entries, LineOf(stamped), [stamped]);
    StampExtendsChain(sha, chainId, entries, e);
    LastOfStamped(sha, chainId, entries, e);
  }

  lemma LandsWhole(landed: nat, size: nat)
    ensures landed >= size ==> Landing(landed, size) == size
    ensures landed <= size ==> Landing(landed, size) == landed
  {
  }

  lemma LastOfStamped(sha: Digest, chainId: Bytes, entries: seq<Entry>, e: Entry)
    ensures var stamped := Stamp(sha, chainId, e, LastHash(entries));
            stamped.hash.Some? && LastHash(entries + [stamped]) == stamped.hash.value
  {
    hide ComputeHash;
  }

  /** Only part of the line landed. */
  lemma PartOfLineLands(sha: Digest, chainId: Bytes, st: LogState, entries: seq<Entry>, e: Entry, landed: nat)
    requires TextDigest(sha) && Valid(chainId) && Valid(e.data) && Good(sha, st, entries)
    requires landed < |LineOf(Stamp(sha, chainId, e, LastHash(entries)))|
    ensures var stamped := Stamp(sha, chainId, e, LastHash(entries));
            && landed <= |Serialize(stamped)|
            && AfterDrop(sha, chainId, st, e, landed)
               == LogState(OpenedFile(st, NoFault) + Serialize(stamped)[..landed], Some(LastHash(entries)), true)
  {
    hide *;
    var stamped := Stamp(sha, chainId, e, LastHash(entries));
    DropLeaves(sha, chainId, st, entries, e, landed);
    LineHolds(stamped, landed);
    LandsWhole(landed, |LineOf(stamped)|);
    LineStarts(stamped, landed);
  }

  lemma LineStarts(f: Entry, n: nat)
    requires n <= |Serialize(f)|
    ensures n <= |LineOf(f)| && LineOf(f)[..n] == Serialize(f)[..n]
  {
    hide Serialize;
  }

  // ---------------------------------------------------------------- what puts the log in order

  lemma IsGood(sha: Digest, file: Bytes, entries: seq<Entry>)
    requires HoldsEntries(file, entries) && ChainFrom(sha, [], entries)
    ensures Good(sha, LogState(file, None, false), entries)
    ensures Complete(file) ==> Good(sha, LogState(file, Some(LastHash(entries)), true), entries)
  {
  }

  lemma RestartMends(sha: Digest, chainId: Bytes, st: LogState, entries: seq<Entry>, e: Entry, landed: nat)
    requires TextDigest(sha) && Valid(chainId) && Valid(e.data) && Good(sha, st, entries)
    ensures Good(sha, Step(sha, chainId, AfterDrop(sha, chainId, st, e, landed), Reopened),
                 entries + FromDrop(sha, chainId, LastHash(entries), e, landed, Plain(Reopened)))
  {
    hide Serialize, HoldsEntries, ChainFrom, Scan, Good, Complete;
    var stamped, file := Stamp(sha, chainId, e, LastHash(entries)), OpenedFile(st, NoFault);
    var n := Landing(landed, |LineOf(stamped)|);
    DropLeaves(sha, chainId, st, entries, e, landed);
    LineHolds(stamped, n);
    hide *;
    var more := if n >= |Serialize(stamped)| then [stamped] else [];
    LandsWhole(landed, |LineOf(stamped)|);
    HoldsAppended(file, entries, LineOf(stamped)[..n], more);
    RestartForgets(sha, chainId, AfterDrop(sha, chainId, st, e, landed));
    RestartKeepsWhole(sha, chainId, LastHash(entries), e, landed);
    StampExtendsChain(sha, chainId, entries, e);
    assert entries + [] == entries;
    IsGood(sha, file + LineOf(stamped)[..n], entries + more);
  }

  lemma RestartKeepsWhole(sha: Digest, chainId: Bytes, prev: Bytes, e: Entry, landed: nat)
    ensures var stamped := Stamp(sha, chainId, e, prev);
            FromDrop(sha, chainId, prev, e, landed, Plain(Reopened))
            == if Landing(landed, |LineOf(stamped)|) >= |Serialize(stamped)| then [stamped] else []
  {
    hide Serialize, Stamp;
  }

  lemma FailureMends(sha: Digest, chainId: Bytes, st: LogState, entries: seq<Entry>, e: Entry, landed: nat,
                     f: Entry, n: nat)
    requires TextDigest(sha) && Valid(chainId) && Valid(e.data) && Valid(f.data) && Good(sha, st, entries)
    requires landed > 0 && Mends(sha, chainId, LastHash(entries), e, landed, Plain(Recorded(f, WriteFailed(n))))
    ensures Good(sha, Step(sha, chainId, AfterDrop(sha, chainId, st, e, landed), Recorded(f, WriteFailed(n))),
                 entries + FromDrop(sha, chainId, LastHash(entries), e, landed, Plain(Recorded(f, WriteFailed(n)))))
  {
    hide *;
    var h := Plain(Recorded(f, WriteFailed(n)));
    var prev := LastHash(entries);
    var stamped, next := Stamp(sha, chainId, e, prev), Stamp(sha, chainId, f, prev);
    var after, line := AfterDrop(sha, chainId, st, e, landed), LineOf(next);
    var k := Landing(n, |line|);
    DropLeaves(sha, chainId, st, entries, e, landed);
    OpenWriterGoesOn(sha, chainId, after, prev, f);
    StampIsWellFormed(sha, chainId, f, prev);
    LandingBound(n, |line|);
    FailureFrom(sha, chainId, prev, e, landed, f, n);
    StampExtendsChain(sha, chainId, entries, e);
    assert entries + [] == entries;
    LineHolds(next, k);
    if landed >= |LineOf(stamped)| {
      WholeLineLands(sha, chainId, st, entries, e, landed);
      HoldsAppended(after.file, entries + [stamped], line[..k], []);
      assert entries + [stamped] + [] == entries + [stamped];
      IsGood(sha, after.file + line[..k], entries + [stamped]);
    } else {
      PartOfLineLands(sha, chainId, st, entries, e, landed);
      var file, torn := OpenedFile(st, NoFault), Serialize(stamped)[..landed];
      assert file + torn + line[..k] == file + (torn + line[..k]);
      if k == 0 {
        LineHolds(stamped, landed);
        LineStarts(stamped, landed);
        assert torn + line[..k] == torn;
        var more := if landed >= |Serialize(stamped)| then [stamped] else [];
        HoldsAppended(file, entries, torn, more);
        IsGood(sha, file + torn, entries + more);
      } else {
        TornPairHoldsNothing(stamped, landed, next, k);
        HoldsAppended(file, entries, torn + line[..k], []);
        IsGood(sha, file + (torn + line[..k]), entries);
      }
    }
  }

  lemma LandingBound(landed: nat, size: nat)
    ensures Landing(landed, size) <= size && (Landing(landed, size) == 0 <==> landed == 0 || size == 0)
  {
  }

  /** The lengths that decide what a failed write makes of a drop. */
  lemma FailureFrom(sha: Digest, chainId: Bytes, prev: Bytes, e: Entry, landed: nat, f: Entry, n: nat)
    requires Mends(sha, chainId, prev, e, landed, Plain(Recorded(f, WriteFailed(n))))
    ensures var stamped, next := Stamp(sha, chainId, e, prev), Stamp(sha, chainId, f, prev);
            var more := FromDrop(sha, chainId, prev, e, landed, Plain(Recorded(f, WriteFailed(n))));
            var k := Landing(n, |LineOf(next)|);
            if landed >= |LineOf(stamped)| then more == [stamped] && k < |Serialize(next)|
            else more == if k == 0 && landed >= |Serialize(stamped)| then [stamped] else []
  {
    hide Serialize, Stamp;
  }

  lemma DropMends(sha: Digest, chainId: Bytes, st: LogState, entries: seq<Entry>, e: Entry, landed: nat,
                  f: Entry, at: Stage)
    requires TextDigest(sha) && Valid(chainId) && Valid(e.data) && Valid(f.data) && Good(sha, st, entries)
    requires landed > 0 && Mends(sha, chainId, LastHash(entries), e, landed, Dropped(f, at))
    ensures Good(sha, DroppedStep(sha, chainId, AfterDrop(sha, chainId, st, e, landed), f, at),
                 entries + FromDrop(sha, chainId, LastHash(entries), e, landed, Dropped(f, at)))
  {
    hide *;
    var prev := LastHash(entries);
    var stamped, next := Stamp(sha, chainId, e, prev), Stamp(sha, chainId, f, prev);
    var after, line := AfterDrop(sha, chainId, st, e, landed), LineOf(next);
    SecondDropFrom(sha, chainId, prev, e, landed, f, at);
    DropLeaves(sha, chainId, st, entries, e, landed);
    PartOfLineLands(sha, chainId, st, entries, e, landed);
    var file, torn := OpenedFile(st, NoFault), Serialize(stamped)[..landed];
    OpenWriterGoesOn(sha, chainId, after, prev, f);
    StampIsWellFormed(sha, chainId, f, prev);
    LineHolds(next, |line|);
    TornPairHoldsNothing(stamped, landed, next, |line|);
    HoldsAppended(file, entries, torn + line, []);
    assert file + torn + line == file + (torn + line);
    CompleteConcatEnd(file + torn, line);
    assert entries + [] == entries;
    IsGood(sha, file + torn + line, entries);
  }

  lemma SecondDropFrom(sha: Digest, chainId: Bytes, prev: Bytes, e: Entry, landed: nat, f: Entry, at: Stage)
    requires Mends(sha, chainId, prev, e, landed, Dropped(f, at))
    ensures var line := LineOf(Stamp(sha, chainId, f, prev));
            && landed < |LineOf(Stamp(sha, chainId, e, prev))|
            && at.AtWrite? && Landing(at.landed, |line|) == |line| && |line| > 0
    ensures FromDrop(sha, chainId, prev, e, landed, Dropped(f, at)) == []
  {
    hide Serialize, Stamp;
  }

  lemma CompleteConcatEnd(a: Bytes, b: Bytes)
    requires Complete(b) && b != []
    ensures Complete(a + b)
  {
  }

  /** What follows a drop and puts the log in order leaves the entries before, and what the dropped
      call got in. */
  lemma MendKeepsGood(sha: Digest, chainId: Bytes, st: LogState, entries: seq<Entry>, e: Entry, landed: nat,
                      h: Happening)
    requires TextDigest(sha) && Valid(chainId) && Valid(e.data) && TextHappening(h) && Good(sha, st, entries)
    requires landed > 0 && Mends(sha, chainId, LastHash(entries), e, landed, h)
    ensures Good(sha, Happen(sha, chainId, AfterDrop(sha, chainId, st, e, landed), h),
                 entries + FromDrop(sha, chainId, LastHash(entries), e, landed, h))
  {
    hide Good, Step, DroppedStep, AfterDrop, FromDrop, Serialize, Stamp, LastHash, Valid, TextDigest;
    match h {
      case Plain(Reopened) => RestartMends(sha, chainId, st, entries, e, landed);
      case Plain(Recorded(f, fault)) => FailureMends(sha, chainId, st, entries, e, landed, f, fault.written);
      case Dropped(f, at) => DropMends(sha, chainId, st, entries, e, landed, f, at);
    }
  }

  // ---------------------------------------------------------------- settled runs are safe

  lemma EventKeepsGood(sha: Digest, chainId: Bytes, st: LogState, entries: seq<Entry>, event: Event)
    requires TextDigest(sha) && Valid(chainId) && TextEvent(event) && Good(sha, st, entries)
    ensures Good(sha, Step(sha, chainId, st, event),
                 entries + Added(sha, chainId, st, entries, Plain(event)))
  {
    hide HoldsEntries, ChainFrom, RecordStep, WholeJsonWritten, Stamp;
    assert entries + [] == entries;
    if event.Recorded? {
      RecordKeepsGood(sha, chainId, st, entries, event.entry, event.fault);
    }
  }

  lemma QuietDropKeepsGood(sha: Digest, chainId: Bytes, st: LogState, entries: seq<Entry>, e: Entry, at: Stage)
    requires Good(sha, st, entries) && !LeavesBytes(Dropped(e, at))
    ensures Good(sha, DroppedStep(sha, chainId, st, e, at), entries)
  {
    hide HoldsEntries, ChainFrom, Scan, Serialize;
    GoodScans(sha, st, entries);
    if at.AtRepair? && !st.writer && NeedsRepair(st.file) {
      RepairKeepsEntries(st.file, entries);
    } else if at.AtWrite? {
      var line := LineOf(Stamp(sha, chainId, e, PreviousHash(st)));
      assert line[..0] == [] && OpenedFile(st, NoFault) + [] == OpenedFile(st, NoFault);
      OpenKeepsEntries(st, NoFault, entries);
    }
  }

  lemma FreshIsGood(sha: Digest)
    ensures Good(sha, FRESH, [])
  {
    NothingScans();
    hide Scan;
    assert [] + [NEWLINE] == [NEWLINE];
  }

  lemma QuietKeepsGood(sha: Digest, chainId: Bytes, st: LogState, entries: seq<Entry>, h: Happening)
    requires TextDigest(sha) && Valid(chainId) && Good(sha, st, entries) && !LeavesBytes(h)
    requires TextHappening(h)
    ensures Good(sha, Happen(sha, chainId, st, h), entries + Added(sha, chainId, st, entries, h))
  {
    hide Good, Step, DroppedStep, Stamp, WholeJsonWritten, Valid, TextDigest;
    if h.Plain? {
      EventKeepsGood(sha, chainId, st, entries, h.event);
    } else {
      QuietDropKeepsGood(sha, chainId, st, entries, h.entry, h.at);
      assert entries + [] == entries;
    }
  }

  lemma {:induction false} SettledRunIsGood(sha: Digest, chainId: Bytes, hs: seq<Happening>)
    requires TextDigest(sha) && Valid(chainId) && TextHappenings(hs) && Settled(sha, chainId, hs)
    ensures Good(sha, RunAll(sha, chainId, hs), Kept(sha, chainId, hs))
    decreases |hs|
  {
    hide Good, Happen, Added, TextDigest, TextHappening, FromDrop, Mends, LastHash, PreviousHash;
    var m := |hs|;
    if m == 0 {
      FreshIsGood(sha);
    } else if EndsQuietly(sha, chainId, hs) {
      var before := hs[..m - 1];
      SettledRunIsGood(sha, chainId, before);
      QuietKeepsGood(sha, chainId, RunAll(sha, chainId, before), Kept(sha, chainId, before), hs[m - 1]);
    } else {
      var before, e, landed := hs[..m - 2], hs[m - 2].entry, hs[m - 2].at.landed;
      SettledRunIsGood(sha, chainId, before);
      var st, entries := RunAll(sha, chainId, before), Kept(sha, chainId, before);
      GoodScans(sha, st, entries);
      assert TextHappening(hs[m - 2]) && TextHappening(hs[m - 1]);
      DroppedText(hs[m - 2]);
      MendKeepsGood(sha, chainId, st, entries, e, landed, hs[m - 1]);
      LastTwo(sha, chainId, hs);
    }
  }

  lemma DroppedText(h: Happening)
    requires LeavesBytes(h) && TextHappening(h)
    ensures Valid(h.entry.data)
  {
  }

  lemma LastTwo(sha: Digest, chainId: Bytes, hs: seq<Happening>)
    requires |hs| > 1 && LeavesBytes(hs[|hs| - 2])
    ensures var st, drop := RunAll(sha, chainId, hs[..|hs| - 2]), hs[|hs| - 2];
            RunAll(sha, chainId, hs)
            == Happen(sha, chainId, AfterDrop(sha, chainId, st, drop.entry, drop.at.landed), hs[|hs| - 1])
  {
    hide DroppedStep, Step;
    var m := |hs|;
    assert hs[..m - 1][..m - 2] == hs[..m - 2] && hs[..m - 1][m - 2] == hs[m - 2];
  }

  /** Crash safety with dropped calls: after every settled run the entries of the file are exactly
      those whose whole JSON got in, dropped ones included unless something was written right
      behind it; they form a valid chain; and the next record links to the last of them. */
  lemma SettledRunsAreSafe(sha: Digest, chainId: Bytes, hs: seq<Happening>)
    requires TextDigest(sha) && Valid(chainId) && TextHappenings(hs) && Settled(sha, chainId, hs)
    ensures var st, kept := RunAll(sha, chainId, hs), Kept(sha, chainId, hs);
            && Scan(st.file) == kept
            && ChainFrom(sha, [], kept)
            && PreviousHash(st) == LastHash(kept)
  {
    hide HoldsEntries, Kept, RunAll, Settled, TextHappenings, TextDigest;
    SettledRunIsGood(sha, chainId, hs);
    GoodScans(sha, RunAll(sha, chainId, hs), Kept(sha, chainId, hs));
  }

  /** The data a call was asked to record, if it was one that records. */
  function Asked(h: Happening): Option<Bytes> {
    match h
    case Plain(Recorded(e, _)) => Some(e.data)
    case Plain(Reopened) => None
    case Dropped(e, _) => Some(e.data)
  }

  /** Which calls the entries of the file come from. */
  ghost predicate ComeFrom(kept: seq<Entry>, chainId: Bytes, hs: seq<Happening>, calls: seq<nat>) {
    && |calls| == |kept|
    && (forall i :: 0 <= i < |calls| ==> calls[i] < |hs|)
    && (forall i, j :: 0 <= i < j < |calls| ==> calls[i] < calls[j])
    && forall i :: 0 <= i < |kept| ==>
         Asked(hs[calls[i]]) == Some(kept[i].data) && kept[i].chainId == chainId && kept[i].hash.Some?
  }

  lemma ComesNext(kept: seq<Entry>, chainId: Bytes, hs: seq<Happening>, calls: seq<nat>, m: nat, e: Entry)
    requires m < |hs| && ComeFrom(kept, chainId, hs[..m], calls)
    requires Asked(hs[m]) == Some(e.data) && e.chainId == chainId && e.hash.Some?
    ensures ComeFrom(kept + [e], chainId, hs, calls + [m])
  {
    hide Asked;
  }

  lemma ComeFromEarlier(kept: seq<Entry>, chainId: Bytes, hs: seq<Happening>, calls: seq<nat>, m: nat)
    requires m <= |hs| && ComeFrom(kept, chainId, hs[..m], calls)
    ensures ComeFrom(kept + [], chainId, hs, calls)
  {
    hide Asked;
    assert kept + [] == kept;
  }

  lemma AddedSays(sha: Digest, chainId: Bytes, st: LogState, entries: seq<Entry>, h: Happening)
    ensures var added := Added(sha, chainId, st, entries, h);
            |added| <= 1 && forall e :: e in added ==>
              Asked(h) == Some(e.data) && e.chainId == chainId && e.hash.Some?
  {
    hide ComputeHash, WholeJsonWritten;
  }

  lemma FromDropSays(sha: Digest, chainId: Bytes, prev: Bytes, drop: Happening, h: Happening)
    requires LeavesBytes(drop)
    ensures var added := FromDrop(sha, chainId, prev, drop.entry, drop.at.landed, h);
            |added| <= 1 && forall e :: e in added ==>
              Asked(drop) == Some(e.data) && e.chainId == chainId && e.hash.Some?
  {
    hide ComputeHash, Serialize;
  }

  lemma {:induction false} KeptComesFrom(sha: Digest, chainId: Bytes, hs: seq<Happening>) returns (calls: seq<nat>)
    requires Settled(sha, chainId, hs)
    ensures ComeFrom(Kept(sha, chainId, hs), chainId, hs, calls)
    decreases |hs|
  {
    hide Added, FromDrop, ComeFrom, Asked, Mends, RunAll, LastHash;
    var m := |hs|;
    if m == 0 {
      calls := [];
      NothingComes(chainId);
    } else {
      var quiet := EndsQuietly(sha, chainId, hs);
      var n := if quiet then m - 1 else m - 2;
      calls := KeptComesFrom(sha, chainId, hs[..n]);
      var before := Kept(sha, chainId, hs[..n]);
      var added := if quiet then Added(sha, chainId, RunAll(sha, chainId, hs[..n]), before, hs[n])
                   else FromDrop(sha, chainId, LastHash(before), hs[n].entry, hs[n].at.landed, hs[m - 1]);
      if quiet {
        AddedSays(sha, chainId, RunAll(sha, chainId, hs[..n]), before, hs[n]);
      } else {
        FromDropSays(sha, chainId, LastHash(before), hs[n], hs[m - 1]);
      }
      if added == [] {
        ComeFromEarlier(before, chainId, hs, calls, n);
      } else {
        assert added == [added[0]];
        ComesNext(before, chainId, hs, calls, n, added[0]);
        calls := calls + [n];
      }
    }
  }

  lemma NothingComes(chainId: Bytes)
    ensures ComeFrom([], chainId, [], [])
  {
  }

  /** With dropped calls too, what is in the file after a settled run is what was asked for: its
      entries come, in order, from different calls, with the data of each and the id of the log. */
  lemma SettledFileSaysWhatWasAsked(sha: Digest, chainId: Bytes, hs: seq<Happening>) returns (calls: seq<nat>)
    requires TextDigest(sha) && Valid(chainId) && TextHappenings(hs) && Settled(sha, chainId, hs)
    ensures ComeFrom(Scan(RunAll(sha, chainId, hs).file), chainId, hs, calls)
  {
    hide *;
    SettledRunsAreSafe(sha, chainId, hs);
    calls := KeptComesFrom(sha, chainId, hs);
  }

  // ---------------------------------------------------------------- what breaks the chain

  lemma HashIgnoresHash(sha: Digest, a: Entry, b: Entry, prev: Bytes)
    requires a.(hash := None) == b.(hash := None)
    ensures ComputeHash(sha, a, prev) == ComputeHash(sha, b, prev)
  {
    hide Serialize;
  }

  /** A record linked to another hash than the last one makes the chain invalid. */
  lemma StaleLink(sha: Digest, chainId: Bytes, entries: seq<Entry>, f: Entry, prev: Bytes)
    requires CollisionFree(sha) && prev != LastHash(entries)
    ensures !ChainFrom(sha, [], entries + [Stamp(sha, chainId, f, prev)])
  {
    hide ChainFrom, Serialize, FindHash, CollisionFree;
    var last := Stamp(sha, chainId, f, prev);
    var all := entries + [last];
    if ChainFrom(sha, [], all) {
      ChainInit(sha, [], all);
      assert all[..|all| - 1] == entries;
      NoHashOfNone();
      HashIgnoresHash(sha, last, f.(chainId := chainId), LastHash(entries));
      HashCommitsToEntry(sha, last, LastHash(entries), f.(chainId := chainId), prev);
      assert false;
    }
  }

  lemma NoHashOfNone()
    ensures LastHash([]) == []
  {
  }

  lemma StaleRecordBreaks(sha: Digest, chainId: Bytes, st: LogState, entries: seq<Entry>, prev: Bytes,
                          f: Entry, fault: Fault)
    requires CollisionFree(sha) && TextDigest(sha) && Valid(chainId) && Valid(f.data)
    requires st == LogState(st.file, Some(prev), true) && Complete(st.file) && Scan(st.file) == entries
    requires prev != LastHash(entries) && !fault.WriteFailed?
    ensures var next := Step(sha, chainId, st, Recorded(f, fault));
            && Complete(next.file) && !ChainFrom(sha, [], Scan(next.file))
  {
    hide *;
    var stamped := Stamp(sha, chainId, f, prev);
    OpenWriterGoesOn(sha, chainId, st, prev, f);
    StampIsWellFormed(sha, chainId, f, prev);
    LineHolds(stamped, |LineOf(stamped)|);
    StaleWriteBreaks(sha, chainId, st.file, entries, prev, f, |LineOf(stamped)|);
    CompleteConcat(st.file, LineOf(stamped));
  }

  /** So does any write that gets the whole JSON of such a record in. */
  lemma StaleWriteBreaks(sha: Digest, chainId: Bytes, file: Bytes, entries: seq<Entry>, prev: Bytes, f: Entry, n: nat)
    requires CollisionFree(sha) && TextDigest(sha) && Valid(chainId) && Valid(f.data)
    requires Complete(file) && Scan(file) == entries && prev != LastHash(entries)
    requires var next := Stamp(sha, chainId, f, prev); |Serialize(next)| <= n <= |LineOf(next)|
    ensures !ChainFrom(sha, [], Scan(file + LineOf(Stamp(sha, chainId, f, prev))[..n]))
  {
    hide *;
    var next := Stamp(sha, chainId, f, prev);
    StampIsWellFormed(sha, chainId, f, prev);
    LineHolds(next, n);
    CompleteFileHolds(file);
    HoldsAppended(file, entries, LineOf(next)[..n], [next]);
    HeldScan(file + LineOf(next)[..n], entries + [next]);
    StaleLink(sha, chainId, entries, f, prev);
  }

  lemma HeldScan(file: Bytes, entries: seq<Entry>)
    requires HoldsEntries(file, entries)
    ensures Scan(file) == entries
  {
  }

  /** A record acknowledged behind a text that swallows it is lost; the next one is linked to it. */
  lemma LostRecordBreaks(sha: Digest, chainId: Bytes, st: LogState, file: Bytes, entries: seq<Entry>, t: Bytes,
                         prev: Bytes, f: Entry, fault: Fault, g: Entry)
    requires CollisionFree(sha) && TextDigest(sha) && Valid(chainId) && Valid(f.data) && Valid(g.data)
    requires st == LogState(file + t, Some(prev), true) && Complete(file) && Scan(file) == entries
    requires Swallows(t) && Stamp(sha, chainId, f, prev).hash != Some(LastHash(entries)) && !fault.WriteFailed?
    ensures var lost := Step(sha, chainId, st, Recorded(f, fault));
            var next := Step(sha, chainId, lost, Recorded(g, NoFault));
            && Scan(lost.file) == entries && Complete(lost.file)
            && Complete(next.file) && !ChainFrom(sha, [], Scan(next.file))
  {
    hide *;
    var stamped := Stamp(sha, chainId, f, prev);
    OpenWriterGoesOn(sha, chainId, st, prev, f);
    StampIsWellFormed(sha, chainId, f, prev);
    SwallowedLine(t, stamped);
    ScanSplits(file, t + LineOf(stamped));
    assert file + t + LineOf(stamped) == file + (t + LineOf(stamped)) && entries + [] == entries;
    var lost := Step(sha, chainId, st, Recorded(f, fault));
    LineHolds(stamped, |LineOf(stamped)|);
    LineIsNotEmpty(stamped);
    CompleteConcatEnd(file + t, LineOf(stamped));
    StampedHash(sha, chainId, f, prev);
    StaleRecordBreaks(sha, chainId, lost, entries, stamped.hash.value, g, NoFault);
  }

  lemma LineIsNotEmpty(f: Entry)
    ensures LineOf(f) != []
  {
    hide Serialize;
  }

  lemma SwallowedLine(t: Bytes, f: Entry)
    requires Swallows(t) && WellFormed(f)
    ensures Scan(t + LineOf(f)) == []
  {
    hide Scan, WellFormed, Serialize;
  }

  lemma StampedHash(sha: Digest, chainId: Bytes, f: Entry, prev: Bytes)
    ensures Stamp(sha, chainId, f, prev).hash.Some? && Stamp(sha, chainId, f, prev).data == f.data
    ensures !NoFault.WriteFailed?
  {
    hide ComputeHash;
  }

  /** The hash of a record is neither the last one before it nor that of another record there. */
  lemma FreshHash(sha: Digest, chainId: Bytes, entries: seq<Entry>, f: Entry, g: Entry)
    requires CollisionFree(sha) && ChainFrom(sha, [], entries)
    ensures var first, other := Stamp(sha, chainId, f, LastHash(entries)), Stamp(sha, chainId, g, LastHash(entries));
            && first.hash != Some(LastHash(entries))
            && (f.data != g.data ==> other.hash != Some(LastHash(entries + [first])))
  {
    hide *;
    var first, other := Stamp(sha, chainId, f, LastHash(entries)), Stamp(sha, chainId, g, LastHash(entries));
    StampExtendsChain(sha, chainId, entries, f);
    StampExtendsChain(sha, chainId, entries, g);
    LastOfStamped(sha, chainId, entries, f);
    LastOfStamped(sha, chainId, entries, g);
    StampedHash(sha, chainId, f, LastHash(entries));
    StampedHash(sha, chainId, g, LastHash(entries));
    SameEnd(entries, first, first);
    if LastHash(entries + [first]) == LastHash(entries) {
      LastHashCommits(sha, entries, entries + [first]);
      assert false;
    }
    SameEnd(entries, other, first);
    if f.data != g.data && LastHash(entries + [other]) == LastHash(entries + [first]) {
      LastHashCommits(sha, entries + [other], entries + [first]);
      assert false;
    }
  }

  lemma SameEnd(entries: seq<Entry>, a: Entry, b: Entry)
    ensures entries + [a] == entries + [b] ==> a == b
    ensures entries + [a] != entries
  {
    if entries + [a] == entries + [b] {
      assert (entries + [a])[|entries|] == (entries + [b])[|entries|];
    }
    assert |entries + [a]| == |entries| + 1;
  }

  /** Once the whole line is in, the next acknowledged record is linked past it: validation fails. */
  lemma WholeLineBreaksChain(sha: Digest, chainId: Bytes, st: LogState, entries: seq<Entry>, e: Entry, landed: nat,
                             f: Entry, fault: Fault)
    requires CollisionFree(sha) && TextDigest(sha) && Valid(chainId) && Valid(e.data) && Valid(f.data)
    requires Good(sha, st, entries) && !fault.WriteFailed?
    requires landed >= |LineOf(Stamp(sha, chainId, e, LastHash(entries)))|
    ensures var next := Step(sha, chainId, AfterDrop(sha, chainId, st, e, landed), Recorded(f, fault));
            && Complete(next.file) && !ChainFrom(sha, [], Scan(next.file))
  {
    hide *;
    var stamped, after := Stamp(sha, chainId, e, LastHash(entries)), AfterDrop(sha, chainId, st, e, landed);
    DropLeaves(sha, chainId, st, entries, e, landed);
    WholeLineLands(sha, chainId, st, entries, e, landed);
    HeldScan(after.file, entries + [stamped]);
    FreshHash(sha, chainId, entries, e, e);
    StampedHash(sha, chainId, e, LastHash(entries));
    StaleRecordBreaks(sha, chainId, after, entries + [stamped], LastHash(entries), f, fault);
  }

  /** With less than the line in the file, the next record is merged with it into one line that is
      not read at all, although the record was acknowledged; the one after that is linked to it. */
  lemma TornLineBreaksChain(sha: Digest, chainId: Bytes, st: LogState, entries: seq<Entry>, e: Entry, landed: nat,
                            f: Entry, fault: Fault, g: Entry)
    requires CollisionFree(sha) && TextDigest(sha) && Valid(chainId)
    requires Valid(e.data) && Valid(f.data) && Valid(g.data)
    requires Good(sha, st, entries) && !fault.WriteFailed?
    requires 0 < landed < |LineOf(Stamp(sha, chainId, e, LastHash(entries)))|
    ensures var lost := Step(sha, chainId, AfterDrop(sha, chainId, st, e, landed), Recorded(f, fault));
            var next := Step(sha, chainId, lost, Recorded(g, NoFault));
            && Scan(lost.file) == entries && Complete(lost.file)
            && Complete(next.file) && !ChainFrom(sha, [], Scan(next.file))
  {
    hide *;
    var stamped, after := Stamp(sha, chainId, e, LastHash(entries)), AfterDrop(sha, chainId, st, e, landed);
    DropLeaves(sha, chainId, st, entries, e, landed);
    PartOfLineLands(sha, chainId, st, entries, e, landed);
    var file, torn := OpenedFile(st, NoFault), Serialize(stamped)[..landed];
    HeldScan(file, entries);
    TornSwallows(stamped, landed);
    FreshHash(sha, chainId, entries, f, f);
    LostRecordBreaks(sha, chainId, after, file, entries, torn, LastHash(entries), f, fault, g);
  }

  // ---------------------------------------------------------------- the exact condition

  /** Whatever is recorded from here on, the entries of the file form a valid chain. */
  ghost predicate StaysValid(sha: Digest, chainId: Bytes, st: LogState) {
    forall more :: TextEvents(more) ==> ChainFrom(sha, [], Scan(RunFrom(sha, chainId, st, more).file))
  }

  lemma BreaksAtOnce(sha: Digest, chainId: Bytes, st: LogState)
    requires !ChainFrom(sha, [], Scan(st.file))
    ensures !StaysValid(sha, chainId, st)
  {
    hide ChainFrom, Scan;
    assert TextEvents([]) && RunFrom(sha, chainId, st, []) == st;
  }

  lemma BreaksAfter(sha: Digest, chainId: Bytes, st: LogState, event: Event)
    requires TextEvent(event) && !StaysValid(sha, chainId, Step(sha, chainId, st, event))
    ensures !StaysValid(sha, chainId, st)
  {
    hide ChainFrom, Scan, Step, Valid;
    var more :| TextEvents(more) &&
                !ChainFrom(sha, [], Scan(RunFrom(sha, chainId, Step(sha, chainId, st, event), more).file));
    RunFromNext(sha, chainId, st, event, more);
    assert TextEvents([event] + more);
  }

  lemma {:induction false} RunFromNext(sha: Digest, chainId: Bytes, st: LogState, event: Event, more: seq<Event>)
    ensures RunFrom(sha, chainId, st, [event] + more)
         == RunFrom(sha, chainId, Step(sha, chainId, st, event), more)
    decreases |more|
  {
    hide Step;
    var all := [event] + more;
    if more == [] {
      assert all[..0] == [] && all[0] == event && |all| == 1;
      assert RunFrom(sha, chainId, st, all[..0]) == st;
    } else {
      RunFromNext(sha, chainId, st, event, more[..|more| - 1]);
      assert all[..|all| - 1] == [event] + more[..|more| - 1];
    }
  }

  lemma {:induction false} RunFromGood(sha: Digest, chainId: Bytes, st: LogState, entries: seq<Entry>,
                                       events: seq<Event>)
      returns (later: seq<Entry>)
    requires TextDigest(sha) && Valid(chainId) && TextEvents(events) && Good(sha, st, entries)
    ensures Good(sha, RunFrom(sha, chainId, st, events), later)
    decreases |events|
  {
    hide Good, Step, TextDigest;
    later := entries;
    if events != [] {
      var n := |events| - 1;
      assert TextEvent(events[n]) && TextEvents(events[..n]);
      later := RunFromGood(sha, chainId, st, entries, events[..n]);
      var now := RunFrom(sha, chainId, st, events[..n]);
      EventKeepsGood(sha, chainId, now, later, events[n]);
      later := later + Added(sha, chainId, now, later, Plain(events[n]));
    }
  }

  lemma GoodStaysValid(sha: Digest, chainId: Bytes, st: LogState, entries: seq<Entry>)
    requires TextDigest(sha) && Valid(chainId) && Good(sha, st, entries)
    ensures StaysValid(sha, chainId, st)
  {
    hide ChainFrom, Scan, RunFrom, Good, TextDigest, TextEvents;
    forall more | TextEvents(more)
      ensures ChainFrom(sha, [], Scan(RunFrom(sha, chainId, st, more).file))
    {
      var later := RunFromGood(sha, chainId, st, entries, more);
      GoodScans(sha, RunFrom(sha, chainId, st, more), later);
      GoodIsChain(sha, RunFrom(sha, chainId, st, more), later);
    }
  }

  lemma GoodIsChain(sha: Digest, st: LogState, entries: seq<Entry>)
    requires Good(sha, st, entries)
    ensures ChainFrom(sha, [], entries)
  {
  }

  /** A record whose data is not that of `e`. */
  function Unlike(e: Entry): Entry { Entry(if e.data == [] then [0x61] else [], [], None) }

  lemma UnlikeIsText(e: Entry)
    ensures Valid(Unlike(e).data) && Unlike(e).data != e.data
  {
    AsciiIsValid(Unlike(e).data);
  }

  lemma TextRecord(f: Entry)
    requires Valid(f.data)
    ensures TextEvent(Recorded(f, NoFault)) && !NoFault.WriteFailed?
  {
    hide Valid;
  }

  lemma WholeLineNeedsMending(sha: Digest, chainId: Bytes, st: LogState, entries: seq<Entry>, e: Entry, landed: nat)
    requires CollisionFree(sha) && TextDigest(sha) && Valid(chainId) && Valid(e.data) && Good(sha, st, entries)
    requires landed >= |LineOf(Stamp(sha, chainId, e, LastHash(entries)))|
    ensures !StaysValid(sha, chainId, AfterDrop(sha, chainId, st, e, landed))
  {
    hide *;
    var after := AfterDrop(sha, chainId, st, e, landed);
    TextRecord(e);
    WholeLineBreaksChain(sha, chainId, st, entries, e, landed, e, NoFault);
    BreaksAtOnce(sha, chainId, Step(sha, chainId, after, Recorded(e, NoFault)));
    BreaksAfter(sha, chainId, after, Recorded(e, NoFault));
  }

  lemma TornLineNeedsMending(sha: Digest, chainId: Bytes, st: LogState, entries: seq<Entry>, e: Entry, landed: nat,
                             f: Entry, fault: Fault)
    requires CollisionFree(sha) && TextDigest(sha) && Valid(chainId) && Valid(e.data) && Valid(f.data)
    requires Good(sha, st, entries) && !fault.WriteFailed?
    requires 0 < landed < |LineOf(Stamp(sha, chainId, e, LastHash(entries)))|
    ensures !StaysValid(sha, chainId, Step(sha, chainId, AfterDrop(sha, chainId, st, e, landed), Recorded(f, fault)))
  {
    hide *;
    var lost := Step(sha, chainId, AfterDrop(sha, chainId, st, e, landed), Recorded(f, fault));
    TextRecord(f);
    TornLineBreaksChain(sha, chainId, st, entries, e, landed, f, fault, f);
    BreaksAtOnce(sha, chainId, Step(sha, chainId, lost, Recorded(f, NoFault)));
    BreaksAfter(sha, chainId, lost, Recorded(f, NoFault));
  }

  /** No second write mends a whole line, unless it fails before its own JSON is in. */
  lemma WrittenBehindWholeLine(sha: Digest, chainId: Bytes, st: LogState, entries: seq<Entry>, e: Entry, landed: nat,
                               f: Entry, n: nat, cache: Option<Bytes>, writer: bool)
    requires CollisionFree(sha) && TextDigest(sha) && Valid(chainId) && Valid(e.data) && Valid(f.data)
    requires Good(sha, st, entries) && landed >= |LineOf(Stamp(sha, chainId, e, LastHash(entries)))|
    requires var next := Stamp(sha, chainId, f, LastHash(entries)); |Serialize(next)| <= n <= |LineOf(next)|
    ensures var file := AfterDrop(sha, chainId, st, e, landed).file;
            var line := LineOf(Stamp(sha, chainId, f, LastHash(entries)));
            !StaysValid(sha, chainId, LogState(file + line[..n], cache, writer))
  {
    hide *;
    var stamped, after := Stamp(sha, chainId, e, LastHash(entries)), AfterDrop(sha, chainId, st, e, landed);
    DropLeaves(sha, chainId, st, entries, e, landed);
    WholeLineLands(sha, chainId, st, entries, e, landed);
    HeldScan(after.file, entries + [stamped]);
    FreshHash(sha, chainId, entries, e, e);
    StampedHash(sha, chainId, e, LastHash(entries));
    StaleWriteBreaks(sha, chainId, after.file, entries + [stamped], LastHash(entries), f, n);
    var line := LineOf(Stamp(sha, chainId, f, LastHash(entries)));
    BreaksAtOnce(sha, chainId, LogState(after.file + line[..n], cache, writer));
  }

  /** Nor does a second drop that leaves part of its line. */
  lemma TornBehindWholeLine(sha: Digest, chainId: Bytes, st: LogState, entries: seq<Entry>, e: Entry, landed: nat,
                            f: Entry, n: nat)
    requires CollisionFree(sha) && TextDigest(sha) && Valid(chainId) && Valid(e.data) && Valid(f.data)
    requires Good(sha, st, entries) && landed >= |LineOf(Stamp(sha, chainId, e, LastHash(entries)))|
    requires 0 < n <= |Serialize(Stamp(sha, chainId, f, LastHash(entries)))|
    ensures !StaysValid(sha, chainId, DroppedStep(sha, chainId, AfterDrop(sha, chainId, st, e, landed), f, AtWrite(n)))
  {
    hide *;
    var prev, g := LastHash(entries), Unlike(e);
    var stamped, next := Stamp(sha, chainId, e, prev), Stamp(sha, chainId, f, prev);
    var after := AfterDrop(sha, chainId, st, e, landed);
    WholeLineLands(sha, chainId, st, entries, e, landed);
    HeldScan(after.file, entries + [stamped]);
    StampIsWellFormed(sha, chainId, f, prev);
    OpenWriterGoesOn(sha, chainId, after, prev, f);
    LineStarts(next, n);
    LandsWhole(n, |LineOf(next)|);
    TornSwallows(next, n);
    UnlikeIsText(e);
    TextRecord(g);
    GoodIsChain(sha, st, entries);
    FreshHash(sha, chainId, entries, e, g);
    var torn := DroppedStep(sha, chainId, after, f, AtWrite(n));
    LostRecordBreaks(sha, chainId, torn, after.file, entries + [stamped], Serialize(next)[..n], prev, g, NoFault, g);
    var lost := Step(sha, chainId, torn, Recorded(g, NoFault));
    BreaksAtOnce(sha, chainId, Step(sha, chainId, lost, Recorded(g, NoFault)));
    BreaksAfter(sha, chainId, lost, Recorded(g, NoFault));
    BreaksAfter(sha, chainId, torn, Recorded(g, NoFault));
  }

  /** Nor does one that leaves less than a line behind part of a line. */
  lemma TornBehindTornLine(sha: Digest, chainId: Bytes, st: LogState, entries: seq<Entry>, e: Entry, landed: nat,
                           f: Entry, n: nat)
    requires CollisionFree(sha) && TextDigest(sha) && Valid(chainId) && Valid(e.data) && Valid(f.data)
    requires Good(sha, st, entries) && 0 < landed < |LineOf(Stamp(sha, chainId, e, LastHash(entries)))|
    requires n <= |Serialize(Stamp(sha, chainId, f, LastHash(entries)))|
    ensures !StaysValid(sha, chainId, DroppedStep(sha, chainId, AfterDrop(sha, chainId, st, e, landed), f, AtWrite(n)))
  {
    hide *;
    var prev := LastHash(entries);
    var stamped, next := Stamp(sha, chainId, e, prev), Stamp(sha, chainId, f, prev);
    var after, file := AfterDrop(sha, chainId, st, e, landed), OpenedFile(st, NoFault);
    DropLeaves(sha, chainId, st, entries, e, landed);
    PartOfLineLands(sha, chainId, st, entries, e, landed);
    HeldScan(file, entries);
    OpenWriterGoesOn(sha, chainId, after, prev, f);
    LineStarts(next, n);
    LandsWhole(n, |LineOf(next)|);
    var t := Serialize(stamped)[..landed] + Serialize(next)[..n];
    assert file + Serialize(stamped)[..landed] + Serialize(next)[..n] == file + t;
    TornPairSwallows(stamped, landed, next, n);
    FreshHash(sha, chainId, entries, e, e);
    TextRecord(e);
    var torn := DroppedStep(sha, chainId, after, f, AtWrite(n));
    LostRecordBreaks(sha, chainId, torn, file, entries, t, prev, e, NoFault, e);
    var lost := Step(sha, chainId, torn, Recorded(e, NoFault));
    BreaksAtOnce(sha, chainId, Step(sha, chainId, lost, Recorded(e, NoFault)));
    BreaksAfter(sha, chainId, lost, Recorded(e, NoFault));
    BreaksAfter(sha, chainId, torn, Recorded(e, NoFault));
  }

  lemma DropNeedsMending(sha: Digest, chainId: Bytes, st: LogState, entries: seq<Entry>, e: Entry, landed: nat)
    requires CollisionFree(sha) && TextDigest(sha) && Valid(chainId) && Valid(e.data) && Good(sha, st, entries)
    requires landed > 0
    ensures !StaysValid(sha, chainId, AfterDrop(sha, chainId, st, e, landed))
  {
    hide *;
    if landed >= |LineOf(Stamp(sha, chainId, e, LastHash(entries)))| {
      WholeLineNeedsMending(sha, chainId, st, entries, e, landed);
    } else {
      TextRecord(e);
      TornLineNeedsMending(sha, chainId, st, entries, e, landed, e, NoFault);
      BreaksAfter(sha, chainId, AfterDrop(sha, chainId, st, e, landed), Recorded(e, NoFault));
    }
  }

  /** When a call is dropped after a settled run, the log stays valid whatever is recorded right
      after it exactly when nothing of the line was under way. */
  lemma ValidAfterDropExactly(sha: Digest, chainId: Bytes, hs: seq<Happening>, e: Entry, landed: nat)
    requires CollisionFree(sha) && TextDigest(sha) && Valid(chainId) && Valid(e.data)
    requires TextHappenings(hs) && Settled(sha, chainId, hs)
    ensures StaysValid(sha, chainId, AfterDrop(sha, chainId, RunAll(sha, chainId, hs), e, landed)) <==> landed == 0
  {
    hide *;
    SettledRunIsGood(sha, chainId, hs);
    var st, entries := RunAll(sha, chainId, hs), Kept(sha, chainId, hs);
    if landed == 0 {
      NothingLanded(sha, chainId, st, e);
      QuietDropKeepsGood(sha, chainId, st, entries, e, AtWrite(0));
      GoodStaysValid(sha, chainId, AfterDrop(sha, chainId, st, e, 0), entries);
    } else {
      DropNeedsMending(sha, chainId, st, entries, e, landed);
    }
  }

  lemma NothingLanded(sha: Digest, chainId: Bytes, st: LogState, e: Entry)
    ensures !LeavesBytes(Dropped(e, AtWrite(0)))
    ensures AfterDrop(sha, chainId, st, e, 0) == DroppedStep(sha, chainId, st, e, AtWrite(0))
  {
    hide DroppedStep;
  }

  lemma UnmendedRecord(sha: Digest, chainId: Bytes, st: LogState, entries: seq<Entry>, e: Entry, landed: nat,
                       f: Entry, fault: Fault)
    requires CollisionFree(sha) && TextDigest(sha) && Valid(chainId) && Valid(e.data) && Valid(f.data)
    requires Good(sha, st, entries) && landed > 0
    requires !Mends(sha, chainId, LastHash(entries), e, landed, Plain(Recorded(f, fault)))
    ensures !StaysValid(sha, chainId, Step(sha, chainId, AfterDrop(sha, chainId, st, e, landed), Recorded(f, fault)))
  {
    UnmendedLengths(sha, chainId, LastHash(entries), e, landed, f, fault);
    hide *;
    var after, prev := AfterDrop(sha, chainId, st, e, landed), LastHash(entries);
    if fault.WriteFailed? {
      DropLeaves(sha, chainId, st, entries, e, landed);
      OpenWriterGoesOn(sha, chainId, after, prev, f);
      var n := Landing(fault.written, |LineOf(Stamp(sha, chainId, f, prev))|);
      WrittenBehindWholeLine(sha, chainId, st, entries, e, landed, f, n, None, false);
    } else if landed >= |LineOf(Stamp(sha, chainId, e, prev))| {
      WholeLineBreaksChain(sha, chainId, st, entries, e, landed, f, fault);
      BreaksAtOnce(sha, chainId, Step(sha, chainId, after, Recorded(f, fault)));
    } else {
      TornLineNeedsMending(sha, chainId, st, entries, e, landed, f, fault);
    }
  }

  lemma UnmendedLengths(sha: Digest, chainId: Bytes, prev: Bytes, e: Entry, landed: nat, f: Entry, fault: Fault)
    requires !Mends(sha, chainId, prev, e, landed, Plain(Recorded(f, fault)))
    ensures var next := Stamp(sha, chainId, f, prev);
            fault.WriteFailed? ==>
              && landed >= |LineOf(Stamp(sha, chainId, e, prev))|
              && fault == WriteFailed(fault.written)
              && |Serialize(next)| <= Landing(fault.written, |LineOf(next)|) <= |LineOf(next)|
  {
    hide Serialize, Stamp;
  }

  lemma UnmendedDrop(sha: Digest, chainId: Bytes, st: LogState, entries: seq<Entry>, e: Entry, landed: nat,
                     f: Entry, at: Stage)
    requires CollisionFree(sha) && TextDigest(sha) && Valid(chainId) && Valid(e.data) && Valid(f.data)
    requires Good(sha, st, entries) && landed > 0
    requires !Mends(sha, chainId, LastHash(entries), e, landed, Dropped(f, at))
    ensures !StaysValid(sha, chainId, DroppedStep(sha, chainId, AfterDrop(sha, chainId, st, e, landed), f, at))
  {
    UnmendedDropLengths(sha, chainId, LastHash(entries), e, landed, f, at);
    hide *;
    var after, prev := AfterDrop(sha, chainId, st, e, landed), LastHash(entries);
    var next := Stamp(sha, chainId, f, prev);
    DropLeaves(sha, chainId, st, entries, e, landed);
    OpenWriterGoesOn(sha, chainId, after, prev, f);
    if !at.AtWrite? {
      DropNeedsMending(sha, chainId, st, entries, e, landed);
    } else if landed < |LineOf(Stamp(sha, chainId, e, prev))| {
      TornBehindTornLine(sha, chainId, st, entries, e, landed, f, at.landed);
    } else if at.landed == 0 {
      LandsWhole(0, |LineOf(next)|);
      DropNeedsMending(sha, chainId, st, entries, e, landed);
      NothingWritten(after.file, LineOf(next));
    } else if at.landed <= |Serialize(next)| {
      TornBehindWholeLine(sha, chainId, st, entries, e, landed, f, at.landed);
    } else {
      WrittenBehindWholeLine(sha, chainId, st, entries, e, landed, f, Landing(at.landed, |LineOf(next)|),
                             Some(prev), true);
    }
  }

  lemma NothingWritten(file: Bytes, line: Bytes)
    ensures file + line[..0] == file
  {
  }

  lemma UnmendedDropLengths(sha: Digest, chainId: Bytes, prev: Bytes, e: Entry, landed: nat, f: Entry, at: Stage)
    requires !Mends(sha, chainId, prev, e, landed, Dropped(f, at))
    ensures var next := Stamp(sha, chainId, f, prev);
            at.AtWrite? ==>
              && at == AtWrite(at.landed)
              && (landed < |LineOf(Stamp(sha, chainId, e, prev))| ==> at.landed <= |Serialize(next)|)
              && (at.landed > |Serialize(next)| ==>
                    |Serialize(next)| <= Landing(at.landed, |LineOf(next)|) <= |LineOf(next)|)
  {
    hide Serialize, Stamp;
  }

  /** When bytes of the dropped call are under way, the log stays valid for good exactly when what
      happens next puts it in order. */
  lemma RecoversExactly(sha: Digest, chainId: Bytes, hs: seq<Happening>, e: Entry, landed: nat, h: Happening)
    requires CollisionFree(sha) && TextDigest(sha) && Valid(chainId) && Valid(e.data) && TextHappening(h)
    requires TextHappenings(hs) && Settled(sha, chainId, hs) && landed > 0
    ensures var st := RunAll(sha, chainId, hs);
            StaysValid(sha, chainId, Happen(sha, chainId, AfterDrop(sha, chainId, st, e, landed), h))
            <==> Mends(sha, chainId, PreviousHash(st), e, landed, h)
  {
    hide Settled, TextHappenings, RunAll, Kept, Good, StaysValid, Mends, FromDrop, AfterDrop, Step, DroppedStep,
         CollisionFree, TextDigest, Valid, LastHash, PreviousHash;
    SettledRunIsGood(sha, chainId, hs);
    var st, entries := RunAll(sha, chainId, hs), Kept(sha, chainId, hs);
    GoodScans(sha, st, entries);
    if Mends(sha, chainId, LastHash(entries), e, landed, h) {
      MendKeepsGood(sha, chainId, st, entries, e, landed, h);
      GoodStaysValid(sha, chainId, Happen(sha, chainId, AfterDrop(sha, chainId, st, e, landed), h),
                     entries + FromDrop(sha, chainId, LastHash(entries), e, landed, h));
    } else {
      match h {
        case Plain(Reopened) => RestartAlwaysMends(sha, chainId, LastHash(entries), e, landed); assert false;
        case Plain(Recorded(f, fault)) => UnmendedRecord(sha, chainId, st, entries, e, landed, f, fault);
        case Dropped(f, at) => UnmendedDrop(sha, chainId, st, entries, e, landed, f, at);
      }
    }
  }

  lemma RestartAlwaysMends(sha: Digest, chainId: Bytes, prev: Bytes, e: Entry, landed: nat)
    ensures Mends(sha, chainId, prev, e, landed, Plain(Reopened))
  {
    hide Stamp, Serialize;
  }

  /** Once a record is linked past another one, validation fails for good: the lines before
      the next write never change again. */
  lemma BrokenForGood(sha: Digest, chainId: Bytes, st: LogState, events: seq<Event>)
    requires Complete(st.file) && !ChainFrom(sha, [], Scan(st.file))
    ensures !ChainFrom(sha, [], Scan(RunFrom(sha, chainId, st, events).file))
  {
    hide *;
    FileGrows(sha, chainId, st, events);
    var file := RunFrom(sha, chainId, st, events).file;
    var rest := file[|st.file|..];
    assert file == st.file + rest;
    ScanSplits(st.file, rest);
    assert Scan(file)[..|Scan(st.file)|] == Scan(st.file);
    if ChainFrom(sha, [], Scan(file)) {
      ChainPrefix(sha, Scan(file), |Scan(st.file)|);
    }
  }

  lemma {:induction false} FileGrows(sha: Digest, chainId: Bytes, st: LogState, events: seq<Event>)
    ensures st.file <= RunFrom(sha, chainId, st, events).file
    decreases |events|
  {
    hide Stamp, LineOf, PreviousHash;
    if events != [] {
      FileGrows(sha, chainId, st, events[..|events| - 1]);
    }
  }
}
