/** Crash safety of the log over whole runs: records that succeed, records that fail at any
    point, and processes that restart on the same file. */
module CrashRuns {
  import opened Wrappers
  import opened Utf8
  import opened LineCodec
  import opened ChainedLog

  /** One writer at a time: an attempt to record, or a new instance on the same file. */
  datatype Event =
    | Recorded(entry: Entry, fault: Fault)
    | Reopened

  const FRESH := LogState([], None, false)

  function Step(sha: Digest, chainId: Bytes, st: LogState, ev: Event): LogState {
    match ev
    case Recorded(e, fault) => RecordStep(sha, chainId, st, e, fault)
    case Reopened => LogState(st.file, None, false)
  }

  function Run(sha: Digest, chainId: Bytes, events: seq<Event>): LogState {
    if events == [] then FRESH
    else Step(sha, chainId, Run(sha, chainId, events[..|events| - 1]), events[|events| - 1])
  }

  /** Did the whole JSON text of a line get into the file, if not its newline? */
  predicate WholeJsonWritten(st: LogState, stamped: Entry, fault: Fault) {
    Written(st, fault, |LineOf(stamped)|) >= |Serialize(stamped)|
  }

  /** The entries the file should hold: each record whose whole JSON got in, in order, linked
      to the survivor before it. */
  function Survivors(sha: Digest, chainId: Bytes, events: seq<Event>): seq<Entry> {
    if events == [] then []
    else
      var before := Survivors(sha, chainId, events[..|events| - 1]);
      match events[|events| - 1]
      case Reopened => before
      case Recorded(e, fault) =>
        var stamped := Stamp(sha, chainId, e, LastHash(before));
        if WholeJsonWritten(Run(sha, chainId, events[..|events| - 1]), stamped, fault)
        then before + [stamped] else before
  }

  // ---------------------------------------------------------------- what may be written

  /** Hashes are text, as hexadecimal digests are. */
  ghost predicate TextDigest(sha: Digest) { forall x :: Valid(sha(x)) }

  ghost predicate TextEvents(events: seq<Event>) {
    forall i :: 0 <= i < |events| && events[i].Recorded? ==> Valid(events[i].entry.data)
  }

  // ---------------------------------------------------------------- torn lines

  /** What the invariant needs to know about the JSON text of a record. */
  ghost predicate JsonOf(json: Bytes, e: Entry) {
    && json != [] && Valid(json)
    && (forall i :: 0 <= i < |json| ==> json[i] >= 0x20)
    && Parse(json) == Some(e)
    && (forall n :: 0 <= n < |json| ==> Parse(json[..n]).None?)
  }

  lemma SerializeIsJson(e: Entry)
    requires WellFormed(e)
    ensures JsonOf(Serialize(e), e)
  {
    hide Parse, Serialize, Valid;
    var json := Serialize(e);
    SerializeIsPrintable(e);
    assert forall i :: 0 <= i < |json| ==> json[i] in json;
    SerializeIsValid(e);
    ParseInvertsSerialize(e);
    forall n | 0 <= n < |json|
      ensures Parse(json[..n]).None?
    {
      TornLineDoesNotParse(e, n);
    }
  }

  lemma SingleLine(text: Bytes)
    requires text != [] && NEWLINE !in text && text[|text| - 1] != 0x0D
    ensures Lines(text) == [text]
    ensures Lines(text + [NEWLINE]) == [text]
  {
    var line := text + [NEWLINE];
    FirstNewlineUnique(line, |text|);
    assert line[..|text|] == text && line[|text| + 1..] == [];
  }

  lemma TornText(json: Bytes, e: Entry, n: nat)
    requires JsonOf(json, e) && 0 < n <= |json|
    ensures var text := Lossy(json[..n]);
            && text != [] && NEWLINE !in text && text[|text| - 1] != 0x0D
            && Parse(text) == if n == |json| then Some(e) else None
  {
    hide Parse;
    var cut := json[..n];
    LossyKeepsNewlines(cut);
    var m := CutText(json, n);
    assert json[..|json|] == json;
    if Valid(cut) {
      ValidIsLossless(cut);
    } else {
      assert Lossy(cut)[|Lossy(cut)| - 1] == 0xBD;
    }
  }

  lemma ParseOne(line: Bytes)
    ensures ParseAll([line]) == if Parse(line).Some? then [Parse(line).value] else []
  {
    assert ParseAll([line][1..]) == [];
  }

  /** Scanning an unfinished line finds its entry exactly when the whole JSON is there, and a
      newline after it makes no difference. */
  lemma TornScan(json: Bytes, e: Entry, n: nat)
    requires JsonOf(json, e) && 0 < n <= |json|
    ensures Scan(json[..n]) == if n == |json| then [e] else []
    ensures Scan(json[..n] + [NEWLINE]) == Scan(json[..n])
  {
    hide Parse, Lossy, Lines, Valid, JsonOf;
    var cut := json[..n];
    TornText(json, e, n);
    SingleLine(Lossy(cut));
    NewlineEndsText(cut);
    ParseOne(Lossy(cut));
  }

  /** Scanning what got in of a line: its entry exactly when the whole JSON is there. */
  lemma PartHolds(json: Bytes, e: Entry, n: nat)
    requires JsonOf(json, e) && n <= |json| + 1
    ensures HoldsEntries((json + [NEWLINE])[..n], if n >= |json| then [e] else [])
  {
    hide Parse, Lines, Lossy, JsonOf, HoldsEntries, Scan;
    JsonIsNotEmpty(json, e);
    if n == 0 {
      CompleteFileHolds([]);
      NothingScans();
    } else if n <= |json| {
      TornScan(json, e, n);
      HoldsWhat(json[..n], if n == |json| then [e] else []);
      assert (json + [NEWLINE])[..n] == json[..n];
    } else {
      TornScan(json, e, |json|);
      assert json[..|json|] == json && (json + [NEWLINE])[..n] == json + [NEWLINE];
      CompleteFileHolds(json + [NEWLINE]);
    }
  }

  // ---------------------------------------------------------------- the invariant

  /** Scanning the file finds exactly these entries, and still does once its last line is ended. */
  ghost predicate HoldsEntries(file: Bytes, entries: seq<Entry>) {
    Scan(file) == entries && Scan(file + [NEWLINE]) == entries
  }

  ghost predicate Good(sha: Digest, st: LogState, entries: seq<Entry>) {
    && HoldsEntries(st.file, entries)
    && ChainFrom(sha, [], entries)
    && (st.cache.Some? ==> st.cache.value == LastHash(entries))
    && (st.writer ==> Complete(st.file))
  }

  lemma HoldsWhat(file: Bytes, entries: seq<Entry>)
    requires Scan(file) == entries && Scan(file + [NEWLINE]) == entries
    ensures HoldsEntries(file, entries)
  {
  }

  lemma NothingScans()
    ensures Scan([]) == [] && Scan([NEWLINE]) == []
  {
    EmptyText();
    assert Lossy([NEWLINE]) == [NEWLINE] by { NewlineEndsText([]); assert [] + [NEWLINE] == [NEWLINE]; }
    assert Lines([NEWLINE]) == [[]];
  }

  lemma JsonIsNotEmpty(json: Bytes, any: Entry)
    requires JsonOf(json, any)
    ensures json != []
  {
    hide Parse, Valid;
  }

  lemma CompleteFileHolds(file: Bytes)
    requires Complete(file)
    ensures HoldsEntries(file, Scan(file))
  {
    hide Scan;
    ScanSplits(file, [NEWLINE]);
    NothingScans();
    assert Scan(file) + [] == Scan(file);
  }

  /** Ending the unfinished line with a newline changes no entry. */
  lemma RepairKeepsEntries(file: Bytes, entries: seq<Entry>)
    requires HoldsEntries(file, entries)
    ensures HoldsEntries(file + [NEWLINE], entries)
  {
    hide Scan;
    CompleteFileHolds(file + [NEWLINE]);
  }

  lemma GoodScans(sha: Digest, st: LogState, entries: seq<Entry>)
    requires Good(sha, st, entries)
    ensures Scan(st.file) == entries
    ensures PreviousHash(st) == LastHash(entries)
  {
  }

  /** Opening the file, whether or not it gets as far as the line, keeps every entry; and once
      it does, the file is complete lines only. */
  lemma OpenKeepsEntries(st: LogState, fault: Fault, entries: seq<Entry>)
    requires HoldsEntries(st.file, entries)
    requires st.writer ==> Complete(st.file)
    ensures HoldsEntries(OpenedFile(st, fault), entries)
    ensures !StopsEarly(st, fault) ==> Complete(OpenedFile(st, fault))
  {
    hide HoldsEntries;
    if OpenedFile(st, fault) != st.file {
      RepairKeepsEntries(st.file, entries);
    }
  }

  /** What is written after complete lines adds its own entries. */
  lemma HoldsAppended(file: Bytes, entries: seq<Entry>, part: Bytes, more: seq<Entry>)
    requires Complete(file) && HoldsEntries(file, entries) && HoldsEntries(part, more)
    ensures HoldsEntries(file + part, entries + more)
  {
    hide Scan, Complete;
    ScanSplits(file, part);
    ScanSplits(file, part + [NEWLINE]);
    assert file + (part + [NEWLINE]) == file + part + [NEWLINE];
  }

  /** Writing any prefix of a line after complete lines adds its entry exactly when the whole
      JSON got in. */
  lemma AppendKeepsEntries(file: Bytes, json: Bytes, e: Entry, n: nat, entries: seq<Entry>)
    requires Complete(file) && HoldsEntries(file, entries)
    requires JsonOf(json, e) && n <= |json| + 1
    ensures HoldsEntries(file + (json + [NEWLINE])[..n],
                         if n >= |json| then entries + [e] else entries)
  {
    hide *;
    PartHolds(json, e, n);
    HoldsAppended(file, entries, (json + [NEWLINE])[..n], if n >= |json| then [e] else []);
    assert entries + [] == entries;
  }

  lemma {:induction false} ChainAppend(sha: Digest, prev: Bytes, entries: seq<Entry>, e: Entry)
    requires ChainFrom(sha, prev, entries)
    requires e.hash == Some(ComputeHash(sha, e, if entries == [] then prev else LastHash(entries)))
    ensures ChainFrom(sha, prev, entries + [e])
    decreases |entries|
  {
    if entries == [] {
      assert [e][1..] == [];
      assert ([] + [e])[0] == e;
    } else {
      var rest, h := entries[1..], entries[0].hash.value;
      assert (entries + [e])[1..] == rest + [e];
      if rest != [] {
        ChainLastHash(sha, prev, entries);
        ChainLastHash(sha, h, rest);
      }
      ChainAppend(sha, h, rest, e);
    }
  }

  /** In a chain the last hash is that of the last entry. */
  lemma {:induction false} ChainLastHash(sha: Digest, prev: Bytes, entries: seq<Entry>)
    requires ChainFrom(sha, prev, entries) && entries != []
    ensures entries[|entries| - 1].hash.Some?
    ensures FindHash(entries) == entries[|entries| - 1].hash
    decreases |entries|
  {
    if |entries| > 1 {
      ChainLastHash(sha, entries[0].hash.value, entries[1..]);
    }
  }

  lemma StampIsWellFormed(sha: Digest, chainId: Bytes, e: Entry, prev: Bytes)
    requires TextDigest(sha) && Valid(chainId) && Valid(e.data)
    ensures WellFormed(Stamp(sha, chainId, e, prev))
  {
  }

  lemma StampExtendsChain(sha: Digest, chainId: Bytes, entries: seq<Entry>, e: Entry)
    requires ChainFrom(sha, [], entries)
    ensures ChainFrom(sha, [], entries + [Stamp(sha, chainId, e, LastHash(entries))])
  {
    var stamped := Stamp(sha, chainId, e, LastHash(entries));
    assert stamped.(hash := None) == e.(chainId := chainId).(hash := None);
    ChainAppend(sha, [], entries, stamped);
  }

  /** The file after an attempt to record. */
  lemma RecordAppends(sha: Digest, chainId: Bytes, st: LogState, e: Entry, fault: Fault)
    ensures var line := LineOf(Stamp(sha, chainId, e, PreviousHash(st)));
            RecordStep(sha, chainId, st, e, fault).file
            == OpenedFile(st, fault) + line[..Written(st, fault, |line|)]
  {
  }

  lemma RecordKeepsEntries(sha: Digest, chainId: Bytes, st: LogState, entries: seq<Entry>, e: Entry,
                           fault: Fault)
    requires TextDigest(sha) && Valid(chainId) && Valid(e.data)
    requires Good(sha, st, entries)
    ensures var stamped := Stamp(sha, chainId, e, LastHash(entries));
            HoldsEntries(RecordStep(sha, chainId, st, e, fault).file,
                         if WholeJsonWritten(st, stamped, fault) then entries + [stamped] else entries)
  {
    hide Serialize, Parse, Scan, HoldsEntries, RecordStep;
    GoodScans(sha, st, entries);
    var stamped := Stamp(sha, chainId, e, LastHash(entries));
    var json := Serialize(stamped);
    StampIsWellFormed(sha, chainId, e, LastHash(entries));
    SerializeIsJson(stamped);
    OpenKeepsEntries(st, fault, entries);
    RecordAppends(sha, chainId, st, e, fault);
    var file := OpenedFile(st, fault);
    if StopsEarly(st, fault) {
      hide *;
      assert (json + [NEWLINE])[..0] == [] && file + [] == file;
    } else {
      hide JsonOf, TextDigest, Good, Complete;
      AppendKeepsEntries(file, json, stamped, Written(st, fault, |json| + 1), entries);
    }
  }

  /** Each attempt to record keeps the invariant. */
  lemma RecordKeepsGood(sha: Digest, chainId: Bytes, st: LogState, entries: seq<Entry>, e: Entry,
                        fault: Fault)
    requires TextDigest(sha) && Valid(chainId) && Valid(e.data)
    requires Good(sha, st, entries)
    ensures var stamped := Stamp(sha, chainId, e, LastHash(entries));
            Good(sha, RecordStep(sha, chainId, st, e, fault),
                 if WholeJsonWritten(st, stamped, fault) then entries + [stamped] else entries)
  {
    hide RecordStep, HoldsEntries, Scan, ChainFrom, FindHash, Complete, Serialize, WholeJsonWritten;
    GoodScans(sha, st, entries);
    RecordKeepsEntries(sha, chainId, st, entries, e, fault);
    var stamped := Stamp(sha, chainId, e, LastHash(entries));
    StampExtendsChain(sha, chainId, entries, e);
    ChainLastHash(sha, [], entries + [stamped]);
    RecordOutcome(sha, chainId, st, e, fault);
    assert Acknowledged(st, fault) ==> WholeJsonWritten(st, stamped, fault) by {
      if Acknowledged(st, fault) { AcknowledgedWritesAll(st, stamped, fault); }
    }
  }

  /** What an attempt leaves in memory: the linked hash when acknowledged, otherwise no writer,
      and no hash or the one just read. */
  lemma RecordOutcome(sha: Digest, chainId: Bytes, st: LogState, e: Entry, fault: Fault)
    ensures var next := RecordStep(sha, chainId, st, e, fault);
            if Acknowledged(st, fault)
            then next.writer && Complete(next.file)
                 && next.cache == Stamp(sha, chainId, e, PreviousHash(st)).hash
            else !next.writer
                 && (next.cache == None || (StopsEarly(st, fault) && next.cache == Some(PreviousHash(st))))
    ensures StopsEarly(st, fault) ==>
              !WholeJsonWritten(st, Stamp(sha, chainId, e, PreviousHash(st)), fault)
  {
    var json := Serialize(Stamp(sha, chainId, e, PreviousHash(st)));
    assert json != [];
    hide Serialize;
    if Acknowledged(st, fault) {
      CompleteLineEnds(OpenedFile(st, fault), json);
    }
  }

  lemma CompleteLineEnds(file: Bytes, json: Bytes)
    ensures Complete(file + (json + [NEWLINE])[..|json| + 1])
  {
  }

  /** Crash safety: after every run the file's entries, as the writer sees them, are exactly
      the survivors; they form a chain that validation accepts; and a cached hash is the hash
      of the last survivor. */
  lemma {:induction false} CrashSafety(sha: Digest, chainId: Bytes, events: seq<Event>)
    requires TextDigest(sha) && Valid(chainId) && TextEvents(events)
    ensures var st, survivors := Run(sha, chainId, events), Survivors(sha, chainId, events);
            && Scan(st.file) == survivors
            && ChainFrom(sha, [], survivors)
            && PreviousHash(st) == LastHash(survivors)
    decreases |events|
  {
    RunIsGood(sha, chainId, events);
    GoodScans(sha, Run(sha, chainId, events), Survivors(sha, chainId, events));
  }

  lemma {:induction false} RunIsGood(sha: Digest, chainId: Bytes, events: seq<Event>)
    requires TextDigest(sha) && Valid(chainId) && TextEvents(events)
    ensures Good(sha, Run(sha, chainId, events), Survivors(sha, chainId, events))
    decreases |events|
  {
    if events == [] {
      CompleteFileHolds([]);
      assert Scan([]) == [];
    } else {
      var before := events[..|events| - 1];
      RunIsGood(sha, chainId, before);
      match events[|events| - 1] {
        case Reopened =>
        case Recorded(e, fault) =>
          RecordKeepsGood(sha, chainId, Run(sha, chainId, before), Survivors(sha, chainId, before),
                          e, fault);
      }
    }
  }

  /** Ending the last line changes no entry, in whatever file a run leaves behind. */
  lemma RepairChangesNoEntry(sha: Digest, chainId: Bytes, events: seq<Event>)
    requires TextDigest(sha) && Valid(chainId) && TextEvents(events)
    ensures var file := Run(sha, chainId, events).file; Scan(file + [NEWLINE]) == Scan(file)
  {
    hide Run, Survivors, Scan, TextDigest, ChainFrom;
    RunIsGood(sha, chainId, events);
  }

  lemma {:induction false} SurvivorsGrow(sha: Digest, chainId: Bytes, events: seq<Event>, i: nat)
    requires i <= |events|
    ensures Survivors(sha, chainId, events[..i]) <= Survivors(sha, chainId, events)
    decreases |events|
  {
    hide Run, Stamp, WholeJsonWritten, LastHash;
    var n := |events| - 1;
    if i <= n {
      assert events[..n][..i] == events[..i];
      SurvivorsGrow(sha, chainId, events[..n], i);
    } else {
      assert events[..i] == events;
    }
  }

  lemma AcknowledgedWritesAll(st: LogState, stamped: Entry, fault: Fault)
    requires Acknowledged(st, fault)
    ensures WholeJsonWritten(st, stamped, fault)
  {
    hide Serialize;
  }

  /** No acknowledged record is ever lost: it is a survivor at once, and survivors only grow. */
  lemma {:induction false} AcknowledgedRecordsSurvive(sha: Digest, chainId: Bytes, events: seq<Event>,
                                                      i: nat)
    requires i < |events| && events[i].Recorded?
    requires Acknowledged(Run(sha, chainId, events[..i]), events[i].fault)
    ensures var before := Survivors(sha, chainId, events[..i]);
            before + [Stamp(sha, chainId, events[i].entry, LastHash(before))]
            <= Survivors(sha, chainId, events)
    decreases |events|
  {
    hide Run, Stamp, Acknowledged, WholeJsonWritten, LastHash;
    var n := |events| - 1;
    if i < n {
      assert events[..n][..i] == events[..i];
      AcknowledgedRecordsSurvive(sha, chainId, events[..n], i);
    } else {
      assert events[..i] == events[..n];
      var before := Survivors(sha, chainId, events[..i]);
      AcknowledgedWritesAll(Run(sha, chainId, events[..i]),
                            Stamp(sha, chainId, events[i].entry, LastHash(before)), events[i].fault);
    }
  }

  // ---------------------------------------------------------------- what the records say

  /** The data handed to the attempts of a run whose whole JSON got into the file, in order. */
  function DataWritten(sha: Digest, chainId: Bytes, events: seq<Event>): seq<Bytes> {
    if events == [] then []
    else
      var init, last := events[..|events| - 1], events[|events| - 1];
      DataWritten(sha, chainId, init) + (if GotIn(sha, chainId, init, last) then [last.entry.data] else [])
  }

  /** After the run `before`, does the whole JSON of this attempt get in, if not its newline? */
  predicate GotIn(sha: Digest, chainId: Bytes, before: seq<Event>, ev: Event) {
    ev.Recorded? &&
    var st := Run(sha, chainId, before);
    WholeJsonWritten(st, Stamp(sha, chainId, ev.entry, PreviousHash(st)), ev.fault)
  }

  lemma {:induction false} SurvivorsSay(sha: Digest, chainId: Bytes, events: seq<Event>)
    requires TextDigest(sha) && Valid(chainId) && TextEvents(events)
    ensures var kept, data := Survivors(sha, chainId, events), DataWritten(sha, chainId, events);
            |kept| == |data| && forall i :: 0 <= i < |kept| ==> SaysOf(kept[i], chainId, data[i])
    decreases |events|
  {
    hide Run, WholeJsonWritten, ComputeHash, LastHash, TextDigest, PreviousHash;
    if events != [] {
      var before, last := events[..|events| - 1], events[|events| - 1];
      SurvivorsSay(sha, chainId, before);
      CrashSafety(sha, chainId, before);
    }
  }

  /** A record of this log that holds these data. */
  predicate SaysOf(e: Entry, chainId: Bytes, data: Bytes) {
    e.data == data && e.chainId == chainId && e.hash.Some?
  }

  /** What is in the file is what was asked for: after every run its entries have, in order, exactly
      the data handed to the attempts whose whole JSON got in, and all carry the id of the log. */
  lemma FileSaysWhatWasAsked(sha: Digest, chainId: Bytes, events: seq<Event>)
    requires TextDigest(sha) && Valid(chainId) && TextEvents(events)
    ensures var kept, data := Scan(Run(sha, chainId, events).file), DataWritten(sha, chainId, events);
            && |kept| == |data|
            && forall i :: 0 <= i < |kept| ==>
                 kept[i].data == data[i] && kept[i].chainId == chainId && kept[i].hash.Some?
  {
    hide Run, Survivors, DataWritten, Scan, TextDigest;
    CrashSafety(sha, chainId, events);
    SurvivorsSay(sha, chainId, events);
  }

  /** An acknowledged record is in the file for good, behind those that were there, with exactly the
      data that was asked for. */
  lemma AcknowledgedRecordIsThere(sha: Digest, chainId: Bytes, events: seq<Event>, i: nat)
    requires TextDigest(sha) && Valid(chainId) && TextEvents(events)
    requires i < |events| && events[i].Recorded?
    requires Acknowledged(Run(sha, chainId, events[..i]), events[i].fault)
    ensures var before := Scan(Run(sha, chainId, events[..i]).file);
            var kept := Scan(Run(sha, chainId, events).file);
            && |before| < |kept| && kept[..|before|] == before
            && kept[|before|].data == events[i].entry.data && kept[|before|].chainId == chainId
  {
    hide Run, Survivors, Scan, TextDigest, Acknowledged, LastHash, ComputeHash;
    AcknowledgedRecordsSurvive(sha, chainId, events, i);
    CrashSafety(sha, chainId, events);
    assert TextEvents(events[..i]);
    CrashSafety(sha, chainId, events[..i]);
  }

  // ---------------------------------------------------------------- what readers see

  /** The bytes of its line that an event leaves in the file. */
  function WrittenText(sha: Digest, chainId: Bytes, st: LogState, ev: Event): Bytes {
    match ev
    case Reopened => []
    case Recorded(e, fault) =>
      var line := LineOf(Stamp(sha, chainId, e, PreviousHash(st)));
      line[..Written(st, fault, |line|)]
  }

  /** No torn write was cut inside a character. */
  predicate CutsAligned(sha: Digest, chainId: Bytes, events: seq<Event>) {
    events == [] ||
    (var before := events[..|events| - 1];
     && CutsAligned(sha, chainId, before)
     && Valid(WrittenText(sha, chainId, Run(sha, chainId, before), events[|events| - 1])))
  }

  lemma RecordValidity(sha: Digest, chainId: Bytes, st: LogState, entries: seq<Entry>, e: Entry,
                       fault: Fault)
    requires Good(sha, st, entries)
    ensures Valid(RecordStep(sha, chainId, st, e, fault).file)
            <==> Valid(st.file) && Valid(WrittenText(sha, chainId, st, Recorded(e, fault)))
  {
    var file, text := OpenedFile(st, fault), WrittenText(sha, chainId, st, Recorded(e, fault));
    RecordAppends(sha, chainId, st, e, fault);
    NewlineEndsText(st.file);
    assert StopsEarly(st, fault) ==> text == [] && file + text == file;
    if !StopsEarly(st, fault) {
      OpenKeepsEntries(st, fault, entries);
      ValidSplits(file, text);
    }
  }

  lemma {:induction false} FileValidity(sha: Digest, chainId: Bytes, events: seq<Event>)
    requires TextDigest(sha) && Valid(chainId) && TextEvents(events)
    ensures Valid(Run(sha, chainId, events).file) <==> CutsAligned(sha, chainId, events)
    decreases |events|
  {
    if events != [] {
      var before, ev := events[..|events| - 1], events[|events| - 1];
      FileValidity(sha, chainId, before);
      RunIsGood(sha, chainId, before);
      if ev.Recorded? {
        RecordValidity(sha, chainId, Run(sha, chainId, before), Survivors(sha, chainId, before),
                       ev.entry, ev.fault);
      }
    }
  }

  /** Readers, who need the whole file to be valid UTF-8, see the survivors exactly when no
      torn write was cut inside a character, or there is nothing to see. Otherwise they see an
      empty log, which validation accepts. */
  lemma ReadersSeeSurvivors(sha: Digest, chainId: Bytes, events: seq<Event>)
    requires TextDigest(sha) && Valid(chainId) && TextEvents(events)
    ensures var file, survivors := Run(sha, chainId, events).file, Survivors(sha, chainId, events);
            && (Read(file) == survivors <==> CutsAligned(sha, chainId, events) || survivors == [])
            && (!CutsAligned(sha, chainId, events) ==> Read(file) == [])
            && ChainFrom(sha, [], Read(file))
  {
    var file := Run(sha, chainId, events).file;
    CrashSafety(sha, chainId, events);
    FileValidity(sha, chainId, events);
    if Valid(file) {
      ReadAgreesWithScan(file);
    }
  }

  ghost predicate AsciiDigest(sha: Digest) { forall x :: IsAscii(sha(x)) }

  ghost predicate AsciiEvents(events: seq<Event>) {
    forall i :: 0 <= i < |events| && events[i].Recorded? ==> IsAscii(events[i].entry.data)
  }

  lemma {:induction false} AsciiRunsAreAligned(sha: Digest, chainId: Bytes, events: seq<Event>)
    requires AsciiDigest(sha) && IsAscii(chainId) && AsciiEvents(events)
    ensures CutsAligned(sha, chainId, events)
    decreases |events|
  {
    if events != [] {
      var before, ev := events[..|events| - 1], events[|events| - 1];
      AsciiRunsAreAligned(sha, chainId, before);
      var st := Run(sha, chainId, before);
      if ev.Recorded? {
        var stamped := Stamp(sha, chainId, ev.entry, PreviousHash(st));
        SerializeAscii(stamped);
        AsciiConcat(Serialize(stamped), [NEWLINE]);
        AsciiIsValid(WrittenText(sha, chainId, st, ev));
      }
    }
  }

  /** After a readable run, readers keep seeing the survivors whatever happens to the next write
      exactly when its entry is plain ASCII or nothing survived so far: the condition to check
      before recording. */
  lemma NextWriteSafeExactlyForAscii(sha: Digest, chainId: Bytes, events: seq<Event>, e: Entry)
    requires AsciiDigest(sha) && IsAscii(chainId) && TextEvents(events) && Valid(e.data)
    requires CutsAligned(sha, chainId, events)
    ensures (forall fault ::
               var after := events + [Recorded(e, fault)];
               Read(Run(sha, chainId, after).file) == Survivors(sha, chainId, after))
            <==> IsAscii(e.data) || Survivors(sha, chainId, events) == []
  {
    hide Read, Run, Survivors, CutsAligned, Serialize, Written, Valid;
    AsciiIsValidEverywhere(sha);
    AsciiIsValid(chainId);
    var st := Run(sha, chainId, events);
    var stamped := Stamp(sha, chainId, e, PreviousHash(st));
    var line := LineOf(stamped);
    SerializeAscii(stamped);
    AsciiConcat(Serialize(stamped), [NEWLINE]);
    LineIsValid(sha, chainId, e, PreviousHash(st));
    CutsSafeExactlyForAscii(line);
    forall fault
      ensures var after := events + [Recorded(e, fault)];
              Read(Run(sha, chainId, after).file) == Survivors(sha, chainId, after)
              <==> Valid(line[..Written(st, fault, |line|)]) || Survivors(sha, chainId, events) == []
    {
      NextWriteReadable(sha, chainId, events, e, fault);
    }
    if IsAscii(e.data) {
      assert forall fault :: Valid(line[..Written(st, fault, |line|)]);
    } else if Survivors(sha, chainId, events) != [] {
      var n :| 0 <= n <= |line| && !Valid(line[..n]);
      WriteFailedWrites(st, n, |line|);
      assert !Valid(line[..Written(st, WriteFailed(n), |line|)]);
    }
  }

  lemma WriteFailedWrites(st: LogState, n: nat, size: nat)
    requires n <= size
    ensures Written(st, WriteFailed(n), size) == n
  {
  }

  lemma AsciiIsValidEverywhere(sha: Digest)
    requires AsciiDigest(sha)
    ensures TextDigest(sha)
  {
    forall x
      ensures Valid(sha(x))
    {
      AsciiIsValid(sha(x));
    }
  }

  lemma LineIsValid(sha: Digest, chainId: Bytes, e: Entry, prev: Bytes)
    requires TextDigest(sha) && Valid(chainId) && Valid(e.data)
    ensures Valid(LineOf(Stamp(sha, chainId, e, prev)))
  {
    StampIsWellFormed(sha, chainId, e, prev);
    SerializeIsValid(Stamp(sha, chainId, e, prev));
    NewlineEndsText(Serialize(Stamp(sha, chainId, e, prev)));
  }

  lemma NextWriteReadable(sha: Digest, chainId: Bytes, events: seq<Event>, e: Entry, fault: Fault)
    requires TextDigest(sha) && Valid(chainId) && TextEvents(events) && Valid(e.data)
    requires CutsAligned(sha, chainId, events)
    ensures var after := events + [Recorded(e, fault)];
            var st := Run(sha, chainId, events);
            var line := LineOf(Stamp(sha, chainId, e, PreviousHash(st)));
            Read(Run(sha, chainId, after).file) == Survivors(sha, chainId, after)
            <==> Valid(line[..Written(st, fault, |line|)]) || Survivors(sha, chainId, events) == []
  {
    hide Read, Run, Serialize, Written, Valid, Stamp;
    var after := events + [Recorded(e, fault)];
    assert after[..|after| - 1] == events && after[|after| - 1] == Recorded(e, fault);
    ReadersSeeSurvivors(sha, chainId, after);
    CrashSafety(sha, chainId, events);
    WholeJsonIsValid(sha, chainId, Run(sha, chainId, events), e, fault);
  }

  lemma WholeJsonIsValid(sha: Digest, chainId: Bytes, st: LogState, e: Entry, fault: Fault)
    requires TextDigest(sha) && Valid(chainId) && Valid(e.data)
    ensures var stamped := Stamp(sha, chainId, e, PreviousHash(st));
            var line := LineOf(stamped);
            WholeJsonWritten(st, stamped, fault) ==> Valid(line[..Written(st, fault, |line|)])
  {
    hide Serialize, Valid, Stamp, Written;
    var stamped := Stamp(sha, chainId, e, PreviousHash(st));
    var line := LineOf(stamped);
    LineIsValid(sha, chainId, e, PreviousHash(st));
    StampIsWellFormed(sha, chainId, e, PreviousHash(st));
    SerializeIsValid(stamped);
    assert line[..|line| - 1] == Serialize(stamped) && line[..|line|] == line;
  }
}
