/** The append-only, hash-chained JSON-lines log.

    The hash is any function `sha` on byte strings; an entry's hash covers its JSON without
    the hash field followed by the previous hash, as in the source. */
module ChainedLog {
  import opened Wrappers
  import opened Utf8
  import opened LineCodec

  type Digest = Bytes -> Bytes

  // ---------------------------------------------------------------- reading a file

  function FirstNewline(b: Bytes): (k: nat)
    ensures k <= |b| && forall i :: 0 <= i < k ==> b[i] != NEWLINE
    ensures k < |b| ==> b[k] == NEWLINE
  {
    if b == [] || b[0] == NEWLINE then 0 else 1 + FirstNewline(b[1..])
  }

  function StripCr(line: Bytes): Bytes {
    if line != [] && line[|line| - 1] == 0x0D then line[..|line| - 1] else line
  }

  /** The lines of a text: a final line needs no newline, and `\r\n` ends a line too. */
  function Lines(b: Bytes): seq<Bytes>
    decreases |b|
  {
    if b == [] then []
    else
      var k := FirstNewline(b);
      if k == |b| then [b] else [StripCr(b[..k])] + Lines(b[k + 1..])
  }

  /** The entries among the lines; lines that do not parse are skipped. */
  function ParseAll(lines: seq<Bytes>): seq<Entry> {
    if lines == [] then []
    else
      match Parse(lines[0])
      case None => ParseAll(lines[1..])
      case Some(e) => [e] + ParseAll(lines[1..])
  }

  /** What the writer sees: lossy decoding, all lines. */
  function Scan(file: Bytes): seq<Entry> { ParseAll(Lines(Lossy(file))) }

  /** What `entries` returns: the file must be valid UTF-8, and reads as empty otherwise. */
  function Read(file: Bytes): seq<Entry> { if Valid(file) then ParseAll(Lines(file)) else [] }

  lemma ReadAgreesWithScan(file: Bytes)
    requires Valid(file)
    ensures Read(file) == Scan(file)
  {
    ValidIsLossless(file);
  }

  /** The last hash among the entries, searched from the end. */
  function FindHash(entries: seq<Entry>): Option<Bytes> {
    if entries == [] then None
    else
      var last := entries[|entries| - 1];
      if last.hash.Some? then last.hash else FindHash(entries[..|entries| - 1])
  }

  function HashOrEmpty(h: Option<Bytes>): Bytes { if h.Some? then h.value else [] }

  /** The hash the next record must link to; empty for a log without one. */
  function LastHash(entries: seq<Entry>): Bytes { HashOrEmpty(FindHash(entries)) }

  // ---------------------------------------------------------------- hashing

  function Json(e: Entry): Bytes { Serialize(e.(hash := None)) }

  function ComputeHash(sha: Digest, e: Entry, prev: Bytes): Bytes { sha(Json(e) + prev) }

  /** The entry as it is written: chain id set, hash linked to `prev`. */
  function Stamp(sha: Digest, chainId: Bytes, e: Entry, prev: Bytes): Entry {
    var named := e.(chainId := chainId);
    named.(hash := Some(ComputeHash(sha, named, prev)))
  }

  /** Every entry carries the hash of itself linked to its predecessor, the first to `prev`. */
  predicate ChainFrom(sha: Digest, prev: Bytes, entries: seq<Entry>)
    decreases |entries|
  {
    entries == [] ||
    (&& entries[0].hash.Some?
     && ComputeHash(sha, entries[0], prev) == entries[0].hash.value
     && ChainFrom(sha, entries[0].hash.value, entries[1..]))
  }

  // ---------------------------------------------------------------- lines and newlines

  lemma FirstNewlineUnique(b: Bytes, k: nat)
    requires k < |b| && b[k] == NEWLINE && forall i :: 0 <= i < k ==> b[i] != NEWLINE
    ensures FirstNewline(b) == k
  {
    var j := FirstNewline(b);
  }

  lemma FirstNewlineInComplete(a: Bytes, y: Bytes)
    requires a != [] && Complete(a)
    ensures var k := FirstNewline(a);
            && k < |a| && FirstNewline(a + y) == k
            && (a + y)[..k] == a[..k] && (a + y)[k + 1..] == a[k + 1..] + y
            && Complete(a[k + 1..])
  {
    var k := FirstNewline(a);
    assert k < |a|;
    assert forall i :: 0 <= i < |a| ==> (a + y)[i] == a[i];
    FirstNewlineUnique(a + y, k);
  }

  /** Complete lines are split off without regard to what follows them. */
  lemma {:induction false} LinesSplit(a: Bytes, y: Bytes)
    requires Complete(a)
    ensures Lines(a + y) == Lines(a) + Lines(y)
    decreases |a|
  {
    hide *;
    if a == [] {
      NoLines();
      assert a + y == y && [] + Lines(y) == Lines(y);
    } else {
      FirstNewlineInComplete(a, y);
      LinesUnfold(a);
      LinesUnfold(a + y);
      var k := FirstNewline(a);
      LinesSplit(a[k + 1..], y);
      assert [StripCr(a[..k])] + (Lines(a[k + 1..]) + Lines(y)) == [StripCr(a[..k])] + Lines(a[k + 1..]) + Lines(y);
    }
  }

  lemma NoLines()
    ensures Lines([]) == []
  {
  }

  lemma LinesUnfold(b: Bytes)
    requires FirstNewline(b) < |b|
    ensures Lines(b) == [StripCr(b[..FirstNewline(b)])] + Lines(b[FirstNewline(b) + 1..])
  {
    hide FirstNewline, StripCr;
  }

  lemma {:induction false} ParseAllConcat(a: seq<Bytes>, b: seq<Bytes>)
    ensures ParseAll(a + b) == ParseAll(a) + ParseAll(b)
    decreases |a|
  {
    if a == [] {
      assert a + b == b;
    } else {
      assert (a + b)[1..] == a[1..] + b;
      ParseAllConcat(a[1..], b);
    }
  }

  lemma {:induction false} LossyComplete(a: Bytes)
    requires Complete(a)
    ensures Complete(Lossy(a))
    decreases |a|
  {
    if a != [] {
      var n := |a| - 1;
      assert a == a[..n] + [NEWLINE];
      NewlineEndsText(a[..n]);
    }
  }

  /** Complete lines can be scanned apart from what follows them. */
  lemma ScanSplits(a: Bytes, y: Bytes)
    requires Complete(a)
    ensures Scan(a + y) == Scan(a) + Scan(y)
  {
    LossySplits(a, y);
    LossyComplete(a);
    LinesSplit(Lossy(a), Lossy(y));
    ParseAllConcat(Lines(Lossy(a)), Lines(Lossy(y)));
  }

  lemma {:induction false} FindHashInSuffix(a: seq<Entry>, b: seq<Entry>)
    ensures FindHash(b).Some? ==> FindHash(a + b) == FindHash(b)
    decreases |b|
  {
    if b != [] {
      var n := |b| - 1;
      assert (a + b)[|a + b| - 1] == b[n];
      assert (a + b)[..|a + b| - 1] == a + b[..n];
      FindHashInSuffix(a, b[..n]);
    }
  }

  // ---------------------------------------------------------------- the tail scan

  /** The text of a chunk read from `start`, its first line dropped when it may be partial. */
  function TailText(file: Bytes, start: nat): Bytes
    requires start <= |file|
  {
    var text := Lossy(file[start..]);
    if start == 0 then text
    else if FirstNewline(text) == |text| then []
    else text[FirstNewline(text) + 1..]
  }

  /** The text after the first line of a chunk that holds a whole line end. */
  lemma DropFirstLine(text: Bytes, first: Bytes, rest: Bytes)
    requires NEWLINE !in first && text == first + [NEWLINE] + rest
    ensures var k := FirstNewline(text); k == |first| < |text| && text[k + 1..] == rest
  {
    assert text[|first|] == NEWLINE;
    FirstNewlineUnique(text, |first|);
  }

  lemma DecodeAroundNewline(x: Bytes, y: Bytes)
    requires NEWLINE !in x
    ensures Lossy(x + [NEWLINE] + y) == Lossy(x) + [NEWLINE] + Lossy(y)
    ensures NEWLINE !in Lossy(x)
  {
    hide *;
    LossyKeepsNewlines(x);
    NewlineEndsText(x);
    EndsComplete(x);
    LossySplits(x + [NEWLINE], y);
  }

  lemma EndsComplete(x: Bytes)
    ensures Complete(x + [NEWLINE])
  {
  }

  lemma TailTextUnfolds(file: Bytes, start: nat)
    requires start <= |file|
    ensures start == 0 ==> TailText(file, start) == Lossy(file)
    ensures var text := Lossy(file[start..]);
            start > 0 ==>
              TailText(file, start) == if FirstNewline(text) == |text| then [] else text[FirstNewline(text) + 1..]
  {
    hide Lossy, FirstNewline;
    assert start == 0 ==> file[start..] == file;
  }

  lemma TailTextAfterNewline(file: Bytes, start: nat, cut: nat)
    requires 0 < start < cut <= |file| && file[cut - 1] == NEWLINE
    requires NEWLINE !in file[start..cut - 1]
    ensures TailText(file, start) == Lossy(file[cut..])
  {
    hide *;
    var x, y := file[start..cut - 1], file[cut..];
    assert file[start..] == x + [NEWLINE] + y;
    DecodeAroundNewline(x, y);
    DropFirstLine(Lossy(file[start..]), Lossy(x), Lossy(y));
    TailTextUnfolds(file, start);
  }

  lemma NoNewlineNoIndex(b: Bytes)
    requires NEWLINE !in b
    ensures FirstNewline(b) == |b|
  {
    assert forall i :: 0 <= i < |b| ==> b[i] in b;
  }

  lemma TailTextWithoutNewline(file: Bytes, start: nat)
    requires 0 < start <= |file| && NEWLINE !in file[start..]
    ensures TailText(file, start) == []
  {
    hide *;
    LossyKeepsNewlines(file[start..]);
    NoNewlineNoIndex(Lossy(file[start..]));
    TailTextUnfolds(file, start);
  }

  lemma SuffixScanIsSound(file: Bytes, cut: nat)
    requires cut <= |file| && Complete(file[..cut])
    ensures FindHash(Scan(file[cut..])).Some? ==>
              FindHash(Scan(file[cut..])) == FindHash(Scan(file))
  {
    hide *;
    assert file == file[..cut] + file[cut..];
    ScanSplits(file[..cut], file[cut..]);
    FindHashInSuffix(Scan(file[..cut]), Scan(file[cut..]));
  }

  lemma FirstNewlineBefore(b: Bytes)
    ensures var k := FirstNewline(b);
            && NEWLINE !in b[..k]
            && (k < |b| ==> b[k] == NEWLINE)
            && (k == |b| ==> NEWLINE !in b)
  {
    hide FirstNewline;
    assert b[..|b|] == b;
  }

  lemma ScanOfText(file: Bytes)
    ensures ParseAll(Lines(Lossy(file))) == Scan(file)
    ensures FindHash(ParseAll(Lines([]))) == None
  {
    hide Lossy, Parse;
  }

  /** A hash found in any tail chunk is the hash a full scan would find, and a chunk that
      starts at 0 is the full scan. */
  lemma TailScanIsSound(file: Bytes, start: nat)
    requires start <= |file|
    ensures var found := FindHash(ParseAll(Lines(TailText(file, start))));
            && (found.Some? ==> found == FindHash(Scan(file)))
            && (start == 0 ==> found == FindHash(Scan(file)))
  {
    hide *;
    if start == 0 {
      TailTextUnfolds(file, start);
      ScanOfText(file);
    } else {
      LaterTailIsSound(file, start);
    }
  }

  lemma LaterTailIsSound(file: Bytes, start: nat)
    requires 0 < start <= |file|
    ensures var found := FindHash(ParseAll(Lines(TailText(file, start))));
            found.Some? ==> found == FindHash(Scan(file))
  {
    hide *;
    var chunk := file[start..];
    var k := FirstNewline(chunk);
    FirstNewlineBefore(chunk);
    if k == |chunk| {
      TailTextWithoutNewline(file, start);
      ScanOfText(file);
    } else {
      var cut := start + k + 1;
      assert file[cut - 1] == chunk[k];
      assert file[start..cut - 1] == chunk[..k];
      TailTextAfterNewline(file, start, cut);
      ScanOfText(file[cut..]);
      CompleteUpTo(file, cut);
      SuffixScanIsSound(file, cut);
    }
  }

  lemma CompleteUpTo(file: Bytes, cut: nat)
    requires 0 < cut <= |file| && file[cut - 1] == NEWLINE
    ensures Complete(file[..cut])
  {
  }

  // ---------------------------------------------------------------- one record step

  /** Where an attempt to record fails, if it does. `written` counts the bytes of the line
      that still reached the file. */
  datatype Fault =
    | NoFault
    | OpenFailed
    | RepairFailed(newlineWritten: bool)
    | WriteFailed(written: nat)

  datatype LogState = LogState(file: Bytes, cache: Option<Bytes>, writer: bool)

  predicate NeedsRepair(file: Bytes) { file != [] && file[|file| - 1] != NEWLINE }

  function PreviousHash(st: LogState): Bytes {
    if st.cache.Some? then st.cache.value else LastHash(Scan(st.file))
  }

  /** Does the attempt stop before the line is written? */
  predicate StopsEarly(st: LogState, fault: Fault) {
    !st.writer && (fault.OpenFailed? || (NeedsRepair(st.file) && fault.RepairFailed?))
  }

  /** The file when writing of the line starts, or when the attempt stops before that. */
  function OpenedFile(st: LogState, fault: Fault): Bytes {
    if st.writer || fault.OpenFailed? || !NeedsRepair(st.file) then st.file
    else if fault.RepairFailed? && !fault.newlineWritten then st.file
    else st.file + [NEWLINE]
  }

  /** How many bytes of a line of `size` bytes reach the file. */
  function Written(st: LogState, fault: Fault, size: nat): (w: nat)
    ensures w <= size
  {
    if StopsEarly(st, fault) then 0
    else if fault.WriteFailed? && fault.written < size then fault.written
    else size
  }

  predicate Acknowledged(st: LogState, fault: Fault) {
    !StopsEarly(st, fault) && !fault.WriteFailed?
  }

  function LineOf(e: Entry): Bytes { Serialize(e) + [NEWLINE] }

  function RecordStep(sha: Digest, chainId: Bytes, st: LogState, e: Entry, fault: Fault): LogState {
    var prev := PreviousHash(st);
    var stamped := Stamp(sha, chainId, e, prev);
    var line := LineOf(stamped);
    var file := OpenedFile(st, fault) + line[..Written(st, fault, |line|)];
    if StopsEarly(st, fault) then LogState(file, Some(prev), false)
    else if fault.WriteFailed? then LogState(file, None, false)
    else LogState(file, stamped.hash, true)
  }

  // ---------------------------------------------------------------- a dropped call

  /** How far a call gets whose caller goes away while it waits: nothing fails, the rest of the
      call is just not executed. A write that was under way still ends, so that `landed` bytes
      of the line reach the file. */
  datatype Stage =
    | AtLock
    | AtOpen
    | AtRepair(newlineWritten: bool)
    | AtWrite(landed: nat)

  function Landing(landed: nat, size: nat): nat { if landed < size then landed else size }

  function DroppedStep(sha: Digest, chainId: Bytes, st: LogState, e: Entry, at: Stage): LogState {
    var prev := PreviousHash(st);
    var line := LineOf(Stamp(sha, chainId, e, prev));
    match at
    case AtLock => st
    case AtOpen => st.(cache := Some(prev))
    case AtRepair(newlineWritten) =>
      if st.writer || !NeedsRepair(st.file) then st.(cache := Some(prev))
      else LogState(if newlineWritten then st.file + [NEWLINE] else st.file, Some(prev), false)
    case AtWrite(landed) =>
      // the writer stays open, and the cached hash stays that of the record before
      LogState(OpenedFile(st, NoFault) + line[..Landing(landed, |line|)], Some(prev), true)
  }

  // ---------------------------------------------------------------- the log object

  class Disk {
    var bytes: Bytes

    constructor ()
      ensures bytes == []
    {
      bytes := [];
    }
  }

  class Log {
    const sha: Digest
    const chainId: Bytes
    const disk: Disk
    var lastHash: Option<Bytes>
    var writer: bool

    constructor (sha: Digest, disk: Disk, chainId: Bytes)
      ensures this.sha == sha && this.disk == disk && this.chainId == chainId
      ensures lastHash == None && !writer
    {
      this.sha, this.disk, this.chainId := sha, disk, chainId;
      lastHash, writer := None, false;
    }

    ghost function State(): LogState
      reads this, disk
    {
      LogState(disk.bytes, lastHash, writer)
    }

    /** Reads growing chunks from the end of the file until one holds a hash. The result is
        that of a full scan, whatever the file contains. */
    method LastHashFromFile() returns (h: Bytes)
      ensures h == LastHash(Scan(disk.bytes))
    {
      var len := |disk.bytes|;
      var chunk := 65536;
      while true
        invariant chunk >= 65536
        decreases len - chunk
      {
        var start := if len > chunk then len - chunk else 0;
        var found := FindHash(ParseAll(Lines(TailText(disk.bytes, start))));
        TailScanIsSound(disk.bytes, start);
        if found.Some? {
          return found.value;
        }
        if start == 0 {
          return [];
        }
        chunk := chunk * 4;
      }
    }

    method EndsWithoutNewline() returns (r: bool)
      ensures r == NeedsRepair(disk.bytes)
    {
      if |disk.bytes| == 0 {
        return false;
      }
      r := disk.bytes[|disk.bytes| - 1] != NEWLINE;
    }

    /** Opens the file for appending, ending a torn last line first. */
    method OpenWriter(fault: Fault) returns (ready: bool)
      modifies this`writer, disk
      ensures ready == !StopsEarly(old(State()), fault)
      ensures writer == ready
      ensures disk.bytes == OpenedFile(old(State()), fault)
    {
      if !writer {
        var repair := EndsWithoutNewline();
        if fault.OpenFailed? {
          return false;
        }
        if repair {
          if fault.RepairFailed? {
            if fault.newlineWritten {
              disk.bytes := disk.bytes + [NEWLINE];
            }
            return false;
          }
          disk.bytes := disk.bytes + [NEWLINE];
        }
        writer := true;
      }
      ready := true;
    }

    method Record(e: Entry, fault: Fault) returns (ok: bool)
      modifies this, disk
      ensures State() == RecordStep(sha, chainId, old(State()), e, fault)
      ensures ok == Acknowledged(old(State()), fault)
      ensures ok ==>
                && writer && lastHash.Some?
                && disk.bytes == OpenedFile(old(State()), fault)
                                 + (Serialize(Entry(e.data, chainId, lastHash)) + [NEWLINE])
                && lastHash.value == sha(Serialize(Entry(e.data, chainId, None)) + PreviousHash(old(State())))
    {
      hide Serialize, Scan, FindHash, NeedsRepair;
      var prev;
      if lastHash.Some? {
        prev := lastHash.value;
      } else {
        prev := LastHashFromFile();
        lastHash := Some(prev);
      }
      var stamped := e.(chainId := chainId);
      var hash := ComputeHash(sha, stamped, prev);
      stamped := stamped.(hash := Some(hash));
      assert stamped == Stamp(sha, chainId, e, prev) && prev == PreviousHash(old(State()));
      var line := LineOf(stamped);
      var ready := OpenWriter(fault);
      if !ready {
        assert line[..0] == [];
        return false;
      }
      if fault.WriteFailed? {
        disk.bytes := disk.bytes + line[..if fault.written < |line| then fault.written else |line|];
        writer := false;
        lastHash := None;
        return false;
      }
      assert line[..|line|] == line;
      disk.bytes := disk.bytes + line;
      lastHash := Some(hash);
      ok := true;
    }

    /** `Record`, abandoned by its caller. */
    method RecordDropped(e: Entry, at: Stage)
      modifies this, disk
      ensures State() == DroppedStep(sha, chainId, old(State()), e, at)
      ensures at.AtWrite? ==>
                var hash := sha(Serialize(Entry(e.data, chainId, None)) + PreviousHash(old(State())));
                disk.bytes <= OpenedFile(old(State()), NoFault)
                              + (Serialize(Entry(e.data, chainId, Some(hash))) + [NEWLINE])
    {
      hide Serialize, Scan, FindHash, NeedsRepair;
      if at.AtLock? {
        return;
      }
      var prev;
      if lastHash.Some? {
        prev := lastHash.value;
      } else {
        prev := LastHashFromFile();
        lastHash := Some(prev);
      }
      if at.AtOpen? {
        return;
      }
      if at.AtRepair? {
        if !writer {
          var repair := EndsWithoutNewline();
          if repair && at.newlineWritten {
            disk.bytes := disk.bytes + [NEWLINE];
          }
        }
        return;
      }
      var stamped := e.(chainId := chainId);
      stamped := stamped.(hash := Some(ComputeHash(sha, stamped, prev)));
      assert stamped == Stamp(sha, chainId, e, prev) && prev == PreviousHash(old(State()));
      var line := LineOf(stamped);
      var _ := OpenWriter(NoFault);
      disk.bytes := disk.bytes + line[..if at.landed < |line| then at.landed else |line|];
    }

    method Entries() returns (entries: seq<Entry>)
      ensures entries == Read(disk.bytes)
    {
      entries := if Valid(disk.bytes) then ParseAll(Lines(disk.bytes)) else [];
    }

    method Validate() returns (ok: bool)
      ensures ok <==> ChainFrom(sha, [], Read(disk.bytes))
    {
      var entries := Entries();
      var prev := [];
      for i := 0 to |entries|
        invariant ChainFrom(sha, [], entries) <==> ChainFrom(sha, prev, entries[i..])
      {
        if entries[i].hash.None? {
          return false;
        }
        var recorded := entries[i].hash.value;
        if ComputeHash(sha, entries[i], prev) != recorded {
          return false;
        }
        prev := recorded;
      }
      ok := true;
    }
  }
}
