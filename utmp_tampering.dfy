/**
 * The login-record tampering check: every record of a utmp/wtmp/btmp file
 * is tagged when its type is outside the range utmp(5) defines, when its
 * time lies on 1970-01-01 or before a configured oldest time, or when it
 * goes back in time against the record before it by more than a
 * tolerance. Each file's tags are reported when they differ from the
 * stored ones, and every run stores its own tags.
 */
module UtmpTampering {
  import opened Wrappers
  import opened Text
  import opened Sequences
  import opened CivilTime
  import opened Utmp
  import opened Snapshots

  /** `UtmpDetection`. */
  datatype Detection = Clean | TypeError | TimeZero | TimeTooOld | TimeInconsistency

  /** The member name, as stored. */
  function DetectionName(d: Detection): string {
    match d
    case Clean => "Clean"
    case TypeError => "TypeError"
    case TimeZero => "TimeZero"
    case TimeTooOld => "TimeTooOld"
    case TimeInconsistency => "TimeInconsistency"
  }

  /** `UtmpDetection[name]`: look-up by member name (a `KeyError` otherwise). */
  function DetectionFromName(name: string): (r: Option<Detection>)
    ensures r.Some? ==> DetectionName(r.value) == name
  {
    if name == "Clean" then Some(Clean)
    else if name == "TypeError" then Some(TypeError)
    else if name == "TimeZero" then Some(TimeZero)
    else if name == "TimeTooOld" then Some(TimeTooOld)
    else if name == "TimeInconsistency" then Some(TimeInconsistency)
    else None
  }

  lemma DetectionNameRoundTrip(d: Detection)
    ensures DetectionFromName(DetectionName(d)) == Some(d)
  {
  }

  /** The type of a boot record (`BOOT_TIME` in utmp(5)). */
  const BootTime: int := 2

  /** The largest backwards step tolerated after an ordinary record, and after a boot record, in microseconds. */
  const Tolerance: int := 5000000
  const BootTolerance: int := 120000000

  // ---------------------------------------------------------------------------
  // The checks of one record
  // ---------------------------------------------------------------------------

  /** `_check_utmp_type`: utmp(5) defines the types 1 to 9. */
  function CheckType(e: UtmpEntry): (r: Detection)
    ensures r == Clean || r == TypeError
  {
    if 0 < e.utType <= 9 then Clean else TypeError
  }

  /** The type check passes exactly for the types utmp(5) defines. */
  lemma CheckTypeRange(e: UtmpEntry)
    ensures CheckType(e) == Clean <==> e.utType in {1, 2, 3, 4, 5, 6, 7, 8, 9}
  {
  }

  /** The wall-clock date of `t` is 1970-01-01. */
  predicate OnEpochDay(t: Time) {
    t.wall.year == 1970 && t.wall.month == 1 && t.wall.day == 1
  }

  /** The base name of `file` ends in `utmp`: such files are not kept in time order. */
  predicate UtmpName(file: string) {
    EndsWith(Basename(file), "utmp")
  }

  /**
   * `curr` goes back in time against `prev` (compared as instants) by more
   * than the tolerance: 120 seconds after a boot record, 5 otherwise. In a
   * file whose name ends in `utmp` (`utmpName`) this never counts.
   */
  predicate OutOfOrder(prev: UtmpEntry, curr: UtmpEntry, utmpName: bool)
    requires ValidTime(prev.utTime) && ValidTime(curr.utTime)
  {
    && !utmpName
    && InstantMicros(curr.utTime) < InstantMicros(prev.utTime)
    && var gap := InstantMicros(prev.utTime) - InstantMicros(curr.utTime);
       (prev.utType != BootTime && gap > Tolerance) || (prev.utType == BootTime && gap > BootTolerance)
  }

  /**
   * `_check_utmp_timestamp`: a time on 1970-01-01 first, then a wall-clock
   * time before `oldest` (both compared without the offset), then a
   * backwards step against the previous record.
   */
  function CheckTimestamp(prev: Option<UtmpEntry>, curr: UtmpEntry, utmpName: bool, oldest: Civil): (r: Detection)
    requires ValidTime(curr.utTime) && (prev.Some? ==> ValidTime(prev.value.utTime))
    ensures r != TypeError
  {
    if OnEpochDay(curr.utTime) then TimeZero
    else if Before(curr.utTime.wall, oldest) then TimeTooOld
    else if prev.Some? && OutOfOrder(prev.value, curr, utmpName) then TimeInconsistency
    else Clean
  }

  /**
   * The tags in terms of the microsecond count of the wall-clock time and
   * of the instant: the first day of the count, before the oldest time, or
   * a backwards step over the tolerance; each only when the ones before it
   * do not apply.
   */
  lemma CheckTimestampMicros(prev: Option<UtmpEntry>, curr: UtmpEntry, utmpName: bool, oldest: Civil)
    requires ValidTime(curr.utTime) && (prev.Some? ==> ValidTime(prev.value.utTime))
    requires ValidCivil(oldest)
    ensures var w := WallMicros(curr.utTime.wall);
      var zero := 0 <= w < MicrosPerDay;
      var early := w < WallMicros(oldest);
      && (CheckTimestamp(prev, curr, utmpName, oldest) == TimeZero <==> zero)
      && (CheckTimestamp(prev, curr, utmpName, oldest) == TimeTooOld <==> !zero && early)
      && (CheckTimestamp(prev, curr, utmpName, oldest) == TimeInconsistency <==>
            !zero && !early && prev.Some? && OutOfOrder(prev.value, curr, utmpName))
  {
    EpochDay(curr.utTime.wall);
    WallMicrosOrder(curr.utTime.wall, oldest);
  }

  /** A record that does not go back in time, or goes back within the tolerance, is never out of order. */
  lemma InOrderIsConsistent(prev: UtmpEntry, curr: UtmpEntry, utmpName: bool, oldest: Civil)
    requires ValidTime(curr.utTime) && ValidTime(prev.utTime)
    requires InstantMicros(prev.utTime) - InstantMicros(curr.utTime) <= (if prev.utType == BootTime then BootTolerance else Tolerance)
    ensures CheckTimestamp(Some(prev), curr, utmpName, oldest) != TimeInconsistency
  {
  }

  /** Records of a file named `...utmp` are never out of order. */
  lemma UtmpFileIsUnordered(prev: UtmpEntry, curr: UtmpEntry, file: string, oldest: Civil)
    requires ValidTime(curr.utTime) && ValidTime(prev.utTime)
    requires EndsWith(Basename(file), "utmp")
    ensures CheckTimestamp(Some(prev), curr, UtmpName(file), oldest) != TimeInconsistency
  {
  }

  /** Every record's time is valid, as for records read from the tool's output. */
  predicate ValidTimes(entries: seq<UtmpEntry>) {
    forall i :: 0 <= i < |entries| ==> ValidTime(entries[i].utTime)
  }

  /** The tags of record `i`, the record before it being the previous one: the type tag, then the time tag. */
  function TagsAt(entries: seq<UtmpEntry>, i: nat, utmpName: bool, oldest: Civil): (tags: seq<Detection>)
    requires i < |entries| && ValidTimes(entries)
    ensures |tags| <= 2 && Clean !in tags
  {
    var e := entries[i];
    var prev := if i == 0 then None else Some(entries[i - 1]);
    var t := CheckType(e);
    var s := CheckTimestamp(prev, e, utmpName, oldest);
    (if t != Clean then [t] else []) + (if s != Clean then [s] else [])
  }

  /** A record is tagged exactly when one of its checks is not clean, and it gets at most one tag of each check. */
  lemma TagsAtChecks(entries: seq<UtmpEntry>, i: nat, utmpName: bool, oldest: Civil)
    requires i < |entries| && ValidTimes(entries)
    ensures var prev := if i == 0 then None else Some(entries[i - 1]);
      var tags := TagsAt(entries, i, utmpName, oldest);
      && (tags == [] <==> CheckType(entries[i]) == Clean && CheckTimestamp(prev, entries[i], utmpName, oldest) == Clean)
      && (TypeError in tags <==> CheckType(entries[i]) == TypeError)
      && (forall d :: d != TypeError && d in tags ==> d == CheckTimestamp(prev, entries[i], utmpName, oldest))
  {
  }

  /** Record `i` has line `k` and at least one tag. */
  predicate Flagged(entries: seq<UtmpEntry>, i: nat, utmpName: bool, oldest: Civil, k: string)
    requires i < |entries| && ValidTimes(entries)
  {
    entries[i].line == k && TagsAt(entries, i, utmpName, oldest) != []
  }

  /** The values of `f` from `i` up to `n`, in order. */
  function Tabulate<T>(f: nat --> T, i: nat, n: nat): (r: seq<T>)
    requires i <= n && forall k :: i <= k < n ==> f.requires(k)
    ensures |r| == n - i
    decreases n - i
  {
    if i == n then [] else [f(i)] + Tabulate(f, i + 1, n)
  }

  lemma {:induction false} TabulateAt<T>(f: nat --> T, i: nat, n: nat, j: nat)
    requires i <= j < n && forall k :: i <= k < n ==> f.requires(k)
    ensures Tabulate(f, i, n)[j - i] == f(j)
    decreases j - i
  {
    if i < j {
      TabulateAt(f, i + 1, n, j);
    }
  }

  /** The tags of each record, by position. */
  function TagsOf(entries: seq<UtmpEntry>, utmpName: bool, oldest: Civil): nat --> seq<Detection>
    requires ValidTimes(entries)
  {
    (k: nat) requires k < |entries| && ValidTimes(entries) => TagsAt(entries, k, utmpName, oldest)
  }

  /** The tags of every record, in order. */
  function AllTags(entries: seq<UtmpEntry>, utmpName: bool, oldest: Civil): (tags: seq<seq<Detection>>)
    requires ValidTimes(entries)
    ensures |tags| == |entries|
  {
    Tabulate(TagsOf(entries, utmpName, oldest), 0, |entries|)
  }

  /** Entry `i` of the tags of every record is the tags of record `i`. */
  lemma AllTagsAt(entries: seq<UtmpEntry>, i: nat, utmpName: bool, oldest: Civil)
    requires i < |entries| && ValidTimes(entries)
    ensures AllTags(entries, utmpName, oldest)[i] == TagsAt(entries, i, utmpName, oldest)
  {
    TabulateAt(TagsOf(entries, utmpName, oldest), 0, |entries|, i);
  }

  /** The line of every record, in order. */
  function Lines(entries: seq<UtmpEntry>): (lines: seq<string>)
    ensures |lines| == |entries|
  {
    seq(|entries|, i requires 0 <= i < |entries| => entries[i].line)
  }

  /** The tags of the first `n` records keyed by their lines; a later record with tags replaces the earlier ones. */
  function Keyed(lines: seq<string>, tags: seq<seq<Detection>>, n: nat): map<string, seq<Detection>>
    requires |lines| == |tags| && n <= |lines|
    decreases n
  {
    if n == 0 then map[]
    else
      var d := Keyed(lines, tags, n - 1);
      if tags[n - 1] != [] then d[lines[n - 1] := tags[n - 1]] else d
  }

  /** A line is a key exactly when some record with that line has tags. */
  lemma {:induction false} KeyedMembers(lines: seq<string>, tags: seq<seq<Detection>>, n: nat, k: string)
    requires |lines| == |tags| && n <= |lines|
    ensures k in Keyed(lines, tags, n) <==> exists i :: 0 <= i < n && lines[i] == k && tags[i] != []
    decreases n
  {
    if n > 0 {
      KeyedMembers(lines, tags, n - 1, k);
      if k in Keyed(lines, tags, n - 1) {
        var i :| 0 <= i < n - 1 && lines[i] == k && tags[i] != [];
        assert 0 <= i < n;
      }
      if exists i :: 0 <= i < n && lines[i] == k && tags[i] != [] {
        var i :| 0 <= i < n && lines[i] == k && tags[i] != [];
        if i < n - 1 {
          assert k in Keyed(lines, tags, n - 1);
        }
      }
    }
  }

  /** A line holds the tags of the last record with that line that has any. */
  lemma {:induction false} KeyedValue(lines: seq<string>, tags: seq<seq<Detection>>, n: nat, i: nat)
    requires |lines| == |tags| && i < n <= |lines|
    requires tags[i] != []
    requires forall j :: i < j < n && lines[j] == lines[i] ==> tags[j] == []
    ensures lines[i] in Keyed(lines, tags, n) && Keyed(lines, tags, n)[lines[i]] == tags[i]
    decreases n
  {
    if i < n - 1 {
      KeyedValue(lines, tags, n - 1, i);
    }
  }

  /** The detections of the first `n` records, keyed by record line; a later record with the same line replaces the earlier tags. */
  function DetectionsUpTo(entries: seq<UtmpEntry>, n: nat, utmpName: bool, oldest: Civil): (d: map<string, seq<Detection>>)
    requires n <= |entries| && ValidTimes(entries)
  {
    Keyed(Lines(entries), AllTags(entries, utmpName, oldest), n)
  }

  /** `_check_utmp_data`'s result. */
  function Detections(entries: seq<UtmpEntry>, file: string, oldest: Civil): map<string, seq<Detection>>
    requires ValidTimes(entries)
  {
    DetectionsUpTo(entries, |entries|, UtmpName(file), oldest)
  }

  /** A line is detected exactly when some record with that line has tags. */
  lemma DetectionsUpToMembers(entries: seq<UtmpEntry>, n: nat, utmpName: bool, oldest: Civil, k: string)
    requires n <= |entries| && ValidTimes(entries)
    ensures k in DetectionsUpTo(entries, n, utmpName, oldest) <==>
      exists i :: 0 <= i < n && Flagged(entries, i, utmpName, oldest, k)
  {
    var lines, tags := Lines(entries), AllTags(entries, utmpName, oldest);
    KeyedMembers(lines, tags, n, k);
    forall i | 0 <= i < n ensures Flagged(entries, i, utmpName, oldest, k) <==> lines[i] == k && tags[i] != [] {
      AllTagsAt(entries, i, utmpName, oldest);
    }
  }

  /** A line holds the tags of the last record with that line that has any. */
  lemma DetectionsUpToValue(entries: seq<UtmpEntry>, n: nat, utmpName: bool, oldest: Civil, i: nat)
    requires i < n <= |entries| && ValidTimes(entries)
    requires Flagged(entries, i, utmpName, oldest, entries[i].line)
    requires forall j :: i < j < n ==> !Flagged(entries, j, utmpName, oldest, entries[i].line)
    ensures entries[i].line in DetectionsUpTo(entries, n, utmpName, oldest)
    ensures DetectionsUpTo(entries, n, utmpName, oldest)[entries[i].line] == TagsAt(entries, i, utmpName, oldest)
  {
    var lines, tags := Lines(entries), AllTags(entries, utmpName, oldest);
    forall j | 0 <= j < n ensures Flagged(entries, j, utmpName, oldest, entries[i].line) <==> lines[j] == lines[i] && tags[j] != [] {
      AllTagsAt(entries, j, utmpName, oldest);
    }
    KeyedValue(lines, tags, n, i);
    AllTagsAt(entries, i, utmpName, oldest);
  }

  /** A utmpName whose records are all clean has no detections. */
  lemma CleanFileHasNoDetections(entries: seq<UtmpEntry>, file: string, oldest: Civil)
    requires ValidTimes(entries)
    requires forall i :: 0 <= i < |entries| ==> TagsAt(entries, i, UtmpName(file), oldest) == []
    ensures Detections(entries, file, oldest) == map[]
  {
    forall k | k in Detections(entries, file, oldest) ensures false {
      DetectionsUpToMembers(entries, |entries|, UtmpName(file), oldest, k);
    }
  }

  lemma DetectionsStep(entries: seq<UtmpEntry>, i: nat, utmpName: bool, oldest: Civil, tags: seq<Detection>)
    requires i < |entries| && ValidTimes(entries)
    requires tags == AllTags(entries, utmpName, oldest)[i]
    ensures DetectionsUpTo(entries, i + 1, utmpName, oldest) ==
      if tags != [] then DetectionsUpTo(entries, i, utmpName, oldest)[entries[i].line := tags]
      else DetectionsUpTo(entries, i, utmpName, oldest)
  {
    assert Lines(entries)[i] == entries[i].line;
  }

  /** The tags of record `i`, given the record before it: the type check, then the timestamp check. */
  method CheckRecord(entries: seq<UtmpEntry>, i: nat, prev: Option<UtmpEntry>, utmpName: bool, oldest: Civil)
    returns (tags: seq<Detection>)
    requires i < |entries| && ValidTimes(entries)
    requires prev == if i == 0 then None else Some(entries[i - 1])
    ensures tags == AllTags(entries, utmpName, oldest)[i]
  {
    AllTagsAt(entries, i, utmpName, oldest);
    var entry := entries[i];
    tags := [];
    var result := CheckType(entry);
    if result != Clean {
      tags := tags + [result];
    }
    result := CheckTimestamp(prev, entry, utmpName, oldest);
    if result != Clean {
      tags := tags + [result];
    }
  }

  /** One turn of `_check_utmp_data`'s loop: the tags of record `i` replace those of its line. */
  method CheckNext(entries: seq<UtmpEntry>, i: nat, prev: Option<UtmpEntry>, detections: map<string, seq<Detection>>,
                   utmpName: bool, oldest: Civil)
    returns (next: map<string, seq<Detection>>)
    requires i < |entries| && ValidTimes(entries)
    requires prev == if i == 0 then None else Some(entries[i - 1])
    requires detections == DetectionsUpTo(entries, i, utmpName, oldest)
    ensures next == DetectionsUpTo(entries, i + 1, utmpName, oldest)
  {
    var tags := CheckRecord(entries, i, prev, utmpName, oldest);
    DetectionsStep(entries, i, utmpName, oldest, tags);
    next := detections;
    if tags != [] {
      next := next[entries[i].line := tags];
    }
  }

  /** `_check_utmp_data`: one pass over the records, remembering the previous one. */
  method CheckUtmpData(entries: seq<UtmpEntry>, file: string, oldest: Civil) returns (detections: map<string, seq<Detection>>)
    requires ValidTimes(entries)
    ensures detections == Detections(entries, file, oldest)
  {
    var utmpName := UtmpName(file);
    detections := map[];
    var prev: Option<UtmpEntry> := None;
    for i := 0 to |entries|
      invariant detections == DetectionsUpTo(entries, i, utmpName, oldest)
      invariant prev == if i == 0 then None else Some(entries[i - 1])
    {
      detections := CheckNext(entries, i, prev, detections, utmpName, oldest);
      prev := Some(entries[i]);
    }
  }

  // ---------------------------------------------------------------------------
  // Stored detections
  // ---------------------------------------------------------------------------

  /** The detections of one file, keyed by record line. */
  type FileDetections = map<string, seq<Detection>>

  /** The detections of every file read, keyed by file path. */
  type Results = map<string, FileDetections>

  /** The stored form: tag names instead of tags. */
  type StoredResults = map<string, map<string, seq<string>>>

  /** `UtmpDetection[x]` as an operation that can fail. */
  function NamedDetection(name: string): (r: Result<Detection, string>)
    ensures r.Ok? <==> DetectionFromName(name).Some?
    ensures r.Ok? ==> DetectionName(r.value) == name
  {
    match DetectionFromName(name)
    case None => Err("KeyError: " + name)
    case Some(d) => Ok(d)
  }

  /** The names of the tags, in order. */
  function Names(tags: seq<Detection>): (names: seq<string>)
    ensures |names| == |tags|
    ensures forall i :: 0 <= i < |tags| ==> names[i] == DetectionName(tags[i])
  {
    seq(|tags|, i requires 0 <= i < |tags| => DetectionName(tags[i]))
  }

  /** Loading the names of tags gives the tags. */
  lemma NamesLoad(tags: seq<Detection>)
    ensures MapAll(Names(tags), NamedDetection) == Ok(tags)
  {
    var names := Names(tags);
    forall i | 0 <= i < |tags| ensures NamedDetection(names[i]) == Ok(tags[i]) {
      DetectionNameRoundTrip(tags[i]);
    }
    var r := MapAll(names, NamedDetection);
    assert r.Ok?;
    assert r.value == tags;
  }

  /** The stored form of one file's detections. */
  function StoredFile(d: FileDetections): map<string, seq<string>> {
    map k | k in d :: Names(d[k])
  }

  /** What the run stores: every file's detections with tag names, empty files included. */
  function StoredForm(results: Results): StoredResults {
    map f | f in results :: StoredFile(results[f])
  }

  /** Every stored name of one file is a tag. */
  predicate TagNamesLoad(stored: map<string, seq<string>>) {
    forall k :: k in stored ==> MapAll(stored[k], NamedDetection).Ok?
  }

  /** Every stored line of one file parses as a record and every stored name is a tag. */
  predicate FileLoads(stored: map<string, seq<string>>) {
    (forall k :: k in stored ==> ParseEntry(k).Ok?) && TagNamesLoad(stored)
  }

  /** The stored detections of one file, loaded. */
  function LoadFile(stored: map<string, seq<string>>): (d: FileDetections)
    requires TagNamesLoad(stored)
    ensures d.Keys == stored.Keys
  {
    map k | k in stored :: MapAll(stored[k], NamedDetection).value
  }

  /**
   * The loading of `last_results`: every stored line is parsed back into a
   * record and every stored name looked up; any failure fails the load.
   */
  function LoadLast(stored: StoredResults): (r: Result<Results, string>)
    ensures r.Ok? <==> forall f :: f in stored ==> FileLoads(stored[f])
    ensures r.Ok? ==> r.value.Keys == stored.Keys
  {
    if forall f :: f in stored ==> FileLoads(stored[f]) then
      Ok(map f | f in stored :: LoadFile(stored[f]))
    else
      Err("Unable to load stored detections")
  }

  /** Every line a file's detections are keyed by is the line of a record. */
  predicate LinesParse(results: Results) {
    forall f, k :: f in results && k in results[f] ==> ParseEntry(k).Ok?
  }

  /** Storing detections keyed by record lines and loading them back gives the detections. */
  lemma LoadStored(results: Results)
    requires LinesParse(results)
    ensures LoadLast(StoredForm(results)) == Ok(results)
  {
    var stored := StoredForm(results);
    forall f | f in stored ensures FileLoads(stored[f]) && LoadFile(stored[f]) == results[f] {
      assert forall k :: k in results[f] ==> ParseEntry(k).Ok?;
      LoadStoredFile(results[f]);
    }
    var r := LoadLast(stored);
    assert r.Ok?;
    assert r.value == results;
  }

  lemma StoredNamesLoad(d: FileDetections, k: string)
    requires k in d
    ensures k in StoredFile(d) && MapAll(StoredFile(d)[k], NamedDetection) == Ok(d[k])
  {
    NamesLoad(d[k]);
  }

  lemma LoadStoredFile(d: FileDetections)
    requires forall k :: k in d ==> ParseEntry(k).Ok?
    ensures FileLoads(StoredFile(d)) && LoadFile(StoredFile(d)) == d
  {
    StoredFileLoads(d);
  }

  lemma StoredFileLoads(d: FileDetections)
    ensures StoredFile(d).Keys == d.Keys
    ensures TagNamesLoad(StoredFile(d)) && LoadFile(StoredFile(d)) == d
  {
    var stored := StoredFile(d);
    forall k | k in stored ensures MapAll(stored[k], NamedDetection) == Ok(d[k]) {
      StoredNamesLoad(d, k);
    }
    var l := LoadFile(stored);
    assert forall k :: k in l ==> l[k] == d[k];
  }

  // ---------------------------------------------------------------------------
  // One run
  // ---------------------------------------------------------------------------

  /** The finding for one file: its path and all its current detections (their number heads the message). */
  datatype UtmpFinding = SuspiciousEntries(path: string, detections: FileDetections)

  /** The detections of the file at `path`, or why its dump could not be parsed. */
  function Examine(path: string, dump: Dump, oldest: Civil): Result<FileDetections, string> {
    match UtmpDump(dump.stdout, dump.stderr)
    case Err(e) => Err(e)
    case Ok(entries) =>
      UtmpDumpParsed(dump.stdout, dump.stderr);
      Ok(Detections(entries, path, oldest))
  }

  /** The detections of a file are keyed by the lines of its records. */
  lemma ExamineLinesParse(path: string, dump: Dump, oldest: Civil, k: string)
    requires Examine(path, dump, oldest).Ok? && k in Examine(path, dump, oldest).value
    ensures ParseEntry(k).Ok?
  {
    var entries := UtmpDump(dump.stdout, dump.stderr).value;
    UtmpDumpParsed(dump.stdout, dump.stderr);
    DetectionLinesParse(entries, UtmpName(path), oldest, k);
  }

  lemma DetectionLinesParse(entries: seq<UtmpEntry>, utmpName: bool, oldest: Civil, k: string)
    requires ValidTimes(entries) && forall i :: 0 <= i < |entries| ==> Parsed(entries[i])
    requires k in DetectionsUpTo(entries, |entries|, utmpName, oldest)
    ensures ParseEntry(k).Ok?
  {
    DetectionsUpToMembers(entries, |entries|, utmpName, oldest, k);
    var i :| 0 <= i < |entries| && Flagged(entries, i, utmpName, oldest, k);
    assert Parsed(entries[i]);
  }

  /**
   * The file has a detection that is new against the last results: the
   * file was not read last time, or one of its lines was not detected then
   * or had other tags.
   */
  predicate HasNew(path: string, d: FileDetections, last: Results) {
    path !in last || exists k :: k in d && (k !in last[path] || last[path][k] != d[k])
  }

  /** The outcome of examining every file that exists, keyed by path. */
  type Examined = map<string, Result<FileDetections, string>>

  /** Every file in `dumps` examined. */
  function ExamineAll(dumps: map<string, Dump>, oldest: Civil): (examined: Examined)
    ensures examined.Keys == dumps.Keys
  {
    map p | p in dumps :: Examine(p, dumps[p], oldest)
  }

  /** The events and results after the first `n` paths; a path missing from `examined` is not a file. */
  function ScanUpTo(last: Results, locations: seq<string>, n: nat, examined: Examined)
    : (r: (seq<Event<UtmpFinding>>, Results))
    requires n <= |locations|
    decreases n
  {
    if n == 0 then ([], map[])
    else
      var (events, results) := ScanUpTo(last, locations, n - 1, examined);
      var path := locations[n - 1];
      if path !in examined then (events, results)
      else
        match examined[path]
        case Err(e) => (events + [Error(e)], results)
        case Ok(d) =>
          (events + (if HasNew(path, d, last) && d != map[] then [Finding(SuspiciousEntries(path, d))] else []),
           results[path := d])
  }

  /** What a run reports and stores; `stored` is `None` when the store is not written. */
  datatype Outcome = Outcome(events: seq<Event<UtmpFinding>>, stored: Option<StoredResults>)

  /**
   * `search_utmp_tampering` in monitoring mode, as a function of the loaded
   * state (`Err` when loading failed, `None` when it holds no detections),
   * the configured paths, the dumps of the files that exist and the oldest
   * time accepted.
   */
  function Run(loaded: Result<Option<StoredResults>, string>, locations: seq<string>, dumps: map<string, Dump>,
               oldest: Civil): Outcome
  {
    var last := match loaded
      case Err(e) => Err(e)
      case Ok(None) => Ok(map[])
      case Ok(Some(stored)) => LoadLast(stored);
    match last
    case Err(e) => Outcome([Error(e)], None)
    case Ok(l) =>
      var (events, results) := ScanUpTo(l, locations, |locations|, ExamineAll(dumps, oldest));
      Outcome(events, Some(StoredForm(results)))
  }

  /** The results name exactly the paths that were read and parsed, each with its current detections, whatever was stored. */
  lemma {:induction false} ScanResults(last: Results, locations: seq<string>, n: nat, examined: Examined,
                                       path: string)
    requires n <= |locations|
    ensures var results := ScanUpTo(last, locations, n, examined).1;
      && (path in results <==> path in locations[..n] && path in examined && examined[path].Ok?)
      && (path in results ==> results[path] == examined[path].value)
    decreases n
  {
    if n > 0 {
      ScanResults(last, locations, n - 1, examined, path);
      assert locations[..n] == locations[..n - 1] + [locations[n - 1]];
    }
  }

  /** The results do not depend on what was stored. */
  lemma {:induction false} ScanResultsOnly(last: Results, other: Results, locations: seq<string>, n: nat,
                                           examined: Examined)
    requires n <= |locations|
    ensures ScanUpTo(last, locations, n, examined).1 == ScanUpTo(other, locations, n, examined).1
    decreases n
  {
    if n > 0 {
      ScanResultsOnly(last, other, locations, n - 1, examined);
    }
  }

  /**
   * A file is reported, with its current detections, exactly when it is
   * read and parsed, has detections, and has one that is new against the
   * stored results.
   */
  lemma {:induction false} ScanFindings(last: Results, locations: seq<string>, n: nat, examined: Examined,
                                        path: string, d: FileDetections)
    requires n <= |locations|
    ensures Finding(SuspiciousEntries(path, d)) in ScanUpTo(last, locations, n, examined).0 <==>
      && path in locations[..n] && path in examined && examined[path] == Ok(d)
      && d != map[] && HasNew(path, d, last)
    decreases n
  {
    if n > 0 {
      ScanFindings(last, locations, n - 1, examined, path, d);
      assert locations[..n] == locations[..n - 1] + [locations[n - 1]];
    }
  }

  /** A run reports nothing but errors when no file has detections new against the stored results. */
  lemma {:induction false} ScanErrorsOnly(last: Results, locations: seq<string>, n: nat, examined: Examined)
    requires n <= |locations|
    requires forall p :: p in locations && p in examined && examined[p].Ok? ==> !HasNew(p, examined[p].value, last)
    ensures forall e :: e in ScanUpTo(last, locations, n, examined).0 ==> e.Error?
    decreases n
  {
    if n > 0 {
      ScanErrorsOnly(last, locations, n - 1, examined);
    }
  }

  /** The stored results load back. */
  lemma ScanLinesParse(last: Results, locations: seq<string>, dumps: map<string, Dump>, oldest: Civil)
    ensures LinesParse(ScanUpTo(last, locations, |locations|, ExamineAll(dumps, oldest)).1)
  {
    var examined := ExamineAll(dumps, oldest);
    var results := ScanUpTo(last, locations, |locations|, examined).1;
    forall f, k | f in results && k in results[f] ensures ParseEntry(k).Ok? {
      ScanResults(last, locations, |locations|, examined, f);
      ExamineLinesParse(f, dumps[f], oldest, k);
    }
  }

  /**
   * Running again on what a run stored, with the same files, reports no
   * finding (only the same read errors) and stores the same detections.
   */
  lemma RepeatIsSilent(loaded: Result<Option<StoredResults>, string>, locations: seq<string>, dumps: map<string, Dump>,
                       oldest: Civil)
    requires Run(loaded, locations, dumps, oldest).stored.Some?
    ensures var again := Run(Ok(Run(loaded, locations, dumps, oldest).stored), locations, dumps, oldest);
      && again.stored == Run(loaded, locations, dumps, oldest).stored
      && forall e :: e in again.events ==> e.Error?
  {
    var last := match loaded
      case Err(e) => Err(e)
      case Ok(None) => Ok(map[])
      case Ok(Some(stored)) => LoadLast(stored);
    var examined := ExamineAll(dumps, oldest);
    var results := ScanUpTo(last.value, locations, |locations|, examined).1;
    assert Run(loaded, locations, dumps, oldest).stored == Some(StoredForm(results));
    ScanLinesParse(last.value, locations, dumps, oldest);
    LoadStored(results);
    ScanResultsOnly(results, last.value, locations, |locations|, examined);
    forall p | p in locations && p in examined && examined[p].Ok?
      ensures !HasNew(p, examined[p].value, results)
    {
      ScanResults(last.value, locations, |locations|, examined, p);
      assert locations[..|locations|] == locations;
    }
    ScanErrorsOnly(results, locations, |locations|, examined);
  }

  /** A file whose detections cleared on one run and came back on the next is reported again. */
  lemma ReappearanceIsReported(loaded: Result<Option<StoredResults>, string>, locations: seq<string>,
                               cleared: map<string, Dump>, dumps: map<string, Dump>, oldest: Civil,
                               path: string, d: FileDetections)
    requires Run(loaded, locations, cleared, oldest).stored.Some?
    requires path in locations && path in cleared && Examine(path, cleared[path], oldest) == Ok(map[])
    requires path in dumps && Examine(path, dumps[path], oldest) == Ok(d) && d != map[]
    ensures Finding(SuspiciousEntries(path, d)) in Run(Ok(Run(loaded, locations, cleared, oldest).stored), locations, dumps, oldest).events
  {
    var last := match loaded
      case Err(e) => Err(e)
      case Ok(None) => Ok(map[])
      case Ok(Some(stored)) => LoadLast(stored);
    var results := ScanUpTo(last.value, locations, |locations|, ExamineAll(cleared, oldest)).1;
    assert Run(loaded, locations, cleared, oldest).stored == Some(StoredForm(results));
    ScanLinesParse(last.value, locations, cleared, oldest);
    LoadStored(results);
    assert locations[..|locations|] == locations;
    ScanResults(last.value, locations, |locations|, ExamineAll(cleared, oldest), path);
    var k :| k in d;
    assert k !in results[path];
    ScanFindings(results, locations, |locations|, ExamineAll(dumps, oldest), path, d);
  }

  /** A read error is reported for a file exactly when it exists and its dump does not parse; missing files are skipped silently. */
  lemma {:induction false} ScanErrors(last: Results, locations: seq<string>, n: nat, examined: Examined, e: string)
    requires n <= |locations|
    ensures Error(e) in ScanUpTo(last, locations, n, examined).0 <==>
      exists i :: 0 <= i < n && locations[i] in examined && examined[locations[i]] == Err(e)
    decreases n
  {
    if n > 0 {
      ScanErrors(last, locations, n - 1, examined, e);
      var path := locations[n - 1];
      if path in examined && examined[path] == Err(e) {
        assert Error(e) in ScanUpTo(last, locations, n, examined).0;
      }
    }
  }

  // ---------------------------------------------------------------------------
  // The run, step by step
  // ---------------------------------------------------------------------------

  /** The has-new-detections flag of one file, set while going over its detections. */
  method HasNewDetections(path: string, detections: FileDetections, last: Results) returns (hasNew: bool)
    ensures hasNew == HasNew(path, detections, last)
  {
    if path !in last {
      return true;
    }
    hasNew := false;
    var rest := detections.Keys;
    while rest != {}
      invariant rest <= detections.Keys
      invariant hasNew <==> exists k :: k in detections && k !in rest && (k !in last[path] || last[path][k] != detections[k])
      decreases |rest|
    {
      var k :| k in rest;
      if !(k in last[path] && last[path][k] == detections[k]) {
        hasNew := true;
      }
      rest := rest - {k};
    }
  }

  /** One file: parse its dump, then check its records. */
  method ExamineFile(path: string, dump: Dump, oldest: Civil) returns (r: Result<FileDetections, string>)
    ensures r == Examine(path, dump, oldest)
  {
    var data := ParseUtmpFile(dump.stdout, dump.stderr);
    if data.Err? {
      return Err(data.error);
    }
    UtmpDumpParsed(dump.stdout, dump.stderr);
    var detections := CheckUtmpData(data.value, path, oldest);
    return Ok(detections);
  }

  lemma ScanStep(last: Results, locations: seq<string>, i: nat, examined: Examined)
    requires i < |locations|
    ensures var (events, results) := ScanUpTo(last, locations, i, examined);
      var path := locations[i];
      ScanUpTo(last, locations, i + 1, examined) ==
        if path !in examined then (events, results)
        else
          match examined[path]
          case Err(e) => (events + [Error(e)], results)
          case Ok(d) =>
            (events + (if HasNew(path, d, last) && d != map[] then [Finding(SuspiciousEntries(path, d))] else []),
             results[path := d])
  {
  }

  /**
   * `search_utmp_tampering` in monitoring mode: load the last results, go
   * over the configured files (skipping missing ones, reporting a file
   * that cannot be parsed and going on), report each file with a new
   * detection, and store this run's detections.
   */
  method SearchUtmpTampering(loaded: Result<Option<StoredResults>, string>, locations: seq<string>,
                             dumps: map<string, Dump>, oldest: Civil)
    returns (events: seq<Event<UtmpFinding>>, stored: Option<StoredResults>)
    ensures Outcome(events, stored) == Run(loaded, locations, dumps, oldest)
  {
    var last: Results := map[];
    if loaded.Err? {
      return [Error(loaded.error)], None;
    }
    if loaded.value.Some? {
      var l := LoadLast(loaded.value.value);
      if l.Err? {
        return [Error(l.error)], None;
      }
      last := l.value;
    }
    events := [];
    var newResults: Results := map[];
    ghost var examined := ExamineAll(dumps, oldest);
    for i := 0 to |locations|
      invariant events == ScanUpTo(last, locations, i, examined).0
      invariant newResults == ScanUpTo(last, locations, i, examined).1
    {
      ScanStep(last, locations, i, examined);
      var path := locations[i];
      if path !in dumps {
        continue;
      }
      var outcome := ExamineFile(path, dumps[path], oldest);
      assert outcome == examined[path];
      if outcome.Err? {
        events := events + [Error(outcome.error)];
        continue;
      }
      var detections := outcome.value;
      var hasNew := HasNewDetections(path, detections, last);
      if hasNew && detections != map[] {
        events := events + [Finding(SuspiciousEntries(path, detections))];
      }
      newResults := newResults[path := detections];
    }
    stored := Some(StoredForm(newResults));
  }
}
