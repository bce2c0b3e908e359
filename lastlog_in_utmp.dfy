/**
 * The last-login cross-reference: every login the last-login file records
 * should also appear in the login records (utmp/wtmp) with the same user
 * name and the same time to the second. The entries that do not are
 * reported when one of them was not reported on the previous run, and
 * every run stores the entries it found missing.
 */
module LastlogInUtmp {
  import opened Wrappers
  import opened Text
  import opened Sequences
  import opened CivilTime
  import opened Utmp
  import opened Lastlog
  import opened Snapshots

  // ---------------------------------------------------------------------------
  // The cross-reference
  // ---------------------------------------------------------------------------

  /**
   * Login record `x` records last login `e`: the same user name, and the
   * record's wall-clock time falls in the second the last-login time
   * counts (the record's microseconds are ignored).
   */
  predicate Logged(x: UtmpEntry, e: LastlogEntry) {
    && ValidTime(x.utTime)
    && x.utUser == e.name
    && WallSeconds(x.utTime.wall) == e.latestTime
  }

  /**
   * Comparing second counts is comparing the six fields from the year to
   * the second, where `c` is the last-login time as a UTC date and time.
   */
  lemma LoggedFields(x: UtmpEntry, e: LastlogEntry, c: Civil)
    requires ValidTime(x.utTime) && ValidCivil(c) && c.micro == 0
    requires WallMicros(c) == e.latestTime * 1000000
    ensures Logged(x, e) <==>
      && x.utUser == e.name
      && x.utTime.wall.year == c.year && x.utTime.wall.month == c.month && x.utTime.wall.day == c.day
      && x.utTime.wall.hour == c.hour && x.utTime.wall.minute == c.minute && x.utTime.wall.second == c.second
  {
    WallSecondsFields(x.utTime.wall, c);
    assert WallSeconds(c) == e.latestTime;
  }

  /** Some login record records `e`. */
  predicate Recorded(e: LastlogEntry, records: seq<UtmpEntry>) {
    exists i :: 0 <= i < |records| && Logged(records[i], e)
  }

  /** `_check_lastlog_in_umtp`'s result: the last logins no login record records, in order. */
  function MissingEntries(lastlog: seq<LastlogEntry>, records: seq<UtmpEntry>): seq<LastlogEntry> {
    Filter(lastlog, e => !Recorded(e, records))
  }

  /**
   * An entry is missing exactly when it is a last login that no record
   * records; the missing entries keep the order of the last logins, and
   * there are none without any.
   */
  lemma MissingEntriesMembers(lastlog: seq<LastlogEntry>, records: seq<UtmpEntry>, e: LastlogEntry)
    ensures e in MissingEntries(lastlog, records) <==> e in lastlog && !Recorded(e, records)
    ensures IsSublist(MissingEntries(lastlog, records), lastlog)
    ensures lastlog == [] ==> MissingEntries(lastlog, records) == []
  {
    FilterSublist(lastlog, e => !Recorded(e, records));
    var r := MissingEntries(lastlog, records);
    if e in r {
      var i :| 0 <= i < |r| && r[i] == e;
    }
    if e in lastlog && !Recorded(e, records) {
      var i :| 0 <= i < |lastlog| && lastlog[i] == e;
    }
  }

  /** `_check_lastlog_in_umtp`: each last login is kept unless some login record records it. */
  method CheckLastlogInUtmp(lastlog: seq<LastlogEntry>, records: seq<UtmpEntry>) returns (result: seq<LastlogEntry>)
    ensures result == MissingEntries(lastlog, records)
  {
    result := [];
    for i := 0 to |lastlog|
      invariant result == MissingEntries(lastlog[..i], records)
    {
      var e := lastlog[i];
      FilterAppend(lastlog[..i], [e], x => !Recorded(x, records));
      assert lastlog[..i + 1] == lastlog[..i] + [e];
      if !(exists j :: 0 <= j < |records| && Logged(records[j], e)) {
        result := result + [e];
      }
    }
    assert lastlog[..|lastlog|] == lastlog;
  }

  // ---------------------------------------------------------------------------
  // One run
  // ---------------------------------------------------------------------------

  /** The finding of one run: every entry now missing (their number heads the message). */
  datatype LastlogFinding = Missing(entries: seq<LastlogEntry>)

  /** What a run reports and stores; `stored` is `None` when the store is not written. */
  datatype Outcome = Outcome(events: seq<Event<LastlogFinding>>, stored: Option<seq<map<string, Value>>>)

  /** `to_dict` of every entry, as stored. */
  function StoredDicts(es: seq<LastlogEntry>): (ds: seq<map<string, Value>>)
    ensures |ds| == |es|
    ensures forall i :: 0 <= i < |es| ==> ds[i] == Lastlog.ToDict(es[i])
  {
    seq(|es|, i requires 0 <= i < |es| => Lastlog.ToDict(es[i]))
  }

  /** Loading stored entries back gives the entries. */
  lemma LoadStoredDicts(es: seq<LastlogEntry>)
    ensures MapAll(StoredDicts(es), Lastlog.FromDict) == Ok(es)
  {
    var ds := StoredDicts(es);
    forall i | 0 <= i < |es| ensures Lastlog.FromDict(ds[i]) == Ok(es[i]) {
      Lastlog.FromDictToDict(es[i]);
    }
    var r := MapAll(ds, Lastlog.FromDict);
    assert r.Ok?;
    assert r.value == es;
  }

  /** The records `utmpdump` printed for one file, or why they could not be parsed. */
  function ReadDump(dump: Dump): Result<seq<UtmpEntry>, string> {
    UtmpDump(dump.stdout, dump.stderr)
  }

  /**
   * The login records of the first `n` configured files, and the errors of
   * the files that could not be parsed; a path missing from `dumps` is not
   * a file and is skipped.
   */
  function RecordsUpTo(locations: seq<string>, n: nat, dumps: map<string, Dump>)
    : (r: (seq<Event<LastlogFinding>>, seq<UtmpEntry>))
    requires n <= |locations|
    decreases n
  {
    if n == 0 then ([], [])
    else
      var (events, records) := RecordsUpTo(locations, n - 1, dumps);
      var path := locations[n - 1];
      if path !in dumps then (events, records)
      else
        match ReadDump(dumps[path])
        case Err(e) => (events + [Error(e)], records)
        case Ok(entries) => (events, records + entries)
  }

  /** The stored list: none stored reads as empty, and a stored entry that does not load is the error. */
  function LastEntries(loaded: Result<Option<seq<map<string, Value>>>, string>): Result<seq<LastlogEntry>, string> {
    match loaded
    case Err(e) => Err(e)
    case Ok(None) => Ok([])
    case Ok(Some(ds)) => MapAll(ds, Lastlog.FromDict)
  }

  /** Some missing entry was not stored as missing. */
  predicate HasNew(missing: seq<LastlogEntry>, last: seq<LastlogEntry>) {
    exists i :: 0 <= i < |missing| && missing[i] !in last
  }

  /** The run once the stored list and the last logins are in. */
  function RunWith(last: seq<LastlogEntry>, lastlog: seq<LastlogEntry>, locations: seq<string>,
                   dumps: map<string, Dump>): Outcome
  {
    var (errors, records) := RecordsUpTo(locations, |locations|, dumps);
    var missing := MissingEntries(lastlog, records);
    Outcome(errors + (if HasNew(missing, last) && missing != [] then [Finding(Missing(missing))] else []),
            Some(StoredDicts(missing)))
  }

  /**
   * `search_lastlog_in_utmp` in monitoring mode, as a function of the
   * loaded state (`Err` when loading failed, `None` when it holds no list),
   * the last logins (or why the last-login file could not be read), the
   * configured login-record paths and the dumps of those that exist. A
   * failure to load or to read the last-login file is reported and ends
   * the run without storing.
   */
  function Run(loaded: Result<Option<seq<map<string, Value>>>, string>, lastlog: Result<seq<LastlogEntry>, string>,
               locations: seq<string>, dumps: map<string, Dump>): Outcome
  {
    match LastEntries(loaded)
    case Err(e) => Outcome([Error(e)], None)
    case Ok(last) =>
      match lastlog
      case Err(e) => Outcome([Error(e)], None)
      case Ok(entries) => RunWith(last, entries, locations, dumps)
  }

  /** The records are those of the files that exist and parse, concatenated in configured order. */
  lemma {:induction false} RecordsUpToFiles(locations: seq<string>, n: nat, dumps: map<string, Dump>)
    requires n <= |locations|
    ensures RecordsUpTo(locations, n, dumps).1 == ConcatRead(locations[..n], dumps)
    decreases n
  {
    if n == 0 {
      assert locations[..n] == [];
    } else {
      RecordsUpToFiles(locations, n - 1, dumps);
      assert locations[..n] == locations[..n - 1] + [locations[n - 1]];
      ConcatReadSnoc(locations[..n - 1], locations[n - 1], dumps);
    }
  }

  /** Each file that exists and does not parse gives its error, and nothing else is reported while gathering. */
  lemma {:induction false} RecordsUpToErrors(locations: seq<string>, n: nat, dumps: map<string, Dump>, e: string)
    requires n <= |locations|
    ensures Error(e) in RecordsUpTo(locations, n, dumps).0 <==>
      exists i :: 0 <= i < n && locations[i] in dumps && ReadDump(dumps[locations[i]]) == Err(e)
    ensures forall ev :: ev in RecordsUpTo(locations, n, dumps).0 ==> ev.Error?
    decreases n
  {
    if n > 0 {
      RecordsUpToErrors(locations, n - 1, dumps, e);
      var path := locations[n - 1];
      if path in dumps && ReadDump(dumps[path]) == Err(e) {
        assert Error(e) in RecordsUpTo(locations, n, dumps).0;
      }
    }
  }

  /** The records of the file at `p`: none when it does not exist or does not parse. */
  function FileRecords(p: string, dumps: map<string, Dump>): seq<UtmpEntry> {
    if p in dumps && ReadDump(dumps[p]).Ok? then ReadDump(dumps[p]).value else []
  }

  /** The records of the readable files among `paths`, in order: the reference definition, by front recursion. */
  function ConcatRead(paths: seq<string>, dumps: map<string, Dump>): seq<UtmpEntry>
    decreases |paths|
  {
    if paths == [] then [] else FileRecords(paths[0], dumps) + ConcatRead(paths[1..], dumps)
  }

  lemma {:induction false} ConcatReadSnoc(paths: seq<string>, p: string, dumps: map<string, Dump>)
    ensures ConcatRead(paths + [p], dumps) == ConcatRead(paths, dumps) + FileRecords(p, dumps)
    decreases |paths|
  {
    if paths == [] {
      assert paths + [p] == [p];
      assert ConcatRead([p], dumps) == FileRecords(p, dumps) + ConcatRead([], dumps);
    } else {
      assert (paths + [p])[0] == paths[0];
      assert (paths + [p])[1..] == paths[1..] + [p];
      ConcatReadSnoc(paths[1..], p, dumps);
      var head := FileRecords(paths[0], dumps);
      assert ConcatRead(paths + [p], dumps) == head + (ConcatRead(paths[1..], dumps) + FileRecords(p, dumps));
    }
  }

  /**
   * When the stored list and the last logins load, a finding is reported
   * exactly when some missing entry was not stored, and it lists every
   * missing entry; the stored list becomes the missing entries.
   */
  lemma RunReportsNew(last: seq<LastlogEntry>, lastlog: seq<LastlogEntry>, locations: seq<string>,
                      dumps: map<string, Dump>, f: LastlogFinding)
    ensures var missing := MissingEntries(lastlog, RecordsUpTo(locations, |locations|, dumps).1);
      var out := Run(Ok(Some(StoredDicts(last))), Ok(lastlog), locations, dumps);
      && (Finding(f) in out.events <==> f == Missing(missing) && exists e :: e in missing && e !in last)
      && out.stored == Some(StoredDicts(missing))
  {
    LoadStoredDicts(last);
    assert Run(Ok(Some(StoredDicts(last))), Ok(lastlog), locations, dumps) == RunWith(last, lastlog, locations, dumps);
    RunWithReportsNew(last, lastlog, locations, dumps, f);
  }

  /** The same, once the stored list has been loaded as `last`. */
  lemma RunWithReportsNew(last: seq<LastlogEntry>, lastlog: seq<LastlogEntry>, locations: seq<string>,
                          dumps: map<string, Dump>, f: LastlogFinding)
    ensures var missing := MissingEntries(lastlog, RecordsUpTo(locations, |locations|, dumps).1);
      var out := RunWith(last, lastlog, locations, dumps);
      && (Finding(f) in out.events <==> f == Missing(missing) && exists e :: e in missing && e !in last)
      && out.stored == Some(StoredDicts(missing))
  {
    var (errors, records) := RecordsUpTo(locations, |locations|, dumps);
    RecordsUpToErrors(locations, |locations|, dumps, "");
    ReportOfMissing(errors, MissingEntries(lastlog, records), last, f);
  }

  /** Behind the read errors, the one finding is the missing list, reported when it holds an entry not stored. */
  lemma ReportOfMissing(errors: seq<Event<LastlogFinding>>, missing: seq<LastlogEntry>, last: seq<LastlogEntry>,
                        f: LastlogFinding)
    requires forall ev :: ev in errors ==> ev.Error?
    ensures Finding(f) in errors + (if HasNew(missing, last) && missing != [] then [Finding(Missing(missing))] else [])
      <==> f == Missing(missing) && exists e :: e in missing && e !in last
  {
    assert Finding(f) !in errors;
    if exists e :: e in missing && e !in last {
      var e :| e in missing && e !in last;
      var i :| 0 <= i < |missing| && missing[i] == e;
    }
  }

  /** Running again on the stored list with the same files reports no finding (only the same read errors) and stores the same list. */
  lemma RepeatIsSilent(loaded: Result<Option<seq<map<string, Value>>>, string>, lastlog: Result<seq<LastlogEntry>, string>,
                       locations: seq<string>, dumps: map<string, Dump>)
    requires Run(loaded, lastlog, locations, dumps).stored.Some?
    ensures var again := Run(Ok(Run(loaded, lastlog, locations, dumps).stored), lastlog, locations, dumps);
      && again.stored == Run(loaded, lastlog, locations, dumps).stored
      && again.events == RecordsUpTo(locations, |locations|, dumps).0
  {
    var last := LastEntries(loaded).value;
    var records := RecordsUpTo(locations, |locations|, dumps).1;
    var missing := MissingEntries(lastlog.value, records);
    assert Run(loaded, lastlog, locations, dumps) == RunWith(last, lastlog.value, locations, dumps);
    LoadStoredDicts(missing);
    assert Run(Ok(Some(StoredDicts(missing))), lastlog, locations, dumps) == RunWith(missing, lastlog.value, locations, dumps);
    assert !HasNew(missing, missing);
    assert RecordsUpTo(locations, |locations|, dumps).0 + [] == RecordsUpTo(locations, |locations|, dumps).0;
  }

  /** An entry that was found missing, then not, then missing again is reported again. */
  lemma ReappearanceIsReported(loaded: Result<Option<seq<map<string, Value>>>, string>, cleared: seq<LastlogEntry>,
                               lastlog: seq<LastlogEntry>, locations: seq<string>, dumps: map<string, Dump>,
                               e: LastlogEntry)
    requires Run(loaded, Ok(cleared), locations, dumps).stored.Some?
    requires e !in MissingEntries(cleared, RecordsUpTo(locations, |locations|, dumps).1)
    requires e in MissingEntries(lastlog, RecordsUpTo(locations, |locations|, dumps).1)
    ensures Finding(Missing(MissingEntries(lastlog, RecordsUpTo(locations, |locations|, dumps).1)))
      in Run(Ok(Run(loaded, Ok(cleared), locations, dumps).stored), Ok(lastlog), locations, dumps).events
  {
    var last := LastEntries(loaded).value;
    var records := RecordsUpTo(locations, |locations|, dumps).1;
    var gone := MissingEntries(cleared, records);
    assert Run(loaded, Ok(cleared), locations, dumps) == RunWith(last, cleared, locations, dumps);
    RunReportsNew(gone, lastlog, locations, dumps, Missing(MissingEntries(lastlog, records)));
  }

  // ---------------------------------------------------------------------------
  // The run, step by step
  // ---------------------------------------------------------------------------

  /** The has-new-detections flag: set, and the loop left, at the first missing entry not stored. */
  method HasNewDetections(missing: seq<LastlogEntry>, last: seq<LastlogEntry>) returns (hasNew: bool)
    ensures hasNew == HasNew(missing, last)
  {
    hasNew := false;
    for i := 0 to |missing|
      invariant forall j :: 0 <= j < i ==> missing[j] in last
    {
      if missing[i] !in last {
        hasNew := true;
        break;
      }
    }
  }

  lemma RecordsStep(locations: seq<string>, i: nat, dumps: map<string, Dump>)
    requires i < |locations|
    ensures var (events, records) := RecordsUpTo(locations, i, dumps);
      var path := locations[i];
      RecordsUpTo(locations, i + 1, dumps) ==
        if path !in dumps then (events, records)
        else
          match ReadDump(dumps[path])
          case Err(e) => (events + [Error(e)], records)
          case Ok(entries) => (events, records + entries)
  {
  }

  /**
   * The loop over the configured utmp files: a file that does not exist is
   * skipped, one that does not parse is reported, the records of the others
   * are gathered in order.
   */
  method GatherRecords(locations: seq<string>, dumps: map<string, Dump>)
    returns (events: seq<Event<LastlogFinding>>, utmpData: seq<UtmpEntry>)
    ensures (events, utmpData) == RecordsUpTo(locations, |locations|, dumps)
  {
    events := [];
    utmpData := [];
    for i := 0 to |locations|
      invariant events == RecordsUpTo(locations, i, dumps).0
      invariant utmpData == RecordsUpTo(locations, i, dumps).1
    {
      RecordsStep(locations, i, dumps);
      var path := locations[i];
      if path !in dumps {
        continue;
      }
      var entries := ParseUtmpFile(dumps[path].stdout, dumps[path].stderr);
      if entries.Err? {
        events := events + [Error(entries.error)];
        continue;
      }
      utmpData := utmpData + entries.value;
    }
  }

  /**
   * `search_lastlog_in_utmp` in monitoring mode: load the stored list, read
   * the last logins, gather the login records of every configured file that
   * exists and parses, report the missing entries when one is new, and
   * store the missing entries.
   */
  method SearchLastlogInUtmp(loaded: Result<Option<seq<map<string, Value>>>, string>, passwdLines: seq<string>,
                             lastlogFile: Option<seq<byte>>, locations: seq<string>, dumps: map<string, Dump>)
    returns (events: seq<Event<LastlogFinding>>, stored: Option<seq<map<string, Value>>>)
    ensures Outcome(events, stored) == Run(loaded, LastlogFile(passwdLines, lastlogFile), locations, dumps)
  {
    var last: seq<LastlogEntry> := [];
    if loaded.Err? {
      return [Error(loaded.error)], None;
    }
    if loaded.value.Some? {
      var parsed := MapAll(loaded.value.value, Lastlog.FromDict);
      if parsed.Err? {
        return [Error(parsed.error)], None;
      }
      last := parsed.value;
    }
    var lastlogData := ParseLastlogFile(passwdLines, lastlogFile);
    if lastlogData.Err? {
      return [Error(lastlogData.error)], None;
    }
    var utmpData;
    events, utmpData := GatherRecords(locations, dumps);
    var missing := CheckLastlogInUtmp(lastlogData.value, utmpData);
    var hasNew := HasNewDetections(missing, last);
    if hasNew && missing != [] {
      events := events + [Finding(Missing(missing))];
    }
    stored := Some(StoredDicts(missing));
  }
}
