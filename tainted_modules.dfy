/**
 * The tainted-module check: loaded kernel modules that are both out of
 * tree and unsigned are suspicious; each run reports the suspicious modules
 * it had not stored before and stores the ones still loaded.
 */
module TaintedModules {
  import opened Wrappers
  import opened Text
  import opened Sequences
  import opened KernelModules
  import opened Snapshots

  /** The finding of one run: the newly suspicious modules (their number heads the message). */
  datatype TaintFinding = SuspiciousModules(modules: seq<SystemModule>)

  /** Not whitelisted by name, and carrying both the out-of-tree and the unsigned taint flag. */
  predicate Suspicious(m: SystemModule, whitelist: seq<string>) {
    && m.name !in whitelist
    && OotModule in m.taintFlags
    && UnsignedModule in m.taintFlags
  }

  /** The suspicious modules among `modules`, in order. */
  function SuspiciousAmong(modules: seq<SystemModule>, whitelist: seq<string>): seq<SystemModule> {
    Filter(modules, m => Suspicious(m, whitelist))
  }

  /** A module is kept exactly when it is loaded and suspicious; a whitelisted name never is. */
  lemma SuspiciousAmongMembers(modules: seq<SystemModule>, whitelist: seq<string>, m: SystemModule)
    ensures m in SuspiciousAmong(modules, whitelist) <==> m in modules && Suspicious(m, whitelist)
    ensures m.name in whitelist ==> m !in SuspiciousAmong(modules, whitelist)
  {
    var r := SuspiciousAmong(modules, whitelist);
    if m in r {
      var i :| 0 <= i < |r| && r[i] == m;
    }
    if m in modules && Suspicious(m, whitelist) {
      var i :| 0 <= i < |modules| && modules[i] == m;
    }
  }

  /** `_get_suspicious_modules` over the modules read from `/proc/modules`. */
  method GetSuspiciousModules(modules: seq<SystemModule>, whitelist: seq<string>) returns (suspicious: seq<SystemModule>)
    ensures suspicious == SuspiciousAmong(modules, whitelist)
  {
    suspicious := [];
    for i := 0 to |modules|
      invariant suspicious == SuspiciousAmong(modules[..i], whitelist)
    {
      var m := modules[i];
      FilterAppend(modules[..i], [m], x => Suspicious(x, whitelist));
      assert modules[..i + 1] == modules[..i] + [m];
      if m.name in whitelist {
        continue;
      }
      if OotModule in m.taintFlags && UnsignedModule in m.taintFlags {
        suspicious := suspicious + [m];
      }
    }
    assert modules[..|modules|] == modules;
  }

  /** `to_dict` of every module, as stored. */
  function StoredDicts(ms: seq<SystemModule>): (ds: seq<ModuleDict>)
    ensures |ds| == |ms|
    ensures forall i :: 0 <= i < |ms| ==> ds[i] == ToDict(ms[i])
  {
    seq(|ms|, i requires 0 <= i < |ms| => ToDict(ms[i]))
  }

  /** Loading stored modules back gives the modules. */
  lemma LoadStoredDicts(ms: seq<SystemModule>)
    ensures MapAll(StoredDicts(ms), FromDict) == Ok(ms)
  {
    var ds := StoredDicts(ms);
    forall i | 0 <= i < |ms| ensures FromDict(ds[i]) == Ok(ms[i]) {
      FromDictToDict(ms[i]);
    }
    var r := MapAll(ds, FromDict);
    assert r.Ok?;
    assert r.value == ms;
  }

  /** What a run reports and stores; `stored` is `None` when the store is not written. */
  datatype Outcome = Outcome(events: seq<Event<TaintFinding>>, stored: Option<seq<ModuleDict>>)

  /** The stored list: none stored reads as empty, and a stored module that does not load is the error. */
  function LastModules(loaded: Result<Option<seq<ModuleDict>>, string>): Result<seq<SystemModule>, string> {
    match loaded
    case Err(e) => Err(e)
    case Ok(None) => Ok([])
    case Ok(Some(ds)) => MapAll(ds, FromDict)
  }

  /** The modules of `/proc/modules`, or why they could not be read. */
  function ProcModules(procLines: seq<string>): Result<seq<SystemModule>, string> {
    MapAll(StrippedNonBlank(procLines), ParseModuleLine)
  }

  /** The run once the stored list has loaded. */
  function RunWith(last: seq<SystemModule>, modules: Result<seq<SystemModule>, string>, whitelist: seq<string>): Outcome {
    match modules
    case Err(_) => Outcome([], None)
    case Ok(ms) =>
      var current := SuspiciousAmong(ms, whitelist);
      var added := Fresh(current, last);
      Outcome(if added == [] then [] else [Finding(SuspiciousModules(added))],
              Some(StoredDicts(Persisted(last, current))))
  }

  /**
   * `search_tainted_modules` in monitoring mode, as a function of the loaded
   * state (`Err` when loading failed, `None` when it holds no module list)
   * and the lines of `/proc/modules`.
   */
  function Run(loaded: Result<Option<seq<ModuleDict>>, string>, procLines: seq<string>, whitelist: seq<string>): Outcome {
    match LastModules(loaded)
    case Err(e) => Outcome([Error(e)], None)
    case Ok(last) => RunWith(last, ProcModules(procLines), whitelist)
  }

  /**
   * A state-load failure is reported and nothing is stored; a failure to
   * read `/proc/modules` is not caught, so that run reports and stores
   * nothing; otherwise the new suspicious modules are reported in one
   * finding, and the stored list becomes the surviving old ones followed by
   * the new ones.
   */
  method SearchTaintedModules(loaded: Result<Option<seq<ModuleDict>>, string>, procLines: seq<string>, whitelist: seq<string>)
    returns (events: seq<Event<TaintFinding>>, stored: Option<seq<ModuleDict>>)
    ensures Outcome(events, stored) == Run(loaded, procLines, whitelist)
  {
    if loaded.Err? {
      return [Error(loaded.error)], None;
    }
    var last: seq<SystemModule> := [];
    if loaded.value.Some? {
      var parsed := MapAll(loaded.value.value, FromDict);
      if parsed.Err? {
        return [Error(parsed.error)], None;
      }
      last := parsed.value;
    }
    var modules := GetSystemModules(procLines);
    if modules.Err? {
      return [], None;
    }
    var current := GetSuspiciousModules(modules.value, whitelist);
    var added, persisted := Reconcile(current, last);
    events := if added == [] then [] else [Finding(SuspiciousModules(added))];
    stored := Some(StoredDicts(persisted));
  }

  /** A finding is reported exactly when a suspicious module is loaded that was not stored, and it lists exactly those. */
  lemma RunReportsNew(last: seq<SystemModule>, procLines: seq<string>, whitelist: seq<string>, m: SystemModule)
    requires ProcModules(procLines).Ok?
    ensures |Run(Ok(Some(StoredDicts(last))), procLines, whitelist).events| <= 1
    ensures (exists f :: Finding(f) in Run(Ok(Some(StoredDicts(last))), procLines, whitelist).events && m in f.modules) <==>
      m in ProcModules(procLines).value && Suspicious(m, whitelist) && m !in last
  {
    LoadStoredDicts(last);
    var modules := ProcModules(procLines).value;
    var current := SuspiciousAmong(modules, whitelist);
    SuspiciousAmongMembers(modules, whitelist, m);
    FreshMembership(current, last, m);
    var added := Fresh(current, last);
    assert Run(Ok(Some(StoredDicts(last))), procLines, whitelist) == RunWith(last, ProcModules(procLines), whitelist);
    if m in added {
      assert Finding(SuspiciousModules(added)) in RunWith(last, ProcModules(procLines), whitelist).events;
    }
  }

  /** Running again on the stored list with the same modules loaded reports nothing and stores the same list. */
  lemma RepeatIsSilent(loaded: Result<Option<seq<ModuleDict>>, string>, procLines: seq<string>, whitelist: seq<string>)
    requires Run(loaded, procLines, whitelist).stored.Some?
    ensures Run(Ok(Run(loaded, procLines, whitelist).stored), procLines, whitelist) ==
      Outcome([], Run(loaded, procLines, whitelist).stored)
  {
    var last := LastModules(loaded).value;
    var current := SuspiciousAmong(ProcModules(procLines).value, whitelist);
    var p := Persisted(last, current);
    assert Run(loaded, procLines, whitelist).stored == Some(StoredDicts(p));
    LoadStoredDicts(p);
    Snapshots.RepeatIsSilent(last, current);
    PersistedIsStable(last, current);
    assert Run(Ok(Some(StoredDicts(p))), procLines, whitelist) == RunWith(p, ProcModules(procLines), whitelist);
  }

  /** A suspicious module that was gone on one run and is loaded again on the next is reported again. */
  lemma ReappearanceIsReported(loaded: Result<Option<seq<ModuleDict>>, string>, cleared: seq<string>, procLines: seq<string>,
                               whitelist: seq<string>, m: SystemModule)
    requires Run(loaded, cleared, whitelist).stored.Some?
    requires m !in SuspiciousAmong(ProcModules(cleared).value, whitelist)
    requires ProcModules(procLines).Ok?
    requires m in SuspiciousAmong(ProcModules(procLines).value, whitelist)
    ensures exists f :: Finding(f) in Run(Ok(Run(loaded, cleared, whitelist).stored), procLines, whitelist).events && m in f.modules
  {
    var last := LastModules(loaded).value;
    var gone := SuspiciousAmong(ProcModules(cleared).value, whitelist);
    var current := SuspiciousAmong(ProcModules(procLines).value, whitelist);
    var p := Persisted(last, gone);
    assert Run(loaded, cleared, whitelist).stored == Some(StoredDicts(p));
    LoadStoredDicts(p);
    Snapshots.ReappearanceIsReported(last, gone, current, m);
    var added := Fresh(current, p);
    assert Run(Ok(Some(StoredDicts(p))), procLines, whitelist) == RunWith(p, ProcModules(procLines), whitelist);
    assert Finding(SuspiciousModules(added)) in RunWith(p, ProcModules(procLines), whitelist).events;
  }
}
