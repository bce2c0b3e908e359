# LSMS forensic checks, modelled in Dafny

LSMS (Linux Security and Monitoring Scripts) is a set of forensic checks
for a Linux host. Each check reads a system file into typed records,
applies a detection rule, and compares the result with what it stored on
its previous run. Only results that are new are reported. This project
models the record parsers and the detectors that build on them:

- `Users` (`users.dfy`) is the passwd(5) parser: seven colon-separated
  fields per line, and the printer that writes a user back.
- `KernelModules` (`kernel_module.dfy`) covers `/proc/modules`:
  - the module-state and taint-flag tables, the taint flags being the 18
    flags of the kernel's "tainted" documentation;
  - the start-anchored line grammar, with the loops that fill the
    dependency and taint-flag sets;
  - equality and the dictionary form that is stored between runs.
- `Utmp` (`utmp.dfy`) is the bracketed text format of `utmpdump`, with
  its diagnostic-banner check. `CivilTime` (`civil_time.dfy`) reads and
  writes the tool's ISO timestamps.
- `Lastlog` (`lastlog.dfy`) decodes the 292-byte last-login records and
  joins them with the uid-to-name map taken from passwd.
- `MonitorPasswd` (`monitor_passwd.dfy`) is the passwd monitor:
  - the add/delete/modify diff;
  - the uid-collision rule;
  - the rule on service accounts with an interactive shell;
  - the versioned state loader and the store.
- `TaintedModules` (`tainted_modules.dfy`) reports out-of-tree unsigned
  modules.
- `UtmpTampering` (`utmp_tampering.dfy`) classifies login records by
  type and time, and reports per file.
- `LastlogInUtmp` (`lastlog_in_utmp.dfy`) reports last logins that no
  login record shows.
- `DeletedExe` (`deleted_exe.dfy`) reports processes whose executable was
  deleted.

Helper modules:

- `Wrappers` holds `Option` and `Result`. A Python exception becomes an
  `Err`.
- `Text` models the Python `str` and `bytes` operations the parsers use:
  `strip`, `split`, `int`, `splitlines`, `basename`.
- `Utf8` is a strict UTF-8 decoder and encoder.
- `Dicts` is an insertion-ordered dictionary, for the places where the
  order of a Python dict can be seen.
- `Sequences` holds filtering, "parse every line or fail", and the
  `list.remove` loop over a copy.
- `Snapshots` is the new/prune/extend reconciliation between runs that
  the list-based detectors share. A detector's output is a sequence of
  events, each `Finding(f)` or `Error(reason)`.

Every detector is modelled twice:

- a function `Run` from the stored state and the inputs to the events
  and the new stored state (`None` when the run ends before storing);
- a method that follows the source loop by loop and is proved equal to
  `Run`.

The properties are proved about `Run`:

- what is reported, and when;
- that a repeated run is silent;
- that a result which goes away and comes back is reported again;
- that what is stored loads back as what was stored.

## Model

| member | source | states |
|---|---|---|
| Users.FromPasswdLine | LSMS/scripts/lib/util_user.py:55-65 | a line that does not split on `:` into exactly 7 fields is an error; with 7 fields it parses exactly when the uid and gid fields are integers; a parsed user is well formed |
| Users.ParseToLine | LSMS/scripts/lib/util_user.py:45-65 | printing a well-formed user (`__str__`) and parsing the text gives back the same user |
| Users.ToLineParse | LSMS/scripts/lib/util_user.py:45-65 | a line that parses, and whose uid and gid are written as canonical decimals, prints back as the same line |
| Users.ToLineInjective | LSMS/scripts/lib/util_user.py:26-52 | two well-formed users that print the same are equal; equality is over all seven fields |
| Text.StrippedNonBlankLines | LSMS/scripts/lib/util_user.py:103-106 | every line handed to a line parser is non-blank and already stripped |
| Users.GetSystemUsers | LSMS/scripts/lib/util_user.py:95-111 | the loop gives the users of the stripped non-blank lines in file order; otherwise it gives the error of the first line that does not parse |
| Users.BlankFileHasNoUsers | LSMS/scripts/lib/util_user.py:100-111 | a file with only blank lines gives an empty list and no error |
| KernelModules.StateFromStrIgnoresCase | LSMS/scripts/lib/util_module.py:17-25 | the state lookup ignores case; any result other than INVALID means the text is that state's name in some case |
| KernelModules.StateFromStrKnown | LSMS/scripts/lib/util_module.py:10-25 | each state's name, and the way `/proc/modules` spells it, maps back to that state |
| KernelModules.TaintTableIsKernelTable | LSMS/scripts/lib/util_module.py:28-111 | there are 18 flags and flag k has value 2^k; each flag's letter, in upper or lower case, maps to that flag; any character that is not a flag letter gives INVALID from the letter table |
| KernelModules.TaintFlagFromChar | LSMS/scripts/lib/util_module.py:72-111 | after `upper()`, a one-character text names a flag exactly when it is a flag letter in either case, U+0131 (read as FIRMWARE_WORKAROUND) or U+017F (read as CPU_OUT_OF_SPEC); every other character gives INVALID |
| KernelModules.FlagIndex | LSMS/scripts/lib/util_module.py:28-70 | every flag other than INVALID has its own row in the letter table |
| KernelModules.FlagValueInjective | LSMS/scripts/lib/util_module.py:28-70 | flags with the same value are the same flag |
| KernelModules.SameModuleIsEquality | LSMS/scripts/lib/util_module.py:141-153 | `__eq__` holds exactly when the two modules are equal as values: the state is compared by value and the taint flags by their set of values |
| KernelModules.NamesRoundTrip | LSMS/scripts/lib/util_module.py:171-186 | the enum names written by `to_dict` are read back by `from_dict` as the same state and flags |
| KernelModules.FromDictToDict | LSMS/scripts/lib/util_module.py:171-186 | `from_dict(to_dict(m)) == m` |
| KernelModules.ToDictFromDict | LSMS/scripts/lib/util_module.py:171-186 | a dictionary that loads is the `to_dict` of the module it loads as |
| KernelModules.DepSpan | LSMS/scripts/lib/util_module.py:209 | the dependency group is the longest run of `\w`, `,`, `-` and `[permanent]`, and it splits the text without loss |
| KernelModules.MatchModuleLine | LSMS/scripts/lib/util_module.py:207-211 | on a match, size and reference count are digit strings, and name, state and address are non-empty |
| KernelModules.CollectDependencies | LSMS/scripts/lib/util_module.py:218-222 | the `.add` loop builds the dependency set: empty for `-`, otherwise the non-empty comma-separated pieces |
| KernelModules.DependencySetOfText | LSMS/scripts/lib/util_module.py:218-222 | a dependency column written as the kernel writes it (`-`, or each name followed by a comma) gives exactly the set of those names |
| KernelModules.CollectTaintFlags | LSMS/scripts/lib/util_module.py:224-228 | the `.add` loop builds the set of flags named by the suffix letters, and the empty set when there is no suffix |
| KernelModules.TaintSetOfLetters | LSMS/scripts/lib/util_module.py:224-228 | the letters of some flags read back as exactly the set of those flags |
| KernelModules.FlagsSuffixOf | LSMS/scripts/lib/util_module.py:209 | the `(…)` suffix is found exactly when the module has taint flags, and it holds their letters |
| KernelModules.FromProcModulesLine | LSMS/scripts/lib/util_module.py:189-235 | the line parser is the grammar followed by the two set loops; a line that does not match is an error |
| KernelModules.MatchProcLine | LSMS/scripts/lib/util_module.py:207-211 | a line in the kernel's format matches the grammar, and the fields are exactly the ones written |
| KernelModules.ProcLineStripped | LSMS/scripts/lib/util_module.py:207 | stripping leaves a kernel-format line unchanged |
| KernelModules.ParseProcLine | LSMS/scripts/lib/util_module.py:189-235 | a kernel-format line parses back to the module with that name, size, reference count, state, dependency set and flag set |
| KernelModules.GetSystemModules | LSMS/scripts/lib/util_module.py:262-278 | the loop gives the modules of the stripped non-blank lines in order; otherwise it gives the error of the first line that does not parse |
| KernelModules.ReadModuleLine | LSMS/scripts/lib/util_module.py:270-273 | one turn of the loop extends the parse of the earlier lines by its line: a blank line changes nothing, any other adds its module or gives its error |
| Utmp.JoinSplitFields | LSMS/scripts/lib/util_utmp.py:18 | splitting at `] [` and joining again gives the original text |
| Utmp.SplitJoinFields | LSMS/scripts/lib/util_utmp.py:18 | fields without `] [`, once joined, split back into the same fields |
| Utmp.ParseEntry | LSMS/scripts/lib/util_utmp.py:16-30 | a parsed entry keeps its line verbatim, has a non-negative type and pid, and has a valid time |
| Utmp.ParseDumpLine | LSMS/scripts/lib/util_utmp.py:16-30 | a line of eight bracketed fields parses to: the two digit fields' values; the five text fields stripped; the written time |
| Utmp.EntryDeterminedByLine | LSMS/scripts/lib/util_utmp.py:32-53 | `__eq__` (`SameEntry`: the line, the seven fields and the time as an instant) implies equal lines, so hashing on the line is sound; two parsed entries are `__eq__`, and equal, exactly when their lines are equal |
| Utmp.ParseUtmpDumpLine | LSMS/scripts/lib/util_utmp.py:102-109 | succeeds exactly when the constructor does, and returns its entry, whose line is the input |
| Utmp.FromDictToDict | LSMS/scripts/lib/util_utmp.py:94-99 | `from_dict(to_dict(e))` is `e` for every parsed entry |
| Utmp.UtmpDump | LSMS/scripts/lib/util_utmp.py:119-121 | the output is accepted only when the diagnostics are one line that starts with `Utmp dump of` |
| Utmp.UtmpDumpLines | LSMS/scripts/lib/util_utmp.py:123-126 | an accepted output gives one entry per line of the stripped standard output, in order; each entry's line is that line decoded |
| Utmp.UtmpDumpParsed | LSMS/scripts/lib/util_utmp.py:123-126 | every entry of an accepted output is the parse of its own line and has a valid time |
| Utmp.ParseUtmpFile | LSMS/scripts/lib/util_utmp.py:119-126 | the line loop returns the entries of the output, or its first error |
| Utmp.ParseDumpOutput | LSMS/scripts/lib/util_utmp.py:112-126 | reading output written as the tool writes it (each parsable line followed by LF, under a correct banner) gives exactly the entries of those lines |
| CivilTime.ParseTime | LSMS/scripts/lib/util_utmp.py:30 | a parsed timestamp is valid, and printing it gives back the parsed text |
| CivilTime.ParseFormat | LSMS/scripts/lib/util_utmp.py:30 | every valid timestamp, once printed, parses back to itself |
| Lastlog.FromDict | LSMS/scripts/lib/util_lastlog.py:69-75 | loading succeeds exactly when the five keys are present with the right kinds of value |
| Lastlog.FromDictToDict | LSMS/scripts/lib/util_lastlog.py:62-75 | `from_dict(to_dict(e)) == e` |
| Lastlog.ToDictFromDict | LSMS/scripts/lib/util_lastlog.py:62-75 | the `to_dict` of a loaded entry agrees with the dictionary it was loaded from |
| Lastlog.LeU32Inverse | LSMS/scripts/lib/util_lastlog.py:87-89 | writing an unsigned 32-bit number in 4 little-endian bytes and reading it back gives the number |
| Lastlog.U32LeInverse | LSMS/scripts/lib/util_lastlog.py:87-89 | reading 4 bytes as a number and writing it back gives the same bytes |
| Lastlog.FieldText | LSMS/scripts/lib/util_lastlog.py:108-109 | a field whose first byte is 0 reads as `""`; otherwise it reads exactly when it is valid UTF-8; a result has no surrounding whitespace |
| Lastlog.FieldTextPadded | LSMS/scripts/lib/util_lastlog.py:108-109 | a stripped text without NULs, written NUL-padded into its field, reads back as itself |
| Lastlog.RecordEntry | LSMS/scripts/lib/util_lastlog.py:104-110 | a record gives no entry exactly when its timestamp is 0 or its uid has no user; an entry has the record's uid, the user's name and the record's timestamp |
| Lastlog.RecordEntryBytes | LSMS/scripts/lib/util_lastlog.py:87-110 | a record written as timestamp, device and host reads back as those values, or as no entry when the timestamp is 0 or the uid has no user |
| Lastlog.Records | LSMS/scripts/lib/util_lastlog.py:100-112 | each entry has a uid in the file's range and the name passwd gives for that uid; uids strictly increase |
| Lastlog.RecordsWhole | LSMS/scripts/lib/util_lastlog.py:101-114 | a file whose length is not a whole number of records fails |
| Lastlog.RecordsKeep | LSMS/scripts/lib/util_lastlog.py:100-112 | record i yields an entry for uid i exactly when its timestamp is non-zero and uid i has a user; the counter advances over skipped records too |
| Lastlog.UidNames | LSMS/scripts/lib/util_lastlog.py:91-93 | the map's keys are exactly the uids in passwd |
| Lastlog.UidNamesLastWins | LSMS/scripts/lib/util_lastlog.py:91-93 | when uids collide, the last user with that uid gives the name |
| Lastlog.BuildUidNames | LSMS/scripts/lib/util_lastlog.py:91-93 | the loop builds that map |
| Lastlog.ParseLastlogFile | LSMS/scripts/lib/util_lastlog.py:78-116 | the read loop gives the entries of the records, or an error: for passwd, for a missing file, or for a short or undecodable record |
| MonitorPasswd.PasswdDictLastWins | LSMS/scripts/monitor_passwd.py:105-115 | when two lines share a name, the later user is kept |
| MonitorPasswd.UsersOf | LSMS/scripts/monitor_passwd.py:105-115 | the name-to-user map keys every user by that user's own name |
| MonitorPasswd.GetPasswd | LSMS/scripts/monitor_passwd.py:105-115 | the loop builds that map |
| MonitorPasswd.ChangesMembers | LSMS/scripts/monitor_passwd.py:118-150 | there is a "deleted" finding exactly for stored names now absent; a "modified" finding, with both records, exactly for names present on both sides with unequal records; an "added" finding, with the record, exactly for new names |
| MonitorPasswd.NoChangesIffSame | LSMS/scripts/monitor_passwd.py:118-150 | there are no findings exactly when the stored and current maps are equal |
| MonitorPasswd.CheckChanges | LSMS/scripts/monitor_passwd.py:118-150 | the two loops emit these findings, stored names first |
| MonitorPasswd.RepeatedPairs | LSMS/scripts/monitor_passwd.py:161-170 | the loop's collision set holds exactly the uids that occur at two different places in the key order |
| MonitorPasswd.CollisionsExact | LSMS/scripts/monitor_passwd.py:161-170 | a uid collides exactly when two different users have it |
| MonitorPasswd.CheckUidCollision | LSMS/scripts/monitor_passwd.py:153-194 | returns the collision set and the findings about new and vanished collisions |
| MonitorPasswd.SetFindings | LSMS/scripts/monitor_passwd.py:172-192 | at most two findings per rule |
| MonitorPasswd.SetFindingsSilent | LSMS/scripts/monitor_passwd.py:172-192 | a rule reports nothing exactly when its current set equals the stored one |
| MonitorPasswd.SetFindingsMembers | LSMS/scripts/monitor_passwd.py:172-192 | a uid is listed as found exactly when it is current and not stored, and as gone exactly when it is stored and not current |
| MonitorPasswd.ServiceShellsExact | LSMS/scripts/monitor_passwd.py:209-224 | the set holds exactly the uids of users with uid ≤ 999 and ≠ 0, a shell that is not a no-login shell, and no whitelist entry for that name and shell; none is 0 or ≥ 1000 |
| MonitorPasswd.CheckServiceShell | LSMS/scripts/monitor_passwd.py:197-244 | returns that set and the findings about newly matching uids and uids that no longer match |
| MonitorPasswd.LoadUsersFails | LSMS/scripts/monitor_passwd.py:70-81 | loading the stored users fails exactly when some stored line does not parse |
| MonitorPasswd.IntSet | LSMS/scripts/monitor_passwd.py:73-74 | a stored list of integer uids loads as the set of its items; any other stored value is an error (narrower than `set(...)`, see "Left out") |
| MonitorPasswd.StateOf | LSMS/scripts/monitor_passwd.py:58-83 | an integer version other than 1 is an error; data without an integer version is the v0 layout, a flat name-to-line map with empty rule sets |
| MonitorPasswd.LoadState | LSMS/scripts/monitor_passwd.py:58-83 | the key-by-key loader computes that state |
| MonitorPasswd.UidList | LSMS/scripts/monitor_passwd.py:98-99 | a set is stored as a list holding each of its members once |
| MonitorPasswd.StoreState | LSMS/scripts/monitor_passwd.py:86-102 | the stored data is version 1 with every user's printed line and the two uid lists |
| MonitorPasswd.LoadStored | LSMS/scripts/monitor_passwd.py:58-102 | loading what was stored gives back the same users, collision set and shell set |
| MonitorPasswd.IntSetListed | LSMS/scripts/monitor_passwd.py:73-99 | a stored uid list loads as the set it was stored from |
| MonitorPasswd.Monitor | LSMS/scripts/monitor_passwd.py:247-282 | a failed load or passwd read gives one error and no store; otherwise the run reports the changes and both rules' findings, and stores the current state |
| MonitorPasswd.RepeatIsSilent | LSMS/scripts/monitor_passwd.py:259-282 | a second run on what the first stored, with the same passwd, reports nothing and stores the same state |
| TaintedModules.SuspiciousAmongMembers | LSMS/scripts/search_tainted_modules.py:46-61 | a module is kept exactly when it is not whitelisted by name and carries both OOT_MODULE and UNSIGNED_MODULE |
| TaintedModules.GetSuspiciousModules | LSMS/scripts/search_tainted_modules.py:46-61 | the loop keeps those modules, in order |
| TaintedModules.LoadStoredDicts | LSMS/scripts/search_tainted_modules.py:79-114 | the stored list of dictionaries loads back as the stored modules |
| TaintedModules.SearchTaintedModules | LSMS/scripts/search_tainted_modules.py:64-117 | the run, step by step, computes the modelled run |
| TaintedModules.RunReportsNew | LSMS/scripts/search_tainted_modules.py:89-109 | at most one event; a module is listed in a finding exactly when it is current, suspicious and not stored |
| TaintedModules.RepeatIsSilent | LSMS/scripts/search_tainted_modules.py:89-114 | a second run on what the first stored, with the same modules, reports nothing and stores the same list |
| TaintedModules.ReappearanceIsReported | LSMS/scripts/search_tainted_modules.py:89-114 | a module that vanished on one run and is back on the next is reported again |
| Snapshots.Reconcile | LSMS/scripts/search_tainted_modules.py:89-113 | the append loop gives the new items; the `remove` loop over a copy gives the stored items still current; what is stored is those, then the new ones |
| Snapshots.PersistedIsCurrent | LSMS/scripts/search_tainted_modules.py:95-113 | the stored list holds exactly the current items |
| Snapshots.RepeatIsSilent | LSMS/scripts/search_tainted_modules.py:89-113 | against what was stored, the same items are not new |
| Snapshots.PersistedIsStable | LSMS/scripts/search_tainted_modules.py:95-113 | reconciling the same items again stores the same list |
| Snapshots.ReappearanceIsReported | LSMS/scripts/search_tainted_modules.py:89-113 | an item absent on one run and present on the next is new on the next |
| Snapshots.FreshMembership | LSMS/scripts/search_tainted_modules.py:90-93 | an item is new exactly when it is current and not stored |
| Sequences.RemoveRejected | LSMS/scripts/search_deleted_exe.py:58-63 | removing, from the list, each item of a copy that fails the test leaves exactly the items that pass, in order |
| UtmpTampering.DetectionNameRoundTrip | LSMS/scripts/search_utmp_tampering.py:71-76 | each detection's stored name reads back as that detection |
| UtmpTampering.CheckTypeRange | LSMS/scripts/search_utmp_tampering.py:102-109 | the type check is Clean exactly when 0 < type ≤ 9 |
| UtmpTampering.CheckTimestampMicros | LSMS/scripts/search_utmp_tampering.py:112-133 | checks in order: TimeZero exactly for a time on 1970-01-01; TimeTooOld exactly when the time is not on that day and is before the oldest allowed time; TimeInconsistency exactly when neither holds and the record is out of order with its predecessor |
| UtmpTampering.InOrderIsConsistent | LSMS/scripts/search_utmp_tampering.py:123-131 | a record at most 5 s older than its predecessor, or 120 s after a BOOT_TIME record, is never inconsistent |
| UtmpTampering.UtmpFileIsUnordered | LSMS/scripts/search_utmp_tampering.py:122-123 | in a file whose name ends in `utmp`, no record is inconsistent |
| CivilTime.EpochDay | LSMS/scripts/search_utmp_tampering.py:116 | a date is 1970-01-01 exactly when its wall-clock time falls in the first day from the epoch |
| CivilTime.WallMicrosOrder | LSMS/scripts/search_utmp_tampering.py:119 | comparing wall-clock times field by field is comparing their microsecond counts |
| UtmpTampering.TagsAtChecks | LSMS/scripts/search_utmp_tampering.py:85-94 | a record has no tags exactly when both checks are Clean; the type tag comes first; any other tag is the timestamp check's result against the previous record |
| UtmpTampering.DetectionsUpToMembers | LSMS/scripts/search_utmp_tampering.py:79-99 | a line is a key of the detections exactly when some record with that line has a tag |
| UtmpTampering.DetectionsUpToValue | LSMS/scripts/search_utmp_tampering.py:79-99 | a key maps to the tags of the last tagged record with that line |
| UtmpTampering.CleanFileHasNoDetections | LSMS/scripts/search_utmp_tampering.py:79-99 | a file with no tagged record has no detections |
| UtmpTampering.CheckRecord | LSMS/scripts/search_utmp_tampering.py:85-94 | the tags one turn of the loop computes for a record, the type tag then the timestamp tag, are that record's tags |
| UtmpTampering.CheckUtmpData | LSMS/scripts/search_utmp_tampering.py:79-99 | the loop, with its previous record, computes those detections |
| UtmpTampering.NamesLoad | LSMS/scripts/search_utmp_tampering.py:156-208 | stored detection names load back as the detections |
| UtmpTampering.LoadLast | LSMS/scripts/search_utmp_tampering.py:153-160 | stored results load exactly when every stored line and name loads; the same files are present |
| UtmpTampering.LoadStored | LSMS/scripts/search_utmp_tampering.py:150-210 | results as stored load back as the same results |
| UtmpTampering.ExamineFile | LSMS/scripts/search_utmp_tampering.py:170-177 | a file's detections, or its parse error |
| UtmpTampering.HasNewDetections | LSMS/scripts/search_utmp_tampering.py:179-188 | the flag is set when the file was not stored, or some detection's line was not stored with the same tags |
| UtmpTampering.ScanResults | LSMS/scripts/search_utmp_tampering.py:165-199 | the new results hold exactly the configured files that exist and parse, each with its detections, empty maps included |
| UtmpTampering.ScanFindings | LSMS/scripts/search_utmp_tampering.py:179-197 | a file is reported exactly when it exists, parses, has detections and has a new detection |
| UtmpTampering.ScanErrors | LSMS/scripts/search_utmp_tampering.py:166-175 | an error is reported exactly for each configured file that exists and does not parse; missing files are skipped |
| UtmpTampering.RepeatIsSilent | LSMS/scripts/search_utmp_tampering.py:136-213 | a second run on what the first stored, with the same files, reports only errors and stores the same results |
| UtmpTampering.ReappearanceIsReported | LSMS/scripts/search_utmp_tampering.py:179-210 | a file that was clean on one run and has detections on the next is reported |
| UtmpTampering.SearchUtmpTampering | LSMS/scripts/search_utmp_tampering.py:136-213 | the run, step by step, computes the modelled run |
| LastlogInUtmp.LoggedFields | LSMS/scripts/search_lastlog_in_utmp.py:66-76 | a login record matches a last login exactly when the user names are equal and the year, month, day, hour, minute and second are equal; the microseconds are ignored |
| LastlogInUtmp.MissingEntriesMembers | LSMS/scripts/search_lastlog_in_utmp.py:58-79 | an entry is missing exactly when it is a last login that no record matches; the result is a sublist of the last logins, and empty when they are |
| LastlogInUtmp.CheckLastlogInUtmp | LSMS/scripts/search_lastlog_in_utmp.py:58-79 | the loop computes the missing entries in order |
| LastlogInUtmp.LoadStoredDicts | LSMS/scripts/search_lastlog_in_utmp.py:100-148 | stored entries load back as the entries |
| LastlogInUtmp.RecordsUpToFiles | LSMS/scripts/search_lastlog_in_utmp.py:115-124 | the login records are those of the configured files that exist and parse, concatenated in configured order |
| LastlogInUtmp.RecordsUpToErrors | LSMS/scripts/search_lastlog_in_utmp.py:115-124 | an error is reported exactly for each file that exists and does not parse, and nothing else is reported while reading |
| LastlogInUtmp.RunReportsNew | LSMS/scripts/search_lastlog_in_utmp.py:128-148 | a finding is reported exactly when some missing entry was not stored, and then it lists every missing entry; the stored list becomes the missing entries |
| LastlogInUtmp.RepeatIsSilent | LSMS/scripts/search_lastlog_in_utmp.py:128-148 | a second run on what the first stored reports only the same read errors and stores the same list |
| LastlogInUtmp.ReappearanceIsReported | LSMS/scripts/search_lastlog_in_utmp.py:128-148 | an entry no longer missing on one run and missing again on the next is reported |
| LastlogInUtmp.HasNewDetections | LSMS/scripts/search_lastlog_in_utmp.py:130-135 | the flag loop with `break` sets the flag exactly when some missing entry was not stored |
| LastlogInUtmp.GatherRecords | LSMS/scripts/search_lastlog_in_utmp.py:115-124 | the loop over the configured files gives the modelled read errors and records: a file that does not exist is skipped, one that does not parse adds its error, the records of the others are concatenated in order |
| LastlogInUtmp.SearchLastlogInUtmp | LSMS/scripts/search_lastlog_in_utmp.py:82-151 | the run, step by step, computes the modelled run: a load or last-login failure is one error and ends the run without storing |
| DeletedExe.ProcExeHeadParts | LSMS/scripts/search_deleted_exe.py:52 | what is recognised is `/proc/`, the pid's digits, `/exe -> ` and the target |
| DeletedExe.ProcExeHeadOf | LSMS/scripts/search_deleted_exe.py:52 | every `/proc/<digits>/exe -> <target>` is recognised, with its pid and target |
| DeletedExe.FindLinkLeftmost | LSMS/scripts/search_deleted_exe.py:52 | the search finds nothing exactly when no space is followed by a link; otherwise it finds the leftmost one |
| DeletedExe.ExeLinkOfListing | LSMS/scripts/search_deleted_exe.py:50-55 | in an `ls -l` line, the text from the link column to the end is taken |
| DeletedExe.KernelProcessOf | LSMS/scripts/search_deleted_exe.py:58-63 | every text ending in `/proc/<digits>/exe -> / (deleted)` is a kernel process and is dropped |
| DeletedExe.KernelProcessParts | LSMS/scripts/search_deleted_exe.py:58-63 | conversely, every text taken for a kernel process ends in `/proc/<digits>/exe -> / (deleted)`, with a non-empty digit run |
| DeletedExe.LinksMembers | LSMS/scripts/search_deleted_exe.py:50-55 | a text is taken exactly when it is the link of some line |
| DeletedExe.GetDeletedExeFiles | LSMS/scripts/search_deleted_exe.py:41-65 | the two loops give the links of the lines in order, with the kernel's processes removed |
| DeletedExe.DeletedExeFilesParse | LSMS/scripts/search_deleted_exe.py:104-111 | the message's pattern finds a pid in every link the check keeps |
| DeletedExe.FindPidNone | LSMS/scripts/search_deleted_exe.py:107-110 | the pid search fails exactly when the pattern matches nowhere |
| DeletedExe.FindPidLeftmost | LSMS/scripts/search_deleted_exe.py:107-111 | a pid found is that of the leftmost match |
| DeletedExe.ProcPidOf | LSMS/scripts/search_deleted_exe.py:107-111 | the pid of `/proc/<pid>/exe -> <one-line target>` is found |
| DeletedExe.MessageUpToReadable | LSMS/scripts/search_deleted_exe.py:104-118 | when every command line can be read, the message lists exactly the links whose pid is found, and each other link gives one "Unable to parse" error |
| DeletedExe.MessageCrashStays | LSMS/scripts/search_deleted_exe.py:113-117 | once reading a command line fails, the rest of the loop does not run |
| DeletedExe.RunWithReports | LSMS/scripts/search_deleted_exe.py:94-125 | a finding comes exactly when some link is new; it counts every new link, lists those whose pid is found, and comes after the parse errors; the stored list is the surviving stored links, then the new ones |
| DeletedExe.RunReportsNew | LSMS/scripts/search_deleted_exe.py:94-120 | on the listing, a finding listing exactly the new links is reported when there are any; there are no errors |
| DeletedExe.RepeatIsSilent | LSMS/scripts/search_deleted_exe.py:94-125 | a second run on what the first stored, with the same listing, reports nothing and stores the same list |
| DeletedExe.ReappearanceIsReported | LSMS/scripts/search_deleted_exe.py:94-125 | a link gone on one run and listed on the next is reported again |
| DeletedExe.SearchDeletedExeFiles | LSMS/scripts/search_deleted_exe.py:68-128 | the run, step by step, computes the modelled run |

## Left out

- Monitoring mode only. For the four list- and result-based detectors,
  only the run with `MONITORING_MODE` on is modelled. Also left out:
  the `ACTIVATED` switch, `print_output`, the `--init` and
  `--monitoring` arguments, and output suppression on the first run.
- State files. `load_state`/`store_state` are not part of this model.
  - The loaded state is a parameter: `Err` when loading failed, `None`
    when the key is absent.
  - The new state is a returned value.
  - A failure of `store_state` itself (an error after the findings) is
    not modelled.
- Output helpers. `output_finding`/`output_error` are not part of this
  model: they become appended events.
- Message wording. A finding is a structured value holding what the
  message lists, not the message text.
- Subprocesses and OS reads, which become parameters:
  - the output of `utmpdump`, standard output and diagnostics, for each
    file that exists;
  - the text of the `ls | grep` pipeline;
  - the set of pids whose `/proc/<pid>/cmdline` can be read and decoded;
  - the lines of passwd and `/proc/modules`;
  - the bytes of the last-login file (`None` when it does not exist).
- Current time. `datetime.now()` in the configured oldest entry becomes
  the `oldest` parameter.
- Configuration. The no-login shells, the whitelists and the file lists
  are parameters.
- Dictionary order where it makes no difference. The order in which
  utmp detections are listed inside a finding is not modelled. The order
  in which the uid lists are written by `_store_state` is left open.
  Passwd dictionaries keep their insertion order.
- Sets stored as lists: the stored uid lists, module dependencies and
  taint flags are modelled as sets.
- `search_dev_shm.py` and `search_memfd_create.py` are not part of this
  model. They are shell pipelines, and their only logic is the same
  new/prune/extend reconciliation that `Snapshots` models.
- Utmp.ParseEntry: the grammar is weaker than the regex. It splits the
  inner text at every `] [`, so a line whose text fields themselves
  contain `] [` is rejected, while the backtracking regex can accept it.
  `\d` is taken as ASCII digits.
- CivilTime.ParseTime: `dateutil.parser.parse` is library code. It is
  replaced by a parser for the one form `utmpdump` prints,
  `YYYY-MM-DDTHH:MM:SS,ffffff±HH:MM`. Other spellings that dateutil
  accepts are rejected.
- KernelModules.MatchModuleLine: `\w` is taken as ASCII letters, digits
  and `_`, not Python's Unicode word class. `\d` in the size and count columns is taken as ASCII digits; a column written in other Unicode decimal digits is rejected, where Python would parse it. The address class
  `[0-9a-fA-f]` is modelled as written. It therefore also admits
  `[ \ ] ^ _` and backquote.
- Users.FromPasswdLine: `int()` is modelled on an optional sign followed
  by ASCII digits. Surrounding whitespace, underscores and non-ASCII
  digits, which Python also accepts, are rejected.
- Lastlog.ParseLastlogFile: the native `struct` byte order is taken to be
  little-endian.
- Lastlog.FromDict returns an error when a value has the wrong kind.
  Python would build an object from any value.
- KernelModules.FromDict reads a dictionary whose fields have fixed
  types. A stored module whose values have other kinds is outside the
  model.
- MonitorPasswd.StateOf requires the loaded JSON object to have distinct
  keys, as any JSON object loaded into a Python dict has.
- KernelModules.TaintFlagFromStr: Python's `str.upper` is modelled only
  as far as it can produce one of the 18 flag letters. That covers the
  ASCII letters, U+0131 (to `I`) and U+017F (to `S`). Every other
  character keeps its own value and so gives INVALID, as in Python. The
  line grammar's `[A-Z]+` never passes such characters to this function.
- MonitorPasswd.IntSet: a stored uid list loads only when it is a JSON
  list of integers. Python's `set(...)` at `monitor_passwd.py:73-74`
  accepts any iterable of hashable values. It would also load a list of
  strings or floats, the characters of a string, or the keys of an
  object. Here each of those is an error. The set is then compared with
  integer uids, so the model keeps the set's type as integers.
- DeletedExe.KernelProcessOf: `\d` in the patterns at
  `search_deleted_exe.py:52,61,107` is taken as ASCII digits. Python's
  `str` patterns match every Unicode decimal digit. A link ending in
  `/proc/<non-ASCII digits>/exe -> / (deleted)` is dropped by Python as
  a kernel process, but `KernelProcess` keeps it, so the model reports it.
- DeletedExe.ProcExeHeadParts, DeletedExe.ProcExeHeadOf, DeletedExe.FindPidNone,
  DeletedExe.FindPidLeftmost, DeletedExe.ProcPidOf: for the same reason,
  a pid written with non-ASCII decimal digits is not recognised. Python
  would take the link at line 52 and find the pid at line 107.
- `search_tainted_modules` calls `_get_suspicious_modules()` at
  `search_tainted_modules.py:87`, outside any `try`. A failure to read
  or parse `/proc/modules` therefore ends the run with no event and no
  store. The model does the same.
- The service-account rule at `monitor_passwd.py:212` skips a user when
  `uid > 999 or uid == 0`. Negative uids are therefore counted as
  service accounts, although the comment at line 211 speaks only of
  uids below 1000 other than 0. The model follows the test as written.
