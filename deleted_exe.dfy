/**
 * The deleted-executable check: the links `/proc/<pid>/exe` that the kernel
 * marks ` (deleted)` are taken from the listing of the `exe` links under `/proc`, the
 * kernel's own processes (whose link is `/ (deleted)`) are dropped, and
 * each run reports the links it had not stored before and stores the ones
 * still present.
 */
module DeletedExe {
  import opened Wrappers
  import opened Text
  import opened Sequences
  import opened Snapshots

  // ---------------------------------------------------------------------------
  // Reading the listing
  // ---------------------------------------------------------------------------

  const ProcPrefix: string := "/proc/"
  const ExeArrow: string := "/exe -> "
  const KernelTarget: string := "/exe -> / (deleted)"

  /**
   * `s` begins with `/proc/<digits>/exe -> `: the pid's digits (the whole
   * run, as `/` cannot be a digit) and the text after the arrow.
   */
  function ProcExeHead(s: string): Option<(string, string)> {
    if !StartsWith(s, ProcPrefix) then None
    else
      var (digits, tail) := Span(s[|ProcPrefix|..], IsDigit);
      if digits != [] && StartsWith(tail, ExeArrow) then Some((digits, tail[|ExeArrow|..]))
      else None
  }

  /** What is recognised is `/proc/`, the pid's digits, `/exe -> ` and the target. */
  lemma ProcExeHeadParts(s: string)
    requires ProcExeHead(s).Some?
    ensures IsDigits(ProcExeHead(s).value.0)
    ensures s == ProcPrefix + ProcExeHead(s).value.0 + ExeArrow + ProcExeHead(s).value.1
  {
    var (digits, tail) := Span(s[|ProcPrefix|..], IsDigit);
    assert s == ProcPrefix + s[|ProcPrefix|..];
    assert tail == ExeArrow + tail[|ExeArrow|..];
  }

  /** Every `/proc/<digits>/exe -> <target>` text is recognised, with its pid and target. */
  lemma ProcExeHeadOf(pid: string, target: string)
    requires IsDigits(pid)
    ensures ProcExeHead(ProcPrefix + pid + ExeArrow + target) == Some((pid, target))
  {
    var s := ProcPrefix + pid + ExeArrow + target;
    assert s[|ProcPrefix|..] == pid + (ExeArrow + target);
    SpanOf(pid, ExeArrow + target, IsDigit);
    assert (ExeArrow + target)[..|ExeArrow|] == ExeArrow;
    assert (ExeArrow + target)[|ExeArrow|..] == target;
  }

  /** A space at `k` is followed by `/proc/<digits>/exe -> `. */
  predicate LinkAt(line: string, k: nat) {
    k < |line| && line[k] == ' ' && ProcExeHead(line[k + 1..]).Some?
  }

  /** The leftmost link at or after position `k`, as the text after its space. */
  function FindLink(line: string, k: nat): Option<string>
    requires k <= |line|
    decreases |line| - k
  {
    if k == |line| then None
    else if LinkAt(line, k) then Some(line[k + 1..])
    else FindLink(line, k + 1)
  }

  /** The search finds nothing exactly when there is no link, and otherwise the leftmost one. */
  lemma {:induction false} FindLinkLeftmost(line: string, k: nat)
    requires k <= |line|
    ensures FindLink(line, k).None? <==> forall j :: k <= j < |line| ==> !LinkAt(line, j)
    ensures FindLink(line, k).Some? ==>
      exists j :: k <= j < |line| && LinkAt(line, j) && FindLink(line, k).value == line[j + 1..] &&
                  forall i :: k <= i < j ==> !LinkAt(line, i)
    decreases |line| - k
  {
    if k < |line| && !LinkAt(line, k) {
      assert FindLink(line, k) == FindLink(line, k + 1);
      FindLinkLeftmost(line, k + 1);
      if FindLink(line, k).Some? {
        var j :| k + 1 <= j < |line| && LinkAt(line, j) && FindLink(line, k + 1).value == line[j + 1..] &&
                 forall i :: k + 1 <= i < j ==> !LinkAt(line, i);
        forall i | k <= i < j ensures !LinkAt(line, i) {
          if i > k { assert k + 1 <= i; }
        }
      } else {
        forall i | k <= i < |line| ensures !LinkAt(line, i) {
          if i > k { assert k + 1 <= i; }
        }
      }
    } else if k < |line| {
      assert FindLink(line, k).value == line[k + 1..];
    }
  }

  /**
   * Group 1 of `re.search(r" (/proc/(\d+)/exe -> .*)$", line)` on a line
   * without line breaks: the text from the first such link to the end.
   */
  function ExeLink(line: string): Option<string> {
    FindLink(line, 0)
  }

  /** The text after a `ls -l` listing's link column is what is taken, when nothing before it looks like a link. */
  lemma ExeLinkOfListing(columns: string, pid: string, target: string)
    requires IsDigits(pid)
    requires forall j :: 0 <= j < |columns| ==> !LinkAt(columns + " " + ProcPrefix + pid + ExeArrow + target, j)
    ensures ExeLink(columns + " " + ProcPrefix + pid + ExeArrow + target) == Some(ProcPrefix + pid + ExeArrow + target)
  {
    var line := columns + " " + ProcPrefix + pid + ExeArrow + target;
    assert line[|columns| + 1..] == ProcPrefix + pid + ExeArrow + target;
    ProcExeHeadOf(pid, target);
    assert LinkAt(line, |columns|);
    FindLinkFrom(line, 0, |columns|);
  }

  lemma {:induction false} FindLinkFrom(line: string, k: nat, j: nat)
    requires k <= j < |line| && LinkAt(line, j)
    requires forall i :: k <= i < j ==> !LinkAt(line, i)
    ensures FindLink(line, k) == Some(line[j + 1..])
    decreases j - k
  {
    if k < j {
      FindLinkFrom(line, k + 1, j);
    }
  }

  /**
   * The kernel's own processes: `re.search(r"(/proc/(\d+)/exe -> / \(deleted\))$", exe)`
   * on a text without line breaks, that is, the text ends with
   * `/proc/<digits>/exe -> / (deleted)`.
   */
  predicate KernelProcess(exe: string) {
    && EndsWith(exe, KernelTarget)
    && var before := exe[..|exe| - |KernelTarget|];
       var k := TrimBack(before, 0, |before|, IsDigit);
       k < |before| && EndsWith(before[..k], ProcPrefix)
  }

  /** The kernel-process test holds for every text that ends in `/proc/<digits>/exe -> / (deleted)`. */
  lemma KernelProcessOf(front: string, pid: string)
    requires IsDigits(pid)
    ensures KernelProcess(front + ProcPrefix + pid + KernelTarget)
  {
    var exe := front + ProcPrefix + pid + KernelTarget;
    var before := exe[..|exe| - |KernelTarget|];
    assert before == front + ProcPrefix + pid;
    assert exe[|exe| - |KernelTarget|..] == KernelTarget;
    TrimBackStops(before, |front| + |ProcPrefix|);
    assert before[..|front| + |ProcPrefix|] == front + ProcPrefix;
  }

  /** Conversely, every text the kernel-process test accepts ends in `/proc/<digits>/exe -> / (deleted)`. */
  lemma KernelProcessParts(exe: string) returns (front: string, pid: string)
    requires KernelProcess(exe)
    ensures IsDigits(pid)
    ensures exe == front + ProcPrefix + pid + KernelTarget
  {
    var before := exe[..|exe| - |KernelTarget|];
    var k := TrimBack(before, 0, |before|, IsDigit);
    front := before[..k - |ProcPrefix|];
    pid := before[k..];
    assert before[..k] == front + ProcPrefix;
    assert before == before[..k] + pid;
    assert exe == before + KernelTarget;
  }

  lemma TrimBackStops(s: string, k: nat)
    requires 0 < k <= |s| && !IsDigit(s[k - 1])
    requires forall m :: k <= m < |s| ==> IsDigit(s[m])
    ensures TrimBack(s, 0, |s|, IsDigit) == k
  {
    TrimBackDown(s, k, |s|);
  }

  lemma {:induction false} TrimBackDown(s: string, k: nat, j: nat)
    requires 0 < k <= j <= |s| && !IsDigit(s[k - 1])
    requires forall m :: k <= m < j ==> IsDigit(s[m])
    ensures TrimBack(s, 0, j, IsDigit) == k
    decreases j
  {
    if j > k {
      TrimBackDown(s, k, j - 1);
    }
  }

  /** The links taken from the lines, in order. */
  function Links(lines: seq<string>): seq<string> {
    if lines == [] then []
    else
      match ExeLink(lines[0])
      case None => Links(lines[1..])
      case Some(link) => [link] + Links(lines[1..])
  }

  /** A text is taken exactly when it is the link of some line. */
  lemma {:induction false} LinksMembers(lines: seq<string>, x: string)
    ensures x in Links(lines) <==> exists j :: 0 <= j < |lines| && ExeLink(lines[j]) == Some(x)
    decreases |lines|
  {
    if lines != [] {
      LinksMembers(lines[1..], x);
      if x in Links(lines[1..]) {
        var j :| 0 <= j < |lines[1..]| && ExeLink(lines[1..][j]) == Some(x);
        assert ExeLink(lines[j + 1]) == Some(x);
      }
      if exists j :: 0 <= j < |lines| && ExeLink(lines[j]) == Some(x) {
        var j :| 0 <= j < |lines| && ExeLink(lines[j]) == Some(x);
        if j > 0 {
          assert ExeLink(lines[1..][j - 1]) == Some(x);
        }
      }
    }
  }

  lemma {:induction false} LinksAppend(a: seq<string>, b: seq<string>)
    ensures Links(a + b) == Links(a) + Links(b)
    decreases |a|
  {
    if a == [] {
      assert a + b == b;
    } else {
      assert (a + b)[0] == a[0];
      assert (a + b)[1..] == a[1..] + b;
      LinksAppend(a[1..], b);
    }
  }

  /** Kept: not a kernel process. */
  predicate NotKernel(exe: string) { !KernelProcess(exe) }

  /**
   * `_get_deleted_exe_files` on the listing's text: the lines of the
   * stripped text, the link taken from each line that has one, and the
   * kernel's own processes removed.
   */
  function DeletedExeFiles(raw: string): seq<string> {
    var text := Strip(raw);
    var links := if text == [] then [] else Links(Split(text, '\n'));
    Filter(links, NotKernel)
  }

  /** `_get_deleted_exe_files`: the link of each line in turn, then the kernel's processes removed from a copy. */
  method GetDeletedExeFiles(raw: string) returns (exes: seq<string>)
    ensures exes == DeletedExeFiles(raw)
  {
    var text := Strip(raw);
    exes := [];
    if text != [] {
      var lines := Split(text, '\n');
      for i := 0 to |lines|
        invariant exes == Links(lines[..i])
      {
        assert lines[..i + 1] == lines[..i] + [lines[i]];
        LinksAppend(lines[..i], [lines[i]]);
        var link := ExeLink(lines[i]);
        if link.Some? {
          exes := exes + [link.value];
        }
      }
      assert lines[..|lines|] == lines;
    }
    exes := RemoveRejected(exes, NotKernel);
  }

  /** The link of a line without line breaks names its pid: the message's own pattern finds it. */
  lemma ExeLinkPid(line: string)
    requires '\n' !in line && ExeLink(line).Some?
    ensures ProcPid(ExeLink(line).value).Some?
  {
    FindLinkPid(line, 0);
  }

  lemma {:induction false} FindLinkPid(line: string, k: nat)
    requires k <= |line| && '\n' !in line && FindLink(line, k).Some?
    ensures ProcPid(FindLink(line, k).value).Some?
    decreases |line| - k
  {
    if LinkAt(line, k) {
      var exe := line[k + 1..];
      forall m | 0 <= m < |exe| ensures exe[m] != '\n' {
        assert exe[m] == line[k + 1 + m];
      }
      LinkPid(exe);
    } else {
      FindLinkPid(line, k + 1);
    }
  }

  /** A link text without line breaks that starts `/proc/<digits>/exe -> ` names its pid. */
  lemma LinkPid(exe: string)
    requires forall m :: 0 <= m < |exe| ==> exe[m] != '\n'
    requires ProcExeHead(exe).Some?
    ensures ProcPid(exe).Some?
  {
    ProcExeHeadParts(exe);
    var (pid, target) := ProcExeHead(exe).value;
    forall m | 0 <= m < |target| ensures target[m] != '\n' {
      assert target[m] == exe[|ProcPrefix + pid + ExeArrow| + m];
    }
    assert exe[0..] == exe;
    assert PidAt(exe, 0);
  }

  /** Every link the check keeps names its pid. */
  lemma DeletedExeFilesParse(raw: string, exe: string)
    requires exe in DeletedExeFiles(raw)
    ensures ProcPid(exe).Some?
  {
    var text := Strip(raw);
    var lines := Split(text, '\n');
    assert text != [];
    assert exe in Links(lines);
    LinksMembers(lines, exe);
    var j :| 0 <= j < |lines| && ExeLink(lines[j]) == Some(exe);
    ExeLinkPid(lines[j]);
  }

  // ---------------------------------------------------------------------------
  // The message's pattern
  // ---------------------------------------------------------------------------

  /** `$` after `.*`: no line break, except one that ends the text. */
  predicate RestOfLine(t: string) {
    forall m :: 0 <= m < |t| && t[m] == '\n' ==> m == |t| - 1
  }

  /** `/proc/(\d+)/exe -> .*$` matches at `k`. */
  predicate PidAt(exe: string, k: nat) {
    k <= |exe| && ProcExeHead(exe[k..]).Some? && RestOfLine(ProcExeHead(exe[k..]).value.1)
  }

  function FindPid(exe: string, k: nat): Option<string>
    requires k <= |exe|
    decreases |exe| - k
  {
    if PidAt(exe, k) then Some(ProcExeHead(exe[k..]).value.0)
    else if k == |exe| then None
    else FindPid(exe, k + 1)
  }

  /** Group 1 of `re.search(r"/proc/(\d+)/exe -> .*$", exe)`: the pid of the first match, if any. */
  function ProcPid(exe: string): Option<string> {
    FindPid(exe, 0)
  }

  /** The search finds nothing exactly when the pattern matches nowhere from `k` on. */
  lemma {:induction false} FindPidNone(exe: string, k: nat)
    requires k <= |exe|
    ensures FindPid(exe, k).None? <==> forall j :: k <= j <= |exe| ==> !PidAt(exe, j)
    decreases |exe| - k
  {
    if PidAt(exe, k) {
      assert FindPid(exe, k).Some?;
    } else if k < |exe| {
      assert FindPid(exe, k) == FindPid(exe, k + 1);
      FindPidNone(exe, k + 1);
      if forall j :: k + 1 <= j <= |exe| ==> !PidAt(exe, j) {
        forall j | k <= j <= |exe| ensures !PidAt(exe, j) {
          if j > k { assert k + 1 <= j; }
        }
      }
    }
  }

  /** A pid found is that of the leftmost match. */
  lemma {:induction false} FindPidLeftmost(exe: string, k: nat)
    requires k <= |exe| && FindPid(exe, k).Some?
    ensures exists j :: k <= j <= |exe| && PidAt(exe, j) && FindPid(exe, k).value == ProcExeHead(exe[j..]).value.0 &&
                        forall i :: k <= i < j ==> !PidAt(exe, i)
    decreases |exe| - k
  {
    if PidAt(exe, k) {
      assert FindPid(exe, k).value == ProcExeHead(exe[k..]).value.0;
    } else {
      FindPidLeftmost(exe, k + 1);
      var j :| k + 1 <= j <= |exe| && PidAt(exe, j) && FindPid(exe, k + 1).value == ProcExeHead(exe[j..]).value.0 &&
               forall i :: k + 1 <= i < j ==> !PidAt(exe, i);
      assert forall i :: k <= i < j ==> !PidAt(exe, i);
    }
  }

  /** The message's pattern gives back the pid of every `/proc/<pid>/exe -> <target>` with a one-line target. */
  lemma ProcPidOf(pid: string, target: string)
    requires IsDigits(pid) && '\n' !in target
    ensures ProcPid(ProcPrefix + pid + ExeArrow + target) == Some(pid)
  {
    var exe := ProcPrefix + pid + ExeArrow + target;
    ProcExeHeadOf(pid, target);
    assert exe[0..] == exe;
    assert PidAt(exe, 0);
  }

  // ---------------------------------------------------------------------------
  // One run
  // ---------------------------------------------------------------------------

  /**
   * The finding of one run: the number of new links (which heads the
   * message) and the new links whose pid was found, which the message
   * lists with their command lines.
   */
  datatype ExeFinding = DeletedExes(count: nat, listed: seq<string>)

  /** What a run reports and stores; `stored` is `None` when the store is not written. */
  datatype Outcome = Outcome(events: seq<Event<ExeFinding>>, stored: Option<seq<string>>)

  /**
   * The message loop over the first `n` new links: a link whose pid is not
   * found gives an error and is left out; a pid whose command line cannot
   * be read raises, which ends the run (`crashed`).
   */
  function MessageUpTo(added: seq<string>, n: nat, readable: set<string>)
    : (r: (seq<Event<ExeFinding>>, seq<string>, bool))
    requires n <= |added|
    decreases n
  {
    if n == 0 then ([], [], false) else MessageStep(MessageUpTo(added, n - 1, readable), added[n - 1], readable)
  }

  /** One turn of the message loop, on the errors, the listed links and whether the run has ended. */
  function MessageStep(acc: (seq<Event<ExeFinding>>, seq<string>, bool), exe: string, readable: set<string>)
    : (r: (seq<Event<ExeFinding>>, seq<string>, bool))
  {
    var (errors, listed, crashed) := acc;
    if crashed then acc
    else
      match ProcPid(exe)
      case None => (errors + [Error("Unable to parse: " + exe)], listed, false)
      case Some(pid) => if pid in readable then (errors, listed + [exe], false) else (errors, listed, true)
  }

  /** The run once the stored list has loaded, on the current links. */
  function RunWith(last: seq<string>, current: seq<string>, readable: set<string>): Outcome {
    var added := Fresh(current, last);
    var persisted := Persisted(last, current);
    if added == [] then Outcome([], Some(persisted))
    else
      var (errors, listed, crashed) := MessageUpTo(added, |added|, readable);
      if crashed then Outcome(errors, None)
      else Outcome(errors + [Finding(DeletedExes(|added|, listed))], Some(persisted))
  }

  /** The stored list: none stored reads as empty. */
  function LastExes(loaded: Result<Option<seq<string>>, string>): Result<seq<string>, string> {
    match loaded
    case Err(e) => Err(e)
    case Ok(None) => Ok([])
    case Ok(Some(exes)) => Ok(exes)
  }

  /**
   * `search_deleted_exe_files` in monitoring mode, as a function of the
   * loaded state (`Err` when loading failed, `None` when it holds no list),
   * the text of the listing and the pids whose command line can be read.
   */
  function Run(loaded: Result<Option<seq<string>>, string>, raw: string, readable: set<string>): Outcome {
    match LastExes(loaded)
    case Err(e) => Outcome([Error(e)], None)
    case Ok(last) => RunWith(last, DeletedExeFiles(raw), readable)
  }

  /**
   * While every command line can be read, the message lists exactly the
   * links whose pid is found, and each of the others gives one error.
   */
  lemma {:induction false} MessageUpToReadable(added: seq<string>, n: nat, readable: set<string>)
    requires n <= |added|
    requires forall i :: 0 <= i < n && ProcPid(added[i]).Some? ==> ProcPid(added[i]).value in readable
    ensures var (errors, listed, crashed) := MessageUpTo(added, n, readable);
      && !crashed
      && listed == Filter(added[..n], Parses)
      && errors == Unparsed(added[..n])
    decreases n
  {
    if n > 0 {
      MessageUpToReadable(added, n - 1, readable);
      StepReadable(MessageUpTo(added, n - 1, readable), added[n - 1], readable);
      assert added[..n] == added[..n - 1] + [added[n - 1]];
      FilterAppend(added[..n - 1], [added[n - 1]], Parses);
      UnparsedAppend(added[..n - 1], [added[n - 1]]);
    }
  }

  /** A turn on a link whose command line, if any, can be read adds its error or lists it. */
  lemma StepReadable(acc: (seq<Event<ExeFinding>>, seq<string>, bool), exe: string, readable: set<string>)
    requires !acc.2 && (ProcPid(exe).Some? ==> ProcPid(exe).value in readable)
    ensures MessageStep(acc, exe, readable) == (acc.0 + Unparsed([exe]), acc.1 + Filter([exe], Parses), false)
  {
    assert [exe][1..] == [];
    assert Unparsed([exe]) == if Parses(exe) then [] else [Error("Unable to parse: " + exe)];
    assert Filter([exe], Parses) == if Parses(exe) then [exe] else [];
    assert acc.0 + [] == acc.0 && acc.1 + [] == acc.1;
  }

  /** Once reading a command line has failed, the rest of the loop does not run. */
  lemma {:induction false} MessageCrashStays(added: seq<string>, k: nat, n: nat, readable: set<string>)
    requires k <= n <= |added| && MessageUpTo(added, k, readable).2
    ensures MessageUpTo(added, n, readable) == MessageUpTo(added, k, readable)
    decreases n
  {
    if n > k {
      MessageCrashStays(added, k, n - 1, readable);
      CrashStep(added, n, readable);
    }
  }

  lemma CrashStep(added: seq<string>, n: nat, readable: set<string>)
    requires 0 < n <= |added| && MessageUpTo(added, n - 1, readable).2
    ensures MessageUpTo(added, n, readable) == MessageUpTo(added, n - 1, readable)
  {
  }

  /** The message's pattern finds a pid. */
  predicate Parses(exe: string) { ProcPid(exe).Some? }

  /** One error for each link whose pid is not found, in order. */
  function Unparsed(exes: seq<string>): (errors: seq<Event<ExeFinding>>)
    ensures |errors| <= |exes|
    ensures forall e :: e in errors ==> e.Error?
  {
    if exes == [] then []
    else (if Parses(exes[0]) then [] else [Error("Unable to parse: " + exes[0])]) + Unparsed(exes[1..])
  }

  lemma {:induction false} UnparsedAppend(a: seq<string>, b: seq<string>)
    ensures Unparsed(a + b) == Unparsed(a) + Unparsed(b)
    decreases |a|
  {
    if a == [] {
      assert a + b == b;
    } else {
      assert (a + b)[0] == a[0];
      assert (a + b)[1..] == a[1..] + b;
      UnparsedAppend(a[1..], b);
    }
  }

  /** No error for links that all parse. */
  lemma {:induction false} UnparsedNone(exes: seq<string>)
    requires forall i :: 0 <= i < |exes| ==> Parses(exes[i])
    ensures Unparsed(exes) == []
    decreases |exes|
  {
    if exes != [] {
      UnparsedNone(exes[1..]);
    }
  }

  /**
   * With every command line readable, a finding is reported exactly when
   * some current link was not stored; it counts all new links and lists
   * those whose pid is found, each other new link giving an error before
   * it; the stored list becomes the surviving stored links followed by
   * the new ones.
   */
  lemma RunWithReports(last: seq<string>, current: seq<string>, readable: set<string>)
    requires forall x :: x in current && ProcPid(x).Some? ==> ProcPid(x).value in readable
    ensures var added := Fresh(current, last);
      RunWith(last, current, readable) ==
        if added == [] then Outcome([], Some(Persisted(last, current)))
        else Outcome(Unparsed(added) + [Finding(DeletedExes(|added|, Filter(added, Parses)))],
                     Some(Persisted(last, current)))
  {
    var added := Fresh(current, last);
    forall i | 0 <= i < |added| && ProcPid(added[i]).Some? ensures ProcPid(added[i]).value in readable {
      assert added[i] in current;
    }
    MessageUpToReadable(added, |added|, readable);
    assert added[..|added|] == added;
  }

  /**
   * On the listing, no link is unparsable: when the command lines can be
   * read, a finding is reported exactly when a link is new, with no error.
   */
  lemma RunReportsNew(last: seq<string>, raw: string, readable: set<string>)
    requires forall x :: x in DeletedExeFiles(raw) && ProcPid(x).Some? ==> ProcPid(x).value in readable
    ensures var added := Fresh(DeletedExeFiles(raw), last);
      Run(Ok(Some(last)), raw, readable).events ==
        if added == [] then [] else [Finding(DeletedExes(|added|, added))]
  {
    var current := DeletedExeFiles(raw);
    var added := Fresh(current, last);
    RunWithReports(last, current, readable);
    forall i | 0 <= i < |added| ensures Parses(added[i]) {
      FreshMembership(current, last, added[i]);
      DeletedExeFilesParse(raw, added[i]);
    }
    UnparsedNone(added);
    FilterAll(added, Parses);
  }

  /** Running again on the stored list with the same listing reports nothing and stores the same list. */
  lemma RepeatIsSilent(loaded: Result<Option<seq<string>>, string>, raw: string, readable: set<string>)
    requires Run(loaded, raw, readable).stored.Some?
    ensures Run(Ok(Run(loaded, raw, readable).stored), raw, readable) == Outcome([], Run(loaded, raw, readable).stored)
  {
    var last := LastExes(loaded).value;
    var current := DeletedExeFiles(raw);
    assert Run(loaded, raw, readable) == RunWith(last, current, readable);
    RunWithRepeat(last, current, readable);
    assert Run(Ok(Some(Persisted(last, current))), raw, readable) == RunWith(Persisted(last, current), current, readable);
  }

  lemma RunWithRepeat(last: seq<string>, current: seq<string>, readable: set<string>)
    requires RunWith(last, current, readable).stored.Some?
    ensures RunWith(last, current, readable).stored == Some(Persisted(last, current))
    ensures RunWith(Persisted(last, current), current, readable) == Outcome([], Some(Persisted(last, current)))
  {
    Snapshots.RepeatIsSilent(last, current);
    PersistedIsStable(last, current);
  }

  /** A link that was gone on one run and is listed again on the next is reported again. */
  lemma ReappearanceIsReported(loaded: Result<Option<seq<string>>, string>, cleared: string, raw: string,
                               readable: set<string>, exe: string)
    requires Run(loaded, cleared, readable).stored.Some?
    requires exe !in DeletedExeFiles(cleared) && exe in DeletedExeFiles(raw)
    requires forall x :: x in DeletedExeFiles(raw) && ProcPid(x).Some? ==> ProcPid(x).value in readable
    ensures exists f :: Finding(f) in Run(Ok(Run(loaded, cleared, readable).stored), raw, readable).events && exe in f.listed
  {
    var last := LastExes(loaded).value;
    var p := Persisted(last, DeletedExeFiles(cleared));
    assert Run(loaded, cleared, readable).stored == Some(p);
    Snapshots.ReappearanceIsReported(last, DeletedExeFiles(cleared), DeletedExeFiles(raw), exe);
    RunReportsNew(p, raw, readable);
    var added := Fresh(DeletedExeFiles(raw), p);
    assert Finding(DeletedExes(|added|, added)) in Run(Ok(Some(p)), raw, readable).events;
  }

  // ---------------------------------------------------------------------------
  // The run, step by step
  // ---------------------------------------------------------------------------

  /**
   * `search_deleted_exe_files` in monitoring mode: load the stored list,
   * take the current links, split them into new and surviving ones, build
   * the message over the new ones (an unparsable link is an error and is
   * skipped; an unreadable command line ends the run), report it, and store
   * the surviving links followed by the new ones.
   */
  method SearchDeletedExeFiles(loaded: Result<Option<seq<string>>, string>, raw: string, readable: set<string>)
    returns (events: seq<Event<ExeFinding>>, stored: Option<seq<string>>)
    ensures Outcome(events, stored) == Run(loaded, raw, readable)
  {
    if loaded.Err? {
      return [Error(loaded.error)], None;
    }
    var last: seq<string> := [];
    if loaded.value.Some? {
      last := loaded.value.value;
    }
    var current := GetDeletedExeFiles(raw);
    var added, persisted := Reconcile(current, last);
    events := [];
    if added != [] {
      var listed: seq<string> := [];
      for i := 0 to |added|
        invariant MessageUpTo(added, i, readable) == (events, listed, false)
      {
        var exe := added[i];
        var pid := ProcPid(exe);
        if pid.None? {
          events := events + [Error("Unable to parse: " + exe)];
          continue;
        }
        if pid.value !in readable {
          MessageCrashStays(added, i + 1, |added|, readable);
          return events, None;
        }
        listed := listed + [exe];
      }
      events := events + [Finding(DeletedExes(|added|, listed))];
    }
    stored := Some(persisted);
  }
}
