/**
 * Login accounting records as `utmpdump` prints them, one per line:
 * `[type] [pid] [id] [user] [line] [host] [addr] [time]`.
 */
module Utmp {
  import opened Wrappers
  import opened Text
  import opened Sequences
  import opened Utf8
  import opened CivilTime

  // ---------------------------------------------------------------------------
  // The bracket grammar
  // ---------------------------------------------------------------------------

  /** What stands between two bracketed groups. */
  const FieldSep: string := "] ["

  predicate HasSepAt(s: string, k: int) {
    0 <= k && k + 3 <= |s| && s[k..k + 3] == FieldSep
  }

  /** `s` holds no `] [`. */
  predicate NoSep(s: string) {
    forall k :: 0 <= k < |s| ==> !HasSepAt(s, k)
  }

  /** `s.split("] [")`: the pieces between the leftmost non-overlapping separators. */
  function SplitFields(s: string): (r: seq<string>)
    ensures |r| >= 1
    decreases |s|
  {
    if StartsWith(s, FieldSep) then [""] + SplitFields(s[3..])
    else if s == [] then [""]
    else
      var rest := SplitFields(s[1..]);
      [[s[0]] + rest[0]] + rest[1..]
  }

  /** `"] [".join(pieces)`. */
  function JoinFields(pieces: seq<string>): string
    requires |pieces| >= 1
    decreases |pieces|
  {
    if |pieces| == 1 then pieces[0] else pieces[0] + FieldSep + JoinFields(pieces[1..])
  }

  /** Joining the pieces of a split gives the text back. */
  lemma {:induction false} JoinSplitFields(s: string)
    ensures JoinFields(SplitFields(s)) == s
    decreases |s|
  {
    if StartsWith(s, FieldSep) {
      JoinSplitFields(s[3..]);
      assert s == FieldSep + s[3..];
    } else if s != [] {
      JoinSplitFields(s[1..]);
      var rest := SplitFields(s[1..]);
      if |rest| == 1 {
        assert [s[0]] + s[1..] == s;
      } else {
        assert rest[1..][0] == rest[1];
        assert JoinFields(rest) == rest[0] + FieldSep + JoinFields(rest[1..]);
        assert [s[0]] + rest[0] + FieldSep + JoinFields(rest[1..]) == [s[0]] + (rest[0] + FieldSep + JoinFields(rest[1..]));
        assert [s[0]] + s[1..] == s;
      }
    }
  }

  /** No separator can start inside `a` and run into a separator that follows it. */
  lemma SepNotAtFront(a: string, t: string)
    requires a != [] && NoSep(a)
    ensures !StartsWith(a + FieldSep + t, FieldSep)
  {
    var s := a + FieldSep + t;
    if |a| >= 3 {
      assert s[..3] == a[..3];
      assert !HasSepAt(a, 0);
    } else if |a| == 2 {
      assert s[2] == ']';
    } else {
      assert s[2] == ' ';
    }
  }

  lemma {:induction false} SplitFieldsPrefix(a: string, t: string)
    requires NoSep(a)
    ensures SplitFields(a + FieldSep + t) == [a] + SplitFields(t)
    decreases |a|
  {
    var s := a + FieldSep + t;
    if a == [] {
      assert s == FieldSep + t;
      assert s[3..] == t;
    } else {
      SepNotAtFront(a, t);
      assert NoSep(a[1..]) by {
        forall k | 0 <= k < |a[1..]| ensures !HasSepAt(a[1..], k) {
          assert !HasSepAt(a, k + 1);
          if k + 3 <= |a[1..]| { assert a[1..][k..k + 3] == a[k + 1..k + 4]; }
        }
      }
      assert s[1..] == a[1..] + FieldSep + t;
      SplitFieldsPrefix(a[1..], t);
      assert [a[0]] + a[1..] == a;
    }
  }

  lemma {:induction false} SplitFieldsPiece(a: string)
    requires NoSep(a)
    ensures SplitFields(a) == [a]
    decreases |a|
  {
    if a != [] {
      assert !StartsWith(a, FieldSep) by { assert !HasSepAt(a, 0); }
      assert NoSep(a[1..]) by {
        forall k | 0 <= k < |a[1..]| ensures !HasSepAt(a[1..], k) {
          assert !HasSepAt(a, k + 1);
          if k + 3 <= |a[1..]| { assert a[1..][k..k + 3] == a[k + 1..k + 4]; }
        }
      }
      SplitFieldsPiece(a[1..]);
      assert [a[0]] + a[1..] == a;
    }
  }

  /** Pieces without a separator are split back out of their join. */
  lemma {:induction false} SplitJoinFields(pieces: seq<string>)
    requires |pieces| >= 1
    requires forall i :: 0 <= i < |pieces| ==> NoSep(pieces[i])
    ensures SplitFields(JoinFields(pieces)) == pieces
    decreases |pieces|
  {
    if |pieces| == 1 {
      SplitFieldsPiece(pieces[0]);
    } else {
      SplitJoinFields(pieces[1..]);
      SplitFieldsPrefix(pieces[0], JoinFields(pieces[1..]));
      assert [pieces[0]] + pieces[1..] == pieces;
    }
  }

  /** Text without `]` holds no separator. */
  lemma NoBracketNoSep(s: string)
    requires ']' !in s
    ensures NoSep(s)
  {
    forall k | 0 <= k < |s| ensures !HasSepAt(s, k) {
      assert s[k] != ']';
      if k + 3 <= |s| {
        assert s[k..k + 3][0] == s[k];
      }
    }
  }

  /** Regex `.+`: one or more characters other than a newline. */
  predicate IsAnyText(s: string) {
    s != [] && '\n' !in s
  }

  // ---------------------------------------------------------------------------
  // Entries
  // ---------------------------------------------------------------------------

  /** `UtmpEntry`: the verbatim line and the fields read from it. */
  datatype UtmpEntry = UtmpEntry(
    line: string,
    utType: int,
    utPid: int,
    utId: string,
    utUser: string,
    utLine: string,
    utHost: string,
    utAddrV6: string,
    utTime: Time)

  /**
   * The `UtmpEntry` constructor. The line must be eight bracketed groups
   * separated by single spaces: two digit strings, then five texts that are
   * kept stripped, then the timestamp. The inner text is split at `] [`,
   * which gives the regex's groups whenever exactly seven separators occur.
   */
  function ParseEntry(line: string): (r: Result<UtmpEntry, string>)
    ensures r.Ok? ==> r.value.line == line && r.value.utType >= 0 && r.value.utPid >= 0
    ensures r.Ok? ==> ValidTime(r.value.utTime)
  {
    if |line| < 2 || line[0] != '[' || line[|line| - 1] != ']' then Err("Unable to parse line (no match)")
    else
      var pieces := SplitFields(line[1..|line| - 1]);
      if |pieces| != 8 || !IsDigits(pieces[0]) || !IsDigits(pieces[1]) ||
         !(forall i :: 2 <= i < 8 ==> IsAnyText(pieces[i])) then
        Err("Unable to parse line (no match)")
      else
        match ParseTime(Strip(pieces[7]))
        case None => Err("Unable to parse time")
        case Some(t) =>
          Ok(UtmpEntry(line, DigitsValue(pieces[0]), DigitsValue(pieces[1]), Strip(pieces[2]), Strip(pieces[3]),
                       Strip(pieces[4]), Strip(pieces[5]), Strip(pieces[6]), t))
  }

  /** The line utmpdump prints for the eight group texts. */
  function DumpLine(typeText: string, pidText: string, id: string, user: string, ttyLine: string,
                    host: string, addr: string, timeText: string): string
  {
    "[" + JoinFields([typeText, pidText, id, user, ttyLine, host, addr, timeText]) + "]"
  }

  /** Digits never form a separator. */
  lemma DigitsNoSep(s: string)
    requires IsDigits(s)
    ensures NoSep(s)
  {
    forall k | 0 <= k < |s| ensures s[k] != ']' {
      assert IsDigit(s[k]);
    }
    NoBracketNoSep(s);
  }

  lemma PaddedPlain(n: nat, width: nat)
    ensures ']' !in Padded(n, width) && '\n' !in Padded(n, width)
  {
    var p := Padded(n, width);
    forall k | 0 <= k < |p| ensures p[k] != ']' && p[k] != '\n' {
      assert IsDigit(p[k]);
    }
  }

  lemma FormatTimePlain(t: Time)
    requires ValidTime(t)
    ensures ']' !in FormatTime(t) && '\n' !in FormatTime(t)
  {
    var w, o := t.wall, t.offset;
    var d := DateText(w.year, w.month, w.day);
    var c := ClockText(w.hour, w.minute, w.second, w.micro);
    var z := ZoneText(o.negative, o.hours, o.minutes);
    DateTextPlain(w.year, w.month, w.day);
    ClockTextPlain(w.hour, w.minute, w.second, w.micro);
    ZoneTextPlain(o.negative, o.hours, o.minutes);
    assert FormatTime(t) == d + (c + z);
  }

  lemma DateTextPlain(year: nat, month: nat, day: nat)
    ensures ']' !in DateText(year, month, day) && '\n' !in DateText(year, month, day)
  {
    PaddedPlain(year, 4);
    PaddedPlain(month, 2);
    PaddedPlain(day, 2);
  }

  lemma ClockTextPlain(hour: nat, minute: nat, second: nat, micro: nat)
    ensures ']' !in ClockText(hour, minute, second, micro) && '\n' !in ClockText(hour, minute, second, micro)
  {
    PaddedPlain(hour, 2);
    PaddedPlain(minute, 2);
    PaddedPlain(second, 2);
    PaddedPlain(micro, 6);
  }

  lemma ZoneTextPlain(negative: bool, hours: nat, minutes: nat)
    ensures ']' !in ZoneText(negative, hours, minutes) && '\n' !in ZoneText(negative, hours, minutes)
  {
    PaddedPlain(hours, 2);
    PaddedPlain(minutes, 2);
  }

  /** The timestamp text starts and ends with a digit, so stripping leaves it alone. */
  lemma FormatTimeStripped(t: Time)
    requires ValidTime(t)
    ensures Strip(FormatTime(t)) == FormatTime(t)
  {
    var w, o := t.wall, t.offset;
    var d := DateText(w.year, w.month, w.day);
    var c := ClockText(w.hour, w.minute, w.second, w.micro);
    var z := ZoneText(o.negative, o.hours, o.minutes);
    var s := FormatTime(t);
    assert s == d + (c + z);
    assert s[0] == d[0] == Padded(w.year, 4)[0];
    assert z == [z[0]] + (Padded(o.hours, 2) + (":" + Padded(o.minutes, 2)));
    assert s[|s| - 1] == z[|z| - 1] == Padded(o.minutes, 2)[1];
    assert IsDigit(s[0]) && IsDigit(s[|s| - 1]);
    StripWithTrimmed(s, IsSpace);
  }

  /**
   * A line printed from eight groups reads back: the numbers as their
   * values, the five texts stripped, the timestamp as its time, and the
   * line itself verbatim.
   */
  lemma ParseDumpLine(typeText: string, pidText: string, id: string, user: string, ttyLine: string,
                      host: string, addr: string, t: Time)
    requires IsDigits(typeText) && IsDigits(pidText)
    requires IsAnyText(id) && IsAnyText(user) && IsAnyText(ttyLine) && IsAnyText(host) && IsAnyText(addr)
    requires NoSep(id) && NoSep(user) && NoSep(ttyLine) && NoSep(host) && NoSep(addr)
    requires ValidTime(t)
    ensures var line := DumpLine(typeText, pidText, id, user, ttyLine, host, addr, FormatTime(t));
      ParseEntry(line) ==
        Ok(UtmpEntry(line, DigitsValue(typeText), DigitsValue(pidText), Strip(id), Strip(user), Strip(ttyLine),
                     Strip(host), Strip(addr), t))
  {
    var line := DumpLine(typeText, pidText, id, user, ttyLine, host, addr, FormatTime(t));
    DumpLinePieces(typeText, pidText, id, user, ttyLine, host, addr, t);
    ParseEntryOfPieces(line, [typeText, pidText, id, user, ttyLine, host, addr, FormatTime(t)], t);
  }

  /** The printed line is bracketed and splits back into its eight groups, which the constructor accepts. */
  lemma DumpLinePieces(typeText: string, pidText: string, id: string, user: string, ttyLine: string,
                       host: string, addr: string, t: Time)
    requires IsDigits(typeText) && IsDigits(pidText)
    requires IsAnyText(id) && IsAnyText(user) && IsAnyText(ttyLine) && IsAnyText(host) && IsAnyText(addr)
    requires NoSep(id) && NoSep(user) && NoSep(ttyLine) && NoSep(host) && NoSep(addr)
    requires ValidTime(t)
    ensures var timeText := FormatTime(t);
      var pieces := [typeText, pidText, id, user, ttyLine, host, addr, timeText];
      var line := DumpLine(typeText, pidText, id, user, ttyLine, host, addr, timeText);
      && |line| >= 2 && line[0] == '[' && line[|line| - 1] == ']'
      && SplitFields(line[1..|line| - 1]) == pieces
      && (forall i :: 2 <= i < 8 ==> IsAnyText(pieces[i]))
      && ParseTime(Strip(timeText)) == Some(t)
  {
    var timeText := FormatTime(t);
    var pieces := [typeText, pidText, id, user, ttyLine, host, addr, timeText];
    var line := DumpLine(typeText, pidText, id, user, ttyLine, host, addr, timeText);
    FormatTimePlain(t);
    FormatTimeStripped(t);
    NoBracketNoSep(timeText);
    DigitsNoSep(typeText);
    DigitsNoSep(pidText);
    forall i | 0 <= i < 8 ensures NoSep(pieces[i]) && (i >= 2 ==> IsAnyText(pieces[i])) {
      if i < 4 {} else {}
    }
    SplitJoinFields(pieces);
    assert line[1..|line| - 1] == JoinFields(pieces);
    ParseFormat(t);
  }

  /** A bracketed line whose groups the constructor accepts reads as those groups. */
  lemma ParseEntryOfPieces(line: string, pieces: seq<string>, t: Time)
    requires |line| >= 2 && line[0] == '[' && line[|line| - 1] == ']'
    requires SplitFields(line[1..|line| - 1]) == pieces && |pieces| == 8
    requires IsDigits(pieces[0]) && IsDigits(pieces[1]) && forall i :: 2 <= i < 8 ==> IsAnyText(pieces[i])
    requires ParseTime(Strip(pieces[7])) == Some(t)
    ensures ParseEntry(line) ==
      Ok(UtmpEntry(line, DigitsValue(pieces[0]), DigitsValue(pieces[1]), Strip(pieces[2]), Strip(pieces[3]),
                   Strip(pieces[4]), Strip(pieces[5]), Strip(pieces[6]), t))
  {
  }

  /**
   * `UtmpEntry.__eq__`: the line and every parsed field agree. The times
   * are compared as instants, as Python compares aware datetimes.
   */
  predicate SameEntry(a: UtmpEntry, b: UtmpEntry)
    requires ValidTime(a.utTime) && ValidTime(b.utTime)
  {
    && a.line == b.line
    && a.utType == b.utType
    && a.utPid == b.utPid
    && a.utId == b.utId
    && a.utUser == b.utUser
    && a.utLine == b.utLine
    && a.utHost == b.utHost
    && a.utAddrV6 == b.utAddrV6
    && InstantMicros(a.utTime) == InstantMicros(b.utTime)
  }

  /**
   * `__hash__` hashes the line alone. That is sound because `__eq__`
   * compares the lines, so equal entries hash alike; and among parsed
   * entries, which read every field from the line, `__eq__` holds exactly
   * when the lines are equal.
   */
  lemma EntryDeterminedByLine(a: string, b: string)
    requires ParseEntry(a).Ok? && ParseEntry(b).Ok?
    ensures SameEntry(ParseEntry(a).value, ParseEntry(b).value) ==> ParseEntry(a).value.line == ParseEntry(b).value.line
    ensures SameEntry(ParseEntry(a).value, ParseEntry(b).value) <==> a == b
    ensures ParseEntry(a) == ParseEntry(b) <==> a == b
  {
  }

  /** `parse_utmp_dump_line`: the constructor, with any failure reported as one naming the line. */
  function ParseUtmpDumpLine(line: string): (r: Result<UtmpEntry, string>)
    ensures r.Ok? <==> ParseEntry(line).Ok?
    ensures r.Ok? ==> r.value == ParseEntry(line).value && r.value.line == line
  {
    match ParseEntry(line)
    case Ok(e) => Ok(e)
    case Err(_) => Err("Unable to parse line '" + line + "'")
  }

  /** `UtmpEntry.to_dict`: only the line is stored. */
  function ToDict(e: UtmpEntry): map<string, string> {
    map["line" := e.line]
  }

  /** `UtmpEntry.from_dict`: the stored line parsed again; a missing key is an error. */
  function FromDict(d: map<string, string>): Result<UtmpEntry, string> {
    if "line" in d then ParseEntry(d["line"]) else Err("KeyError: line")
  }

  /** Storing a parsed entry and loading it gives the same entry. */
  lemma FromDictToDict(line: string)
    requires ParseEntry(line).Ok?
    ensures FromDict(ToDict(ParseEntry(line).value)) == ParseEntry(line)
  {
  }

  // ---------------------------------------------------------------------------
  // The output of utmpdump
  // ---------------------------------------------------------------------------

  const Banner: string := "Utmp dump of"

  /** The diagnostic output is one line starting with the banner. */
  predicate BannerOk(stderr: seq<byte>) {
    match Decode(stderr)
    case None => false
    case Some(text) => StartsWith(text, Banner) && |SplitLines(stderr)| == 1
  }

  /** One output line decoded from UTF-8 and parsed. */
  function ParseDumpBytes(b: seq<byte>): Result<UtmpEntry, string> {
    match Decode(b)
    case None => Err("UnicodeDecodeError")
    case Some(line) => ParseUtmpDumpLine(line)
  }

  /**
   * What `parse_utmp_file` makes of the tool's output: a failed banner
   * check (or undecodable diagnostics) is an error; otherwise the lines of
   * the stripped standard output, in order, each of which must parse.
   */
  function UtmpDump(stdout: seq<byte>, stderr: seq<byte>): (r: Result<seq<UtmpEntry>, string>)
    ensures r.Ok? ==> BannerOk(stderr)
  {
    match Decode(stderr)
    case None => Err("UnicodeDecodeError")
    case Some(text) =>
      if !(StartsWith(text, Banner) && |SplitLines(stderr)| == 1) then Err("Unable to parse file")
      else MapAll(SplitLines(StripBytes(stdout)), ParseDumpBytes)
  }

  /** A successful read has one entry per output line, in order, each keeping that line's text. */
  lemma UtmpDumpLines(stdout: seq<byte>, stderr: seq<byte>)
    requires UtmpDump(stdout, stderr).Ok?
    ensures var lines := SplitLines(StripBytes(stdout));
      var es := UtmpDump(stdout, stderr).value;
      |es| == |lines| && forall i :: 0 <= i < |lines| ==> Decode(lines[i]) == Some(es[i].line)
  {
    var lines := SplitLines(StripBytes(stdout));
    var es := UtmpDump(stdout, stderr).value;
    assert MapAll(lines, ParseDumpBytes) == Ok(es);
    forall i | 0 <= i < |lines| ensures Decode(lines[i]) == Some(es[i].line) {
      assert ParseDumpBytes(lines[i]).Ok?;
      assert es[i] == ParseDumpBytes(lines[i]).value;
    }
  }

  /** `e` is what its own line parses to, as for every entry read from the tool's output. */
  predicate Parsed(e: UtmpEntry) {
    ParseEntry(e.line) == Ok(e)
  }

  /** Every entry of a successful read is parsed from its line, so its time is a valid one. */
  lemma UtmpDumpParsed(stdout: seq<byte>, stderr: seq<byte>)
    requires UtmpDump(stdout, stderr).Ok?
    ensures forall i :: 0 <= i < |UtmpDump(stdout, stderr).value| ==>
      Parsed(UtmpDump(stdout, stderr).value[i]) && ValidTime(UtmpDump(stdout, stderr).value[i].utTime)
  {
    var lines := SplitLines(StripBytes(stdout));
    var es := UtmpDump(stdout, stderr).value;
    assert MapAll(lines, ParseDumpBytes) == Ok(es);
    forall i | 0 <= i < |es| ensures Parsed(es[i]) && ValidTime(es[i].utTime) {
      assert ParseDumpBytes(lines[i]).Ok?;
      assert es[i] == ParseDumpBytes(lines[i]).value;
    }
  }

  /** What `utmpdump` printed for one file, on standard output and standard error. */
  datatype Dump = Dump(stdout: seq<byte>, stderr: seq<byte>)

  /** `parse_utmp_file` after the tool has run: the banner check, then the line loop. */
  method ParseUtmpFile(stdout: seq<byte>, stderr: seq<byte>) returns (r: Result<seq<UtmpEntry>, string>)
    ensures r == UtmpDump(stdout, stderr)
  {
    var text := Decode(stderr);
    if text.None? {
      return Err("UnicodeDecodeError");
    }
    if !(StartsWith(text.value, Banner) && |SplitLines(stderr)| == 1) {
      return Err("Unable to parse file");
    }
    var lines := SplitLines(StripBytes(stdout));
    var data: seq<UtmpEntry> := [];
    var i := 0;
    while i < |lines|
      invariant 0 <= i <= |lines|
      invariant MapAll(lines[..i], ParseDumpBytes) == Ok(data)
    {
      MapAllStep(lines, i, ParseDumpBytes);
      var entry := ParseDumpBytes(lines[i]);
      if entry.Err? {
        MapAllAbort(lines, i + 1, ParseDumpBytes);
        return Err(entry.error);
      }
      data := data + [entry.value];
      i := i + 1;
    }
    assert lines[..i] == lines;
    r := Ok(data);
  }

  // ---------------------------------------------------------------------------
  // Reading back what the tool prints
  // ---------------------------------------------------------------------------

  /** The tool's standard output for the given entry lines: each line UTF-8 encoded and ended by LF. */
  function DumpOutput(lines: seq<string>): seq<byte>
    decreases |lines|
  {
    if lines == [] then [] else Encode(lines[0]) + [10] + DumpOutput(lines[1..])
  }

  function EncodeLines(lines: seq<string>): (r: seq<seq<byte>>)
    ensures |r| == |lines| && forall k :: 0 <= k < |lines| ==> r[k] == Encode(lines[k])
  {
    seq(|lines|, k requires 0 <= k < |lines| => Encode(lines[k]))
  }

  lemma {:induction false} DumpOutputJoin(lines: seq<string>)
    requires lines != []
    ensures DumpOutput(lines) == JoinLines(EncodeLines(lines)) + [10]
    decreases |lines|
  {
    var enc := EncodeLines(lines);
    if |lines| > 1 {
      DumpOutputJoin(lines[1..]);
      assert EncodeLines(lines[1..]) == enc[1..];
      assert DumpOutput(lines) == Encode(lines[0]) + [10] + (JoinLines(enc[1..]) + [10]);
    } else {
      assert lines[1..] == [];
    }
  }

  predicate Bracketed(line: string) {
    |line| >= 2 && line[0] == '[' && line[|line| - 1] == ']'
  }

  /** A line opening with `[` and closing with `]` encodes to bytes opening and closing with them. */
  lemma EncodeBracketed(line: string)
    requires Bracketed(line)
    ensures var b := Encode(line); |b| >= 2 && b[0] == '[' as int && b[|b| - 1] == ']' as int
  {
    var n := |line|;
    EncodeCharBytes(line[0]);
    EncodeCharBytes(line[n - 1]);
    assert line == line[..n - 1] + [line[n - 1]];
    EncodeAppend(line[..n - 1], [line[n - 1]]);
    assert Encode([line[n - 1]]) == EncodeChar(line[n - 1]) + Encode([]);
    assert line[..n - 1][0] == '[';
    assert Encode(line[..n - 1]) == EncodeChar('[') + Encode(line[1..n - 1]);
  }

  /** Bracketed lines encode to byte lines without breaks whose join is bracketed too. */
  lemma EncodedLinesBracketed(lines: seq<string>)
    requires lines != []
    requires forall k :: 0 <= k < |lines| ==> Bracketed(lines[k])
    requires forall k :: 0 <= k < |lines| ==> '\n' !in lines[k] && '\r' !in lines[k]
    ensures var enc := EncodeLines(lines);
      (forall k :: 0 <= k < |enc| ==> NoLineBreak(enc[k]) && enc[k] != []) &&
      var j := JoinLines(enc); j != [] && j[0] == '[' as int && j[|j| - 1] == ']' as int
  {
    var enc := EncodeLines(lines);
    forall k | 0 <= k < |lines| ensures NoLineBreak(enc[k]) && enc[k] != [] {
      EncodeNoLineBreak(lines[k]);
      EncodeBracketed(lines[k]);
    }
    var j := JoinLines(enc);
    JoinLinesEnds(enc);
    var first, last := enc[0], enc[|enc| - 1];
    assert first == Encode(lines[0]) && last == Encode(lines[|lines| - 1]);
    EncodeBracketed(lines[0]);
    EncodeBracketed(lines[|lines| - 1]);
    assert j[0] == first[0] == '[' as int;
    assert j[|j| - 1] == last[|last| - 1] == ']' as int;
  }

  /** The printed lines come back out of the stripped output, one by one. */
  lemma DumpOutputLines(lines: seq<string>)
    requires forall k :: 0 <= k < |lines| ==> Bracketed(lines[k])
    requires forall k :: 0 <= k < |lines| ==> '\n' !in lines[k] && '\r' !in lines[k]
    ensures SplitLines(StripBytes(DumpOutput(lines))) == EncodeLines(lines)
  {
    if lines == [] {
      assert SplitLines(StripBytes([])) == [];
    } else {
      var enc := EncodeLines(lines);
      EncodedLinesBracketed(lines);
      DumpOutputJoin(lines);
      StripBytesFinalBreak(JoinLines(enc));
      SplitLinesJoin(enc);
    }
  }

  /**
   * What the tool prints for well-formed entry lines without line breaks
   * reads back as those entries, one per line and in order, whenever the
   * diagnostic output passes the banner check.
   */
  lemma ParseDumpOutput(lines: seq<string>, stderr: seq<byte>)
    requires forall k :: 0 <= k < |lines| ==> ParseEntry(lines[k]).Ok?
    requires forall k :: 0 <= k < |lines| ==> '\n' !in lines[k] && '\r' !in lines[k]
    requires BannerOk(stderr)
    ensures var r := UtmpDump(DumpOutput(lines), stderr);
      r.Ok? && |r.value| == |lines| && forall k :: 0 <= k < |lines| ==> r.value[k] == ParseEntry(lines[k]).value
  {
    ParsedLinesBracketed(lines);
    DumpOutputLines(lines);
    EncodedLinesParse(lines);
  }

  lemma ParsedLinesBracketed(lines: seq<string>)
    requires forall k :: 0 <= k < |lines| ==> ParseEntry(lines[k]).Ok?
    ensures forall k :: 0 <= k < |lines| ==> Bracketed(lines[k])
  {
  }

  lemma EncodedLinesParse(lines: seq<string>)
    requires forall k :: 0 <= k < |lines| ==> ParseEntry(lines[k]).Ok?
    ensures var enc := EncodeLines(lines);
      forall k :: 0 <= k < |lines| ==> ParseDumpBytes(enc[k]) == Ok(ParseEntry(lines[k]).value)
  {
    var enc := EncodeLines(lines);
    forall k | 0 <= k < |lines| ensures ParseDumpBytes(enc[k]) == Ok(ParseEntry(lines[k]).value) {
      DecodeEncode(lines[k]);
    }
  }
}
