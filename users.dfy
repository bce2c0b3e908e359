/**
 * The user database parser: one passwd(5) line is seven `:`-separated
 * fields (name, password, uid, gid, info, home, shell).
 */
module Users {
  import opened Wrappers
  import opened Text
  import opened Sequences

  /** A passwd entry; equality is equality of all seven fields. */
  datatype SystemUser = SystemUser(
    name: string,
    password: string,
    uid: int,
    gid: int,
    info: string,
    home: string,
    shell: string)

  /** The text fields of `u` contain no `:`, as for every user read from a passwd line. */
  predicate WellFormed(u: SystemUser) {
    ':' !in u.name && ':' !in u.password && ':' !in u.info && ':' !in u.home && ':' !in u.shell
  }

  /**
   * `SystemUser.from_passwd_line`: exactly seven fields, the third and fourth
   * decimal integers; anything else is an error naming the line.
   */
  function FromPasswdLine(line: string): (r: Result<SystemUser, string>)
    ensures |Split(line, ':')| != 7 ==> r.Err?
    ensures |Split(line, ':')| == 7 ==>
      (r.Ok? <==> ParseInt(Split(line, ':')[2]).Some? && ParseInt(Split(line, ':')[3]).Some?)
    ensures r.Ok? ==> WellFormed(r.value)
  {
    var fields := Split(line, ':');
    if |fields| != 7 then Err("Illegal line: " + line)
    else
      match (ParseInt(fields[2]), ParseInt(fields[3]))
      case (Some(uid), Some(gid)) =>
        Ok(SystemUser(fields[0], fields[1], uid, gid, fields[4], fields[5], fields[6]))
      case _ => Err("invalid literal for int(): " + line)
  }

  /** The seven fields of `u` as text, in passwd order. */
  function Fields(u: SystemUser): (fs: seq<string>)
    ensures |fs| == 7
  {
    [u.name, u.password, FormatInt(u.uid), FormatInt(u.gid), u.info, u.home, u.shell]
  }

  /** `str(user)`: the passwd line of `u`. */
  function ToLine(u: SystemUser): string {
    Join(Fields(u), ':')
  }

  /** Printing a well-formed user and parsing the line gives the user back. */
  lemma ParseToLine(u: SystemUser)
    requires WellFormed(u)
    ensures FromPasswdLine(ToLine(u)) == Ok(u)
  {
    var fs := Fields(u);
    FormatIntHasNo(u.uid, ':');
    FormatIntHasNo(u.gid, ':');
    SplitJoin(fs, ':');
    FormatIntParses(u.uid);
    FormatIntParses(u.gid);
  }

  /** Parsing a line whose uid and gid are written canonically and printing the user gives the line back. */
  lemma ToLineParse(line: string, u: SystemUser)
    requires FromPasswdLine(line) == Ok(u)
    requires Split(line, ':')[2] == FormatInt(u.uid) && Split(line, ':')[3] == FormatInt(u.gid)
    ensures ToLine(u) == line
  {
    var fields := Split(line, ':');
    assert Fields(u) == fields;
    JoinSplit(line, ':');
  }

  /** Distinct well-formed users print as distinct lines (the stored form loses nothing). */
  lemma ToLineInjective(a: SystemUser, b: SystemUser)
    requires WellFormed(a) && WellFormed(b) && ToLine(a) == ToLine(b)
    ensures a == b
  {
    ParseToLine(a);
    ParseToLine(b);
  }

  /**
   * `get_system_users` over the lines of the passwd file: blank lines are
   * skipped, the others stripped and parsed in file order, and the first
   * malformed line aborts the whole read.
   */
  method GetSystemUsers(lines: seq<string>) returns (r: Result<seq<SystemUser>, string>)
    ensures r == MapAll(StrippedNonBlank(lines), FromPasswdLine)
  {
    var users: seq<SystemUser> := [];
    var i := 0;
    while i < |lines|
      invariant 0 <= i <= |lines|
      invariant MapAll(StrippedNonBlank(lines[..i]), FromPasswdLine) == Ok(users)
    {
      ParseLinesStep(lines, i, FromPasswdLine);
      var line := Strip(lines[i]);
      if line != [] {
        var parsed := FromPasswdLine(line);
        if parsed.Err? {
          ParseLinesAbort(lines, i + 1, FromPasswdLine);
          return Err(parsed.error);
        }
        users := users + [parsed.value];
      }
      i := i + 1;
    }
    assert lines[..i] == lines;
    r := Ok(users);
  }

  /** A file of blank lines holds no users and is not an error. */
  lemma {:induction false} BlankFileHasNoUsers(lines: seq<string>)
    requires forall i :: 0 <= i < |lines| ==> Strip(lines[i]) == []
    ensures MapAll(StrippedNonBlank(lines), FromPasswdLine) == Ok([])
    decreases |lines|
  {
    if lines != [] {
      BlankFileHasNoUsers(lines[1..]);
    }
  }
}
