/**
 * The kernel module list parser: the states and taint flags a line of
 * `/proc/modules` can carry, the module record, its dictionary form for
 * the state file, and the line grammar.
 */
module KernelModules {
  import opened Wrappers
  import opened Text
  import opened Sequences

  // ---------------------------------------------------------------------------
  // Module state
  // ---------------------------------------------------------------------------

  /** `SystemModuleState`. */
  datatype ModuleState = Invalid | Live | Loading | Unloading

  /** The enum's integer value. */
  function StateValue(s: ModuleState): nat {
    match s
    case Invalid => 0
    case Live => 1
    case Loading => 2
    case Unloading => 3
  }

  /** The enum's member name, as stored in the state file. */
  function StateName(s: ModuleState): string {
    match s
    case Invalid => "INVALID"
    case Live => "LIVE"
    case Loading => "LOADING"
    case Unloading => "UNLOADING"
  }

  /** `SystemModuleState.from_str`: compares the lower-cased text; anything unknown is `Invalid`. */
  function StateFromStr(value: string): ModuleState {
    var v := Lower(value);
    if v == "live" then Live
    else if v == "loading" then Loading
    else if v == "unloading" then Unloading
    else Invalid
  }

  lemma LowerIdempotent(s: string)
    ensures Lower(Lower(s)) == Lower(s)
  {
  }

  /** The state text is read without regard to the case of its letters. */
  lemma StateFromStrIgnoresCase(value: string)
    ensures StateFromStr(Lower(value)) == StateFromStr(value)
    ensures StateFromStr(value) != Invalid ==>
      Lower(value) == Lower(StateName(StateFromStr(value)))
  {
    LowerIdempotent(value);
  }

  /** Every state is recognised from its enum name and from the text the kernel prints. */
  lemma StateFromStrKnown(s: ModuleState)
    ensures StateFromStr(StateName(s)) == s
    ensures StateFromStr(ProcStateText(s)) == s
  {
    if s == Invalid {
      assert Lower(StateName(s))[0] == 'i' && Lower(ProcStateText(s))[0] == 'i';
    }
  }

  /** The state as the kernel writes it in `/proc/modules`. */
  function ProcStateText(s: ModuleState): string {
    match s
    case Invalid => "Invalid"
    case Live => "Live"
    case Loading => "Loading"
    case Unloading => "Unloading"
  }

  // ---------------------------------------------------------------------------
  // Taint flags
  // ---------------------------------------------------------------------------

  /** `SystemModuleTaintFlag`: the 18 kernel taint flags, plus `InvalidFlag` for an unknown letter. */
  datatype TaintFlag =
    | InvalidFlag
    | ProprietaryModule | ForcedModule | CpuOutOfSpec | ForcedRmmod | MachineCheck | BadPage
    | User | Die | OverriddenAcpiTable | Warn | Crap | FirmwareWorkaround
    | OotModule | UnsignedModule | Softlockup | Livepatch | Aux | Randstruct

  /** The flags in bit order, with the letter the kernel prints for each. */
  const TaintTable: seq<(char, TaintFlag)> := [
    ('P', ProprietaryModule), ('F', ForcedModule), ('S', CpuOutOfSpec), ('R', ForcedRmmod),
    ('M', MachineCheck), ('B', BadPage), ('U', User), ('D', Die),
    ('A', OverriddenAcpiTable), ('W', Warn), ('C', Crap), ('I', FirmwareWorkaround),
    ('O', OotModule), ('E', UnsignedModule), ('L', Softlockup), ('K', Livepatch),
    ('X', Aux), ('T', Randstruct)]

  /** The enum's integer value (the flag's bit in the kernel's taint mask). */
  function FlagValue(f: TaintFlag): nat {
    match f
    case InvalidFlag => 0
    case ProprietaryModule => 1
    case ForcedModule => 2
    case CpuOutOfSpec => 4
    case ForcedRmmod => 8
    case MachineCheck => 16
    case BadPage => 32
    case User => 64
    case Die => 128
    case OverriddenAcpiTable => 256
    case Warn => 512
    case Crap => 1024
    case FirmwareWorkaround => 2048
    case OotModule => 4096
    case UnsignedModule => 8192
    case Softlockup => 16384
    case Livepatch => 32768
    case Aux => 65536
    case Randstruct => 131072
  }

  /** The enum's member name, as stored in the state file. */
  function FlagName(f: TaintFlag): string {
    match f
    case InvalidFlag => "INVALID"
    case ProprietaryModule => "PROPRIETARY_MODULE"
    case ForcedModule => "FORCED_MODULE"
    case CpuOutOfSpec => "CPU_OUT_OF_SPEC"
    case ForcedRmmod => "FORCED_RMMOD"
    case MachineCheck => "MACHINE_CHECK"
    case BadPage => "BAD_PAGE"
    case User => "USER"
    case Die => "DIE"
    case OverriddenAcpiTable => "OVERRIDDEN_ACPI_TABLE"
    case Warn => "WARN"
    case Crap => "CRAP"
    case FirmwareWorkaround => "FIRMWARE_WORKAROUND"
    case OotModule => "OOT_MODULE"
    case UnsignedModule => "UNSIGNED_MODULE"
    case Softlockup => "SOFTLOCKUP"
    case Livepatch => "LIVEPATCH"
    case Aux => "AUX"
    case Randstruct => "RANDSTRUCT"
  }

  /** The flag of an upper-case letter, `InvalidFlag` for any other character. */
  function LetterFlag(c: char): TaintFlag {
    match c
    case 'P' => ProprietaryModule
    case 'F' => ForcedModule
    case 'S' => CpuOutOfSpec
    case 'R' => ForcedRmmod
    case 'M' => MachineCheck
    case 'B' => BadPage
    case 'U' => User
    case 'D' => Die
    case 'A' => OverriddenAcpiTable
    case 'W' => Warn
    case 'C' => Crap
    case 'I' => FirmwareWorkaround
    case 'O' => OotModule
    case 'E' => UnsignedModule
    case 'L' => Softlockup
    case 'K' => Livepatch
    case 'X' => Aux
    case 'T' => Randstruct
    case _ => InvalidFlag
  }

  /**
   * `SystemModuleTaintFlag.from_str`: the upper-cased text must be one of the
   * 18 letters; anything else is `InvalidFlag`, never an error.
   */
  function TaintFlagFromStr(value: string): TaintFlag {
    if |value| == 1 then LetterFlag(UpperFlagChar(value[0])) else InvalidFlag
  }

  /**
   * `str.upper` on one character, as far as the flag letters go: the ASCII
   * letters, and the two other characters whose upper case is an ASCII
   * letter, U+0131 (dotless i, upper-cased to `I`) and U+017F (long s,
   * upper-cased to `S`). No other character upper-cases to one of the 18
   * letters, so every other character is left as it is.
   */
  function UpperFlagChar(c: char): char {
    if c == '\U{0131}' then 'I' else if c == '\U{017F}' then 'S' else UpperAscii(c)
  }

  function Pow2(k: nat): nat {
    if k == 0 then 1 else 2 * Pow2(k - 1)
  }

  /**
   * The table is the kernel's: the k-th flag is bit k (values 1 to 131072),
   * its letter, in either case, is read back as that flag, and the values
   * of distinct flags differ.
   */
  lemma TaintTableIsKernelTable()
    ensures |TaintTable| == 18
    ensures forall k :: 0 <= k < 18 ==> FlagValue(TaintTable[k].1) == Pow2(k)
    ensures forall k :: 0 <= k < 18 ==>
      TaintFlagFromStr([TaintTable[k].0]) == TaintTable[k].1 &&
      TaintFlagFromStr([LowerAscii(TaintTable[k].0)]) == TaintTable[k].1
    ensures forall c :: LetterFlag(c) != InvalidFlag ==> exists k :: 0 <= k < 18 && TaintTable[k].0 == c
  {
    forall k | 0 <= k < 18
      ensures FlagValue(TaintTable[k].1) == Pow2(k)
      ensures TaintFlagFromStr([TaintTable[k].0]) == TaintTable[k].1
      ensures TaintFlagFromStr([LowerAscii(TaintTable[k].0)]) == TaintTable[k].1
    {
      if k < 6 { LowTaintRow(k); } else if k < 12 { MiddleTaintRow(k); } else { HighTaintRow(k); }
    }
    forall c | LetterFlag(c) != InvalidFlag ensures exists k :: 0 <= k < 18 && TaintTable[k].0 == c {
      var k := FlagIndex(LetterFlag(c));
    }
  }

  /**
   * A one-character text names a flag exactly when it is a flag letter, in
   * either case, or one of the two characters Python upper-cases to `I`
   * and `S`; every other character gives `InvalidFlag`.
   */
  lemma TaintFlagFromChar(c: char)
    ensures TaintFlagFromStr([c]) != InvalidFlag <==>
      || c == '\U{0131}' || c == '\U{017F}'
      || exists k :: 0 <= k < 18 && (c == TaintTable[k].0 || c == LowerAscii(TaintTable[k].0))
    ensures TaintFlagFromStr(['\U{0131}']) == FirmwareWorkaround
    ensures TaintFlagFromStr(['\U{017F}']) == CpuOutOfSpec
  {
    if c != '\U{0131}' && c != '\U{017F}' {
      if TaintFlagFromStr([c]) != InvalidFlag {
        var k := LetterRow(c);
      }
      forall k | 0 <= k < 18 && (c == TaintTable[k].0 || c == LowerAscii(TaintTable[k].0))
        ensures TaintFlagFromStr([c]) != InvalidFlag
      {
        TaintRow(k);
      }
    }
  }

  /** The row of an ASCII character that names a flag. */
  lemma LetterRow(c: char) returns (k: nat)
    requires c != '\U{0131}' && c != '\U{017F}' && TaintFlagFromStr([c]) != InvalidFlag
    ensures k < 18 && (c == TaintTable[k].0 || c == LowerAscii(TaintTable[k].0))
  {
    var u := UpperAscii(c);
    assert LetterFlag(u) == TaintFlagFromStr([c]);
    k := FlagIndex(LetterFlag(u));
    LetterOfFlag(u);
  }

  /** A character that names a flag is that flag's letter. */
  lemma LetterOfFlag(u: char)
    requires LetterFlag(u) != InvalidFlag
    ensures FlagLetter(LetterFlag(u)) == u
  {
    match u
    case 'P' =>
    case 'F' =>
    case 'S' =>
    case 'R' =>
    case 'M' =>
    case 'B' =>
    case 'U' =>
    case 'D' =>
    case 'A' =>
    case 'W' =>
    case 'C' =>
    case 'I' =>
    case 'O' =>
    case 'E' =>
    case 'L' =>
    case 'K' =>
    case 'X' =>
    case 'T' =>
    case _ =>
  }

  /** Row `k` of the table, with its flag a real one. */
  lemma TaintRow(k: nat)
    requires k < 18
    ensures TaintTable[k].1 != InvalidFlag
    ensures TaintFlagFromStr([TaintTable[k].0]) == TaintTable[k].1
    ensures TaintFlagFromStr([LowerAscii(TaintTable[k].0)]) == TaintTable[k].1
  {
    if k < 6 { LowTaintRow(k); } else if k < 12 { MiddleTaintRow(k); } else { HighTaintRow(k); }
    Pow2Positive(k);
  }

  lemma Pow2Positive(k: nat)
    ensures Pow2(k) >= 1
  {
    if k > 0 { Pow2Positive(k - 1); }
  }

  /** The bit values the kernel gives its taint flags. */
  lemma Pow2Values()
    ensures Pow2(0) == 1 && Pow2(1) == 2 && Pow2(2) == 4 && Pow2(3) == 8 && Pow2(4) == 16 && Pow2(5) == 32
    ensures Pow2(6) == 64 && Pow2(7) == 128 && Pow2(8) == 256 && Pow2(9) == 512 && Pow2(10) == 1024
    ensures Pow2(11) == 2048 && Pow2(12) == 4096 && Pow2(13) == 8192 && Pow2(14) == 16384
    ensures Pow2(15) == 32768 && Pow2(16) == 65536 && Pow2(17) == 131072
  {
    assert Pow2(1) == 2;
    assert Pow2(2) == 4;
    assert Pow2(3) == 8;
    assert Pow2(4) == 16;
    assert Pow2(5) == 32;
    assert Pow2(6) == 64;
    assert Pow2(7) == 128;
    assert Pow2(8) == 256;
    assert Pow2(9) == 512;
    assert Pow2(10) == 1024;
    assert Pow2(11) == 2048;
    assert Pow2(12) == 4096;
    assert Pow2(13) == 8192;
    assert Pow2(14) == 16384;
    assert Pow2(15) == 32768;
    assert Pow2(16) == 65536;
  }

  /** Rows 0 to 5 of the table: bit value, letter and lower-case letter. */
  lemma LowTaintRow(k: nat)
    requires k < 6
    ensures FlagValue(TaintTable[k].1) == Pow2(k)
    ensures TaintFlagFromStr([TaintTable[k].0]) == TaintTable[k].1
    ensures TaintFlagFromStr([LowerAscii(TaintTable[k].0)]) == TaintTable[k].1
  {
    Pow2Values();
    if k == 0 {}
    else if k == 1 {}
    else if k == 2 {}
    else if k == 3 {}
    else if k == 4 {}
    else {}
  }

  /** Rows 6 to 11 of the table. */
  lemma MiddleTaintRow(k: nat)
    requires 6 <= k < 12
    ensures FlagValue(TaintTable[k].1) == Pow2(k)
    ensures TaintFlagFromStr([TaintTable[k].0]) == TaintTable[k].1
    ensures TaintFlagFromStr([LowerAscii(TaintTable[k].0)]) == TaintTable[k].1
  {
    Pow2Values();
    if k == 6 {}
    else if k == 7 {}
    else if k == 8 {}
    else if k == 9 {}
    else if k == 10 {}
    else {}
  }

  /** Rows 12 to 17 of the table. */
  lemma HighTaintRow(k: nat)
    requires 12 <= k < 18
    ensures FlagValue(TaintTable[k].1) == Pow2(k)
    ensures TaintFlagFromStr([TaintTable[k].0]) == TaintTable[k].1
    ensures TaintFlagFromStr([LowerAscii(TaintTable[k].0)]) == TaintTable[k].1
  {
    Pow2Values();
    if k == 12 {}
    else if k == 13 {}
    else if k == 14 {}
    else if k == 15 {}
    else if k == 16 {}
    else {}
  }

  function FlagIndex(f: TaintFlag): (k: nat)
    requires f != InvalidFlag
    ensures k < 18 && TaintTable[k].1 == f
  {
    match f
    case ProprietaryModule => 0
    case ForcedModule => 1
    case CpuOutOfSpec => 2
    case ForcedRmmod => 3
    case MachineCheck => 4
    case BadPage => 5
    case User => 6
    case Die => 7
    case OverriddenAcpiTable => 8
    case Warn => 9
    case Crap => 10
    case FirmwareWorkaround => 11
    case OotModule => 12
    case UnsignedModule => 13
    case Softlockup => 14
    case Livepatch => 15
    case Aux => 16
    case Randstruct => 17
  }

  /** The letter the kernel prints for a flag. */
  function FlagLetter(f: TaintFlag): char
    requires f != InvalidFlag
  {
    TaintTable[FlagIndex(f)].0
  }

  /** Distinct flags have distinct values: a set of flags is determined by its set of values. */
  lemma FlagValueInjective(f: TaintFlag, g: TaintFlag)
    requires FlagValue(f) == FlagValue(g)
    ensures f == g
  {
  }

  // ---------------------------------------------------------------------------
  // Module record and its equality
  // ---------------------------------------------------------------------------

  /** `SystemModule`. */
  datatype SystemModule = SystemModule(
    name: string,
    size: int,
    referenceCount: int,
    state: ModuleState,
    dependencies: set<string>,
    taintFlags: set<TaintFlag>)

  function FlagValues(flags: set<TaintFlag>): set<nat> {
    set f | f in flags :: FlagValue(f)
  }

  /** `SystemModule.__eq__`: states compared by value, taint flags by their set of values. */
  predicate SameModule(a: SystemModule, b: SystemModule) {
    && a.name == b.name
    && a.size == b.size
    && a.referenceCount == b.referenceCount
    && StateValue(a.state) == StateValue(b.state)
    && a.dependencies == b.dependencies
    && FlagValues(a.taintFlags) == FlagValues(b.taintFlags)
  }

  /** The source's equality of modules is equality of the records. */
  lemma SameModuleIsEquality(a: SystemModule, b: SystemModule)
    ensures SameModule(a, b) <==> a == b
  {
    if SameModule(a, b) {
      forall f | f in a.taintFlags ensures f in b.taintFlags {
        assert FlagValue(f) in FlagValues(b.taintFlags);
        var g :| g in b.taintFlags && FlagValue(g) == FlagValue(f);
        FlagValueInjective(f, g);
      }
      forall f | f in b.taintFlags ensures f in a.taintFlags {
        assert FlagValue(f) in FlagValues(a.taintFlags);
        var g :| g in a.taintFlags && FlagValue(g) == FlagValue(f);
        FlagValueInjective(f, g);
      }
    }
  }

  // ---------------------------------------------------------------------------
  // Dictionary form (state file)
  // ---------------------------------------------------------------------------

  /** `to_dict()`; the dependency and flag-name lists come from sets, so they are modelled as sets. */
  datatype ModuleDict = ModuleDict(
    name: string,
    size: int,
    referenceCount: int,
    state: string,
    dependencies: set<string>,
    taintFlags: set<string>)

  function ToDict(m: SystemModule): ModuleDict {
    ModuleDict(m.name, m.size, m.referenceCount, StateName(m.state), m.dependencies,
               set f | f in m.taintFlags :: FlagName(f))
  }

  /** `SystemModuleState[name]`: look-up by member name (a `KeyError` otherwise). */
  function StateFromName(name: string): (r: Option<ModuleState>)
    ensures r.Some? ==> StateName(r.value) == name
  {
    if name == "INVALID" then Some(Invalid)
    else if name == "LIVE" then Some(Live)
    else if name == "LOADING" then Some(Loading)
    else if name == "UNLOADING" then Some(Unloading)
    else None
  }

  /** `SystemModuleTaintFlag[name]`: look-up by member name. */
  function FlagFromName(name: string): (r: Option<TaintFlag>)
    ensures r.Some? ==> FlagName(r.value) == name
  {
    if name == "INVALID" then Some(InvalidFlag)
    else if name == "PROPRIETARY_MODULE" then Some(ProprietaryModule)
    else if name == "FORCED_MODULE" then Some(ForcedModule)
    else if name == "CPU_OUT_OF_SPEC" then Some(CpuOutOfSpec)
    else if name == "FORCED_RMMOD" then Some(ForcedRmmod)
    else if name == "MACHINE_CHECK" then Some(MachineCheck)
    else if name == "BAD_PAGE" then Some(BadPage)
    else if name == "USER" then Some(User)
    else if name == "DIE" then Some(Die)
    else if name == "OVERRIDDEN_ACPI_TABLE" then Some(OverriddenAcpiTable)
    else if name == "WARN" then Some(Warn)
    else if name == "CRAP" then Some(Crap)
    else if name == "FIRMWARE_WORKAROUND" then Some(FirmwareWorkaround)
    else if name == "OOT_MODULE" then Some(OotModule)
    else if name == "UNSIGNED_MODULE" then Some(UnsignedModule)
    else if name == "SOFTLOCKUP" then Some(Softlockup)
    else if name == "LIVEPATCH" then Some(Livepatch)
    else if name == "AUX" then Some(Aux)
    else if name == "RANDSTRUCT" then Some(Randstruct)
    else None
  }

  lemma NamesRoundTrip(s: ModuleState, f: TaintFlag)
    ensures StateFromName(StateName(s)) == Some(s)
    ensures FlagFromName(FlagName(f)) == Some(f)
  {
    FlagNameRoundTrip(f);
  }

  /** Each flag's member name looks the flag up again; the cases are split over a few lemmas to keep each proof small. */
  lemma FlagNameRoundTrip(f: TaintFlag)
    ensures FlagFromName(FlagName(f)) == Some(f)
  {
    match f
    case InvalidFlag =>
    case ProprietaryModule =>
    case ForcedModule =>
    case CpuOutOfSpec =>
    case ForcedRmmod =>
    case MachineCheck =>
    case BadPage =>
    case User | Die | OverriddenAcpiTable | Warn | Crap | FirmwareWorkaround => LaterFlagNameRoundTrip(f);
    case OotModule | UnsignedModule | Softlockup | Livepatch | Aux | Randstruct => LastFlagNameRoundTrip(f);
  }

  lemma LaterFlagNameRoundTrip(f: TaintFlag)
    requires 64 <= FlagValue(f) <= 2048
    ensures FlagFromName(FlagName(f)) == Some(f)
  {
    match f
    case User =>
    case Die =>
    case OverriddenAcpiTable =>
    case Warn =>
    case Crap =>
    case FirmwareWorkaround =>
  }

  lemma LastFlagNameRoundTrip(f: TaintFlag)
    requires 4096 <= FlagValue(f)
    ensures FlagFromName(FlagName(f)) == Some(f)
  {
    match f
    case OotModule =>
    case UnsignedModule =>
    case Softlockup =>
    case Livepatch =>
    case Aux =>
    case Randstruct =>
  }

  /** `from_dict`: an unknown state or flag name is an error. */
  function FromDict(d: ModuleDict): Result<SystemModule, string> {
    var state := StateFromName(d.state);
    if state.None? then Err("unknown state " + d.state)
    else if exists n :: n in d.taintFlags && FlagFromName(n).None? then Err("unknown taint flag")
    else
      Ok(SystemModule(d.name, d.size, d.referenceCount, state.value, d.dependencies,
                      set n | n in d.taintFlags && FlagFromName(n).Some? :: FlagFromName(n).value))
  }

  /** Storing a module and loading it back gives the same module. */
  lemma FromDictToDict(m: SystemModule)
    ensures FromDict(ToDict(m)) == Ok(m)
  {
    var d := ToDict(m);
    NamesRoundTrip(m.state, InvalidFlag);
    forall n | n in d.taintFlags ensures FlagFromName(n).Some? {
      var f :| f in m.taintFlags && FlagName(f) == n;
      NamesRoundTrip(m.state, f);
    }
    var flags := set n | n in d.taintFlags && FlagFromName(n).Some? :: FlagFromName(n).value;
    forall f | f in m.taintFlags ensures f in flags {
      NamesRoundTrip(m.state, f);
      assert FlagName(f) in d.taintFlags;
    }
    assert flags == m.taintFlags;
  }

  /** A dictionary that loads is exactly the dictionary of the module it loads as. */
  lemma ToDictFromDict(d: ModuleDict)
    requires FromDict(d).Ok?
    ensures ToDict(FromDict(d).value) == d
  {
    var m := FromDict(d).value;
    var names := set f | f in m.taintFlags :: FlagName(f);
    forall n | n in d.taintFlags ensures n in names {
      var f := FlagFromName(n).value;
      assert f in m.taintFlags;
    }
  }

  // ---------------------------------------------------------------------------
  // The /proc/modules line grammar
  // ---------------------------------------------------------------------------

  /** Regex `\w`, read as ASCII letters, digits and `_`. */
  predicate IsWordChar(c: char) {
    ('a' <= c <= 'z') || ('A' <= c <= 'Z') || IsDigit(c) || c == '_'
  }

  /**
   * The address class `[0-9a-fA-f]` as written: its last range runs from `A`
   * to `f`, so it also admits the upper-case letters and `[\]^_` and backquote.
   */
  predicate IsHexChar(c: char) {
    IsDigit(c) || ('a' <= c <= 'f') || ('A' <= c <= 'f')
  }

  predicate IsUpperLetter(c: char) { 'A' <= c <= 'Z' }

  /** The one-character alternatives of the dependency group: `\w`, `,` and `-`. */
  predicate IsDepChar(c: char) { IsWordChar(c) || c == ',' || c == '-' }

  /** The one multi-character alternative of the dependency group. */
  const Permanent: string := "[permanent]"

  /**
   * The longest prefix that is a sequence of dependency-group alternatives,
   * and the rest. No alternative begins with a space, so the group, which
   * must be followed by a space, can only end where this scan stops.
   */
  function DepSpan(s: string): (r: (string, string))
    ensures r.0 + r.1 == s
    ensures r.1 != [] ==> !IsDepChar(r.1[0]) && !StartsWith(r.1, Permanent)
    decreases |s|
  {
    if s != [] && IsDepChar(s[0]) then
      var rest := DepSpan(s[1..]);
      assert [s[0]] + (rest.0 + rest.1) == s;
      ([s[0]] + rest.0, rest.1)
    else if StartsWith(s, Permanent) then
      var rest := DepSpan(s[|Permanent|..]);
      assert Permanent + (rest.0 + rest.1) == s;
      (Permanent + rest.0, rest.1)
    else ([], s)
  }

  /** The groups of a matched line: name, size, reference count, dependencies, state, address, flag letters. */
  datatype ModuleFields = ModuleFields(
    name: string,
    size: string,
    refs: string,
    deps: string,
    state: string,
    address: string,
    flags: Option<string>)

  /** The optional ` (LETTERS)` group after the address; without it the match still succeeds. */
  function FlagsSuffix(r: string): (flags: Option<string>)
    ensures flags.Some? ==> flags.value != [] && forall k :: 0 <= k < |flags.value| ==> IsUpperLetter(flags.value[k])
  {
    if StartsWith(r, " (") then
      var (letters, rest) := Span(r[2..], IsUpperLetter);
      if letters != [] && StartsWith(rest, ")") then Some(letters) else None
    else None
  }

  /**
   * A group that is a maximal non-empty run of `p` characters, and the
   * space the regex demands after it: the group and the text after the
   * space, or `None`. No shorter run can be followed by the space, so the
   * regex cannot match the group differently.
   */
  function Field(s: string, p: char -> bool): (r: Option<(string, string)>)
    ensures r.Some? ==> r.value.0 != [] && (forall k :: 0 <= k < |r.value.0| ==> p(r.value.0[k]))
    ensures r.Some? ==> s == r.value.0 + (" " + r.value.1)
  {
    var (w, rest) := Span(s, p);
    if w != [] && StartsWith(rest, " ") then
      assert rest == " " + rest[1..];
      Some((w, rest[1..]))
    else None
  }

  /** The dependency group and the text after the space that follows it. */
  function DepsField(s: string): (r: Option<(string, string)>)
    ensures r.Some? ==> s == r.value.0 + (" " + r.value.1)
  {
    var (deps, rest) := DepSpan(s);
    if StartsWith(rest, " ") then
      assert rest == " " + rest[1..];
      Some((deps, rest[1..]))
    else None
  }

  /**
   * `re.match` of the module regex: anchored at the start, not at the end,
   * so text after the last group is ignored. Each group is a maximal run
   * ended by a character it cannot contain, so matching is a left-to-right
   * scan without backtracking.
   */
  function MatchModuleLine(s: string): (r: Option<ModuleFields>)
    ensures r.Some? ==> IsDigits(r.value.size) && IsDigits(r.value.refs)
    ensures r.Some? ==> r.value.name != [] && r.value.state != [] && r.value.address != []
  {
    match Field(s, IsWordChar)
    case None => None
    case Some((name, r1)) =>
      match Field(r1, IsDigit)
      case None => None
      case Some((size, r2)) =>
        match Field(r2, IsDigit)
        case None => None
        case Some((refs, r3)) =>
          match DepsField(r3)
          case None => None
          case Some((deps, r4)) =>
            match Field(r4, IsWordChar)
            case None => None
            case Some((state, r5)) =>
              if !StartsWith(r5, "0x") then None
              else
                var (address, r6) := Span(r5[2..], IsHexChar);
                if address == [] then None
                else Some(ModuleFields(name, size, refs, deps, state, address, FlagsSuffix(r6)))
  }

  /** The dependency group: `-` means none; otherwise the non-empty comma-separated pieces. */
  function DependencySet(deps: string): set<string> {
    if deps == "-" then {} else set p | p in Split(deps, ',') && p != []
  }

  /** The flags named by the letters of the flag group. */
  function TaintSet(letters: string): set<TaintFlag> {
    set c | c in letters :: TaintFlagFromStr([c])
  }

  /** `SystemModule.from_proc_modules_line`: strip, match, convert the groups; no match is an error. */
  function ParseModuleLine(line: string): Result<SystemModule, string> {
    match MatchModuleLine(Strip(line))
    case None => Err("Illegal line: " + Strip(line))
    case Some(f) =>
      Ok(SystemModule(f.name, DigitsValue(f.size), DigitsValue(f.refs), StateFromStr(f.state),
                      DependencySet(f.deps),
                      if f.flags.Some? then TaintSet(f.flags.value) else {}))
  }

  /** The loop adding each non-empty comma-separated piece of the dependency group to a set. */
  method CollectDependencies(deps: string) returns (r: set<string>)
    ensures r == DependencySet(deps)
  {
    r := {};
    if deps != "-" {
      var pieces := Split(deps, ',');
      var i := 0;
      while i < |pieces|
        invariant 0 <= i <= |pieces|
        invariant r == set p | p in pieces[..i] && p != []
      {
        assert pieces[..i + 1] == pieces[..i] + [pieces[i]];
        if pieces[i] != [] {
          r := r + {pieces[i]};
        }
        i := i + 1;
      }
      assert pieces[..i] == pieces;
    }
  }

  /**
   * The loop adding the flag of each letter of the flag group to a set (the
   * group holds only `A`-`Z`, so the source's `strip()` of it changes nothing).
   */
  method CollectTaintFlags(letters: string) returns (r: set<TaintFlag>)
    ensures r == TaintSet(letters)
  {
    r := {};
    var i := 0;
    while i < |letters|
      invariant 0 <= i <= |letters|
      invariant r == set c | c in letters[..i] :: TaintFlagFromStr([c])
    {
      assert letters[..i + 1] == letters[..i] + [letters[i]];
      r := r + {TaintFlagFromStr([letters[i]])};
      i := i + 1;
    }
    assert letters[..i] == letters;
  }

  /** `from_proc_modules_line` with its two set-filling loops. */
  method FromProcModulesLine(line: string) returns (r: Result<SystemModule, string>)
    ensures r == ParseModuleLine(line)
  {
    var stripped := Strip(line);
    var fields := MatchModuleLine(stripped);
    if fields.None? {
      return Err("Illegal line: " + stripped);
    }
    var f := fields.value;
    var deps := CollectDependencies(f.deps);
    var flags: set<TaintFlag> := {};
    if f.flags.Some? {
      flags := CollectTaintFlags(f.flags.value);
    }
    r := Ok(SystemModule(f.name, DigitsValue(f.size), DigitsValue(f.refs), StateFromStr(f.state), deps, flags));
  }

  /**
   * `get_system_modules` over the lines of `/proc/modules`: blank lines are
   * skipped, the others parsed in order, and any failure aborts the read.
   */
  method GetSystemModules(lines: seq<string>) returns (r: Result<seq<SystemModule>, string>)
    ensures r == MapAll(StrippedNonBlank(lines), ParseModuleLine)
  {
    var modules: seq<SystemModule> := [];
    var i := 0;
    while i < |lines|
      invariant 0 <= i <= |lines|
      invariant MapAll(StrippedNonBlank(lines[..i]), ParseModuleLine) == Ok(modules)
    {
      var next := ReadModuleLine(lines, i, modules);
      if next.Err? {
        ParseLinesAbort(lines, i + 1, ParseModuleLine);
        return Err(next.error);
      }
      modules := next.value;
      i := i + 1;
    }
    assert lines[..i] == lines;
    r := Ok(modules);
  }

  /** One turn of the read: a blank line adds nothing, any other is parsed and appended. */
  method ReadModuleLine(lines: seq<string>, i: nat, modules: seq<SystemModule>)
    returns (next: Result<seq<SystemModule>, string>)
    requires i < |lines|
    requires MapAll(StrippedNonBlank(lines[..i]), ParseModuleLine) == Ok(modules)
    ensures next == MapAll(StrippedNonBlank(lines[..i + 1]), ParseModuleLine)
  {
    ParseLinesStep(lines, i, ParseModuleLine);
    var line := Strip(lines[i]);
    if line == [] {
      return Ok(modules);
    }
    var parsed := FromProcModulesLine(line);
    if parsed.Err? {
      return Err(parsed.error);
    }
    next := Ok(modules + [parsed.value]);
  }

  // ---------------------------------------------------------------------------
  // The line the kernel prints, and reading it back
  // ---------------------------------------------------------------------------

  /** One or more word characters: a module name as the kernel prints it. */
  predicate IsWord(s: string) {
    s != [] && forall k :: 0 <= k < |s| ==> IsWordChar(s[k])
  }

  /** Each dependency followed by a comma, as the kernel lists them. */
  function DepsList(ds: seq<string>): string
    decreases |ds|
  {
    if ds == [] then "" else ds[0] + "," + DepsList(ds[1..])
  }

  /** The dependency column: `-` when there are none. */
  function DepsText(ds: seq<string>): string {
    if ds == [] then "-" else DepsList(ds)
  }

  function FlagLetters(fs: seq<TaintFlag>): (r: string)
    requires forall i :: 0 <= i < |fs| ==> fs[i] != InvalidFlag
    ensures |r| == |fs|
  {
    seq(|fs|, i requires 0 <= i < |fs| => FlagLetter(fs[i]))
  }

  /** The flag column: absent when the module taints nothing, else the letters in parentheses. */
  function FlagsText(fs: seq<TaintFlag>): string
    requires forall i :: 0 <= i < |fs| ==> fs[i] != InvalidFlag
  {
    if fs == [] then "" else " (" + FlagLetters(fs) + ")"
  }

  /** A `/proc/modules` line: name, size, reference count, dependencies, state, address, flags. */
  function ProcLine(name: string, size: nat, refs: nat, deps: seq<string>, state: ModuleState,
                    address: string, flags: seq<TaintFlag>): string
    requires forall i :: 0 <= i < |flags| ==> flags[i] != InvalidFlag
  {
    name + (" " + (FormatNat(size) + (" " + (FormatNat(refs) + (" " + (DepsText(deps) +
      (" " + (ProcStateText(state) + (" 0x" + (address + FlagsText(flags)))))))))))
  }

  lemma FieldOf(w: string, rest: string, p: char -> bool)
    requires w != [] && forall k :: 0 <= k < |w| ==> p(w[k])
    requires !p(' ')
    ensures Field(w + (" " + rest), p) == Some((w, rest))
  {
    SpanOf(w, " " + rest, p);
    assert (" " + rest)[1..] == rest;
  }

  lemma {:induction false} DepSpanOf(text: string, tail: string)
    requires forall k :: 0 <= k < |text| ==> IsDepChar(text[k])
    requires tail != [] && tail[0] == ' '
    ensures DepSpan(text + tail) == (text, tail)
    decreases |text|
  {
    if text == [] {
      assert text + tail == tail;
      assert !StartsWith(tail, Permanent) by { assert Permanent[0] == '['; }
    } else {
      assert (text + tail)[0] == text[0];
      assert (text + tail)[1..] == text[1..] + tail;
      DepSpanOf(text[1..], tail);
      assert [text[0]] + text[1..] == text;
    }
  }

  lemma {:induction false} DepsListChars(ds: seq<string>)
    requires forall i :: 0 <= i < |ds| ==> IsWord(ds[i])
    ensures forall k :: 0 <= k < |DepsList(ds)| ==> IsDepChar(DepsList(ds)[k])
    decreases |ds|
  {
    if ds != [] {
      DepsListChars(ds[1..]);
      var a, t := ds[0] + ",", DepsList(ds[1..]);
      forall k | 0 <= k < |a + t| ensures IsDepChar((a + t)[k]) {
        if k >= |a| { assert (a + t)[k] == t[k - |a|]; }
      }
    }
  }

  lemma {:induction false} SplitDepsList(ds: seq<string>)
    requires forall i :: 0 <= i < |ds| ==> IsWord(ds[i])
    ensures Split(DepsList(ds), ',') == ds + [""]
    decreases |ds|
  {
    if ds == [] {
      SplitPiece("", ',');
    } else {
      assert ',' !in ds[0] by {
        forall k | 0 <= k < |ds[0]| ensures ds[0][k] != ',' { assert IsWordChar(ds[0][k]); }
      }
      SplitDepsList(ds[1..]);
      SplitPrefix(ds[0], DepsList(ds[1..]), ',');
      assert ds[0] + "," + DepsList(ds[1..]) == ds[0] + [','] + DepsList(ds[1..]);
      assert [ds[0]] + (ds[1..] + [""]) == ds + [""];
    }
  }

  /** The dependency column lists exactly the dependencies. */
  lemma DependencySetOfText(ds: seq<string>)
    requires forall i :: 0 <= i < |ds| ==> IsWord(ds[i])
    ensures DependencySet(DepsText(ds)) == set d | d in ds
  {
    if ds != [] {
      assert DepsText(ds)[0] == ds[0][0];
      assert IsWordChar(ds[0][0]);
      SplitDepsList(ds);
      var pieces := ds + [""];
      assert forall p :: p in pieces && p != [] <==> p in ds;
    }
  }

  lemma FlagLetterReads(f: TaintFlag)
    requires f != InvalidFlag
    ensures IsUpperLetter(FlagLetter(f))
    ensures TaintFlagFromStr([FlagLetter(f)]) == f
  {
    var k := FlagIndex(f);
    if k < 9 {
      if k == 0 {} else if k == 1 {} else if k == 2 {} else if k == 3 {} else if k == 4 {}
      else if k == 5 {} else if k == 6 {} else if k == 7 {} else {}
    } else {
      if k == 9 {} else if k == 10 {} else if k == 11 {} else if k == 12 {} else if k == 13 {}
      else if k == 14 {} else if k == 15 {} else if k == 16 {} else {}
    }
  }

  /** The flag column names exactly the flags. */
  lemma TaintSetOfLetters(fs: seq<TaintFlag>)
    requires forall i :: 0 <= i < |fs| ==> fs[i] != InvalidFlag
    ensures forall k :: 0 <= k < |FlagLetters(fs)| ==> IsUpperLetter(FlagLetters(fs)[k])
    ensures TaintSet(FlagLetters(fs)) == set f | f in fs
  {
    var letters := FlagLetters(fs);
    forall i | 0 <= i < |fs|
      ensures IsUpperLetter(letters[i]) && TaintFlagFromStr([letters[i]]) == fs[i]
    {
      FlagLetterReads(fs[i]);
    }
    forall f | f in fs ensures f in TaintSet(letters) {
      var i :| 0 <= i < |fs| && fs[i] == f;
      assert letters[i] in letters;
    }
  }

  /** The flag column is read back as its letters, or as no group when it is absent. */
  lemma FlagsSuffixOf(fs: seq<TaintFlag>)
    requires forall i :: 0 <= i < |fs| ==> fs[i] != InvalidFlag
    ensures FlagsSuffix(FlagsText(fs)) == if fs == [] then None else Some(FlagLetters(fs))
  {
    if fs != [] {
      var letters := FlagLetters(fs);
      var t := FlagsText(fs);
      TaintSetOfLetters(fs);
      assert StartsWith(t, " (");
      assert t[2..] == letters + ")";
      SpanOf(letters, ")", IsUpperLetter);
    }
  }

  /** From the state column on, the printed line is taken apart into its columns. */
  lemma MatchProcLineTail(deps: seq<string>, state: ModuleState, address: string, flags: seq<TaintFlag>)
    requires forall i :: 0 <= i < |deps| ==> IsWord(deps[i])
    requires address != [] && forall k :: 0 <= k < |address| ==> IsHexChar(address[k])
    requires forall i :: 0 <= i < |flags| ==> flags[i] != InvalidFlag
    ensures var t5 := ProcStateText(state) + (" 0x" + (address + FlagsText(flags)));
      && DepsField(DepsText(deps) + (" " + t5)) == Some((DepsText(deps), t5))
      && Field(t5, IsWordChar) == Some((ProcStateText(state), "0x" + (address + FlagsText(flags))))
  {
    var t7 := address + FlagsText(flags);
    DepsFieldOf(deps, ProcStateText(state) + (" 0x" + t7));
    StateFieldOf(state, t7);
  }

  /** Every state is printed as a word. */
  lemma StateTextIsWord(s: ModuleState)
    ensures IsWord(ProcStateText(s))
  {
    match s
    case Invalid =>
    case Live =>
    case Loading =>
    case Unloading =>
  }

  /** The state column is taken off the front of the ` 0x` address column. */
  lemma StateFieldOf(state: ModuleState, rest: string)
    ensures Field(ProcStateText(state) + (" 0x" + rest), IsWordChar) == Some((ProcStateText(state), "0x" + rest))
  {
    StateTextIsWord(state);
    assert " 0x" + rest == " " + ("0x" + rest);
    FieldOf(ProcStateText(state), "0x" + rest, IsWordChar);
  }

  /** The dependency column is taken off the front of whatever follows it after a space. */
  lemma DepsFieldOf(deps: seq<string>, rest: string)
    requires forall i :: 0 <= i < |deps| ==> IsWord(deps[i])
    ensures DepsField(DepsText(deps) + (" " + rest)) == Some((DepsText(deps), rest))
  {
    DepsListChars(deps);
    DepSpanOf(DepsText(deps), " " + rest);
    assert (" " + rest)[1..] == rest;
  }

  /** The regex takes the printed line apart into the columns it was made from. */
  lemma MatchProcLine(name: string, size: nat, refs: nat, deps: seq<string>, state: ModuleState,
                      address: string, flags: seq<TaintFlag>)
    requires IsWord(name)
    requires forall i :: 0 <= i < |deps| ==> IsWord(deps[i])
    requires address != [] && forall k :: 0 <= k < |address| ==> IsHexChar(address[k])
    requires forall i :: 0 <= i < |flags| ==> flags[i] != InvalidFlag
    ensures MatchModuleLine(ProcLine(name, size, refs, deps, state, address, flags)) ==
      Some(ModuleFields(name, FormatNat(size), FormatNat(refs), DepsText(deps), ProcStateText(state), address,
                        if flags == [] then None else Some(FlagLetters(flags))))
  {
    MatchProcLineTail(deps, state, address, flags);
    FlagsSuffixOf(flags);
    MatchColumns(name, FormatNat(size), FormatNat(refs), DepsText(deps), ProcStateText(state), address,
                 FlagsText(flags));
  }

  /**
   * The grammar applied to columns joined by single spaces, once the
   * dependency and state columns are known to be read back whole.
   */
  lemma MatchColumns(name: string, size: string, refs: string, deps: string, state: string,
                     address: string, ft: string)
    requires IsWord(name) && IsDigits(size) && IsDigits(refs)
    requires DepsField(deps + (" " + (state + (" 0x" + (address + ft))))) ==
      Some((deps, state + (" 0x" + (address + ft))))
    requires Field(state + (" 0x" + (address + ft)), IsWordChar) == Some((state, "0x" + (address + ft)))
    requires address != [] && forall k :: 0 <= k < |address| ==> IsHexChar(address[k])
    requires ft == [] || ft[0] == ' '
    ensures MatchModuleLine(name + (" " + (size + (" " + (refs + (" " + (deps +
      (" " + (state + (" 0x" + (address + ft)))))))))))
      == Some(ModuleFields(name, size, refs, deps, state, address, FlagsSuffix(ft)))
  {
    LeadingColumns(name, size, refs, deps + (" " + (state + (" 0x" + (address + ft)))));
    AddressColumn(address, ft);
  }

  /** The name, size and reference-count columns are taken off the front of the line. */
  lemma LeadingColumns(name: string, size: string, refs: string, rest: string)
    requires IsWord(name) && IsDigits(size) && IsDigits(refs)
    ensures Field(name + (" " + (size + (" " + (refs + (" " + rest))))), IsWordChar) ==
      Some((name, size + (" " + (refs + (" " + rest)))))
    ensures Field(size + (" " + (refs + (" " + rest))), IsDigit) == Some((size, refs + (" " + rest)))
    ensures Field(refs + (" " + rest), IsDigit) == Some((refs, rest))
  {
    FieldOf(name, size + (" " + (refs + (" " + rest))), IsWordChar);
    FieldOf(size, refs + (" " + rest), IsDigit);
    FieldOf(refs, rest, IsDigit);
  }

  /** After `0x`, the address is the longest run of hexadecimal characters. */
  lemma AddressColumn(address: string, ft: string)
    requires address != [] && forall k :: 0 <= k < |address| ==> IsHexChar(address[k])
    requires ft == [] || ft[0] == ' '
    ensures StartsWith("0x" + (address + ft), "0x")
    ensures Span(("0x" + (address + ft))[2..], IsHexChar) == (address, ft)
  {
    assert ("0x" + (address + ft))[2..] == address + ft;
    SpanOf(address, ft, IsHexChar);
  }

  /** The printed line has no surrounding white space, so stripping leaves it alone. */
  lemma ProcLineStripped(name: string, size: nat, refs: nat, deps: seq<string>, state: ModuleState,
                         address: string, flags: seq<TaintFlag>)
    requires IsWord(name)
    requires address != [] && forall k :: 0 <= k < |address| ==> IsHexChar(address[k])
    requires forall i :: 0 <= i < |flags| ==> flags[i] != InvalidFlag
    ensures Strip(ProcLine(name, size, refs, deps, state, address, flags)) ==
      ProcLine(name, size, refs, deps, state, address, flags)
  {
    var ft := FlagsText(flags);
    assert ft == [] || ft[|ft| - 1] == ')';
    ColumnsStripped(name, FormatNat(size), FormatNat(refs), DepsText(deps), ProcStateText(state), address, ft);
  }

  /** A line that starts with a word and ends with an address or a `)` has no surrounding white space. */
  lemma ColumnsStripped(name: string, size: string, refs: string, deps: string, state: string,
                        address: string, ft: string)
    requires IsWord(name)
    requires address != [] && forall k :: 0 <= k < |address| ==> IsHexChar(address[k])
    requires ft == [] || ft[|ft| - 1] == ')'
    ensures var line := name + (" " + (size + (" " + (refs + (" " + (deps +
      (" " + (state + (" 0x" + (address + ft))))))))));
      Strip(line) == line
  {
    var tail := address + ft;
    var line := name + (" " + (size + (" " + (refs + (" " + (deps + (" " + (state + (" 0x" + tail)))))))));
    var rest := " " + (size + (" " + (refs + (" " + (deps + (" " + (state + " 0x")))))));
    assert line == name + rest + tail;
    assert line[0] == name[0];
    assert line[|line| - 1] == tail[|tail| - 1];
    assert !IsSpace(tail[|tail| - 1]) by {
      if ft == [] { assert tail[|tail| - 1] == address[|address| - 1]; }
    }
    StripWithTrimmed(line, IsSpace);
  }

  /**
   * Reading a line in the kernel's format gives back the module it describes:
   * size and count as numbers, the state, and the dependencies and flags as sets.
   */
  lemma ParseProcLine(name: string, size: nat, refs: nat, deps: seq<string>, state: ModuleState,
                      address: string, flags: seq<TaintFlag>)
    requires IsWord(name)
    requires forall i :: 0 <= i < |deps| ==> IsWord(deps[i])
    requires address != [] && forall k :: 0 <= k < |address| ==> IsHexChar(address[k])
    requires forall i :: 0 <= i < |flags| ==> flags[i] != InvalidFlag
    ensures ParseModuleLine(ProcLine(name, size, refs, deps, state, address, flags)) ==
      Ok(SystemModule(name, size, refs, state, set d | d in deps, set f | f in flags))
  {
    var line := ProcLine(name, size, refs, deps, state, address, flags);
    ProcLineStripped(name, size, refs, deps, state, address, flags);
    MatchProcLine(name, size, refs, deps, state, address, flags);
    var f := MatchModuleLine(line).value;
    FormatNatValue(size);
    FormatNatValue(refs);
    StateFromStrKnown(state);
    DependencySetOfText(deps);
    assert DigitsValue(f.size) == size && DigitsValue(f.refs) == refs;
    assert StateFromStr(f.state) == state && DependencySet(f.deps) == set d | d in deps;
    if flags != [] {
      TaintSetOfLetters(flags);
    }
    assert (if f.flags.Some? then TaintSet(f.flags.value) else {}) == set x | x in flags;
  }
}
