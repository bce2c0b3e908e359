/**
 * The last-login file: fixed-size records `I32s256s` (a little-endian
 * 32-bit timestamp, a 32-byte device and a 256-byte host), where record
 * number i belongs to uid i, joined with the uid-to-name map of the passwd
 * file.
 */
module Lastlog {
  import opened Wrappers
  import opened Text
  import opened Sequences
  import opened Utf8
  import opened Users

  const TimeSize: nat := 4
  const DeviceSize: nat := 32
  const HostSize: nat := 256
  const RecordSize: nat := TimeSize + DeviceSize + HostSize

  /** `LastlogEntry`; the time is in seconds since the epoch, read as UTC. */
  datatype LastlogEntry = LastlogEntry(uid: int, name: string, device: string, host: string, latestTime: int)

  /** A value of the stored dictionary form: a number or a text. */
  datatype Value = Num(n: int) | Text(t: string)

  /** `LastlogEntry.to_dict`. */
  function ToDict(e: LastlogEntry): map<string, Value> {
    map["uid" := Num(e.uid), "name" := Text(e.name), "device" := Text(e.device),
        "host" := Text(e.host), "latest_time" := Num(e.latestTime)]
  }

  /** `LastlogEntry.from_dict`: a missing key (or a value of the wrong kind) is an error; other keys are ignored. */
  function FromDict(d: map<string, Value>): (r: Result<LastlogEntry, string>)
    ensures r.Ok? <==>
      && "uid" in d && d["uid"].Num? && "name" in d && d["name"].Text?
      && "device" in d && d["device"].Text? && "host" in d && d["host"].Text?
      && "latest_time" in d && d["latest_time"].Num?
  {
    if "uid" !in d || "name" !in d || "device" !in d || "host" !in d || "latest_time" !in d then Err("KeyError")
    else
      match (d["uid"], d["name"], d["device"], d["host"], d["latest_time"])
      case (Num(uid), Text(name), Text(device), Text(host), Num(time)) =>
        Ok(LastlogEntry(uid, name, device, host, time))
      case _ => Err("TypeError")
  }

  /** Storing an entry and loading it back gives the same entry. */
  lemma FromDictToDict(e: LastlogEntry)
    ensures FromDict(ToDict(e)) == Ok(e)
  {
  }

  /** A dictionary that loads agrees with the stored form of what it loads as on every key the entry uses. */
  lemma ToDictFromDict(d: map<string, Value>)
    requires FromDict(d).Ok?
    ensures forall k :: k in ToDict(FromDict(d).value) ==> k in d && d[k] == ToDict(FromDict(d).value)[k]
  {
  }

  // ---------------------------------------------------------------------------
  // Fields of one record
  // ---------------------------------------------------------------------------

  /** An unsigned 32-bit integer stored little-endian. */
  function LeU32(b: seq<byte>): (n: nat)
    requires |b| == 4
    ensures n < 0x1_0000_0000
  {
    var b0: int, b1: int, b2: int, b3: int := b[0], b[1], b[2], b[3];
    b0 + 0x100 * b1 + 0x1_0000 * b2 + 0x100_0000 * b3
  }

  /** The little-endian bytes of a 32-bit value. */
  function U32Le(n: nat): (b: seq<byte>)
    requires n < 0x1_0000_0000
    ensures |b| == 4
  {
    [n % 0x100, n / 0x100 % 0x100, n / 0x1_0000 % 0x100, n / 0x100_0000]
  }

  lemma LeU32Inverse(n: nat)
    requires n < 0x1_0000_0000
    ensures LeU32(U32Le(n)) == n
  {
    var q1 := n / 0x100;
    var q2 := q1 / 0x100;
    var q3 := q2 / 0x100;
    DivTwice(n, 0x100);
    DivTwice(n, 0x1_0000);
    assert U32Le(n) == [n % 0x100, q1 % 0x100, q2 % 0x100, q3];
    assert n == n % 0x100 + 0x100 * q1;
    assert q1 == q1 % 0x100 + 0x100 * q2;
    assert q2 == q2 % 0x100 + 0x100 * q3;
  }

  /** Dividing by `d`, then by 256, is dividing by `d * 256`. */
  lemma DivTwice(n: nat, d: nat)
    requires d == 0x100 || d == 0x1_0000
    ensures n / d / 0x100 == n / (d * 0x100)
  {
    var q := n / d;
    var r := n % d;
    var r2 := q % 0x100;
    assert n == d * (q / 0x100 * 0x100 + r2) + r;
    assert n == (d * 0x100) * (q / 0x100) + (d * r2 + r);
    assert 0 <= d * r2 + r < d * 0x100;
  }

  lemma U32LeInverse(b: seq<byte>)
    requires |b| == 4
    ensures U32Le(LeU32(b)) == b
  {
    var n := LeU32(b);
    var b0: int, b1: int, b2: int, b3: int := b[0], b[1], b[2], b[3];
    var hi2, hi1 := b2 + 0x100 * b3, b1 + 0x100 * (b2 + 0x100 * b3);
    assert n == b0 + 0x100 * hi1;
    ByteDigit(b0, hi1);
    ByteDigit(b1, hi2);
    ByteDigit(b2, b3);
    assert n == (b0 + 0x100 * b1) + 0x1_0000 * hi2;
    WordDigit(b0 + 0x100 * b1, hi2);
    assert n == (b0 + 0x100 * b1 + 0x1_0000 * b2) + 0x100_0000 * b3;
    TripleDigit(b0 + 0x100 * b1 + 0x1_0000 * b2, b3);
  }

  /** Splitting off the lowest base-256 digit. */
  lemma ByteDigit(low: int, high: int)
    requires 0 <= low < 0x100 && 0 <= high
    ensures (low + 0x100 * high) % 0x100 == low && (low + 0x100 * high) / 0x100 == high
  {
  }

  lemma WordDigit(low: int, high: int)
    requires 0 <= low < 0x1_0000 && 0 <= high
    ensures (low + 0x1_0000 * high) / 0x1_0000 == high
  {
  }

  lemma TripleDigit(low: int, high: int)
    requires 0 <= low < 0x100_0000 && 0 <= high
    ensures (low + 0x100_0000 * high) / 0x100_0000 == high
  {
  }

  /**
   * A device or host field: empty when its first byte is NUL, otherwise the
   * UTF-8 text with every NUL removed and surrounding whitespace stripped;
   * bytes that are not UTF-8 make the record unreadable.
   */
  function FieldText(field: seq<byte>): (r: Option<string>)
    requires field != []
    ensures field[0] == 0 ==> r == Some("")
    ensures field[0] != 0 ==> (r.Some? <==> Decode(field).Some?)
    ensures r.Some? ==> Strip(r.value) == r.value
  {
    if field[0] == 0 then Some("")
    else
      match Decode(field)
      case None => None
      case Some(text) =>
        var t := Strip(RemoveAll(text, '\0'));
        StripIdempotent(RemoveAll(text, '\0'));
        Some(t)
  }

  /** How a login program writes a text into a field of `n` bytes: UTF-8, then NUL padding. */
  function PaddedField(s: string, n: nat): seq<byte>
    requires |Encode(s)| <= n
  {
    Encode(s) + seq(n - |Encode(s)|, _ => 0)
  }

  /** A stripped text without NULs reads back from its padded field. */
  lemma FieldTextPadded(s: string, n: nat)
    requires 0 < n && |Encode(s)| <= n
    requires '\0' !in s && Strip(s) == s
    ensures FieldText(PaddedField(s, n)) == Some(s)
  {
    var k := n - |Encode(s)|;
    var nuls := seq(k, _ => '\0');
    var field := PaddedField(s, n);
    EncodeNuls(k);
    EncodeAppend(s, nuls);
    assert field == Encode(s + nuls);
    DecodeEncode(s + nuls);
    RemoveAllPadding(s, '\0', k);
    if s != [] {
      EncodeCharBytes(s[0]);
      assert Encode(s) == EncodeChar(s[0]) + Encode(s[1..]);
      assert field[0] == EncodeChar(s[0])[0] != 0;
    } else {
      assert field[0] == 0;
    }
  }

  // ---------------------------------------------------------------------------
  // The record loop
  // ---------------------------------------------------------------------------

  /**
   * Record `raw` of uid `uid`: an entry when the timestamp is not zero and
   * the uid belongs to a user; nothing otherwise; an error when a field
   * of an entry is not UTF-8.
   */
  function RecordEntry(raw: seq<byte>, uid: nat, names: map<int, string>): (r: Result<Option<LastlogEntry>, string>)
    requires |raw| == RecordSize
    ensures r == Ok(None) <==> LeU32(raw[..TimeSize]) == 0 || uid !in names
    ensures r.Ok? && r.value.Some? ==>
      r.value.value.uid == uid && Joined(r.value.value, uid, uid + 1, names) &&
      r.value.value.latestTime == LeU32(raw[..TimeSize])
  {
    var ts := LeU32(raw[..TimeSize]);
    if ts == 0 || uid !in names then Ok(None)
    else
      match (FieldText(raw[TimeSize..TimeSize + DeviceSize]), FieldText(raw[TimeSize + DeviceSize..]))
      case (Some(device), Some(host)) => Ok(Some(LastlogEntry(uid, names[uid], device, host, ts)))
      case _ => Err("Unable to parse raw entry")
  }

  /** The record a login program writes: the time, then the two padded text fields. */
  function RecordBytes(ts: nat, device: string, host: string): (raw: seq<byte>)
    requires ts < 0x1_0000_0000 && |Encode(device)| <= DeviceSize && |Encode(host)| <= HostSize
    ensures |raw| == RecordSize
  {
    U32Le(ts) + PaddedField(device, DeviceSize) + PaddedField(host, HostSize)
  }

  /** A written record reads back as the entry of its uid, or as nothing when the time is zero or the uid has no user. */
  lemma RecordEntryBytes(ts: nat, device: string, host: string, uid: nat, names: map<int, string>)
    requires ts < 0x1_0000_0000 && |Encode(device)| <= DeviceSize && |Encode(host)| <= HostSize
    requires '\0' !in device && Strip(device) == device && '\0' !in host && Strip(host) == host
    ensures RecordEntry(RecordBytes(ts, device, host), uid, names) ==
      if ts == 0 || uid !in names then Ok(None) else Ok(Some(LastlogEntry(uid, names[uid], device, host, ts)))
  {
    var raw := RecordBytes(ts, device, host);
    assert raw[..TimeSize] == U32Le(ts);
    assert raw[TimeSize..TimeSize + DeviceSize] == PaddedField(device, DeviceSize);
    assert raw[TimeSize + DeviceSize..] == PaddedField(host, HostSize);
    LeU32Inverse(ts);
    FieldTextPadded(device, DeviceSize);
    FieldTextPadded(host, HostSize);
  }

  function Opt<T>(o: Option<T>): seq<T> {
    if o.Some? then [o.value] else []
  }

  /**
   * The entries of the records in `data`, the first of which belongs to
   * uid `uid`: a trailing short record or an unreadable field is an error.
   */
  function Records(data: seq<byte>, uid: nat, names: map<int, string>): (r: Result<seq<LastlogEntry>, string>)
    ensures r.Ok? ==> forall k :: 0 <= k < |r.value| ==> Joined(r.value[k], uid, uid + |data| / RecordSize, names)
    ensures r.Ok? ==> forall j, k :: 0 <= j < k < |r.value| ==> r.value[j].uid < r.value[k].uid
    decreases |data|
  {
    if data == [] then Ok([])
    else if |data| < RecordSize then Err("Unable to parse raw entry")
    else
      match RecordEntry(data[..RecordSize], uid, names)
      case Err(e) => Err(e)
      case Ok(e) =>
        match Records(data[RecordSize..], uid + 1, names)
        case Err(e) => Err(e)
        case Ok(rest) =>
          RecordsPrepend(data, uid, names, e, rest);
          Ok(Opt(e) + rest)
  }

  /** The entries of a whole file: that of its first record, if any, in front of those of the rest. */
  lemma RecordsPrepend(data: seq<byte>, uid: nat, names: map<int, string>, e: Option<LastlogEntry>, rest: seq<LastlogEntry>)
    requires |data| >= RecordSize
    requires e.Some? ==> e.value.uid == uid && Joined(e.value, uid, uid + 1, names)
    requires forall k :: 0 <= k < |rest| ==> Joined(rest[k], uid + 1, uid + 1 + |data[RecordSize..]| / RecordSize, names)
    requires forall j, k :: 0 <= j < k < |rest| ==> rest[j].uid < rest[k].uid
    ensures forall k :: 0 <= k < |Opt(e) + rest| ==> Joined((Opt(e) + rest)[k], uid, uid + |data| / RecordSize, names)
    ensures forall j, k :: 0 <= j < k < |Opt(e) + rest| ==> (Opt(e) + rest)[j].uid < (Opt(e) + rest)[k].uid
  {
    RecordCount(data);
    var hi := uid + |data| / RecordSize;
    assert hi == uid + 1 + |data[RecordSize..]| / RecordSize;
    PrependEntry(e, rest, uid, hi, names);
  }

  /** A file that reads without error is made of whole records; a trailing partial record is an error. */
  lemma {:induction false} RecordsWhole(data: seq<byte>, uid: nat, names: map<int, string>)
    ensures Records(data, uid, names).Ok? ==> |data| % RecordSize == 0
    decreases |data|
  {
    if |data| >= RecordSize {
      RecordCount(data);
      RecordsWhole(data[RecordSize..], uid + 1, names);
    }
  }

  predicate HasUid(es: seq<LastlogEntry>, u: int) {
    exists k :: 0 <= k < |es| && es[k].uid == u
  }

  /** The first record gives an entry exactly when its time is not zero and its uid has a user. */
  lemma RecordsFirst(data: seq<byte>, uid: nat, names: map<int, string>)
    requires Records(data, uid, names).Ok? && |data| >= RecordSize
    ensures HasUid(Records(data, uid, names).value, uid) <==> LeU32(data[..TimeSize]) != 0 && uid in names
  {
    var es := Records(data, uid, names).value;
    var tail := data[RecordSize..];
    var e := RecordEntry(data[..RecordSize], uid, names).value;
    var rest := Records(tail, uid + 1, names).value;
    assert es == Opt(e) + rest;
    assert data[..RecordSize][..TimeSize] == data[..TimeSize];
    if e.None? {
      forall k | 0 <= k < |es| ensures es[k].uid != uid {
        assert Joined(rest[k], uid + 1, uid + 1 + |tail| / RecordSize, names);
      }
    } else {
      assert es[0].uid == uid;
    }
  }

  /** A later uid has an entry exactly when it has one among the entries of the later records. */
  lemma RecordsLater(data: seq<byte>, uid: nat, names: map<int, string>, u: int)
    requires Records(data, uid, names).Ok? && |data| >= RecordSize && u > uid
    ensures HasUid(Records(data, uid, names).value, u) <==> HasUid(Records(data[RecordSize..], uid + 1, names).value, u)
  {
    var es := Records(data, uid, names).value;
    var e := RecordEntry(data[..RecordSize], uid, names).value;
    var rest := Records(data[RecordSize..], uid + 1, names).value;
    assert es == Opt(e) + rest;
    if HasUid(rest, u) {
      var k :| 0 <= k < |rest| && rest[k].uid == u;
      assert es[k + |Opt(e)|] == rest[k];
    }
    if HasUid(es, u) {
      var k :| 0 <= k < |es| && es[k].uid == u;
      assert rest[k - |Opt(e)|] == es[k];
    }
  }

  /** What is left of `data` once `i` records have been read from it. */
  function After(data: seq<byte>, i: nat): (rest: seq<byte>)
    ensures |rest| <= |data|
    ensures rest == data[|data| - |rest|..]
  {
    if i == 0 || |data| < RecordSize then data else After(data[RecordSize..], i - 1)
  }

  /**
   * The record read after those of uids `uid` to `u - 1`, whatever they
   * held, belongs to uid `u` and gives an entry exactly when its time is not
   * zero and that uid has a user.
   */
  lemma {:induction false} RecordsKeep(data: seq<byte>, uid: nat, names: map<int, string>, u: int)
    requires Records(data, uid, names).Ok?
    requires uid <= u && |After(data, u - uid)| >= RecordSize
    ensures HasUid(Records(data, uid, names).value, u) <==>
      LeU32(After(data, u - uid)[..TimeSize]) != 0 && u in names
    decreases u - uid
  {
    if u == uid {
      RecordsFirst(data, uid, names);
    } else {
      var tail := data[RecordSize..];
      assert After(data, u - uid) == After(tail, u - (uid + 1));
      RecordsTail(data, uid, names);
      RecordsKeep(tail, uid + 1, names, u);
      RecordsLater(data, uid, names, u);
    }
  }

  /** The later records of a file that reads without error read without error. */
  lemma RecordsTail(data: seq<byte>, uid: nat, names: map<int, string>)
    requires Records(data, uid, names).Ok? && |data| >= RecordSize
    ensures Records(data[RecordSize..], uid + 1, names).Ok?
  {
  }

  /** The entry of record `lo`, if any, in front of the entries of the later records. */
  lemma PrependEntry(e: Option<LastlogEntry>, rest: seq<LastlogEntry>, lo: int, hi: int, names: map<int, string>)
    requires lo < hi
    requires e.Some? ==> e.value.uid == lo && Joined(e.value, lo, lo + 1, names)
    requires forall k :: 0 <= k < |rest| ==> Joined(rest[k], lo + 1, hi, names)
    requires forall j, k :: 0 <= j < k < |rest| ==> rest[j].uid < rest[k].uid
    ensures forall k :: 0 <= k < |Opt(e) + rest| ==> Joined((Opt(e) + rest)[k], lo, hi, names)
    ensures forall j, k :: 0 <= j < k < |Opt(e) + rest| ==> (Opt(e) + rest)[j].uid < (Opt(e) + rest)[k].uid
  {
    var out := Opt(e) + rest;
    forall k | 0 <= k < |out| ensures Joined(out[k], lo, hi, names) {
      if k >= |Opt(e)| { assert out[k] == rest[k - |Opt(e)|]; }
    }
    forall j, k | 0 <= j < k < |out| ensures out[j].uid < out[k].uid {
      if j >= |Opt(e)| { assert out[j] == rest[j - |Opt(e)|] && out[k] == rest[k - |Opt(e)|]; }
      else { assert out[k] == rest[k - 1]; }
    }
  }

  /** Dropping the first record leaves one record fewer and the same partial remainder. */
  lemma RecordCount(data: seq<byte>)
    requires |data| >= RecordSize
    ensures |data| % RecordSize == |data[RecordSize..]| % RecordSize
    ensures |data| / RecordSize == |data[RecordSize..]| / RecordSize + 1
  {
    var n := |data|;
    assert |data[RecordSize..]| == n - RecordSize;
    var q, m := (n - RecordSize) / RecordSize, (n - RecordSize) % RecordSize;
    assert n == (q + 1) * RecordSize + m;
  }

  /** An entry of the user with uid `uid`, in `lo..hi`, carrying that user's name and a time after the epoch. */
  predicate Joined(e: LastlogEntry, lo: int, hi: int, names: map<int, string>) {
    lo <= e.uid < hi && e.uid in names && e.name == names[e.uid] && e.latestTime > 0
  }

  /** The uid-to-name map of the users, in order, so that a later user with the same uid wins. */
  function UidNames(users: seq<SystemUser>): (m: map<int, string>)
    ensures m.Keys == set u | u in users :: u.uid
    decreases |users|
  {
    if users == [] then map[]
    else
      var last := users[|users| - 1];
      var m0 := UidNames(users[..|users| - 1]);
      assert forall u :: u in users <==> u in users[..|users| - 1] || u == last by {
        assert users == users[..|users| - 1] + [last];
      }
      m0[last.uid := last.name]
  }

  /** Each uid maps to the name of the last user that has it. */
  lemma {:induction false} UidNamesLastWins(users: seq<SystemUser>, j: nat)
    requires j < |users|
    requires forall k :: j < k < |users| ==> users[k].uid != users[j].uid
    ensures UidNames(users)[users[j].uid] == users[j].name
    decreases |users|
  {
    var n := |users| - 1;
    if j < n {
      assert users[..n][j] == users[j];
      UidNamesLastWins(users[..n], j);
    }
  }

  /**
   * `parse_lastlog_file` after the files are read: the passwd lines are
   * parsed first (their error wins), a missing lastlog file is an error,
   * then the records are read from uid 0 on.
   */
  function LastlogFile(passwdLines: seq<string>, file: Option<seq<byte>>): Result<seq<LastlogEntry>, string> {
    match MapAll(StrippedNonBlank(passwdLines), FromPasswdLine)
    case Err(e) => Err(e)
    case Ok(users) =>
      match file
      case None => Err("File does not exist")
      case Some(data) => Records(data, 0, UidNames(users))
  }

  /** The result of a run of the record loop that has kept `done` and still has `rest` to read. */
  function Then(done: seq<LastlogEntry>, rest: Result<seq<LastlogEntry>, string>): Result<seq<LastlogEntry>, string> {
    match rest
    case Err(e) => Err(e)
    case Ok(more) => Ok(done + more)
  }

  /** One full record, read without error, followed by the rest of the file. */
  lemma RecordsStep(data: seq<byte>, uid: nat, names: map<int, string>)
    requires |data| >= RecordSize && RecordEntry(data[..RecordSize], uid, names).Ok?
    ensures Records(data, uid, names) ==
      Then(Opt(RecordEntry(data[..RecordSize], uid, names).value), Records(data[RecordSize..], uid + 1, names))
  {
  }

  /** One iteration of the record loop on the full record at `pos`. */
  lemma RecordLoopStep(data: seq<byte>, pos: nat, uid: nat, names: map<int, string>, done: seq<LastlogEntry>)
    requires pos + RecordSize <= |data|
    ensures var e := RecordEntry(data[pos..pos + RecordSize], uid, names);
      Then(done, Records(data[pos..], uid, names)) ==
        match e
        case Err(msg) => Err(msg)
        case Ok(o) => Then(done + Opt(o), Records(data[pos + RecordSize..], uid + 1, names))
  {
    var rest := data[pos..];
    assert rest[..RecordSize] == data[pos..pos + RecordSize];
    assert rest[RecordSize..] == data[pos + RecordSize..];
    var e := RecordEntry(data[pos..pos + RecordSize], uid, names);
    if e.Ok? {
      RecordsStep(rest, uid, names);
      ThenAppend(done, Opt(e.value), Records(data[pos + RecordSize..], uid + 1, names));
    }
  }

  lemma ThenAppend(a: seq<LastlogEntry>, b: seq<LastlogEntry>, rest: Result<seq<LastlogEntry>, string>)
    ensures Then(a, Then(b, rest)) == Then(a + b, rest)
  {
    match rest
    case Err(_) =>
    case Ok(more) => assert a + (b + more) == (a + b) + more;
  }

  method BuildUidNames(users: seq<SystemUser>) returns (names: map<int, string>)
    ensures names == UidNames(users)
  {
    names := map[];
    var i := 0;
    while i < |users|
      invariant 0 <= i <= |users|
      invariant names == UidNames(users[..i])
    {
      assert users[..i + 1][..i] == users[..i];
      names := names[users[i].uid := users[i].name];
      i := i + 1;
    }
    assert users[..i] == users;
  }

  /** `parse_lastlog_file`: the uid counter advances on every record, kept or not. */
  method ParseLastlogFile(passwdLines: seq<string>, file: Option<seq<byte>>) returns (r: Result<seq<LastlogEntry>, string>)
    ensures r == LastlogFile(passwdLines, file)
  {
    var users := GetSystemUsers(passwdLines);
    if users.Err? {
      return Err(users.error);
    }
    var names := BuildUidNames(users.value);
    if file.None? {
      return Err("File does not exist");
    }
    r := ReadRecords(file.value, names);
  }

  /** The record loop of `parse_lastlog_file`: read whole records from uid 0 on until the data runs out. */
  method ReadRecords(data: seq<byte>, names: map<int, string>) returns (r: Result<seq<LastlogEntry>, string>)
    ensures r == Records(data, 0, names)
  {
    var result: seq<LastlogEntry> := [];
    var pos := 0;
    var uid := 0;
    assert data[pos..] == data;
    match Records(data, 0, names) {
      case Ok(all) => assert result + all == all;
      case Err(_) =>
    }
    while pos < |data|
      invariant pos <= |data|
      invariant Records(data, 0, names) == Then(result, Records(data[pos..], uid, names))
      decreases |data| - pos
    {
      var raw := if pos + RecordSize <= |data| then data[pos..pos + RecordSize] else data[pos..];
      if |raw| != RecordSize {
        return Err("Unable to parse raw entry");
      }
      var entry := RecordEntry(raw, uid, names);
      RecordLoopStep(data, pos, uid, names, result);
      if entry.Err? {
        return Err(entry.error);
      }
      result := result + Opt(entry.value);
      pos := pos + RecordSize;
      uid := uid + 1;
    }
    assert data[pos..] == [];
    assert result + [] == result;
    r := Ok(result);
  }
}
