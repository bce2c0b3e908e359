/**
 * The passwd monitor: it compares the current user database with the one
 * stored on its previous run (users added, deleted or modified), reports
 * uids shared by several users and service accounts with a login shell,
 * and stores the current state for the next run.
 */
module MonitorPasswd {
  import opened Wrappers
  import opened Text
  import opened Sequences
  import opened Users
  import opened Dicts
  import opened Snapshots

  /** A value of the JSON state file; `JOther` stands for the kinds the monitor never reads (floats, booleans, null). */
  datatype Json = JInt(i: int) | JStr(s: string) | JList(items: seq<Json>) | JObj(obj: Dict<Json>) | JOther

  /** What the monitor keeps between runs: the users by name, the colliding uids, the service-account uids. */
  datatype PasswdState = PasswdState(passwd: Dict<SystemUser>, collisions: set<int>, shells: set<int>)

  /** The two uid rules: uids shared by several users, and service accounts with an interactive shell. */
  datatype UidRule = UidCollision | InteractiveShell

  /** The findings of one run; the message text is not modelled, only what each message lists. */
  datatype PasswdFinding =
    | Deleted(name: string)
    | Modified(name: string, before: SystemUser, after: SystemUser)
    | Added(name: string, user: SystemUser)
    | UidsFound(rule: UidRule, uids: set<int>)
    | UidsGone(rule: UidRule, uids: set<int>)

  // ---------------------------------------------------------------------------
  // The current users by name
  // ---------------------------------------------------------------------------

  /** Each name maps to a user of that name. */
  predicate NamedByKey(d: Dict<SystemUser>) {
    forall n :: n in d.values ==> d.values[n].name == n
  }

  /**
   * `_get_passwd`: the users in file order, put into a dictionary by name,
   * so that a later user with the same name replaces the earlier one in its
   * place.
   */
  function PasswdDict(users: seq<SystemUser>): (d: Dict<SystemUser>)
    ensures Valid(d) && NamedByKey(d)
    ensures forall i :: 0 <= i < |users| ==> users[i].name in d.values
    decreases |users|
  {
    if users == [] then Empty()
    else
      var last := users[|users| - 1];
      var prefix := users[..|users| - 1];
      var d0 := PasswdDict(prefix);
      assert forall i :: 0 <= i < |users| - 1 ==> users[i].name in d0.values by {
        forall i | 0 <= i < |users| - 1 ensures users[i].name in d0.values {
          assert users[i] == prefix[i];
        }
      }
      Put(d0, last.name, last)
  }

  /** The dictionary of a list is that of all but its last user, with the last user put in. */
  lemma PasswdDictSnoc(users: seq<SystemUser>)
    requires users != []
    ensures PasswdDict(users).values ==
      PasswdDict(users[..|users| - 1]).values[users[|users| - 1].name := users[|users| - 1]]
  {
  }

  /** The last user with a given name is the one the dictionary keeps. */
  lemma {:induction false} PasswdDictLastWins(users: seq<SystemUser>, j: nat)
    requires j < |users|
    requires forall k :: j < k < |users| ==> users[k].name != users[j].name
    ensures PasswdDict(users).values[users[j].name] == users[j]
    decreases |users|
  {
    var n := |users| - 1;
    var prefix := users[..n];
    PasswdDictSnoc(users);
    if j < n {
      assert prefix[j] == users[j];
      assert forall k :: j < k < |prefix| ==> prefix[k].name != prefix[j].name by {
        forall k | j < k < |prefix| ensures prefix[k].name != prefix[j].name {
          assert prefix[k] == users[k];
        }
      }
      PasswdDictLastWins(prefix, j);
      assert users[n].name != users[j].name;
    }
  }

  /** `_get_passwd`: the users of the passwd file's lines by name, or the parse error. */
  function UsersOf(lines: seq<string>): (r: Result<Dict<SystemUser>, string>)
    ensures r.Ok? ==> Valid(r.value) && NamedByKey(r.value)
  {
    match MapAll(StrippedNonBlank(lines), FromPasswdLine)
    case Err(e) => Err(e)
    case Ok(users) => Ok(PasswdDict(users))
  }

  lemma {:induction false} PasswdDictWellFormed(users: seq<SystemUser>)
    requires forall i :: 0 <= i < |users| ==> WellFormed(users[i])
    ensures forall n :: n in PasswdDict(users).values ==> WellFormed(PasswdDict(users).values[n])
    decreases |users|
  {
    if users != [] {
      PasswdDictWellFormed(users[..|users| - 1]);
    }
  }

  /** The users of a passwd file that reads are all well-formed. */
  lemma UsersOfWellFormed(lines: seq<string>)
    requires UsersOf(lines).Ok?
    ensures forall n :: n in UsersOf(lines).value.values ==> WellFormed(UsersOf(lines).value.values[n])
  {
    PasswdDictWellFormed(MapAll(StrippedNonBlank(lines), FromPasswdLine).value);
  }

  method GetPasswd(lines: seq<string>) returns (r: Result<Dict<SystemUser>, string>)
    ensures r == UsersOf(lines)
  {
    var users := GetSystemUsers(lines);
    if users.Err? {
      return Err(users.error);
    }
    var d := BuildPasswdDict(users.value);
    r := Ok(d);
  }

  /** The loop of `_get_passwd` that files each user under its name, a later user replacing an earlier one. */
  method BuildPasswdDict(users: seq<SystemUser>) returns (d: Dict<SystemUser>)
    ensures d == PasswdDict(users)
  {
    d := Empty();
    var i := 0;
    while i < |users|
      invariant 0 <= i <= |users|
      invariant d == PasswdDict(users[..i])
    {
      PasswdDictStep(users, i);
      d := Put(d, users[i].name, users[i]);
      i := i + 1;
    }
    assert users[..i] == users;
  }

  lemma PasswdDictStep(users: seq<SystemUser>, i: nat)
    requires i < |users|
    ensures PasswdDict(users[..i + 1]) == Put(PasswdDict(users[..i]), users[i].name, users[i])
  {
    assert users[..i + 1][..i] == users[..i];
  }

  // ---------------------------------------------------------------------------
  // Added, deleted and modified users
  // ---------------------------------------------------------------------------

  /** The findings for the stored names `ks`, in order: deleted, or modified. */
  function StoredChanges(ks: seq<string>, stored: map<string, SystemUser>, curr: map<string, SystemUser>): seq<PasswdFinding>
    requires forall i :: 0 <= i < |ks| ==> ks[i] in stored
    decreases |ks|
  {
    if ks == [] then []
    else
      var k := ks[|ks| - 1];
      StoredChanges(ks[..|ks| - 1], stored, curr) +
      (if k !in curr then [Deleted(k)]
       else if stored[k] != curr[k] then [Modified(k, stored[k], curr[k])]
       else [])
  }

  /** The findings for the current names `ks`, in order: added. */
  function AddedUsers(ks: seq<string>, stored: map<string, SystemUser>, curr: map<string, SystemUser>): seq<PasswdFinding>
    requires forall i :: 0 <= i < |ks| ==> ks[i] in curr
    decreases |ks|
  {
    if ks == [] then []
    else
      var k := ks[|ks| - 1];
      AddedUsers(ks[..|ks| - 1], stored, curr) + (if k !in stored then [Added(k, curr[k])] else [])
  }

  /** `_check_changes`: the stored names first, then the current ones, each in dictionary order. */
  function Changes(stored: Dict<SystemUser>, curr: Dict<SystemUser>): seq<PasswdFinding>
    requires Valid(stored) && Valid(curr)
  {
    StoredChanges(stored.keys, stored.values, curr.values) + AddedUsers(curr.keys, stored.values, curr.values)
  }

  lemma {:induction false} StoredChangesMembers(ks: seq<string>, stored: map<string, SystemUser>, curr: map<string, SystemUser>)
    requires forall i :: 0 <= i < |ks| ==> ks[i] in stored
    ensures forall f :: f in StoredChanges(ks, stored, curr) ==>
      (f.Deleted? && f.name in ks && f.name !in curr) ||
      (f.Modified? && f.name in ks && f.name in curr && f.before == stored[f.name] && f.after == curr[f.name] && f.before != f.after)
    ensures forall k :: k in ks && k !in curr ==> Deleted(k) in StoredChanges(ks, stored, curr)
    ensures forall k :: k in ks && k in curr && stored[k] != curr[k] ==> Modified(k, stored[k], curr[k]) in StoredChanges(ks, stored, curr)
    decreases |ks|
  {
    if ks != [] {
      var p := ks[..|ks| - 1];
      StoredChangesMembers(p, stored, curr);
      assert forall k :: k in ks <==> k in p || k == ks[|ks| - 1] by {
        assert ks == p + [ks[|ks| - 1]];
      }
    }
  }

  lemma {:induction false} AddedUsersMembers(ks: seq<string>, stored: map<string, SystemUser>, curr: map<string, SystemUser>)
    requires forall i :: 0 <= i < |ks| ==> ks[i] in curr
    ensures forall f :: f in AddedUsers(ks, stored, curr) ==>
      f.Added? && f.name in ks && f.name !in stored && f.user == curr[f.name]
    ensures forall k :: k in ks && k !in stored ==> Added(k, curr[k]) in AddedUsers(ks, stored, curr)
    decreases |ks|
  {
    if ks != [] {
      var p := ks[..|ks| - 1];
      AddedUsersMembers(p, stored, curr);
      assert forall k :: k in ks <==> k in p || k == ks[|ks| - 1] by {
        assert ks == p + [ks[|ks| - 1]];
      }
    }
  }

  /** Stored names that are all unchanged give no finding. */
  lemma {:induction false} StoredChangesNone(ks: seq<string>, stored: map<string, SystemUser>, curr: map<string, SystemUser>)
    requires forall i :: 0 <= i < |ks| ==> ks[i] in stored && ks[i] in curr && stored[ks[i]] == curr[ks[i]]
    ensures StoredChanges(ks, stored, curr) == []
    decreases |ks|
  {
    if ks != [] {
      StoredChangesNone(ks[..|ks| - 1], stored, curr);
    }
  }

  /** Current names that were all stored give no finding. */
  lemma {:induction false} AddedUsersNone(ks: seq<string>, stored: map<string, SystemUser>, curr: map<string, SystemUser>)
    requires forall i :: 0 <= i < |ks| ==> ks[i] in curr && ks[i] in stored
    ensures AddedUsers(ks, stored, curr) == []
    decreases |ks|
  {
    if ks != [] {
      AddedUsersNone(ks[..|ks| - 1], stored, curr);
    }
  }

  /**
   * A user is reported deleted exactly when stored and now absent, modified
   * exactly when present in both with a different entry, and added exactly
   * when present now and not stored.
   */
  lemma ChangesMembers(stored: Dict<SystemUser>, curr: Dict<SystemUser>, n: string)
    requires Valid(stored) && Valid(curr)
    ensures Deleted(n) in Changes(stored, curr) <==> n in stored.values && n !in curr.values
    ensures forall a, b :: Modified(n, a, b) in Changes(stored, curr) <==>
      n in stored.values && n in curr.values && a == stored.values[n] && b == curr.values[n] && a != b
    ensures forall u :: Added(n, u) in Changes(stored, curr) <==> n in curr.values && n !in stored.values && u == curr.values[n]
  {
    StoredChangesMembers(stored.keys, stored.values, curr.values);
    AddedUsersMembers(curr.keys, stored.values, curr.values);
  }

  /** Nothing is reported exactly when the stored users are the current users. */
  lemma NoChangesIffSame(stored: Dict<SystemUser>, curr: Dict<SystemUser>)
    requires Valid(stored) && Valid(curr)
    ensures Changes(stored, curr) == [] <==> stored.values == curr.values
  {
    var c := Changes(stored, curr);
    var sc := StoredChanges(stored.keys, stored.values, curr.values);
    var ac := AddedUsers(curr.keys, stored.values, curr.values);
    assert c == sc + ac;
    StoredChangesMembers(stored.keys, stored.values, curr.values);
    AddedUsersMembers(curr.keys, stored.values, curr.values);
    if stored.values != curr.values {
      if k :| k in stored.values && k !in curr.values {
        assert Deleted(k) in c;
      } else if k :| k in stored.values && stored.values[k] != curr.values[k] {
        assert Modified(k, stored.values[k], curr.values[k]) in c;
      } else {
        var k :| k in curr.values && k !in stored.values;
        assert Added(k, curr.values[k]) in c;
      }
    } else {
      StoredChangesNone(stored.keys, stored.values, curr.values);
      AddedUsersNone(curr.keys, stored.values, curr.values);
    }
  }

  lemma StoredChangesStep(ks: seq<string>, i: nat, stored: map<string, SystemUser>, curr: map<string, SystemUser>)
    requires i < |ks|
    requires forall j :: 0 <= j < |ks| ==> ks[j] in stored
    ensures StoredChanges(ks[..i + 1], stored, curr) == StoredChanges(ks[..i], stored, curr) +
      (if ks[i] !in curr then [Deleted(ks[i])]
       else if stored[ks[i]] != curr[ks[i]] then [Modified(ks[i], stored[ks[i]], curr[ks[i]])]
       else [])
  {
    assert ks[..i + 1][..i] == ks[..i];
  }

  lemma AddedUsersStep(ks: seq<string>, i: nat, stored: map<string, SystemUser>, curr: map<string, SystemUser>)
    requires i < |ks|
    requires forall j :: 0 <= j < |ks| ==> ks[j] in curr
    ensures AddedUsers(ks[..i + 1], stored, curr) == AddedUsers(ks[..i], stored, curr) +
      (if ks[i] !in stored then [Added(ks[i], curr[ks[i]])] else [])
  {
    assert ks[..i + 1][..i] == ks[..i];
  }

  method CheckChanges(stored: Dict<SystemUser>, curr: Dict<SystemUser>) returns (findings: seq<PasswdFinding>)
    requires Valid(stored) && Valid(curr)
    ensures findings == Changes(stored, curr)
  {
    findings := [];
    var i := 0;
    while i < |stored.keys|
      invariant 0 <= i <= |stored.keys|
      invariant findings == StoredChanges(stored.keys[..i], stored.values, curr.values)
    {
      StoredChangesStep(stored.keys, i, stored.values, curr.values);
      var k := stored.keys[i];
      if k !in curr.values {
        findings := findings + [Deleted(k)];
      } else if stored.values[k] != curr.values[k] {
        findings := findings + [Modified(k, stored.values[k], curr.values[k])];
      }
      i := i + 1;
    }
    assert stored.keys[..i] == stored.keys;
    var added := [];
    var j := 0;
    while j < |curr.keys|
      invariant 0 <= j <= |curr.keys|
      invariant added == AddedUsers(curr.keys[..j], stored.values, curr.values)
    {
      AddedUsersStep(curr.keys, j, stored.values, curr.values);
      var k := curr.keys[j];
      if k !in stored.values {
        added := added + [Added(k, curr.values[k])];
      }
      j := j + 1;
    }
    assert curr.keys[..j] == curr.keys;
    findings := findings + added;
  }

  // ---------------------------------------------------------------------------
  // The uid rules
  // ---------------------------------------------------------------------------

  /** The uids of the users under the names `ks`. */
  function UidsOf(ks: seq<string>, vals: map<string, SystemUser>): set<int>
    requires forall i :: 0 <= i < |ks| ==> ks[i] in vals
    decreases |ks|
  {
    if ks == [] then {}
    else UidsOf(ks[..|ks| - 1], vals) + {vals[ks[|ks| - 1]].uid}
  }

  lemma {:induction false} UidsOfMembers(ks: seq<string>, vals: map<string, SystemUser>, u: int)
    requires forall i :: 0 <= i < |ks| ==> ks[i] in vals
    ensures u in UidsOf(ks, vals) <==> exists i :: 0 <= i < |ks| && vals[ks[i]].uid == u
    decreases |ks|
  {
    if ks != [] {
      var p := ks[..|ks| - 1];
      UidsOfMembers(p, vals, u);
      if u in UidsOf(p, vals) {
        var i :| 0 <= i < |p| && vals[p[i]].uid == u;
        assert ks[i] == p[i];
      }
      if i :| 0 <= i < |ks| - 1 && vals[ks[i]].uid == u {
        assert p[i] == ks[i];
      }
    }
  }

  /**
   * The uids met a second time while walking the names `ks` in order: the
   * walk of `_check_uid_collision`, as a function.
   */
  function Repeated(ks: seq<string>, vals: map<string, SystemUser>): set<int>
    requires forall i :: 0 <= i < |ks| ==> ks[i] in vals
    decreases |ks|
  {
    if ks == [] then {}
    else
      var p := ks[..|ks| - 1];
      var u := vals[ks[|ks| - 1]].uid;
      Repeated(p, vals) + (if u in UidsOf(p, vals) then {u} else {})
  }

  lemma {:induction false} RepeatedPairs(ks: seq<string>, vals: map<string, SystemUser>, u: int)
    requires forall i :: 0 <= i < |ks| ==> ks[i] in vals
    ensures u in Repeated(ks, vals) <==>
      exists i, j :: 0 <= i < j < |ks| && vals[ks[i]].uid == u && vals[ks[j]].uid == u
    decreases |ks|
  {
    if ks != [] {
      var n := |ks| - 1;
      var p := ks[..n];
      RepeatedPairs(p, vals, u);
      UidsOfMembers(p, vals, u);
      if u in Repeated(ks, vals) {
        if u in Repeated(p, vals) {
          var i, j :| 0 <= i < j < |p| && vals[p[i]].uid == u && vals[p[j]].uid == u;
          assert ks[i] == p[i] && ks[j] == p[j];
        } else {
          var i :| 0 <= i < |p| && vals[p[i]].uid == u;
          assert ks[i] == p[i];
          assert vals[ks[n]].uid == u;
        }
      }
      if i, j :| 0 <= i < j < |ks| && vals[ks[i]].uid == u && vals[ks[j]].uid == u {
        assert ks[i] == p[i];
        if j < n {
          assert ks[j] == p[j];
        }
      }
    }
  }

  /** `_check_uid_collision`'s result: the uids met more than once while walking the users. */
  function Collisions(d: Dict<SystemUser>): set<int>
    requires Valid(d)
  {
    Repeated(d.keys, d.values)
  }

  /** A uid collides exactly when two different names hold it. */
  lemma CollisionsExact(d: Dict<SystemUser>, u: int)
    requires Valid(d)
    ensures u in Collisions(d) <==>
      exists a, b :: a in d.values && b in d.values && a != b && d.values[a].uid == u && d.values[b].uid == u
  {
    RepeatedPairs(d.keys, d.values, u);
    if a, b :| a in d.values && b in d.values && a != b && d.values[a].uid == u && d.values[b].uid == u {
      PairPositions(d, a, b, u);
    }
    if u in Collisions(d) {
      var i, j :| 0 <= i < j < |d.keys| && d.values[d.keys[i]].uid == u && d.values[d.keys[j]].uid == u;
      assert d.keys[i] in d.values && d.keys[j] in d.values && d.keys[i] != d.keys[j];
    }
  }

  /** Two different names holding uid `u` sit at two positions of the key order. */
  lemma PairPositions(d: Dict<SystemUser>, a: string, b: string, u: int)
    requires Valid(d) && a in d.values && b in d.values && a != b
    requires d.values[a].uid == u && d.values[b].uid == u
    ensures exists i, j :: 0 <= i < j < |d.keys| && d.values[d.keys[i]].uid == u && d.values[d.keys[j]].uid == u
  {
    var i :| 0 <= i < |d.keys| && d.keys[i] == a;
    var j :| 0 <= j < |d.keys| && d.keys[j] == b;
    if i < j {
      assert d.values[d.keys[i]].uid == u && d.values[d.keys[j]].uid == u;
    } else {
      assert d.values[d.keys[j]].uid == u && d.values[d.keys[i]].uid == u;
    }
  }

  /**
   * What a uid rule reports: one finding for the uids that newly match,
   * then one for the stored uids that no longer match, each only when its
   * set is not empty.
   */
  function SetFindings(rule: UidRule, stored: set<int>, current: set<int>): (fs: seq<PasswdFinding>)
    ensures |fs| <= 2
  {
    (if current - stored != {} then [UidsFound(rule, current - stored)] else []) +
    (if stored - current != {} then [UidsGone(rule, stored - current)] else [])
  }

  /** A uid rule reports nothing exactly when its uids are the stored ones. */
  lemma SetFindingsSilent(rule: UidRule, stored: set<int>, current: set<int>)
    ensures SetFindings(rule, stored, current) == [] <==> stored == current
  {
    var fs := SetFindings(rule, stored, current);
    assert |fs| == (if current - stored != {} then 1 else 0) + (if stored - current != {} then 1 else 0);
    if fs == [] {
      forall x ensures x in stored <==> x in current {
        assert x !in current - stored && x !in stored - current;
      }
    }
  }

  /** A uid that newly matches is listed as found, and a stored uid that stopped matching as gone. */
  lemma SetFindingsMembers(rule: UidRule, stored: set<int>, current: set<int>, u: int)
    ensures (exists f :: f in SetFindings(rule, stored, current) && f.UidsFound? && u in f.uids) <==> u in current && u !in stored
    ensures (exists f :: f in SetFindings(rule, stored, current) && f.UidsGone? && u in f.uids) <==> u in stored && u !in current
  {
    var fs := SetFindings(rule, stored, current);
    if u in current && u !in stored {
      assert u in current - stored;
      assert fs[0] == UidsFound(rule, current - stored);
    }
    if u in stored && u !in current {
      assert u in stored - current;
      var found := if current - stored != {} then [UidsFound(rule, current - stored)] else [];
      assert fs == found + [UidsGone(rule, stored - current)];
      assert fs[|found|] == UidsGone(rule, stored - current);
    }
  }

  /**
   * `_check_uid_collision`: one walk over the users in dictionary order
   * remembering the uids seen; a uid seen again is a collision.
   */
  method CheckUidCollision(stored: set<int>, curr: Dict<SystemUser>) returns (findings: seq<PasswdFinding>, collisions: set<int>)
    requires Valid(curr)
    ensures collisions == Collisions(curr)
    ensures findings == SetFindings(UidCollision, stored, collisions)
  {
    collisions := {};
    var processed := {};
    for i := 0 to |curr.keys|
      invariant collisions == Repeated(curr.keys[..i], curr.values)
      invariant processed == UidsOf(curr.keys[..i], curr.values)
    {
      CollisionStep(curr, i);
      var u := curr.values[curr.keys[i]].uid;
      if u in processed {
        collisions := collisions + {u};
      } else {
        processed := processed + {u};
      }
    }
    assert curr.keys[..|curr.keys|] == curr.keys;
    findings := SetFindings(UidCollision, stored, collisions);
  }

  /** One more user for the collision loop: its uid collides when an earlier user holds it. */
  lemma CollisionStep(d: Dict<SystemUser>, i: nat)
    requires Valid(d) && i < |d.keys|
    ensures var ks, u := d.keys, d.values[d.keys[i]].uid;
      && UidsOf(ks[..i + 1], d.values) == UidsOf(ks[..i], d.values) + {u}
      && Repeated(ks[..i + 1], d.values) == Repeated(ks[..i], d.values) + (if u in UidsOf(ks[..i], d.values) then {u} else {})
  {
    assert d.keys[..i + 1][..i] == d.keys[..i];
  }

  /** One more user for the shell loop: its uid is added when it is an interactive service account. */
  lemma ShellStep(d: Dict<SystemUser>, i: nat, noLogin: set<string>, whitelist: map<string, set<string>>)
    requires Valid(d) && i < |d.keys|
    ensures var u := d.values[d.keys[i]];
      ShellsOf(d.keys[..i + 1], d.values, noLogin, whitelist) ==
        ShellsOf(d.keys[..i], d.values, noLogin, whitelist) + (if InteractiveService(u, noLogin, whitelist) then {u.uid} else {})
  {
    assert d.keys[..i + 1][..i] == d.keys[..i];
  }

  /**
   * A service account (uid 1 to 999; uids above 999 and root are skipped)
   * whose shell is not a no-login shell and is not whitelisted for its name.
   */
  predicate InteractiveService(u: SystemUser, noLogin: set<string>, whitelist: map<string, set<string>>) {
    && !(u.uid > 999 || u.uid == 0)
    && u.shell !in noLogin
    && !(u.name in whitelist && u.shell in whitelist[u.name])
  }

  /** The uids of the interactive service accounts among the users under `ks`. */
  function ShellsOf(ks: seq<string>, vals: map<string, SystemUser>, noLogin: set<string>, whitelist: map<string, set<string>>): set<int>
    requires forall i :: 0 <= i < |ks| ==> ks[i] in vals
    decreases |ks|
  {
    if ks == [] then {}
    else
      var u := vals[ks[|ks| - 1]];
      ShellsOf(ks[..|ks| - 1], vals, noLogin, whitelist) +
      (if InteractiveService(u, noLogin, whitelist) then {u.uid} else {})
  }

  lemma {:induction false} ShellsOfMembers(ks: seq<string>, vals: map<string, SystemUser>, noLogin: set<string>, whitelist: map<string, set<string>>, x: int)
    requires forall i :: 0 <= i < |ks| ==> ks[i] in vals
    ensures x in ShellsOf(ks, vals, noLogin, whitelist) <==>
      exists i :: 0 <= i < |ks| && InteractiveService(vals[ks[i]], noLogin, whitelist) && vals[ks[i]].uid == x
    decreases |ks|
  {
    if ks != [] {
      var p := ks[..|ks| - 1];
      ShellsOfMembers(p, vals, noLogin, whitelist, x);
      if x in ShellsOf(p, vals, noLogin, whitelist) {
        var i :| 0 <= i < |p| && InteractiveService(vals[p[i]], noLogin, whitelist) && vals[p[i]].uid == x;
        assert ks[i] == p[i];
      }
      if i :| 0 <= i < |ks| - 1 && InteractiveService(vals[ks[i]], noLogin, whitelist) && vals[ks[i]].uid == x {
        assert p[i] == ks[i];
      }
    }
  }

  /** `_check_service_account_interactive_shell`'s result. */
  function ServiceShells(d: Dict<SystemUser>, noLogin: set<string>, whitelist: map<string, set<string>>): set<int>
    requires Valid(d)
  {
    ShellsOf(d.keys, d.values, noLogin, whitelist)
  }

  /**
   * A uid is reported exactly when some user holding it is an interactive
   * service account; so root and the uids from 1000 up never are.
   */
  lemma ServiceShellsExact(d: Dict<SystemUser>, noLogin: set<string>, whitelist: map<string, set<string>>, x: int)
    requires Valid(d)
    ensures x in ServiceShells(d, noLogin, whitelist) <==>
      exists n :: n in d.values && InteractiveService(d.values[n], noLogin, whitelist) && d.values[n].uid == x
    ensures x in ServiceShells(d, noLogin, whitelist) ==> x != 0 && x < 1000
  {
    ShellsOfMembers(d.keys, d.values, noLogin, whitelist, x);
    if n :| n in d.values && InteractiveService(d.values[n], noLogin, whitelist) && d.values[n].uid == x {
      var i :| 0 <= i < |d.keys| && d.keys[i] == n;
    }
  }

  /** `_check_service_account_interactive_shell`: one walk over the users, keeping the uids of interactive service accounts. */
  method CheckServiceShell(stored: set<int>, curr: Dict<SystemUser>, noLogin: set<string>, whitelist: map<string, set<string>>)
    returns (findings: seq<PasswdFinding>, shells: set<int>)
    requires Valid(curr)
    ensures shells == ServiceShells(curr, noLogin, whitelist)
    ensures findings == SetFindings(InteractiveShell, stored, shells)
  {
    shells := {};
    for i := 0 to |curr.keys|
      invariant shells == ShellsOf(curr.keys[..i], curr.values, noLogin, whitelist)
    {
      ShellStep(curr, i, noLogin, whitelist);
      var user := curr.values[curr.keys[i]];
      if user.uid > 999 || user.uid == 0 {
        continue;
      }
      if user.shell in noLogin {
        continue;
      }
      if user.name in whitelist && user.shell in whitelist[user.name] {
        continue;
      }
      shells := shells + {user.uid};
    }
    assert curr.keys[..|curr.keys|] == curr.keys;
    findings := SetFindings(InteractiveShell, stored, shells);
  }

  // ---------------------------------------------------------------------------
  // The state file
  // ---------------------------------------------------------------------------

  /** The JSON objects the loader reads list each key once: the file itself and its `passwd` object. */
  ghost predicate ObjectsValid(data: Dict<Json>) {
    && Valid(data)
    && ("passwd" in data.values && data.values["passwd"].JObj? ==> Valid(data.values["passwd"].obj))
  }

  /** `SystemUser.from_passwd_line` on a stored value; a value that is not text cannot be split and fails. */
  function UserOf(j: Json): Result<SystemUser, string> {
    match j
    case JStr(line) => FromPasswdLine(line)
    case _ => Err("stored passwd entry is not text")
  }

  /** The stored lines under the keys `ks`, parsed key by key into a dictionary; the first bad one is the error. */
  function LoadUsers(ks: seq<string>, vals: map<string, Json>): (r: Result<Dict<SystemUser>, string>)
    requires forall i :: 0 <= i < |ks| ==> ks[i] in vals
    requires forall i, j :: 0 <= i < j < |ks| ==> ks[i] != ks[j]
    ensures r.Ok? ==> Valid(r.value) && r.value.keys == ks
    decreases |ks|
  {
    if ks == [] then Ok(Empty())
    else
      var n := |ks| - 1;
      var d :- LoadUsers(ks[..n], vals);
      var u :- UserOf(vals[ks[n]]);
      assert ks[n] !in d.keys;
      Ok(Put(d, ks[n], u))
  }

  /** The load fails exactly when some stored value is not a passwd line. */
  lemma {:induction false} LoadUsersFails(ks: seq<string>, vals: map<string, Json>)
    requires forall i :: 0 <= i < |ks| ==> ks[i] in vals
    requires forall i, j :: 0 <= i < j < |ks| ==> ks[i] != ks[j]
    ensures LoadUsers(ks, vals).Err? <==> exists i :: 0 <= i < |ks| && UserOf(vals[ks[i]]).Err?
    decreases |ks|
  {
    if ks != [] {
      var n := |ks| - 1;
      var p := ks[..n];
      LoadUsersFails(p, vals);
      assert forall i :: 0 <= i < n ==> p[i] == ks[i];
    }
  }

  /** A successful load holds each parsed line under its key. */
  lemma {:induction false} LoadUsersValues(ks: seq<string>, vals: map<string, Json>)
    requires forall i :: 0 <= i < |ks| ==> ks[i] in vals
    requires forall i, j :: 0 <= i < j < |ks| ==> ks[i] != ks[j]
    requires LoadUsers(ks, vals).Ok?
    ensures forall i :: 0 <= i < |ks| ==> UserOf(vals[ks[i]]) == Ok(LoadUsers(ks, vals).value.values[ks[i]])
    decreases |ks|
  {
    if ks != [] {
      var n := |ks| - 1;
      var p := ks[..n];
      LoadUsersValues(p, vals);
      var d := LoadUsers(p, vals).value;
      assert LoadUsers(ks, vals).value.values == d.values[ks[n] := UserOf(vals[ks[n]]).value];
      forall i | 0 <= i < n
        ensures UserOf(vals[ks[i]]) == Ok(LoadUsers(ks, vals).value.values[ks[i]])
      {
        assert ks[i] == p[i];
      }
    }
  }

  /** `set(...)` of a stored uid list; anything but a list of integers is refused. */
  function IntSet(j: Json): (r: Result<set<int>, string>)
    ensures r.Ok? <==> j.JList? && forall i :: 0 <= i < |j.items| ==> j.items[i].JInt?
    ensures r.Ok? ==> forall x :: x in r.value <==> JInt(x) in j.items
  {
    if j.JList? && forall i :: 0 <= i < |j.items| ==> j.items[i].JInt? then
      var s := set i | 0 <= i < |j.items| :: j.items[i].i;
      assert forall x :: x in s <==> JInt(x) in j.items by {
        forall x ensures x in s <==> JInt(x) in j.items {
          if JInt(x) in j.items {
            var i :| 0 <= i < |j.items| && j.items[i] == JInt(x);
            assert j.items[i].i == x;
          }
        }
      }
      Ok(s)
    else Err("stored uids are not a list of integers")
  }

  /** The uid set stored under `key`; a missing key is a `KeyError`. */
  function UidSet(data: Dict<Json>, key: string): Result<set<int>, string> {
    if key in data.values then IntSet(data.values[key]) else Err("KeyError: " + key)
  }

  /** Whether the state carries an integer `version`; without one it has the first layout. */
  predicate Versioned(data: Dict<Json>) {
    "version" in data.values && data.values["version"].JInt?
  }

  /**
   * `_load_state`: version 1 holds the users under `passwd` and the two uid
   * lists; data without an integer version is the first layout, every key a
   * user name and every value a passwd line, with no uids stored; any other
   * version is refused.
   */
  function StateOf(data: Dict<Json>): (r: Result<PasswdState, string>)
    requires ObjectsValid(data)
    ensures Versioned(data) && data.values["version"].i != 1 ==> r.Err?
    ensures !Versioned(data) ==> r == (match LoadUsers(data.keys, data.values)
                                       case Ok(users) => Ok(PasswdState(users, {}, {}))
                                       case Err(e) => Err(e))
    ensures r.Ok? ==> Valid(r.value.passwd)
  {
    if Versioned(data) then
      if data.values["version"].i == 1 then
        if "passwd" !in data.values then Err("KeyError: passwd")
        else match data.values["passwd"]
          case JObj(obj) =>
            var users :- LoadUsers(obj.keys, obj.values);
            var collisions :- UidSet(data, "uid_collision");
            var shells :- UidSet(data, "uid_service_interactive_shell");
            Ok(PasswdState(users, collisions, shells))
          case _ => Err("stored passwd is not an object")
      else Err("Unknown state version")
    else
      var users :- LoadUsers(data.keys, data.values);
      Ok(PasswdState(users, {}, {}))
  }

  lemma LoadUsersStep(ks: seq<string>, i: nat, vals: map<string, Json>)
    requires i < |ks|
    requires forall j :: 0 <= j < |ks| ==> ks[j] in vals
    requires forall a, b :: 0 <= a < b < |ks| ==> ks[a] != ks[b]
    ensures LoadUsers(ks[..i + 1], vals) == (match LoadUsers(ks[..i], vals)
                                               case Err(e) => Err(e)
                                               case Ok(d) =>
                                                 match UserOf(vals[ks[i]])
                                                 case Err(e) => Err(e)
                                                 case Ok(u) => Ok(Put(d, ks[i], u)))
  {
    assert ks[..i + 1][..i] == ks[..i];
  }

  lemma {:induction false} LoadUsersAbort(ks: seq<string>, i: nat, vals: map<string, Json>)
    requires i <= |ks|
    requires forall j :: 0 <= j < |ks| ==> ks[j] in vals
    requires forall a, b :: 0 <= a < b < |ks| ==> ks[a] != ks[b]
    requires LoadUsers(ks[..i], vals).Err?
    ensures LoadUsers(ks, vals) == LoadUsers(ks[..i], vals)
    decreases |ks| - i
  {
    if i < |ks| {
      LoadUsersStep(ks, i, vals);
      LoadUsersAbort(ks, i + 1, vals);
    } else {
      assert ks[..i] == ks;
    }
  }

  /** The key-by-key loop of `_load_state` that fills the users dictionary. */
  method ReadUsers(ks: seq<string>, vals: map<string, Json>) returns (r: Result<Dict<SystemUser>, string>)
    requires forall i :: 0 <= i < |ks| ==> ks[i] in vals
    requires forall i, j :: 0 <= i < j < |ks| ==> ks[i] != ks[j]
    ensures r == LoadUsers(ks, vals)
  {
    var users: Dict<SystemUser> := Empty();
    for i := 0 to |ks|
      invariant LoadUsers(ks[..i], vals) == Ok(users)
    {
      LoadUsersStep(ks, i, vals);
      var u := UserOf(vals[ks[i]]);
      if u.Err? {
        LoadUsersAbort(ks, i + 1, vals);
        return Err(u.error);
      }
      users := Put(users, ks[i], u.value);
    }
    assert ks[..|ks|] == ks;
    r := Ok(users);
  }

  method LoadState(data: Dict<Json>) returns (r: Result<PasswdState, string>)
    requires ObjectsValid(data)
    ensures r == StateOf(data)
  {
    if "version" in data.values && data.values["version"].JInt? {
      if data.values["version"].i != 1 {
        return Err("Unknown state version");
      }
      if "passwd" !in data.values || !data.values["passwd"].JObj? {
        return if "passwd" !in data.values then Err("KeyError: passwd") else Err("stored passwd is not an object");
      }
      var obj := data.values["passwd"].obj;
      var users := ReadUsers(obj.keys, obj.values);
      if users.Err? {
        return Err(users.error);
      }
      var collisions := UidSet(data, "uid_collision");
      if collisions.Err? {
        return Err(collisions.error);
      }
      var shells := UidSet(data, "uid_service_interactive_shell");
      if shells.Err? {
        return Err(shells.error);
      }
      r := Ok(PasswdState(users.value, collisions.value, shells.value));
    } else {
      var users := ReadUsers(data.keys, data.values);
      if users.Err? {
        return Err(users.error);
      }
      r := Ok(PasswdState(users.value, {}, {}));
    }
  }

  /** `list(s)` of a uid set: every uid of `s` once, in an order the model leaves open. */
  ghost predicate ListsSet(items: seq<Json>, s: set<int>) {
    && (forall i :: 0 <= i < |items| ==> items[i].JInt? && items[i].i in s)
    && (forall x :: x in s ==> JInt(x) in items)
    && (forall i, j :: 0 <= i < j < |items| ==> items[i] != items[j])
  }

  /** The users printed as passwd lines under their keys, in the same order. */
  function PasswdJson(p: Dict<SystemUser>): (r: Dict<Json>)
    requires Valid(p)
    ensures Valid(r)
  {
    Dict(p.keys, map k | k in p.values :: JStr(ToLine(p.values[k])))
  }

  /** The version 1 layout of `st`, as `_store_state` writes it. */
  ghost predicate StoredForm(st: PasswdState, d: Dict<Json>) {
    && Valid(st.passwd)
    && d.keys == ["version", "passwd", "uid_collision", "uid_service_interactive_shell"]
    && d.values.Keys == {"version", "passwd", "uid_collision", "uid_service_interactive_shell"}
    && d.values["version"] == JInt(1)
    && d.values["passwd"] == JObj(PasswdJson(st.passwd))
    && d.values["uid_collision"].JList? && ListsSet(d.values["uid_collision"].items, st.collisions)
    && d.values["uid_service_interactive_shell"].JList? && ListsSet(d.values["uid_service_interactive_shell"].items, st.shells)
  }

  /** A set of integers is empty or has a member. */
  lemma EmptyOrMember(s: set<int>)
    ensures s == {} || exists x :: x in s
  {
    if forall x :: x !in s {
      assert s == {};
    }
  }

  /** `list(s)`: the uids of `s`, taken one at a time in set iteration order. */
  method UidList(s: set<int>) returns (items: seq<Json>)
    ensures ListsSet(items, s)
  {
    items := [];
    var rest := s;
    while rest != {}
      invariant rest <= s
      invariant forall i :: 0 <= i < |items| ==> items[i].JInt? && items[i].i in s - rest
      invariant forall x :: x in s - rest ==> JInt(x) in items
      invariant forall i, j :: 0 <= i < j < |items| ==> items[i] != items[j]
      decreases rest
    {
      EmptyOrMember(rest);
      var x :| x in rest;
      items := items + [JInt(x)];
      rest := rest - {x};
    }
  }

  /** `_store_state`: the version 1 layout, the users printed key by key. */
  method StoreState(st: PasswdState) returns (data: Dict<Json>)
    requires Valid(st.passwd)
    ensures StoredForm(st, data)
  {
    var passwd := PrintUsers(st.passwd);
    var collisions := UidList(st.collisions);
    var shells := UidList(st.shells);
    data := Dict(["version", "passwd", "uid_collision", "uid_service_interactive_shell"],
                 map["version" := JInt(1), "passwd" := JObj(passwd),
                     "uid_collision" := JList(collisions), "uid_service_interactive_shell" := JList(shells)]);
  }

  /** The stored `passwd` object: every user, in order, printed as its passwd line. */
  method PrintUsers(p: Dict<SystemUser>) returns (passwd: Dict<Json>)
    requires Valid(p)
    ensures passwd == PasswdJson(p)
  {
    passwd := Empty();
    for i := 0 to |p.keys|
      invariant PrintedUpTo(p, passwd, i)
    {
      PrintedStep(p, passwd, i);
      passwd := Put(passwd, p.keys[i], JStr(ToLine(p.values[p.keys[i]])));
    }
    PrintedAll(p, passwd);
  }

  /** `passwd` holds the first `i` users of `p`, in order, printed as passwd lines. */
  ghost predicate PrintedUpTo(p: Dict<SystemUser>, passwd: Dict<Json>, i: nat) {
    && Valid(p) && i <= |p.keys|
    && Valid(passwd) && passwd.keys == p.keys[..i]
    && (forall k :: k in passwd.values <==> k in p.keys[..i])
    && (forall k :: k in passwd.values ==> k in p.values && passwd.values[k] == JStr(ToLine(p.values[k])))
  }

  lemma PrintedStep(p: Dict<SystemUser>, passwd: Dict<Json>, i: nat)
    requires PrintedUpTo(p, passwd, i) && i < |p.keys|
    ensures PrintedUpTo(p, Put(passwd, p.keys[i], JStr(ToLine(p.values[p.keys[i]]))), i + 1)
  {
    var keys, k := p.keys, p.keys[i];
    var q := Put(passwd, k, JStr(ToLine(p.values[k])));
    assert keys[..i + 1] == keys[..i] + [k];
    assert k !in keys[..i];
    assert q.keys == keys[..i + 1];
    forall x ensures x in q.values <==> x in keys[..i + 1] {
      assert x in keys[..i + 1] <==> x in keys[..i] || x == k;
    }
    forall x | x in q.values ensures x in p.values && q.values[x] == JStr(ToLine(p.values[x])) {
      if x != k { assert x in passwd.values; }
    }
  }

  lemma PrintedAll(p: Dict<SystemUser>, passwd: Dict<Json>)
    requires PrintedUpTo(p, passwd, |p.keys|)
    ensures passwd == PasswdJson(p)
  {
    assert p.keys[..|p.keys|] == p.keys;
  }

  /** Loading printed users back gives the users, key by key. */
  lemma {:induction false} LoadPrinted(ks: seq<string>, p: Dict<SystemUser>)
    requires Valid(p)
    requires forall i :: 0 <= i < |ks| ==> ks[i] in p.values && WellFormed(p.values[ks[i]])
    requires forall i, j :: 0 <= i < j < |ks| ==> ks[i] != ks[j]
    ensures forall i :: 0 <= i < |ks| ==> ks[i] in PasswdJson(p).values
    ensures LoadUsers(ks, PasswdJson(p).values) == Ok(Dict(ks, map k | k in ks :: p.values[k]))
    decreases |ks|
  {
    if ks != [] {
      var n := |ks| - 1;
      var pre := ks[..n];
      LoadPrinted(pre, p);
      var k := ks[n];
      ParseToLine(p.values[k]);
      assert UserOf(PasswdJson(p).values[k]) == Ok(p.values[k]);
      RestrictSnoc(pre, k, p.values);
      assert ks == pre + [k];
    }
  }

  lemma RestrictSnoc(pre: seq<string>, k: string, m: map<string, SystemUser>)
    requires forall i :: 0 <= i < |pre| ==> pre[i] in m
    requires k in m
    ensures (map k' | k' in pre :: m[k'])[k := m[k]] == map k' | k' in pre + [k] :: m[k']
  {
  }

  /** Storing a state and loading it back gives the same three values. */
  lemma LoadStored(st: PasswdState, d: Dict<Json>)
    requires StoredForm(st, d)
    requires forall n :: n in st.passwd.values ==> WellFormed(st.passwd.values[n])
    ensures ObjectsValid(d)
    ensures StateOf(d) == Ok(st)
  {
    StoredPasswd(st, d);
    StoredUidSets(st, d);
    StoredObjects(st, d);
    StateOfVersion1(d, st);
  }

  lemma StoredObjects(st: PasswdState, d: Dict<Json>)
    requires StoredForm(st, d)
    ensures ObjectsValid(d) && Versioned(d) && d.values["version"].i == 1
    ensures "passwd" in d.values && d.values["passwd"].JObj?
  {
  }

  lemma StoredUidSets(st: PasswdState, d: Dict<Json>)
    requires StoredForm(st, d)
    ensures UidSet(d, "uid_collision") == Ok(st.collisions)
    ensures UidSet(d, "uid_service_interactive_shell") == Ok(st.shells)
  {
    IntSetListed(d.values["uid_collision"].items, st.collisions);
    IntSetListed(d.values["uid_service_interactive_shell"].items, st.shells);
  }

  /** Version-1 data whose parts all load gives the state made of those parts. */
  lemma StateOfVersion1(d: Dict<Json>, st: PasswdState)
    requires ObjectsValid(d) && Versioned(d) && d.values["version"].i == 1
    requires "passwd" in d.values && d.values["passwd"].JObj?
    requires LoadUsers(d.values["passwd"].obj.keys, d.values["passwd"].obj.values) == Ok(st.passwd)
    requires UidSet(d, "uid_collision") == Ok(st.collisions)
    requires UidSet(d, "uid_service_interactive_shell") == Ok(st.shells)
    ensures StateOf(d) == Ok(st)
  {
  }

  lemma StoredPasswd(st: PasswdState, d: Dict<Json>)
    requires StoredForm(st, d)
    requires forall n :: n in st.passwd.values ==> WellFormed(st.passwd.values[n])
    ensures d.values["passwd"].JObj? && Valid(d.values["passwd"].obj)
    ensures LoadUsers(d.values["passwd"].obj.keys, d.values["passwd"].obj.values) == Ok(st.passwd)
  {
    var p := st.passwd;
    LoadPrinted(p.keys, p);
    RestrictAll(p);
  }

  lemma RestrictAll(p: Dict<SystemUser>)
    requires Valid(p)
    ensures Dict(p.keys, map k | k in p.keys :: p.values[k]) == p
  {
    assert (map k | k in p.keys :: p.values[k]) == p.values;
  }

  /** Reading back a listed uid set gives the set. */
  lemma IntSetListed(items: seq<Json>, s: set<int>)
    requires ListsSet(items, s)
    ensures IntSet(JList(items)) == Ok(s)
  {
    var r := IntSet(JList(items));
    assert r.Ok?;
    forall x ensures x in r.value <==> x in s {
      if JInt(x) in items {
        var i :| 0 <= i < |items| && items[i] == JInt(x);
        assert items[i].i == x;
      }
    }
    assert r.value == s;
  }

  // ---------------------------------------------------------------------------
  // One run
  // ---------------------------------------------------------------------------

  /**
   * `monitor_passwd` as a function of the loaded state (or why loading
   * failed) and the passwd lines (or why reading failed): the findings of
   * the three checks and the state to store, or the first error.
   */
  function Run(loaded: Result<Dict<Json>, string>, lines: Result<seq<string>, string>,
               noLogin: set<string>, whitelist: map<string, set<string>>): Result<(seq<PasswdFinding>, PasswdState), string>
    requires loaded.Ok? ==> ObjectsValid(loaded.value)
  {
    var data :- loaded;
    var st :- StateOf(data);
    var ls :- lines;
    var curr :- UsersOf(ls);
    var collisions := Collisions(curr);
    var shells := ServiceShells(curr, noLogin, whitelist);
    var findings := Changes(st.passwd, curr) + SetFindings(UidCollision, st.collisions, collisions)
                    + SetFindings(InteractiveShell, st.shells, shells);
    Ok((findings, PasswdState(curr, collisions, shells)))
  }

  /**
   * `monitor_passwd`: a failed load or passwd read is reported and nothing
   * is stored; otherwise the findings are reported and the current state
   * stored.
   */
  method Monitor(loaded: Result<Dict<Json>, string>, lines: Result<seq<string>, string>,
                 noLogin: set<string>, whitelist: map<string, set<string>>)
    returns (events: seq<Event<PasswdFinding>>, stored: Option<Dict<Json>>)
    requires loaded.Ok? ==> ObjectsValid(loaded.value)
    ensures Run(loaded, lines, noLogin, whitelist).Err? ==>
      events == [Error(Run(loaded, lines, noLogin, whitelist).error)] && stored == None
    ensures Run(loaded, lines, noLogin, whitelist).Ok? ==>
      && events == Reported(Run(loaded, lines, noLogin, whitelist).value.0)
      && stored.Some? && StoredForm(Run(loaded, lines, noLogin, whitelist).value.1, stored.value)
  {
    if loaded.Err? {
      return [Error(loaded.error)], None;
    }
    var st := LoadState(loaded.value);
    if st.Err? {
      return [Error(st.error)], None;
    }
    if lines.Err? {
      return [Error(lines.error)], None;
    }
    var curr := GetPasswd(lines.value);
    if curr.Err? {
      return [Error(curr.error)], None;
    }
    var changes := CheckChanges(st.value.passwd, curr.value);
    var collisionFindings, collisions := CheckUidCollision(st.value.collisions, curr.value);
    var shellFindings, shells := CheckServiceShell(st.value.shells, curr.value, noLogin, whitelist);
    events := Reported(changes + collisionFindings + shellFindings);
    var data := StoreState(PasswdState(curr.value, collisions, shells));
    stored := Some(data);
  }

  /** A second run over an unchanged passwd file, from the state the first one stored, reports nothing. */
  lemma RepeatIsSilent(loaded: Result<Dict<Json>, string>, lines: Result<seq<string>, string>,
                       noLogin: set<string>, whitelist: map<string, set<string>>, next: Dict<Json>)
    requires loaded.Ok? ==> ObjectsValid(loaded.value)
    requires Run(loaded, lines, noLogin, whitelist).Ok?
    requires StoredForm(Run(loaded, lines, noLogin, whitelist).value.1, next)
    ensures ObjectsValid(next)
    ensures Run(Ok(next), lines, noLogin, whitelist) == Ok(([], Run(loaded, lines, noLogin, whitelist).value.1))
  {
    var st := Run(loaded, lines, noLogin, whitelist).value.1;
    UsersOfWellFormed(lines.value);
    LoadStored(st, next);
    NoChangesIffSame(st.passwd, st.passwd);
    SetFindingsSilent(UidCollision, st.collisions, st.collisions);
    SetFindingsSilent(InteractiveShell, st.shells, st.shells);
  }
}
