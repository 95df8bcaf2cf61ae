/**
 * `guestfs_int_copy_environ` of utils/environ.c: copy an environment
 * vector, then set each (key, value) pair in order, replacing the first
 * `key=` entry in place or appending `key=value` at the end.
 */
module Environ {
  import opened Wrappers
  import opened StringLists

  /** One (key, value) pair of the variable argument list. */
  datatype Setting = Setting(key: string, value: string)

  /** The `key=value` entry a setting stores. */
  function Entry(s: Setting): string
  {
    s.key + "=" + s.value
  }

  /**
   * `entry` starts with `key` immediately followed by '=': it is the entry
   * a setting of `key` to the rest of `entry` stores.
   */
  function Matches(entry: string, key: string): (b: bool)
    ensures b <==> |entry| > |key| && entry == Entry(Setting(key, entry[|key| + 1..]))
  {
    |entry| > |key| && entry[..|key|] == key && entry[|key|] == '='
  }

  /** The index of the first entry that matches `key`, if any. */
  function FirstMatch(env: seq<string>, key: string): (r: Option<nat>)
    ensures r.Some? ==> r.value < |env| && Matches(env[r.value], key)
    ensures r.Some? ==> forall k :: 0 <= k < r.value ==> !Matches(env[k], key)
    ensures r.None? ==> forall k :: 0 <= k < |env| ==> !Matches(env[k], key)
  {
    if env == [] then None
    else if Matches(env[0], key) then Some(0)
    else match FirstMatch(env[1..], key)
      case None => None
      case Some(i) => Some(i + 1)
  }

  /** What one pair does to the list of entries. */
  function SetVar(env: seq<string>, s: Setting): (r: seq<string>)
    ensures |env| <= |r| <= |env| + 1
    ensures forall k :: 0 <= k < |env| && !Matches(env[k], s.key) ==> r[k] == env[k]
  {
    match FirstMatch(env, s.key)
    case Some(i) => env[i := Entry(s)]
    case None => env + [Entry(s)]
  }

  /** The entries after all the settings, applied in order. */
  function ApplyAll(env: seq<string>, settings: seq<Setting>): (r: seq<string>)
    ensures |env| <= |r| <= |env| + |settings|
  {
    if settings == [] then env
    else SetVar(ApplyAll(env, settings[..|settings| - 1]), settings[|settings| - 1])
  }

  /**
   * `getenv`: the value of the first entry that matches `key`, which is
   * there exactly when some entry matches.
   */
  function Lookup(env: seq<string>, key: string): (r: Option<string>)
    ensures r.Some? <==> exists k :: 0 <= k < |env| && Matches(env[k], key)
    ensures r.Some? ==> Entry(Setting(key, r.value)) in env
  {
    match FirstMatch(env, key)
    case Some(i) => Some(env[i][|key| + 1..])
    case None => None
  }

  /** A key as it can appear in an environment: no '=' in it. */
  predicate ValidKey(key: string)
  {
    '=' !in key
  }

  /** The value the last setting for `key` gives it, if any setting does. */
  function LastValue(settings: seq<Setting>, key: string): Option<string>
  {
    if settings == [] then None
    else if settings[|settings| - 1].key == key then Some(settings[|settings| - 1].value)
    else LastValue(settings[..|settings| - 1], key)
  }

  // ---------------------------------------------------------------------------
  // The imperative code
  // ---------------------------------------------------------------------------

  /** The search loop: the index of the first entry `key=`, if any. */
  method FindKey(ret: array<Option<string>>, key: string) returns (found: Option<nat>)
    requires None in ret[..]
    ensures found == FirstMatch(Vector(ret[..]), key)
  {
    ghost var xs := Vector(ret[..]);
    var len := |key|;
    var i := 0;
    while ret[i] != None
      invariant i <= |xs|
      invariant forall k :: 0 <= k < i ==> !Matches(xs[k], key)
      decreases |xs| - i
    {
      var e := ret[i].value;
      assert e == xs[i];
      if |e| > len && e[..len] == key && e[len] == '=' {
        FirstMatchAt(xs, key, i);
        return Some(i);
      }
      i := i + 1;
    }
    assert i == |xs|;
    return None;
  }

  /** The `realloc` to `nrStrings + 2` entries that appends `s` and a new NULL. */
  method Append(ret: array<Option<string>>, nrStrings: nat, s: string) returns (newRet: array<Option<string>>)
    requires nrStrings < ret.Length
    ensures fresh(newRet)
    ensures newRet[..] == ret[..nrStrings] + [Some(s), None]
  {
    newRet := new Option<string>[nrStrings + 2];
    forall k | 0 <= k < nrStrings {
      newRet[k] := ret[k];
    }
    newRet[nrStrings + 1] := None;
    newRet[nrStrings] := Some(s);
  }

  /** Replacing an entry of a vector replaces the corresponding string. */
  lemma ToVectorUpdate(xs: seq<string>, i: nat, s: string)
    requires i < |xs|
    ensures ToVector(xs)[i := Some(s)] == ToVector(xs[i := s])
  {
  }

  /** Appending to a vector moves its NULL one place on. */
  lemma ToVectorSnoc(xs: seq<string>, s: string)
    ensures ToVector(xs)[..|xs|] + [Some(s), None] == ToVector(xs + [s])
  {
  }

  /** Applying one more setting. */
  lemma ApplyAllStep(env: seq<string>, settings: seq<Setting>, q: nat)
    requires q < |settings|
    ensures ApplyAll(env, settings[..q + 1]) == SetVar(ApplyAll(env, settings[..q]), settings[q])
  {
    assert settings[..q + 1][..q] == settings[..q];
  }

  /**
   * `guestfs_int_copy_environ`: copies `env`, then applies each setting in
   * turn to the copy, growing it when a key is new.
   */
  method CopyEnviron(env: array<Option<string>>, settings: seq<Setting>) returns (ret: array<Option<string>>)
    requires None in env[..]
    ensures fresh(ret)
    ensures ret[..] == ToVector(ApplyAll(Vector(env[..]), settings))
  {
    ret := CopyStringList(env);
    var nrStrings := CountStrings(ret);
    ghost var start := Vector(env[..]);
    ghost var cur := start;
    VectorOfToVector(cur);
    var q := 0;
    while q < |settings|
      invariant q <= |settings|
      invariant fresh(ret)
      invariant cur == ApplyAll(start, settings[..q])
      invariant ret[..] == ToVector(cur) && nrStrings == |cur|
    {
      var s := settings[q].key + "=" + settings[q].value;
      assert s == Entry(settings[q]);
      VectorOfToVector(cur);
      var found := FindKey(ret, settings[q].key);
      ApplyAllStep(start, settings, q);
      ghost var next := SetVar(cur, settings[q]);
      if found.Some? {
        assert next == cur[found.value := s];
        ToVectorUpdate(cur, found.value, s);
        ret[found.value] := Some(s);
        assert ret[..] == ToVector(next);
      } else {
        assert next == cur + [s];
        ToVectorSnoc(cur, s);
        ret := Append(ret, nrStrings, s);
        nrStrings := nrStrings + 1;
        assert ret[..] == ToVector(next);
      }
      cur := next;
      q := q + 1;
    }
    assert settings[..q] == settings;
    assert env[..] == old(env[..]);
  }

  // ---------------------------------------------------------------------------
  // Properties of the update
  // ---------------------------------------------------------------------------

  /** A match with none before it is the first match. */
  lemma FirstMatchAt(env: seq<string>, key: string, i: nat)
    requires i < |env| && Matches(env[i], key)
    requires forall k :: 0 <= k < i ==> !Matches(env[k], key)
    ensures FirstMatch(env, key) == Some(i)
  {
  }

  /** An entry matches at most one key that has no '=' in it. */
  lemma MatchesUnique(entry: string, k1: string, k2: string)
    requires ValidKey(k1) && ValidKey(k2)
    requires Matches(entry, k1) && Matches(entry, k2)
    ensures k1 == k2
  {
  }

  /** The entry a setting stores matches its own key and yields its value. */
  lemma EntryMatches(s: Setting)
    ensures Matches(Entry(s), s.key)
    ensures Entry(s)[|s.key| + 1..] == s.value
  {
    assert Entry(s)[..|s.key|] == s.key;
  }

  /**
   * Where a setting goes when its key is present: over the first entry that
   * matches, with every other entry, a later `key=` entry included, kept in
   * place.
   */
  lemma SetVarReplacesFirst(env: seq<string>, s: Setting, i: nat)
    requires i < |env| && Matches(env[i], s.key)
    requires forall k :: 0 <= k < i ==> !Matches(env[k], s.key)
    ensures |SetVar(env, s)| == |env| && SetVar(env, s)[i] == Entry(s)
    ensures forall k :: 0 <= k < |env| && k != i ==> SetVar(env, s)[k] == env[k]
  {
    FirstMatchAt(env, s.key, i);
  }

  /** Where a setting goes when its key is absent: appended after the last entry. */
  lemma SetVarAppendsNew(env: seq<string>, s: Setting)
    requires forall k :: 0 <= k < |env| ==> !Matches(env[k], s.key)
    ensures SetVar(env, s) == env + [Entry(s)]
  {
  }

  /** Only the first of two `A=` entries is replaced; the second stays. */
  lemma DuplicateEntryKept()
    ensures SetVar(["A=1", "A=2"], Setting("A", "3")) == ["A=3", "A=2"]
  {
    var env := ["A=1", "A=2"];
    assert Matches(env[0], "A");
    FirstMatchAt(env, "A", 0);
    assert Entry(Setting("A", "3")) == "A=3";
  }

  /** After setting `key`, looking it up gives the new value. */
  lemma SetVarBinds(env: seq<string>, s: Setting)
    ensures Lookup(SetVar(env, s), s.key) == Some(s.value)
  {
    EntryMatches(s);
    var r := SetVar(env, s);
    match FirstMatch(env, s.key)
    case Some(i) =>
      FirstMatchAt(r, s.key, i);
    case None =>
      FirstMatchAt(r, s.key, |env|);
  }

  /** Setting one key leaves the value of every other key as it was. */
  lemma SetVarKeepsOthers(env: seq<string>, s: Setting, key: string)
    requires ValidKey(s.key) && ValidKey(key) && key != s.key
    ensures Lookup(SetVar(env, s), key) == Lookup(env, key)
  {
    var r := SetVar(env, s);
    EntryMatches(s);
    if Matches(Entry(s), key) {
      MatchesUnique(Entry(s), s.key, key);
    }
    match FirstMatch(env, s.key) {
      case Some(i) =>
        if Matches(env[i], key) {
          MatchesUnique(env[i], s.key, key);
        }
        assert forall k :: 0 <= k < |r| ==> (Matches(r[k], key) <==> Matches(env[k], key));
      case None =>
        assert forall k :: 0 <= k < |env| ==> r[k] == env[k];
    }
    if FirstMatch(env, key).Some? {
      FirstMatchAt(r, key, FirstMatch(env, key).value);
    }
  }

  /**
   * After all the settings, a key has the value of the last setting for it
   * or, when no setting names it, the value it had in the copied environment.
   */
  lemma {:induction false} ApplyAllLookup(env: seq<string>, settings: seq<Setting>, key: string)
    requires ValidKey(key)
    requires forall i :: 0 <= i < |settings| ==> ValidKey(settings[i].key)
    ensures Lookup(ApplyAll(env, settings), key)
            == if LastValue(settings, key).Some? then LastValue(settings, key) else Lookup(env, key)
    decreases |settings|
  {
    if settings != [] {
      var init, last := settings[..|settings| - 1], settings[|settings| - 1];
      ApplyAllLookup(env, init, key);
      if last.key == key {
        SetVarBinds(ApplyAll(env, init), last);
      } else {
        SetVarKeepsOthers(ApplyAll(env, init), last, key);
      }
    }
  }

  /** A later setting of a key overrides an earlier one, even one that appended it. */
  lemma LaterSettingWins(env: seq<string>, settings: seq<Setting>, key: string, v1: string, v2: string)
    ensures Lookup(ApplyAll(env, settings + [Setting(key, v1), Setting(key, v2)]), key) == Some(v2)
  {
    var all := settings + [Setting(key, v1), Setting(key, v2)];
    assert all[..|all| - 1] == settings + [Setting(key, v1)];
    SetVarBinds(ApplyAll(env, all[..|all| - 1]), Setting(key, v2));
  }

  /** An entry of the copied environment that no setting's key matches is kept, in place. */
  lemma {:induction false} ApplyAllKeepsUnmatched(env: seq<string>, settings: seq<Setting>, i: nat)
    requires i < |env|
    requires forall j :: 0 <= j < |settings| ==> !Matches(env[i], settings[j].key)
    ensures ApplyAll(env, settings)[i] == env[i]
    decreases |settings|
  {
    if settings != [] {
      ApplyAllKeepsUnmatched(env, settings[..|settings| - 1], i);
    }
  }

  /** Whether `key` has an entry. */
  predicate Bound(env: seq<string>, key: string)
  {
    FirstMatch(env, key).Some?
  }

  /** The keys of a list of settings. */
  function Keys(settings: seq<Setting>): set<string>
  {
    if settings == [] then {} else Keys(settings[..|settings| - 1]) + {settings[|settings| - 1].key}
  }

  /** Setting a key binds it and keeps every other key bound or unbound as it was. */
  lemma SetVarBound(env: seq<string>, s: Setting, key: string)
    requires ValidKey(s.key) && ValidKey(key)
    ensures Bound(SetVar(env, s), key) <==> Bound(env, key) || key == s.key
  {
    if key == s.key {
      SetVarBinds(env, s);
    } else {
      SetVarKeepsOthers(env, s, key);
    }
  }

  /** After the settings, exactly the keys of the environment and of the settings are bound. */
  lemma {:induction false} ApplyAllBound(env: seq<string>, settings: seq<Setting>, key: string)
    requires ValidKey(key)
    requires forall i :: 0 <= i < |settings| ==> ValidKey(settings[i].key)
    ensures Bound(ApplyAll(env, settings), key) <==> Bound(env, key) || key in Keys(settings)
    decreases |settings|
  {
    if settings != [] {
      var init, last := settings[..|settings| - 1], settings[|settings| - 1];
      ApplyAllBound(env, init, key);
      SetVarBound(ApplyAll(env, init), last, key);
    }
  }

  /** The keys the settings add: those of the settings not bound in the copied environment. */
  function NewKeys(env: seq<string>, settings: seq<Setting>): set<string>
  {
    set k | k in Keys(settings) && !Bound(env, k)
  }

  /**
   * The final count is the count of the copied environment plus one for
   * each distinct key that was not already bound.
   */
  lemma {:induction false} ApplyAllLength(env: seq<string>, settings: seq<Setting>)
    requires forall i :: 0 <= i < |settings| ==> ValidKey(settings[i].key)
    ensures |ApplyAll(env, settings)| == |env| + |NewKeys(env, settings)|
    decreases |settings|
  {
    if settings != [] {
      var init, last := settings[..|settings| - 1], settings[|settings| - 1];
      ApplyAllLength(env, init);
      ApplyAllBound(env, init, last.key);
      if Bound(env, last.key) || last.key in Keys(init) {
        assert NewKeys(env, settings) == NewKeys(env, init);
      } else {
        assert NewKeys(env, settings) == NewKeys(env, init) + {last.key};
      }
    }
  }

  /** A key matches only when '=' follows it: "A" does not replace "AB=1". */
  lemma PrefixKeyAppends()
    ensures SetVar(["AB=1"], Setting("A", "2")) == ["AB=1", "A=2"]
    ensures SetVar(["A=1", "AB=1"], Setting("A", "2")) == ["A=2", "AB=1"]
  {
    assert "AB=1"[1] != '=' && ["AB=1"][1..] == [];
    assert FirstMatch(["AB=1"], "A") == None;
    assert "A=1"[..1] == "A";
    assert FirstMatch(["A=1", "AB=1"], "A") == Some(0);
    assert Entry(Setting("A", "2")) == "A=2";
  }
}
