/**
 * The key store of options/keys.c: keys given as `ID:TYPE[:ARG]`
 * selectors are parsed and appended to a store, and `get_keys` picks the
 * keys for a device or UUID, falling back to asking the user.
 */
module Keys {
  import opened Wrappers
  import opened StringLists

  /** What a key is made of: a literal string, a file holding it, or a Clevis binding. */
  datatype KeyKind = KeyString(s: string) | KeyFile(name: string) | KeyClevis

  /** `struct key_store_key`: the device name or UUID the key is for, and the key. */
  datatype Key = Key(id: string, kind: KeyKind)

  /** `struct matching_key`: Clevis, or a passphrase. */
  datatype MatchingKey = MatchingKey(clevis: bool, passphrase: Option<string>)

  /** The ways a selector is refused; `key_store_add_from_selector` reports each and exits. */
  datatype SelectorError =
    | MissingId         // no field at all
    | MissingType       // one field only
    | MissingKeyString  // TYPE "key" without exactly three fields
    | MissingFileName   // TYPE "file" without exactly three fields
    | TooManyFields     // TYPE "clevis" without exactly two fields
    | InvalidType       // any other TYPE

  /** The ways `get_keys` fails; `get_keys` reports each and exits. */
  datatype KeyError =
    | UnreadableKeyFile(name: string)  // the key file cannot be opened or read
    | NoUserKey                        // no key could be read from the user

  /** `struct key_store`: the keys in the order they were given. */
  class KeyStore {
    var keys: seq<Key>

    /** The `calloc`ed empty store. */
    constructor ()
      ensures keys == []
    {
      keys := [];
    }
  }

  // ---------------------------------------------------------------------------
  // key_store_add_from_selector and key_store_import_key
  // ---------------------------------------------------------------------------

  /**
   * The key a selector describes, or why it is refused.  An accepted key
   * has no ':' in its ID or argument, and its selector is the one parsed.
   */
  function ParseSelector(selector: string): (r: Result<Key, SelectorError>)
    ensures r.Success? ==> Describable(r.value) && Selector(r.value) == selector
  {
    var fields := Split(':', selector);
    if |fields| < 1 then Failure(MissingId)
    else if |fields| < 2 then Failure(MissingType)
    else
      SelectorOfFields(selector);
      if fields[1] == "key" then
        if |fields| != 3 then Failure(MissingKeyString) else Success(Key(fields[0], KeyString(fields[2])))
      else if fields[1] == "file" then
        if |fields| != 3 then Failure(MissingFileName) else Success(Key(fields[0], KeyFile(fields[2])))
      else if fields[1] == "clevis" then
        if |fields| != 2 then Failure(TooManyFields) else Success(Key(fields[0], KeyClevis))
      else Failure(InvalidType)
  }

  /** The fields of a selector hold no ':' and join back to the selector. */
  lemma SelectorOfFields(selector: string)
    requires selector != ""
    ensures var fields := Split(':', selector);
            (forall i :: 0 <= i < |fields| ==> ':' !in fields[i])
            && (|fields| == 2 ==> selector == fields[0] + ":" + fields[1])
            && (|fields| == 3 ==> selector == fields[0] + ":" + fields[1] + ":" + fields[2])
  {
    var fields := Split(':', selector);
    FieldsHaveNoSeparator(':', selector);
    JoinFields(':', selector);
    if |fields| == 2 {
      assert fields[1..] == [fields[1]];
    } else if |fields| == 3 {
      assert fields[1..] == [fields[1], fields[2]] && fields[1..][1..] == [fields[2]];
      assert Join([':'], fields[1..]) == fields[1] + [':'] + fields[2];
      assert selector == fields[0] + [':'] + (fields[1] + [':'] + fields[2]);
    }
  }

  /**
   * `key_store_import_key`: appends `key` to the store, creating the store
   * when there is none.
   */
  method ImportKey(ks: KeyStore?, key: Key) returns (r: KeyStore)
    modifies ks
    ensures ks != null ==> r == ks && r.keys == old(ks.keys) + [key]
    ensures ks == null ==> fresh(r) && r.keys == [key]
  {
    if ks == null {
      r := new KeyStore();
    } else {
      r := ks;
    }
    r.keys := r.keys + [key];
  }

  /**
   * `key_store_add_from_selector`: splits the selector at ':' and checks
   * the fields in the order `key_store_add_from_selector` does before
   * importing the key.
   */
  method AddFromSelector(ks: KeyStore?, selector: string) returns (r: Result<KeyStore, SelectorError>)
    modifies ks
    ensures ParseSelector(selector).Failure? ==>
              r == Failure(ParseSelector(selector).error) && (ks != null ==> ks.keys == old(ks.keys))
    ensures ParseSelector(selector).Success? && ks != null ==>
              r == Success(ks) && ks.keys == old(ks.keys) + [ParseSelector(selector).value]
    ensures ParseSelector(selector).Success? && ks == null ==>
              r.Success? && fresh(r.value) && r.value.keys == [ParseSelector(selector).value]
  {
    var fields := SplitString(':', selector);
    var fieldCount := CountStrings(fields);
    ghost var fs := Split(':', selector);
    VectorOfToVector(fs);
    assert fieldCount == |fs|;
    if fieldCount < 1 {
      return Failure(MissingId);
    }
    var id := fields[0].value;
    if fieldCount < 2 {
      return Failure(MissingType);
    }
    var key: Key;
    if fields[1].value == "key" {
      if fieldCount != 3 {
        return Failure(MissingKeyString);
      }
      key := Key(id, KeyString(fields[2].value));
    } else if fields[1].value == "file" {
      if fieldCount != 3 {
        return Failure(MissingFileName);
      }
      key := Key(id, KeyFile(fields[2].value));
    } else if fields[1].value == "clevis" {
      if fieldCount != 2 {
        return Failure(TooManyFields);
      }
      key := Key(id, KeyClevis);
    } else {
      return Failure(InvalidType);
    }
    var store := ImportKey(ks, key);
    return Success(store);
  }

  /** The selector that describes a key. */
  function Selector(key: Key): string
  {
    match key.kind
    case KeyString(s) => key.id + ":key:" + s
    case KeyFile(name) => key.id + ":file:" + name
    case KeyClevis => key.id + ":clevis"
  }

  /** No ':' in the ID or in the argument. */
  predicate Describable(key: Key)
  {
    ':' !in key.id
    && match key.kind
       case KeyString(s) => ':' !in s
       case KeyFile(name) => ':' !in name
       case KeyClevis => true
  }

  /** The selector of a key is the colon-join of its fields. */
  lemma SelectorFields(key: Key)
    ensures key.kind.KeyString? ==> Selector(key) == Join([':'], [key.id, "key", key.kind.s])
    ensures key.kind.KeyFile? ==> Selector(key) == Join([':'], [key.id, "file", key.kind.name])
    ensures key.kind.KeyClevis? ==> Selector(key) == Join([':'], [key.id, "clevis"])
  {
    match key.kind {
      case KeyString(s) =>
        assert [key.id, "key", s][1..] == ["key", s] && ["key", s][1..] == [s];
        assert Join([':'], ["key", s]) == "key" + [':'] + s;
        assert key.id + ":key:" + s == key.id + [':'] + ("key" + [':'] + s);
      case KeyFile(name) =>
        assert [key.id, "file", name][1..] == ["file", name] && ["file", name][1..] == [name];
        assert Join([':'], ["file", name]) == "file" + [':'] + name;
        assert key.id + ":file:" + name == key.id + [':'] + ("file" + [':'] + name);
      case KeyClevis =>
        assert [key.id, "clevis"][1..] == ["clevis"];
    }
  }

  /** Every key whose ID and argument hold no ':' parses back from its selector. */
  lemma ParseSelectorRoundTrip(key: Key)
    requires Describable(key)
    ensures ParseSelector(Selector(key)) == Success(key)
  {
    SelectorFields(key);
    var selector := Selector(key);
    assert selector != "" by {
      assert |selector| > |key.id|;
    }
    match key.kind {
      case KeyString(s) =>
        FieldsOfJoin(':', [key.id, "key", s]);
        assert Split(':', selector) == [key.id, "key", s];
      case KeyFile(name) =>
        FieldsOfJoin(':', [key.id, "file", name]);
        assert Split(':', selector) == [key.id, "file", name];
      case KeyClevis =>
        FieldsOfJoin(':', [key.id, "clevis"]);
        assert Split(':', selector) == [key.id, "clevis"];
    }
  }

  /** A selector splits at its first ':' into the ID and the fields of the rest. */
  lemma SplitAfterId(id: string, rest: string)
    requires ':' !in id
    ensures Split(':', id + [':'] + rest) == [id] + Fields(':', rest)
  {
    FieldsCons(':', id, rest);
  }

  /** A string with no ':' is one field. */
  lemma FieldsOfFree(s: string)
    requires ':' !in s
    ensures Fields(':', s) == [s]
  {
    CspnOfFree(s, ':');
  }

  /** A key string holding ':' splits into more than three fields and is refused. */
  lemma KeyStringWithColonRefused(id: string, s: string)
    requires ':' !in id && ':' in s
    ensures ParseSelector(id + ":key:" + s) == Failure(MissingKeyString)
  {
    assert id + ":key:" + s == id + [':'] + ("key" + [':'] + s);
    SplitAfterId(id, "key" + [':'] + s);
    FieldsCons(':', "key", s);
    FieldsCount(':', s);
    assert multiset(s)[':'] > 0;
  }

  /** A Clevis selector with an argument has too many fields. */
  lemma ClevisWithArgumentRefused(id: string, arg: string)
    requires ':' !in id
    ensures ParseSelector(id + ":clevis:" + arg) == Failure(TooManyFields)
  {
    assert id + ":clevis:" + arg == id + [':'] + ("clevis" + [':'] + arg);
    SplitAfterId(id, "clevis" + [':'] + arg);
    FieldsCons(':', "clevis", arg);
    FieldsCount(':', arg);
  }

  /** A file selector without a file name is refused. */
  lemma FileWithoutNameRefused(id: string)
    requires ':' !in id
    ensures ParseSelector(id + ":file") == Failure(MissingFileName)
  {
    assert id + ":file" == id + [':'] + "file";
    SplitAfterId(id, "file");
    FieldsOfFree("file");
  }

  /** A TYPE other than the three words is refused, whatever follows it. */
  lemma UnknownTypeRefused(id: string, t: string, rest: string)
    requires ':' !in id && ':' !in t && t != "key" && t != "file" && t != "clevis"
    ensures ParseSelector(id + ":" + t) == Failure(InvalidType)
    ensures ParseSelector(id + ":" + t + ":" + rest) == Failure(InvalidType)
  {
    assert id + ":" + t == id + [':'] + t;
    SplitAfterId(id, t);
    FieldsOfFree(t);
    assert id + ":" + t + ":" + rest == id + [':'] + (t + [':'] + rest);
    SplitAfterId(id, t + [':'] + rest);
    FieldsCons(':', t, rest);
  }

  /** A selector with no ':' has an ID and no TYPE; the empty selector has no ID. */
  lemma ParseSelectorMissing(selector: string)
    requires ':' !in selector
    ensures selector == "" ==> ParseSelector(selector) == Failure(MissingId)
    ensures selector != "" ==> ParseSelector(selector) == Failure(MissingType)
  {
    if selector != "" {
      FieldsOfFree(selector);
    }
  }

  // ---------------------------------------------------------------------------
  // key_store_requires_network
  // ---------------------------------------------------------------------------

  /** Whether some key is a Clevis binding. */
  predicate HasClevis(keys: seq<Key>)
  {
    exists i :: 0 <= i < |keys| && keys[i].kind.KeyClevis?
  }

  /** `key_store_requires_network`: whether some key of the store is a Clevis binding. */
  method RequiresNetwork(ks: KeyStore?) returns (b: bool)
    ensures b <==> ks != null && HasClevis(ks.keys)
  {
    if ks == null {
      return false;
    }
    var i := 0;
    while i < |ks.keys|
      invariant i <= |ks.keys|
      invariant forall k :: 0 <= k < i ==> !ks.keys[k].kind.KeyClevis?
    {
      if ks.keys[i].kind.KeyClevis? {
        return true;
      }
      i := i + 1;
    }
    return false;
  }

  /** Importing a key needs the network afterwards exactly when before or when it is a Clevis key. */
  lemma HasClevisAppend(keys: seq<Key>, key: Key)
    ensures HasClevis(keys + [key]) <==> HasClevis(keys) || key.kind.KeyClevis?
  {
    if HasClevis(keys) {
      var i :| 0 <= i < |keys| && keys[i].kind.KeyClevis?;
      assert (keys + [key])[i] == keys[i];
    }
    if key.kind.KeyClevis? {
      assert (keys + [key])[|keys|] == key;
    }
  }

  // ---------------------------------------------------------------------------
  // get_keys
  // ---------------------------------------------------------------------------

  /** The names a key may be given for: the device, and its UUID when it has one. */
  function Ids(device: string, uuid: Option<string>): set<string>
  {
    {device} + (if uuid.Some? then {uuid.value} else {})
  }

  /** The key is for the device, or for its UUID when there is one. */
  function Selected(key: Key, device: string, uuid: Option<string>): (b: bool)
    ensures b <==> key.id in Ids(device, uuid)
  {
    key.id == device || (uuid.Some? && key.id == uuid.value)
  }

  /** `read_first_line_from_file` after `getline`: one trailing newline removed. */
  function StripNewline(line: string): (r: string)
    ensures line != [] && line[|line| - 1] == '\n' ==> line == r + "\n"
    ensures !(line != [] && line[|line| - 1] == '\n') ==> r == line
  {
    if |line| > 0 && line[|line| - 1] == '\n' then line[..|line| - 1] else line
  }

  /**
   * The matching key a selected key yields; `readLine` stands for opening a
   * key file and reading its first line with `getline`.
   */
  function Yield(key: Key, readLine: string -> Option<string>): (r: Result<MatchingKey, KeyError>)
    ensures r.Failure? <==> key.kind.KeyFile? && readLine(key.kind.name).None?
    ensures r.Failure? ==> r.error == UnreadableKeyFile(key.kind.name)
    ensures r.Success? ==> (r.value.clevis <==> key.kind.KeyClevis?)
    ensures r.Success? ==> (r.value.clevis <==> r.value.passphrase.None?)
  {
    match key.kind
    case KeyString(s) => Success(MatchingKey(false, Some(s)))
    case KeyFile(name) =>
      (match readLine(name)
       case Some(line) => Success(MatchingKey(false, Some(StripNewline(line))))
       case None => Failure(UnreadableKeyFile(name)))
    case KeyClevis => Success(MatchingKey(true, None))
  }

  /**
   * The matching keys of the store's selected keys, scanned in order; the
   * first failure stops the scan.  There are never more matching keys than
   * keys, and only an unreadable key file makes the scan fail.
   */
  function Scan(keys: seq<Key>, device: string, uuid: Option<string>,
                readLine: string -> Option<string>): (r: Result<seq<MatchingKey>, KeyError>)
    ensures r.Success? ==> |r.value| <= |keys|
    ensures r.Failure? ==> r.error.UnreadableKeyFile?
  {
    if keys == [] then Success([])
    else match Scan(keys[..|keys| - 1], device, uuid, readLine)
      case Failure(e) => Failure(e)
      case Success(ms) =>
        var key := keys[|keys| - 1];
        if !Selected(key, device, uuid) then Success(ms)
        else match Yield(key, readLine)
          case Failure(e) => Failure(e)
          case Success(m) => Success(ms + [m])
  }

  /**
   * What `get_keys` returns: the matching keys of the store, or when there
   * are none the key `read_key` gets from the user (`userKey`).
   */
  function GetKeysOf(keys: seq<Key>, device: string, uuid: Option<string>,
                     readLine: string -> Option<string>, userKey: Option<string>): (r: Result<seq<MatchingKey>, KeyError>)
    ensures r.Success? ==> r.value != []
    ensures r == Failure(NoUserKey) ==> userKey.None?
  {
    match Scan(keys, device, uuid, readLine)
    case Failure(e) => Failure(e)
    case Success(ms) =>
      if ms != [] then Success(ms)
      else if userKey.Some? then Success([MatchingKey(false, userKey)])
      else Failure(NoUserKey)
  }

  /** One key of the scan. */
  lemma ScanStep(keys: seq<Key>, i: nat, device: string, uuid: Option<string>, readLine: string -> Option<string>)
    requires i < |keys|
    ensures Scan(keys[..i + 1], device, uuid, readLine)
            == match Scan(keys[..i], device, uuid, readLine)
               case Failure(e) => Failure(e)
               case Success(ms) =>
                 if !Selected(keys[i], device, uuid) then Success(ms)
                 else match Yield(keys[i], readLine)
                   case Failure(e) => Failure(e)
                   case Success(m) => Success(ms + [m])
  {
    assert keys[..i + 1][..i] == keys[..i];
  }

  /** Once the scan of a prefix fails, the scan of the whole fails the same way. */
  lemma {:induction false} ScanFailureSticks(keys: seq<Key>, i: nat, device: string, uuid: Option<string>,
                                             readLine: string -> Option<string>)
    requires i <= |keys| && Scan(keys[..i], device, uuid, readLine).Failure?
    ensures Scan(keys, device, uuid, readLine) == Scan(keys[..i], device, uuid, readLine)
    decreases |keys| - i
  {
    if i == |keys| {
      assert keys[..i] == keys;
    } else {
      ScanStep(keys, i, device, uuid, readLine);
      ScanFailureSticks(keys, i + 1, device, uuid, readLine);
    }
  }

  /**
   * The `switch` of `get_keys` on the kind of a selected key: the key
   * string, the first line of the key file without its newline, or Clevis.
   */
  method YieldKey(key: Key, readLine: string -> Option<string>) returns (r: Result<MatchingKey, KeyError>)
    ensures r == Yield(key, readLine)
  {
    match key.kind {
      case KeyString(s) =>
        r := Success(MatchingKey(false, Some(s)));
      case KeyFile(name) =>
        var line := readLine(name);
        if line.None? {
          return Failure(UnreadableKeyFile(name));
        }
        r := Success(MatchingKey(false, Some(StripNewline(line.value))));
      case KeyClevis =>
        r := Success(MatchingKey(true, None));
    }
  }

  /**
   * The loop of `get_keys`: stores the matching key of each selected key
   * in `r`, advancing `match`, and returns how many it stored; an
   * unreadable key file ends it with that failure.
   */
  method StoreMatches(keys: seq<Key>, device: string, uuid: Option<string>,
                      readLine: string -> Option<string>, r: array<MatchingKey>)
    returns (res: Result<nat, KeyError>)
    requires |keys| <= r.Length
    modifies r
    ensures Scan(keys, device, uuid, readLine).Failure? ==> res == Failure(Scan(keys, device, uuid, readLine).error)
    ensures Scan(keys, device, uuid, readLine).Success? ==>
              res.Success? && res.value <= r.Length && r[..res.value] == Scan(keys, device, uuid, readLine).value
    ensures res.Success? ==> r[res.value..] == old(r[res.value..])
  {
    var nrMatches := 0;
    var i := 0;
    while i < |keys|
      invariant i <= |keys| && nrMatches <= i
      invariant Scan(keys[..i], device, uuid, readLine) == Success(r[..nrMatches])
      invariant r[nrMatches..] == old(r[nrMatches..])
    {
      var key := keys[i];
      if !Selected(key, device, uuid) {
        ScanSkips(keys, i, device, uuid, readLine);
        i := i + 1;
        continue;
      }
      var y := YieldKey(key, readLine);
      if y.Failure? {
        ScanStops(keys, i, device, uuid, readLine);
        return Failure(y.error);
      }
      ghost var before := r[..nrMatches];
      ScanExtends(keys, i, device, uuid, readLine, before);
      assert r[nrMatches..][1..] == r[nrMatches + 1..];
      r[nrMatches] := y.value;
      assert r[..nrMatches + 1] == before + [y.value];
      nrMatches := nrMatches + 1;
      i := i + 1;
    }
    assert keys[..i] == keys;
    return Success(nrMatches);
  }

  /** A key that is not selected adds nothing to the scan. */
  lemma ScanSkips(keys: seq<Key>, i: nat, device: string, uuid: Option<string>, readLine: string -> Option<string>)
    requires i < |keys| && Scan(keys[..i], device, uuid, readLine).Success? && !Selected(keys[i], device, uuid)
    ensures Scan(keys[..i + 1], device, uuid, readLine) == Scan(keys[..i], device, uuid, readLine)
  {
    ScanStep(keys, i, device, uuid, readLine);
  }

  /** A selected key whose key file cannot be read ends the whole scan with that failure. */
  lemma ScanStops(keys: seq<Key>, i: nat, device: string, uuid: Option<string>, readLine: string -> Option<string>)
    requires i < |keys| && Scan(keys[..i], device, uuid, readLine).Success? && Selected(keys[i], device, uuid)
    requires Yield(keys[i], readLine).Failure?
    ensures Scan(keys, device, uuid, readLine) == Failure(Yield(keys[i], readLine).error)
  {
    ScanStep(keys, i, device, uuid, readLine);
    ScanFailureSticks(keys, i + 1, device, uuid, readLine);
  }

  /** A selected key that yields a matching key appends it to the scan. */
  lemma ScanExtends(keys: seq<Key>, i: nat, device: string, uuid: Option<string>, readLine: string -> Option<string>,
                    ms: seq<MatchingKey>)
    requires i < |keys| && Scan(keys[..i], device, uuid, readLine) == Success(ms) && Selected(keys[i], device, uuid)
    requires Yield(keys[i], readLine).Success?
    ensures Scan(keys[..i + 1], device, uuid, readLine) == Success(ms + [Yield(keys[i], readLine).value])
  {
    ScanStep(keys, i, device, uuid, readLine);
  }

  /**
   * `get_keys`: fills an array of `max(1, nr_keys)` entries with the
   * matching keys, then asks the user when nothing matched.
   */
  method GetKeys(ks: KeyStore?, device: string, uuid: Option<string>,
                 readLine: string -> Option<string>, userKey: Option<string>)
    returns (result: Result<seq<MatchingKey>, KeyError>)
    ensures result == GetKeysOf(if ks == null then [] else ks.keys, device, uuid, readLine, userKey)
  {
    var keys := if ks == null then [] else ks.keys;
    var nmemb := 1;
    if |keys| > nmemb {
      nmemb := |keys|;
    }
    var r := new MatchingKey[nmemb];
    var stored := StoreMatches(keys, device, uuid, readLine, r);
    if stored.Failure? {
      return Failure(stored.error);
    }
    var nrMatches := stored.value;
    if nrMatches == 0 {
      if userKey.None? {
        return Failure(NoUserKey);
      }
      r[0] := MatchingKey(false, userKey);
      nrMatches := 1;
      assert r[..nrMatches] == [MatchingKey(false, userKey)];
    }
    return Success(r[..nrMatches]);
  }

  /** The keys of the store selected for the device or UUID, in store order. */
  function SelectedKeys(keys: seq<Key>, device: string, uuid: Option<string>): (r: seq<Key>)
  {
    if keys == [] then []
    else (if Selected(keys[0], device, uuid) then [keys[0]] else []) + SelectedKeys(keys[1..], device, uuid)
  }

  /** Selection distributes over concatenation. */
  lemma {:induction false} SelectedKeysAppend(a: seq<Key>, b: seq<Key>, device: string, uuid: Option<string>)
    ensures SelectedKeys(a + b, device, uuid) == SelectedKeys(a, device, uuid) + SelectedKeys(b, device, uuid)
  {
    if a != [] {
      assert (a + b)[0] == a[0] && (a + b)[1..] == a[1..] + b;
      SelectedKeysAppend(a[1..], b, device, uuid);
      var head := if Selected(a[0], device, uuid) then [a[0]] else [];
      assert SelectedKeys(a, device, uuid) == head + SelectedKeys(a[1..], device, uuid);
      assert SelectedKeys(a + b, device, uuid) == head + SelectedKeys(a[1..] + b, device, uuid);
    } else {
      assert a + b == b;
    }
  }

  /**
   * When the scan succeeds, it yields exactly one matching key per selected
   * key, in store order, each the one that key yields.
   */
  lemma {:induction false} ScanSelects(keys: seq<Key>, device: string, uuid: Option<string>, readLine: string -> Option<string>)
    requires Scan(keys, device, uuid, readLine).Success?
    ensures var ms := Scan(keys, device, uuid, readLine).value;
            var sel := SelectedKeys(keys, device, uuid);
            |ms| == |sel| && forall i :: 0 <= i < |sel| ==> Yield(sel[i], readLine) == Success(ms[i])
  {
    if keys != [] {
      var n := |keys| - 1;
      var init, last := keys[..n], keys[n];
      assert keys[..n + 1] == keys;
      ScanStep(keys, n, device, uuid, readLine);
      ScanSelects(init, device, uuid, readLine);
      var before := Scan(init, device, uuid, readLine).value;
      SelectedKeysAppend(init, [last], device, uuid);
      assert keys == init + [last];
      assert [last][1..] == [];
      var sel0 := SelectedKeys(init, device, uuid);
      if Selected(last, device, uuid) {
        assert SelectedKeys(keys, device, uuid) == sel0 + [last];
        YieldsAppend(sel0, before, last, Yield(last, readLine).value, readLine);
      } else {
        assert SelectedKeys(keys, device, uuid) == sel0;
      }
    }
  }

  /** Pairing the keys with what they yield survives appending one more key. */
  lemma YieldsAppend(sel: seq<Key>, ms: seq<MatchingKey>, key: Key, m: MatchingKey, readLine: string -> Option<string>)
    requires |ms| == |sel| && forall i :: 0 <= i < |sel| ==> Yield(sel[i], readLine) == Success(ms[i])
    requires Yield(key, readLine) == Success(m)
    ensures forall i :: 0 <= i < |sel| + 1 ==> Yield((sel + [key])[i], readLine) == Success((ms + [m])[i])
  {
    forall i | 0 <= i < |sel| + 1
      ensures Yield((sel + [key])[i], readLine) == Success((ms + [m])[i])
    {
      if i < |sel| {
        assert (sel + [key])[i] == sel[i] && (ms + [m])[i] == ms[i];
      }
    }
  }


  /** Every matching key `get_keys` returns is Clevis exactly when it has no passphrase. */
  lemma {:induction false} ScanClevisWithoutPassphrase(keys: seq<Key>, device: string, uuid: Option<string>,
                                                       readLine: string -> Option<string>)
    requires Scan(keys, device, uuid, readLine).Success?
    ensures forall m :: m in Scan(keys, device, uuid, readLine).value ==> (m.clevis <==> m.passphrase.None?)
  {
    if keys != [] {
      ScanClevisWithoutPassphrase(keys[..|keys| - 1], device, uuid, readLine);
    }
  }

  /**
   * `get_keys` returns between 1 and `max(1, nr_keys)` matching keys, each
   * Clevis exactly when it has no passphrase; when the store has matching
   * keys they are exactly the yields of the selected keys, in order.
   */
  lemma GetKeysProperties(keys: seq<Key>, device: string, uuid: Option<string>,
                          readLine: string -> Option<string>, userKey: Option<string>)
    requires GetKeysOf(keys, device, uuid, readLine, userKey).Success?
    ensures var ms := GetKeysOf(keys, device, uuid, readLine, userKey).value;
            1 <= |ms| <= if |keys| > 1 then |keys| else 1
    ensures forall m :: m in GetKeysOf(keys, device, uuid, readLine, userKey).value ==> (m.clevis <==> m.passphrase.None?)
    ensures var ms := GetKeysOf(keys, device, uuid, readLine, userKey).value;
            var sel := SelectedKeys(keys, device, uuid);
            sel != [] ==> |ms| == |sel| && forall i :: 0 <= i < |sel| ==> Yield(sel[i], readLine) == Success(ms[i])
    ensures SelectedKeys(keys, device, uuid) == [] ==>
              GetKeysOf(keys, device, uuid, readLine, userKey).value == [MatchingKey(false, userKey)]
  {
    ScanClevisWithoutPassphrase(keys, device, uuid, readLine);
    ScanSelects(keys, device, uuid, readLine);
  }

  /** A string key yields a copy of its string; a file key its first line without the newline. */
  lemma YieldPassphrase(key: Key, readLine: string -> Option<string>, line: string)
    ensures key.kind.KeyString? ==> Yield(key, readLine) == Success(MatchingKey(false, Some(key.kind.s)))
    ensures key.kind.KeyFile? && readLine(key.kind.name) == Some(line + "\n") ==>
              Yield(key, readLine) == Success(MatchingKey(false, Some(line)))
  {
    if key.kind.KeyFile? {
      assert (line + "\n")[..|line|] == line;
    }
  }
}
