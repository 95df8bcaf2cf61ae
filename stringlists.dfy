/**
 * NULL-terminated string vectors (utils/stringlists-utils.c).
 *
 * A C `char **` vector is an array of optional strings: `Some(s)` is a
 * non-NULL `char *` to the string `s`, `None` is the terminating NULL.  The strings a
 * vector holds are the entries before its first `None`, given by `Vector`.
 */
module StringLists {
  import opened Wrappers

  /** The strings of a vector: every entry before the first NULL. */
  function Vector(v: seq<Option<string>>): (r: seq<string>)
    ensures |r| <= |v|
    ensures forall i :: 0 <= i < |r| ==> v[i] == Some(r[i])
    ensures None in v ==> |r| < |v| && v[|r|] == None
  {
    if v == [] || v[0].None? then [] else [v[0].value] + Vector(v[1..])
  }

  /** An entry for each of the strings `xs`, without the terminator. */
  function Entries(xs: seq<string>): (v: seq<Option<string>>)
    ensures |v| == |xs|
    ensures forall i :: 0 <= i < |xs| ==> v[i] == Some(xs[i])
  {
    seq(|xs|, i requires 0 <= i < |xs| => Some(xs[i]))
  }

  /** The NULL-terminated vector holding exactly the strings `xs`. */
  function ToVector(xs: seq<string>): (v: seq<Option<string>>)
    ensures |v| == |xs| + 1 && v[|xs|] == None
    ensures forall i :: 0 <= i < |xs| ==> v[i] == Some(xs[i])
  {
    Entries(xs) + [None]
  }

  /** A vector built by `ToVector` gives back exactly the strings it was built from. */
  lemma VectorOfToVector(xs: seq<string>)
    ensures Vector(ToVector(xs)) == xs
  {
  }

  /** The strings `xs` separated by `sep`; the join begins with the first string. */
  function Join(sep: string, xs: seq<string>): (r: string)
    ensures |xs| > 0 ==> xs[0] <= r
  {
    if |xs| == 0 then ""
    else if |xs| == 1 then xs[0]
    else xs[0] + sep + Join(sep, xs[1..])
  }

  /** The sum of the lengths of the strings `xs`. */
  function TotalLength(xs: seq<string>): nat
  {
    if xs == [] then 0 else |xs[0]| + TotalLength(xs[1..])
  }

  /** The strings `xs` one after the other, with nothing between them. */
  function Flatten(xs: seq<string>): string
  {
    if xs == [] then "" else xs[0] + Flatten(xs[1..])
  }

  /** Appending one more string to a non-empty list appends the separator and that string. */
  lemma {:induction false} JoinSnoc(sep: string, xs: seq<string>, x: string)
    requires xs != []
    ensures Join(sep, xs + [x]) == Join(sep, xs) + sep + x
  {
    if |xs| == 1 {
      assert xs + [x] == [xs[0], x];
    } else {
      assert (xs + [x])[1..] == xs[1..] + [x];
      JoinSnoc(sep, xs[1..], x);
    }
  }

  /** The joined length is the sum of the element lengths plus one separator between each pair. */
  lemma {:induction false} JoinLength(sep: string, xs: seq<string>)
    ensures |Join(sep, xs)| == TotalLength(xs) + (if xs == [] then 0 else |sep| * (|xs| - 1))
  {
    if |xs| > 1 {
      JoinLength(sep, xs[1..]);
      assert TotalLength(xs[1..][1..]) + 0 == TotalLength(xs[2..]) by { assert xs[1..][1..] == xs[2..]; }
      assert |sep| * (|xs| - 1) == |sep| + |sep| * (|xs| - 2);
    }
  }

  /** Joining with the empty separator is plain concatenation. */
  lemma {:induction false} JoinEmptySeparator(xs: seq<string>)
    ensures Join("", xs) == Flatten(xs)
  {
    if |xs| == 1 {
      assert Flatten(xs[1..]) == "";
    } else if |xs| > 1 {
      JoinEmptySeparator(xs[1..]);
    }
  }

  /** The first `i` strings of `xs` separated by `sep`, built left to right as the join loops do. */
  ghost function JoinUpTo(sep: string, xs: seq<string>, i: nat): string
    requires i <= |xs|
    decreases i
  {
    if i == 0 then ""
    else if i == 1 then xs[0]
    else JoinUpTo(sep, xs, i - 1) + sep + xs[i - 1]
  }

  /** Built left to right, the join of a prefix is `Join` of that prefix. */
  lemma {:induction false} JoinUpToIsJoin(sep: string, xs: seq<string>, i: nat)
    requires i <= |xs|
    ensures JoinUpTo(sep, xs, i) == Join(sep, xs[..i])
    decreases i
  {
    if i >= 2 {
      JoinUpToIsJoin(sep, xs, i - 1);
      assert xs[..i] == xs[..i - 1] + [xs[i - 1]];
      JoinSnoc(sep, xs[..i - 1], xs[i - 1]);
    } else if i == 1 {
      assert xs[..1] == [xs[0]];
    }
  }

  /** A prefix of the list never joins to something longer than the whole list. */
  lemma {:induction false} JoinUpToShorter(sep: string, xs: seq<string>, i: nat)
    requires i <= |xs|
    ensures |JoinUpTo(sep, xs, i)| <= |JoinUpTo(sep, xs, |xs|)|
    decreases |xs| - i
  {
    if i < |xs| {
      JoinUpToShorter(sep, xs, i + 1);
    }
  }

  /** Index of the first NULL entry (`guestfs_int_count_strings`). */
  method CountStrings(argv: array<Option<string>>) returns (r: nat)
    requires None in argv[..]
    ensures r < argv.Length && argv[r] == None
    ensures forall k :: 0 <= k < r ==> argv[k] != None
    ensures r == |Vector(argv[..])|
  {
    r := 0;
    while argv[r] != None
      invariant r < argv.Length && None in argv[r..]
      invariant forall k :: 0 <= k < r ==> argv[k] != None
      decreases argv.Length - r
    {
      assert argv[r..][0] != None;
      assert argv[r + 1..] == argv[r..][1..];
      r := r + 1;
    }
  }

  /** A fresh vector with the same strings (`guestfs_int_copy_string_list`). */
  method CopyStringList(argv: array<Option<string>>) returns (ret: array<Option<string>>)
    requires None in argv[..]
    ensures fresh(ret)
    ensures ret[..] == ToVector(Vector(argv[..]))
  {
    var n := CountStrings(argv);
    ghost var xs := Vector(argv[..]);
    ret := new Option<string>[n + 1];
    ret[n] := None;
    var i := 0;
    while i < n
      invariant i <= n && ret[n] == None
      invariant forall k :: 0 <= k < i ==> ret[k] == Some(xs[k])
    {
      var p := argv[i];
      assert p == Some(xs[i]);
      ret[i] := p;
      i := i + 1;
    }
    EntriesThenNull(ret[..], xs);
    assert argv[..] == old(argv[..]);
  }

  /** Copies `src` into `dst` at offset `at`, leaving the rest of `dst` alone (`memcpy`). */
  method CopyInto(dst: array<char>, at: nat, src: string)
    requires at + |src| <= dst.Length
    modifies dst
    ensures dst[..at + |src|] == old(dst[..at]) + src
    ensures dst[at + |src|..] == old(dst[at + |src|..])
  {
    var k := 0;
    while k < |src|
      invariant k <= |src|
      invariant dst[..at + k] == old(dst[..at]) + src[..k]
      invariant forall j :: at + |src| <= j < dst.Length ==> dst[j] == old(dst[j])
    {
      dst[at + k] := src[k];
      assert src[..k + 1] == src[..k] + [src[k]];
      k := k + 1;
    }
    assert src[..k] == src;
  }

  /**
   * One turn of the filling pass of `guestfs_int_join_strings`: the
   * separator unless this is the first string, then the string itself.
   */
  method PutJoined(buf: array<char>, at: nat, sep: string, s: string, first: bool) returns (next: nat)
    requires at + (if first then 0 else |sep|) + |s| <= buf.Length
    modifies buf
    ensures next == at + (if first then 0 else |sep|) + |s|
    ensures buf[..next] == old(buf[..at]) + (if first then "" else sep) + s
    ensures buf[next..] == old(buf[next..])
  {
    next := at;
    if !first {
      CopyInto(buf, next, sep);
      next := next + |sep|;
    }
    CopyInto(buf, next, s);
    next := next + |s|;
  }

  /**
   * The strings of `argv` separated by `sep` (`guestfs_int_join_strings`): a
   * first pass sizes the buffer, a second fills it.
   */
  method JoinStrings(sep: string, argv: array<Option<string>>) returns (r: string)
    requires None in argv[..]
    ensures r == Join(sep, Vector(argv[..]))
    ensures var xs := Vector(argv[..]);
      |r| == TotalLength(xs) + (if xs == [] then 0 else |sep| * (|xs| - 1))
  {
    var len := JoinedSize(sep, argv);
    var buf := new char[len + 1];
    var rlen := FillJoined(sep, argv, buf);
    r := buf[..rlen];
    buf[rlen] := '\0';
    JoinLength(sep, Vector(argv[..]));
  }

  /** The first pass of `guestfs_int_join_strings`: the length of the joined string. */
  method JoinedSize(sep: string, argv: array<Option<string>>) returns (len: nat)
    requires None in argv[..]
    ensures len == |Join(sep, Vector(argv[..]))|
  {
    ghost var xs := Vector(argv[..]);
    len := 0;
    var i := 0;
    while argv[i] != None
      invariant i <= |xs|
      invariant len == |JoinUpTo(sep, xs, i)|
      decreases |xs| - i
    {
      var s := argv[i].value;
      assert s == xs[i];
      if i > 0 {
        len := len + |sep|;
      }
      len := len + |s|;
      i := i + 1;
    }
    JoinUpToIsJoin(sep, xs, i);
    assert xs[..i] == xs;
  }

  /** Two sequences that agree from `p` on agree from any later `q` on. */
  lemma SameTail<T>(a: seq<T>, b: seq<T>, p: nat, q: nat)
    requires p <= q <= |a| && |a| == |b| && a[p..] == b[p..]
    ensures a[q..] == b[q..]
  {
    assert a[q..] == a[p..][q - p..];
    assert b[q..] == b[p..][q - p..];
  }

  /** The second pass of `guestfs_int_join_strings`: writes the joined string into `buf`. */
  method FillJoined(sep: string, argv: array<Option<string>>, buf: array<char>) returns (rlen: nat)
    requires None in argv[..]
    requires |Join(sep, Vector(argv[..]))| < buf.Length
    modifies buf
    ensures rlen == |Join(sep, Vector(argv[..]))|
    ensures buf[..rlen] == Join(sep, Vector(argv[..]))
    ensures buf[rlen..] == old(buf[rlen..])
  {
    ghost var xs := Vector(argv[..]);
    JoinUpToIsJoin(sep, xs, |xs|);
    assert xs[..|xs|] == xs;
    ghost var total := |JoinUpTo(sep, xs, |xs|)|;
    rlen := 0;
    var i := 0;
    while argv[i] != None
      invariant i <= |xs|
      invariant rlen == |JoinUpTo(sep, xs, i)| && rlen <= total
      invariant buf[..rlen] == JoinUpTo(sep, xs, i)
      invariant buf[rlen..] == old(buf[rlen..])
      decreases |xs| - i
    {
      var s := argv[i].value;
      assert s == xs[i];
      JoinUpToShorter(sep, xs, i + 1);
      ghost var before := buf[..];
      var next := PutJoined(buf, rlen, sep, s, i == 0);
      SameTail(before, old(buf[..]), rlen, next);
      assert JoinUpTo(sep, xs, i + 1) == JoinUpTo(sep, xs, i) + (if i == 0 then "" else sep) + s;
      rlen := next;
      i := i + 1;
    }
  }

  /** The strings of `argv` run together (`guestfs_int_concat_strings`). */
  method ConcatStrings(argv: array<Option<string>>) returns (r: string)
    requires None in argv[..]
    ensures r == Flatten(Vector(argv[..]))
  {
    r := JoinStrings("", argv);
    JoinEmptySeparator(Vector(argv[..]));
  }

  /** Length of the initial run of `s` free of `sep` (`strcspn` with the reject set {sep}). */
  function Cspn(s: string, sep: char): (c: nat)
    ensures c <= |s|
  {
    if s == [] || s[0] == sep then 0 else 1 + Cspn(s[1..], sep)
  }

  /** The scanned run holds no `sep`, and the scan stops only at a `sep` or at the end. */
  lemma {:induction false} CspnStops(s: string, sep: char)
    ensures sep !in s[..Cspn(s, sep)]
    ensures Cspn(s, sep) < |s| ==> s[Cspn(s, sep)] == sep
  {
    if s != [] && s[0] != sep {
      CspnStops(s[1..], sep);
      assert s[..Cspn(s, sep)] == [s[0]] + s[1..][..Cspn(s[1..], sep)];
    }
  }

  /** The fields of `s` between occurrences of `sep`; the empty string has one empty field. */
  function Fields(sep: char, s: string): (r: seq<string>)
    ensures |r| >= 1
    decreases |s|
  {
    var c := Cspn(s, sep);
    if c == |s| then [s] else [s[..c]] + Fields(sep, s[c + 1..])
  }

  /** What `guestfs_int_split_string` returns: no fields at all exactly for the empty string. */
  function Split(sep: char, s: string): (r: seq<string>)
    ensures r == [] <==> s == ""
  {
    if s == "" then [] else Fields(sep, s)
  }

  /** There is one field more than there are separators. */
  lemma {:induction false} FieldsCount(sep: char, s: string)
    ensures |Fields(sep, s)| == 1 + multiset(s)[sep]
    decreases |s|
  {
    var c := Cspn(s, sep);
    CspnStops(s, sep);
    if c == |s| {
      assert s[..c] == s;
    } else {
      FieldsCount(sep, s[c + 1..]);
      assert s == s[..c] + [sep] + s[c + 1..];
      assert sep !in s[..c];
    }
  }

  /** No field contains the separator. */
  lemma {:induction false} FieldsHaveNoSeparator(sep: char, s: string)
    ensures forall f :: f in Fields(sep, s) ==> sep !in f
    decreases |s|
  {
    var c := Cspn(s, sep);
    CspnStops(s, sep);
    if c < |s| {
      FieldsHaveNoSeparator(sep, s[c + 1..]);
    } else {
      assert s[..c] == s;
    }
  }

  /** Joining the fields with the separator gives back the string. */
  lemma {:induction false} JoinFields(sep: char, s: string)
    ensures Join([sep], Fields(sep, s)) == s
    decreases |s|
  {
    var c := Cspn(s, sep);
    CspnStops(s, sep);
    if c < |s| {
      var rest := Fields(sep, s[c + 1..]);
      JoinFields(sep, s[c + 1..]);
      assert Fields(sep, s)[1..] == rest;
      assert s == s[..c] + [sep] + s[c + 1..];
    }
  }

  /** Splitting a separator-joined list whose parts hold no separator gives back the parts. */
  lemma {:induction false} FieldsOfJoin(sep: char, parts: seq<string>)
    requires parts != []
    requires forall p :: p in parts ==> sep !in p
    ensures Fields(sep, Join([sep], parts)) == parts
    decreases |parts|
  {
    if |parts| == 1 {
      CspnOfFree(parts[0], sep);
    } else {
      var tail := Join([sep], parts[1..]);
      FieldsOfJoin(sep, parts[1..]);
      FieldsCons(sep, parts[0], tail);
      assert parts == [parts[0]] + parts[1..];
    }
  }

  /** A separator-free field followed by the separator splits off as the first field. */
  lemma FieldsCons(sep: char, a: string, b: string)
    requires sep !in a
    ensures Fields(sep, a + [sep] + b) == [a] + Fields(sep, b)
  {
    var s := a + [sep] + b;
    assert s == a + ([sep] + b);
    CspnStopsAt(a, [sep] + b, sep);
    assert s[..|a|] == a;
    assert s[|a| + 1..] == b;
  }

  /** A string free of `sep` is scanned to its end. */
  lemma {:induction false} CspnOfFree(s: string, sep: char)
    requires sep !in s
    ensures Cspn(s, sep) == |s|
  {
    if s != [] {
      assert s[0] in s;
      CspnOfFree(s[1..], sep);
    }
  }

  /** The scan of `a + b` stops at the end of `a` when `a` is free of `sep` and `b` starts with it. */
  lemma {:induction false} CspnStopsAt(a: string, b: string, sep: char)
    requires sep !in a && b != [] && b[0] == sep
    ensures Cspn(a + b, sep) == |a|
  {
    if a != [] {
      assert a[0] in a;
      assert (a + b)[1..] == a[1..] + b;
      CspnStopsAt(a[1..], b, sep);
    }
  }

  /** `split_string` and `join_strings` with the one-character separator are inverse on strings. */
  lemma SplitJoinRoundTrip(sep: char, s: string)
    ensures Join([sep], Split(sep, s)) == s
  {
    if s != "" {
      JoinFields(sep, s);
    }
  }

  /** For a non-empty string, one field per separator plus one, none holding a separator. */
  lemma SplitShape(sep: char, s: string)
    requires s != ""
    ensures |Split(sep, s)| == 1 + multiset(s)[sep]
    ensures forall f :: f in Split(sep, s) ==> sep !in f
  {
    FieldsCount(sep, s);
    FieldsHaveNoSeparator(sep, s);
  }

  /** The examples of the function's documentation, with ':' as separator. */
  lemma SplitExamples()
    ensures Split(':', "") == []
    ensures Split(':', "abc") == ["abc"]
    ensures Split(':', ":") == ["", ""]
  {
    assert Cspn("abc", ':') == 3;
    assert Cspn(":", ':') == 0;
    assert ":"[1..] == "";
  }

  /** A vector whose first entries hold `xs` and whose last entry is NULL is `ToVector(xs)`. */
  lemma EntriesThenNull(v: seq<Option<string>>, xs: seq<string>)
    requires |v| == |xs| + 1 && v[|xs|] == None
    requires forall k :: 0 <= k < |xs| ==> v[k] == Some(xs[k])
    ensures v == ToVector(xs)
  {
  }

  /** The number of occurrences of `sep` in `str` (the sizing pass of the split). */
  method CountSeparators(sep: char, str: string) returns (n: nat)
    ensures n == multiset(str)[sep]
  {
    n := 0;
    var i := 0;
    while i < |str|
      invariant i <= |str|
      invariant n == multiset(str[..i])[sep]
    {
      assert str[..i + 1] == str[..i] + [str[i]];
      if str[i] == sep {
        n := n + 1;
      }
      i := i + 1;
    }
    assert str[..i] == str;
  }

  /** Where the field of `str` that starts at `i` ends: `i` plus `strcspn(&str[i], sep)`. */
  function FieldEnd(str: string, i: nat, sep: char): (e: nat)
    requires i <= |str|
    ensures i <= e <= |str|
    decreases |str| - i
  {
    if i == |str| || str[i] == sep then i else FieldEnd(str, i + 1, sep)
  }

  /** The fields of `str` from offset `i` on, found by offsets rather than by suffixes. */
  ghost function FieldsFrom(sep: char, str: string, i: nat): seq<string>
    requires i <= |str|
    decreases |str| - i
  {
    var e := FieldEnd(str, i, sep);
    if e == |str| then [str[i..]] else [str[i..e]] + FieldsFrom(sep, str, e + 1)
  }

  /** The field end found by offsets is the one `Cspn` scans to. */
  lemma {:induction false} FieldEndIsCspn(str: string, i: nat, sep: char)
    requires i <= |str|
    ensures FieldEnd(str, i, sep) == i + Cspn(str[i..], sep)
    decreases |str| - i
  {
    if i < |str| && str[i] != sep {
      FieldEndIsCspn(str, i + 1, sep);
      assert str[i..][1..] == str[i + 1..];
    }
  }

  /** The fields found by offsets are the fields of the suffix. */
  lemma {:induction false} FieldsFromIsFields(sep: char, str: string, i: nat)
    requires i <= |str|
    ensures FieldsFrom(sep, str, i) == Fields(sep, str[i..])
    decreases |str| - i
  {
    var e := FieldEnd(str, i, sep);
    FieldEndIsCspn(str, i, sep);
    var rest := str[i..];
    assert Fields(sep, rest) == if e == |str| then [rest] else [rest[..e - i]] + Fields(sep, rest[e - i + 1..]);
    if e == |str| {
      assert str[i..e] == rest;
    } else {
      assert rest[..e - i] == str[i..e] && rest[e - i + 1..] == str[e + 1..];
      FieldsFromIsFields(sep, str, e + 1);
    }
  }

  /** One turn of the filling loop: the field it stores and the fields still to come. */
  lemma FieldsFromStep(sep: char, str: string, i: nat, c: nat, fields: seq<string>, stored: seq<string>)
    requires i <= |str| && c == FieldEnd(str, i, sep) - i
    requires fields == stored + FieldsFrom(sep, str, i)
    ensures i + c <= |str| && |stored| < |fields|
    ensures i + c == |str| ==> fields == stored + [str[i..i + c]]
    ensures i + c < |str| ==> fields == (stored + [str[i..i + c]]) + FieldsFrom(sep, str, i + c + 1)
  {
    if i + c == |str| {
      assert str[i..i + c] == str[i..];
    }
  }

  /**
   * The filling pass of the split: stores each field of `str` in turn into
   * `ret`, which has room for the fields and the NULL.  The loop guard
   * `i <= len` of `guestfs_int_split_string` always holds; the loop leaves at the field that ends
   * the string.
   */
  method StoreFields(sep: char, str: string, ret: array<Option<string>>)
    requires ret.Length == |FieldsFrom(sep, str, 0)| + 1 && ret[ret.Length - 1] == None
    modifies ret
    ensures ret[..] == ToVector(FieldsFrom(sep, str, 0))
  {
    ghost var fields := FieldsFrom(sep, str, 0);
    var n, i := 0, 0;
    ghost var stored: seq<string> := [];
    while true
      invariant i <= |str|
      invariant n == |stored| && ret[|fields|] == None
      invariant fields == stored + FieldsFrom(sep, str, i)
      invariant forall k :: 0 <= k < n ==> ret[k] == Some(stored[k])
      decreases |str| - i
    {
      var c := FieldEnd(str, i, sep) - i;
      var field := str[i..i + c];
      FieldsFromStep(sep, str, i, c, fields, stored);
      ret[n] := Some(field);
      stored := stored + [field];
      n := n + 1;
      if i + c == |str| {
        break;
      }
      i := i + c + 1;
    }
    EntriesThenNull(ret[..], fields);
  }

  /** Splits `str` at every `sep` into a fresh vector (`guestfs_int_split_string`). */
  method SplitString(sep: char, str: string) returns (ret: array<Option<string>>)
    ensures fresh(ret)
    ensures ret[..] == ToVector(Split(sep, str))
  {
    if str == "" {
      ret := new Option<string>[1];
      ret[0] := None;
      assert ret[..] == ToVector([]);
      return;
    }
    var n := CountSeparators(sep, str);
    FieldsCount(sep, str);
    ret := new Option<string>[n + 2];
    ret[n + 1] := None;
    FieldsFromIsFields(sep, str, 0);
    assert str[0..] == str;
    StoreFields(sep, str, ret);
  }
}
